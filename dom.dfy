/**
  The part of the page the validator touches, as plain data: a parent element's
  children in order, the feedback nodes among them, and a field's two marker
  classes, and the queries for the first feedback node and the first field
  marked invalid.
*/
module Dom {
  import opened Wrappers
  import opened Validation

  /** A child of a field's parent: either a `.invalid-feedback` node, whose
      text is `Message(reason)` for the rule that failed, or some other element
      (the field itself, a label, ...). */
  datatype Node = Feedback(reason: Failure) | Element(name: string)

  predicate IsFeedback(n: Node) {
    n.Feedback?
  }

  /** parent.querySelector('.invalid-feedback'): the position of the first
      feedback node among the children, in document order. */
  function FirstFeedback(cs: seq<Node>): (r: Option<nat>)
    ensures r.Some? ==> r.value < |cs| && IsFeedback(cs[r.value])
    ensures r.Some? ==> forall k | 0 <= k < r.value :: !IsFeedback(cs[k])
    ensures r.None? ==> forall k | 0 <= k < |cs| :: !IsFeedback(cs[k])
  {
    if cs == [] then None
    else if IsFeedback(cs[0]) then Some(0)
    else match FirstFeedback(cs[1..])
      case None => None
      case Some(i) => Some(i + 1)
  }

  function CountFeedback(cs: seq<Node>): nat {
    if cs == [] then 0
    else (if IsFeedback(cs[0]) then 1 else 0) + CountFeedback(cs[1..])
  }

  /** The children that are not feedback nodes, in order. */
  function Others(cs: seq<Node>): seq<Node> {
    if cs == [] then []
    else (if IsFeedback(cs[0]) then [] else [cs[0]]) + Others(cs[1..])
  }

  /** removeFieldFeedback on the parent's children: the first feedback node,
      if there is one, is taken out and nothing else moves. */
  function RemoveFirstFeedback(cs: seq<Node>): (r: seq<Node>)
    ensures FirstFeedback(cs) == None ==> r == cs
    ensures FirstFeedback(cs).Some? ==>
      var i := FirstFeedback(cs).value; r == cs[..i] + cs[i + 1..]
  {
    if cs == [] then []
    else if IsFeedback(cs[0]) then cs[1..]
    else [cs[0]] + RemoveFirstFeedback(cs[1..])
  }

  /** showFieldFeedback on the parent's children: remove the first feedback
      node, then append a new one holding the message of `reason`. */
  function ShowFeedback(cs: seq<Node>, reason: Failure): seq<Node> {
    RemoveFirstFeedback(cs) + [Feedback(reason)]
  }

  lemma {:induction false} CountAppend(a: seq<Node>, b: seq<Node>)
    ensures CountFeedback(a + b) == CountFeedback(a) + CountFeedback(b)
    ensures Others(a + b) == Others(a) + Others(b)
  {
    if a == [] {
      assert a + b == b;
    } else {
      assert (a + b)[1..] == a[1..] + b;
      CountAppend(a[1..], b);
    }
  }

  /** A sequence has no feedback node exactly when its feedback count is zero. */
  lemma {:induction false} NoFeedbackIff(cs: seq<Node>)
    ensures CountFeedback(cs) == 0 <==> FirstFeedback(cs) == None
  {
    if cs != [] {
      NoFeedbackIff(cs[1..]);
      if !IsFeedback(cs[0]) && FirstFeedback(cs[1..]).Some? {
        assert FirstFeedback(cs).Some?;
      }
    }
  }

  /** Removing takes away exactly one feedback node when there is one, and
      leaves every other child in place and in order. */
  lemma {:induction false} RemoveFirstFeedbackCounts(cs: seq<Node>)
    ensures CountFeedback(RemoveFirstFeedback(cs)) ==
            if CountFeedback(cs) == 0 then 0 else CountFeedback(cs) - 1
    ensures Others(RemoveFirstFeedback(cs)) == Others(cs)
  {
    if cs != [] && !IsFeedback(cs[0]) {
      var rest := RemoveFirstFeedback(cs[1..]);
      RemoveFirstFeedbackCounts(cs[1..]);
      CountAppend([cs[0]], rest);
      assert [cs[0]][1..] == [];
    }
  }

  /** After showing feedback the parent's last child is the new feedback node,
      the number of feedback nodes is one if there was none and unchanged
      otherwise (a node is replaced, never duplicated), and every other child
      is kept in order. */
  lemma ShowFeedbackCounts(cs: seq<Node>, reason: Failure)
    ensures var r := ShowFeedback(cs, reason);
      && |r| > 0 && r[|r| - 1] == Feedback(reason)
      && CountFeedback(r) == (if CountFeedback(cs) == 0 then 1 else CountFeedback(cs))
      && Others(r) == Others(cs)
  {
    RemoveFirstFeedbackCounts(cs);
    CountAppend(RemoveFirstFeedback(cs), [Feedback(reason)]);
    assert [Feedback(reason)][1..] == [];
  }

  /** With at most one feedback node to begin with, removing it is idempotent. */
  lemma RemoveFirstFeedbackIdempotent(cs: seq<Node>)
    requires CountFeedback(cs) <= 1
    ensures RemoveFirstFeedback(RemoveFirstFeedback(cs)) == RemoveFirstFeedback(cs)
    ensures CountFeedback(RemoveFirstFeedback(cs)) == 0
  {
    RemoveFirstFeedbackCounts(cs);
    NoFeedbackIff(RemoveFirstFeedback(cs));
  }

  /** With at most one feedback node to begin with, showing the same message
      twice leaves the children as showing it once. */
  lemma ShowFeedbackIdempotent(cs: seq<Node>, reason: Failure)
    requires CountFeedback(cs) <= 1
    ensures ShowFeedback(ShowFeedback(cs, reason), reason) == ShowFeedback(cs, reason)
  {
    var r := RemoveFirstFeedback(cs);
    RemoveFirstFeedbackIdempotent(cs);
    NoFeedbackIff(r);
    var shown := r + [Feedback(reason)];
    assert FirstFeedback(shown) == Some(|r|) by {
      assert IsFeedback(shown[|r|]);
      assert forall k | 0 <= k < |r| :: shown[k] == r[k];
    }
    assert shown[..|r|] + shown[|r| + 1..] == r;
  }

  /** The two marker classes of a field: `is-valid` and `is-invalid`. */
  datatype Marks = Marks(valid: bool, invalid: bool)

  /** form.querySelector('.is-invalid'): the position of the first field, in
      document order, that carries the `is-invalid` marker. */
  function FirstInvalid(ms: seq<Marks>): (r: Option<nat>)
    ensures r.Some? ==> r.value < |ms| && ms[r.value].invalid
    ensures r.Some? ==> forall k | 0 <= k < r.value :: !ms[k].invalid
    ensures r.None? ==> forall k | 0 <= k < |ms| :: !ms[k].invalid
  {
    if ms == [] then None
    else if ms[0].invalid then Some(0)
    else match FirstInvalid(ms[1..])
      case None => None
      case Some(i) => Some(i + 1)
  }

  /** The markers validateField leaves: each branch removes one class and adds
      the other. */
  function MarksAfter(isValid: bool): (m: Marks)
    ensures m.valid != m.invalid
    ensures m.invalid <==> !isValid
  {
    if isValid then Marks(true, false) else Marks(false, true)
  }

  /** The parent's children after validateField with decision `d` (`None` is
      "valid"). */
  function ChildrenAfter(cs: seq<Node>, d: Option<Failure>): seq<Node> {
    match d
    case None => RemoveFirstFeedback(cs)
    case Some(f) => ShowFeedback(cs, f)
  }

  /** Starting from at most one feedback node, validateField leaves exactly one
      when it refuses the value (the last child, holding the message) and none
      when it accepts it. */
  lemma ChildrenAfterCount(cs: seq<Node>, d: Option<Failure>)
    requires CountFeedback(cs) <= 1
    ensures CountFeedback(ChildrenAfter(cs, d)) == if d.None? then 0 else 1
    ensures Others(ChildrenAfter(cs, d)) == Others(cs)
  {
    RemoveFirstFeedbackCounts(cs);
    if d.Some? {
      ShowFeedbackCounts(cs, d.value);
    }
  }

  /** A refusal leaves the feedback node holding its reason as the parent's
      last child. */
  lemma ChildrenAfterShape(cs: seq<Node>, d: Option<Failure>)
    ensures d.Some? ==>
      var r := ChildrenAfter(cs, d); |r| > 0 && r[|r| - 1] == Feedback(d.value)
  {
    if d.Some? {
      ShowFeedbackCounts(cs, d.value);
    }
  }

  /** Validating an unchanged field a second time changes nothing: the same
      decision, the same markers, the same children. */
  lemma ChildrenAfterIdempotent(cs: seq<Node>, d: Option<Failure>)
    requires CountFeedback(cs) <= 1
    ensures ChildrenAfter(ChildrenAfter(cs, d), d) == ChildrenAfter(cs, d)
    ensures CountFeedback(ChildrenAfter(cs, d)) <= 1
  {
    ChildrenAfterCount(cs, d);
    match d
    case None => RemoveFirstFeedbackIdempotent(cs);
    case Some(f) => ShowFeedbackIdempotent(cs, f);
  }
}
