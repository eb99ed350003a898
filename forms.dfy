/**
  The form-validation handlers: validateField with its feedback helpers, the
  blur and input listeners of every form control, and the submit listener of
  every form. A form is its fields in document order; each field names the
  position of its parent element, whose children are held in `parents`.
*/
module Forms {
  import opened Wrappers
  import opened Validation
  import opened Dom
  import Text

  class Form {
    var fields: seq<Field>
    var marks: seq<Marks>
    var parentOf: seq<nat>
    var parents: seq<seq<Node>>

    constructor (fields: seq<Field>, marks: seq<Marks>, parentOf: seq<nat>, parents: seq<seq<Node>>)
      requires WellFormed(fields, marks, parentOf, parents)
      ensures WellFormed(this.fields, this.marks, this.parentOf, this.parents)
      ensures this.fields == fields && this.marks == marks
      ensures this.parentOf == parentOf && this.parents == parents
    {
      this.fields := fields;
      this.marks := marks;
      this.parentOf := parentOf;
      this.parents := parents;
    }

    /** removeFieldFeedback: the first feedback node under the field's parent
        is removed, if there is one. */
    method RemoveFieldFeedback(i: nat)
      requires WellFormed(fields, marks, parentOf, parents) && i < |fields|
      modifies this
      ensures WellFormed(fields, marks, parentOf, parents)
      ensures fields == old(fields) && marks == old(marks) && parentOf == old(parentOf)
      ensures parents == old(parents)[parentOf[i] := RemoveFirstFeedback(old(parents)[parentOf[i]])]
    {
      var p := parentOf[i];
      parents := parents[p := RemoveFirstFeedback(parents[p])];
    }

    /** showFieldFeedback: remove the old feedback node, then append a new one
        holding the message of `reason` to the field's parent. */
    method ShowFieldFeedback(i: nat, reason: Failure)
      requires WellFormed(fields, marks, parentOf, parents) && i < |fields|
      modifies this
      ensures WellFormed(fields, marks, parentOf, parents)
      ensures fields == old(fields) && marks == old(marks) && parentOf == old(parentOf)
      ensures parents == old(parents)[parentOf[i] := ShowFeedback(old(parents)[parentOf[i]], reason)]
    {
      RemoveFieldFeedback(i);
      var p := parentOf[i];
      parents := parents[p := parents[p] + [Feedback(reason)]];
    }

    /** validateField: decide, set exactly one marker, and show or remove the
        feedback node. It returns whether the field was accepted. */
    method ValidateField(i: nat) returns (isValid: bool)
      requires WellFormed(fields, marks, parentOf, parents) && i < |fields|
      modifies this
      ensures fields == old(fields) && parentOf == old(parentOf)
      ensures WellFormed(fields, marks, parentOf, parents)
      ensures isValid == DecisionOf(fields, i).None?
      ensures marks == old(marks)[i := MarksAfter(isValid)]
      ensures parents ==
        old(parents)[parentOf[i] := ChildrenAfter(old(parents)[parentOf[i]], DecisionOf(fields, i))]
    {
      var p := parentOf[i];
      var d := Decide(fields[i]);
      isValid := d.None?;
      if isValid {
        marks := marks[i := marks[i].(invalid := false)];
        marks := marks[i := marks[i].(valid := true)];
        RemoveFieldFeedback(i);
      } else {
        marks := marks[i := marks[i].(valid := false)];
        marks := marks[i := marks[i].(invalid := true)];
        ShowFieldFeedback(i, d.value);
      }
    }

    /** validateField run twice on an unchanged field, starting from at most
        one feedback node under its parent: both runs return the same value,
        and the form ends as the first run left it, with at most one feedback
        node under the parent. */
    method ValidateFieldTwice(i: nat) returns (first: bool, second: bool)
      requires WellFormed(fields, marks, parentOf, parents) && i < |fields|
      requires CountFeedback(parents[parentOf[i]]) <= 1
      modifies this
      ensures WellFormed(fields, marks, parentOf, parents)
      ensures fields == old(fields) && parentOf == old(parentOf)
      ensures first == second
      ensures marks == old(marks)[i := MarksAfter(first)]
      ensures parents ==
        old(parents)[parentOf[i] := ChildrenAfter(old(parents)[parentOf[i]], DecisionOf(fields, i))]
      ensures CountFeedback(parents[parentOf[i]]) <= 1
    {
      ChildrenAfterIdempotent(parents[parentOf[i]], DecisionOf(fields, i));
      first := ValidateField(i);
      second := ValidateField(i);
    }

    /** The blur listener of a form control. */
    method OnBlur(i: nat)
      requires WellFormed(fields, marks, parentOf, parents) && i < |fields|
      modifies this
      ensures WellFormed(fields, marks, parentOf, parents)
      ensures fields == old(fields) && parentOf == old(parentOf)
      ensures marks == old(marks)[i := MarksAfter(DecisionOf(fields, i).None?)]
      ensures parents ==
        old(parents)[parentOf[i] := ChildrenAfter(old(parents)[parentOf[i]], DecisionOf(fields, i))]
      ensures Separate(parentOf) && old(ConsistentState(fields, marks, parentOf, parents)) ==> ConsistentState(fields, marks, parentOf, parents)
    {
      var _ := ValidateField(i);
      if Separate(parentOf) && ConsistentState(fields, old(marks), parentOf, old(parents)) {
        ValidateFieldKeepsConsistent(fields, old(marks), parentOf, old(parents), i, DecisionOf(fields, i));
      }
    }

    /** The input listener of a form control, after the browser has stored the
        typed `value`: it drops `is-invalid` and the first feedback node, and
        neither re-validates nor touches `is-valid`. */
    method OnInput(i: nat, value: string)
      requires WellFormed(fields, marks, parentOf, parents) && i < |fields|
      modifies this
      ensures WellFormed(fields, marks, parentOf, parents)
      ensures fields == old(fields)[i := old(fields)[i].(value := value)]
      ensures parentOf == old(parentOf)
      ensures marks == old(marks)[i := Marks(old(marks)[i].valid, false)]
      ensures parents == old(parents)[parentOf[i] := RemoveFirstFeedback(old(parents)[parentOf[i]])]
      ensures Separate(parentOf) && old(ConsistentState(fields, marks, parentOf, parents)) ==> ConsistentState(fields, marks, parentOf, parents)
    {
      ghost var before := parents;
      ghost var marksBefore := marks;
      ghost var fieldsBefore := fields;
      fields := fields[i := fields[i].(value := value)];
      marks := marks[i := marks[i].(invalid := false)];
      RemoveFieldFeedback(i);
      if Separate(parentOf) && ConsistentState(fieldsBefore, marksBefore, parentOf, before) {
        InputKeepsConsistent(fieldsBefore, marksBefore, parentOf, before, i, value);
      }
    }

    /** The submit listener: every required field is validated, with no early
        exit; submission is cancelled exactly when one of them was refused, and
        then focus goes to the first field in document order that carries
        `is-invalid`, which may be a field that is not required but was
        refused earlier on blur. The markers and children it leaves are those
        of SubmitMarks and SubmitParents, which SubmitMarksOutcome,
        SubmitParentsOutcome and SubmitSeparateOutcome describe field by field. */
    method OnSubmit() returns (prevented: bool, focused: Option<nat>)
      requires WellFormed(fields, marks, parentOf, parents)
      modifies this
      ensures fields == old(fields) && parentOf == old(parentOf) && WellFormed(fields, marks, parentOf, parents)
      ensures prevented <==>
        exists j | 0 <= j < |fields| :: fields[j].required && DecisionOf(fields, j).Some?
      ensures marks == SubmitMarks(old(marks), fields, Decisions(fields), |fields|)
      ensures parents == SubmitParents(old(parents), parentOf, fields, Decisions(fields), |fields|)
      ensures focused == if prevented then FirstInvalid(marks) else None
      ensures prevented ==> focused.Some?
      ensures Separate(parentOf) && old(ConsistentState(fields, marks, parentOf, parents)) ==> ConsistentState(fields, marks, parentOf, parents)
    {
      var isValid := ValidateRequiredFields();
      SubmitValidOutcome(fields);
      if Separate(parentOf) && old(ConsistentState(fields, marks, parentOf, parents)) {
        SubmitKeepsConsistent(fields, old(marks), parentOf, old(parents), Decisions(fields));
      }
      prevented := !isValid;
      focused := None;
      if prevented {
        SubmitFocusOutcome(old(marks), fields);
        focused := FirstInvalid(marks);
      }
    }

    /** The loop of the submit listener: validateField on each required field
        in document order, with no early exit; `isValid` ends false when any
        of them was refused. The new state is the one SubmitMarks and
        SubmitParents describe; OnSubmit states it field by field. */
    method ValidateRequiredFields() returns (isValid: bool)
      requires WellFormed(fields, marks, parentOf, parents)
      modifies this
      ensures fields == old(fields) && parentOf == old(parentOf) && WellFormed(fields, marks, parentOf, parents)
      ensures isValid == RequiredValid(fields, Decisions(fields), |fields|)
      ensures marks == SubmitMarks(old(marks), fields, Decisions(fields), |fields|)
      ensures parents == SubmitParents(old(parents), parentOf, fields, Decisions(fields), |fields|)
    {
      ghost var ds := Decisions(fields);
      isValid := true;
      var k := 0;
      while k < |fields|
        invariant WellFormed(fields, marks, parentOf, parents) && 0 <= k <= |fields|
        invariant fields == old(fields) && parentOf == old(parentOf) && ds == Decisions(fields)
        invariant isValid == RequiredValid(fields, ds, k)
        invariant marks == SubmitMarks(old(marks), fields, ds, k)
        invariant parents == SubmitParents(old(parents), parentOf, fields, ds, k)
      {
        if fields[k].required {
          var ok := ValidateField(k);
          if !ok {
            isValid := false;
          }
        }
        k := k + 1;
      }
    }
  }

  /** The shape the handlers rely on: every field has markers and a parent
      that exists. */
  predicate WellFormed(fs: seq<Field>, ms: seq<Marks>, parentOf: seq<nat>, ps: seq<seq<Node>>) {
    && |ms| == |fs|
    && |parentOf| == |fs|
    && forall i | 0 <= i < |parentOf| :: parentOf[i] < |ps|
  }

  /** No two fields share a parent element. */
  predicate Separate(parentOf: seq<nat>) {
    forall i, j | 0 <= i < |parentOf| && 0 <= j < |parentOf| && i != j :: parentOf[i] != parentOf[j]
  }

  predicate HostsRequiredField(fs: seq<Field>, parentOf: seq<nat>, g: nat)
    requires |parentOf| == |fs|
  {
    exists j | 0 <= j < |fs| :: fs[j].required && parentOf[j] == g
  }

  /** The validity state the handlers keep: a field never carries both
      markers, and its parent holds a feedback node exactly when the field
      carries `is-invalid` (and then only one). */
  ghost predicate ConsistentState(fs: seq<Field>, ms: seq<Marks>, parentOf: seq<nat>, ps: seq<seq<Node>>)
    requires WellFormed(fs, ms, parentOf, ps)
  {
    forall i | 0 <= i < |fs| ::
      && !(ms[i].valid && ms[i].invalid)
      && CountFeedback(ps[parentOf[i]]) == if ms[i].invalid then 1 else 0
  }

  /** Replacing one field's markers and its parent's children by a pair that
      agrees with each other keeps the whole form consistent, when no other
      field shares that parent. */
  lemma UpdateKeepsConsistent(
    fs: seq<Field>, ms: seq<Marks>, parentOf: seq<nat>, ps: seq<seq<Node>>,
    i: nat, m: Marks, cs: seq<Node>)
    requires WellFormed(fs, ms, parentOf, ps) && Separate(parentOf) && i < |fs|
    requires ConsistentState(fs, ms, parentOf, ps)
    requires !(m.valid && m.invalid) && CountFeedback(cs) == if m.invalid then 1 else 0
    ensures WellFormed(fs, ms[i := m], parentOf, ps[parentOf[i] := cs])
    ensures ConsistentState(fs, ms[i := m], parentOf, ps[parentOf[i] := cs])
  {
    var ps' := ps[parentOf[i] := cs];
    forall j | 0 <= j < |fs| && j != i ensures ps'[parentOf[j]] == ps[parentOf[j]] {
      assert parentOf[j] != parentOf[i];
    }
  }

  /** validateField keeps a consistent form consistent. */
  lemma ValidateFieldKeepsConsistent(
    fs: seq<Field>, ms: seq<Marks>, parentOf: seq<nat>, ps: seq<seq<Node>>, i: nat, d: Option<Failure>)
    requires WellFormed(fs, ms, parentOf, ps) && Separate(parentOf) && i < |fs|
    requires ConsistentState(fs, ms, parentOf, ps)
    ensures ConsistentState(fs, ms[i := MarksAfter(d.None?)], parentOf,
                            ps[parentOf[i] := ChildrenAfter(ps[parentOf[i]], d)])
  {
    ChildrenAfterCount(ps[parentOf[i]], d);
    UpdateKeepsConsistent(fs, ms, parentOf, ps, i, MarksAfter(d.None?), ChildrenAfter(ps[parentOf[i]], d));
  }

  /** The input listener keeps a consistent form consistent: the field loses
      `is-invalid` and its parent its only feedback node. */
  lemma InputKeepsConsistent(
    fs: seq<Field>, ms: seq<Marks>, parentOf: seq<nat>, ps: seq<seq<Node>>, i: nat, value: string)
    requires WellFormed(fs, ms, parentOf, ps) && Separate(parentOf) && i < |fs|
    requires ConsistentState(fs, ms, parentOf, ps)
    ensures ConsistentState(fs[i := fs[i].(value := value)], ms[i := Marks(ms[i].valid, false)], parentOf,
                            ps[parentOf[i] := RemoveFirstFeedback(ps[parentOf[i]])])
  {
    var cs := RemoveFirstFeedback(ps[parentOf[i]]);
    RemoveFirstFeedbackCounts(ps[parentOf[i]]);
    UpdateKeepsConsistent(fs, ms, parentOf, ps, i, Marks(ms[i].valid, false), cs);
    var fs' := fs[i := fs[i].(value := value)];
    var ms' := ms[i := Marks(ms[i].valid, false)];
    var ps' := ps[parentOf[i] := cs];
    assert ConsistentState(fs, ms', parentOf, ps');
    assert WellFormed(fs', ms', parentOf, ps');
    assert forall j | 0 <= j < |fs'| :: CountFeedback(ps'[parentOf[j]]) == if ms'[j].invalid then 1 else 0;
  }

  /** The decision of every field, in document order. */
  function Decisions(fs: seq<Field>): (ds: seq<Option<Failure>>)
    ensures |ds| == |fs|
  {
    seq(|fs|, j requires 0 <= j < |fs| => Decide(fs[j]))
  }

  /** The decision validateField reaches for field `i` of `fs`. */
  function DecisionOf(fs: seq<Field>, i: nat): Option<Failure>
    requires i < |fs|
  {
    Decisions(fs)[i]
  }

  /** Whether every required field among the first `k` was accepted. */
  function RequiredValid(fs: seq<Field>, ds: seq<Option<Failure>>, k: nat): bool
    requires |ds| == |fs| && k <= |fs|
  {
    if k == 0 then true
    else RequiredValid(fs, ds, k - 1) && (fs[k - 1].required ==> ds[k - 1].None?)
  }

  lemma {:induction false} RequiredValidIff(fs: seq<Field>, ds: seq<Option<Failure>>, k: nat)
    requires |ds| == |fs| && k <= |fs|
    ensures RequiredValid(fs, ds, k) <==> forall j | 0 <= j < k && fs[j].required :: ds[j].None?
  {
    if k > 0 {
      RequiredValidIff(fs, ds, k - 1);
    }
  }

  /** The markers after the submit loop has validated the required fields among
      the first `k`. */
  function SubmitMarks(ms: seq<Marks>, fs: seq<Field>, ds: seq<Option<Failure>>, k: nat): (r: seq<Marks>)
    requires |ms| == |fs| && |ds| == |fs| && k <= |fs|
    ensures |r| == |ms|
  {
    if k == 0 then ms
    else
      var prev := SubmitMarks(ms, fs, ds, k - 1);
      if fs[k - 1].required then prev[k - 1 := MarksAfter(ds[k - 1].None?)] else prev
  }

  lemma {:induction false} SubmitMarksAt(ms: seq<Marks>, fs: seq<Field>, ds: seq<Option<Failure>>, k: nat, j: nat)
    requires |ms| == |fs| && |ds| == |fs| && k <= |fs| && j < |fs|
    ensures SubmitMarks(ms, fs, ds, k)[j] ==
      if j < k && fs[j].required then MarksAfter(ds[j].None?) else ms[j]
  {
    if k > 0 {
      SubmitMarksAt(ms, fs, ds, k - 1, j);
    }
  }

  /** The parents' children after the submit loop has validated, one after the
      other, the required fields among the first `k`; `ds` holds the decisions
      of the fields. */
  function SubmitParents(
    ps: seq<seq<Node>>, parentOf: seq<nat>, fs: seq<Field>, ds: seq<Option<Failure>>, k: nat)
    : (r: seq<seq<Node>>)
    requires |parentOf| == |fs| && |ds| == |fs| && k <= |fs|
    requires forall i | 0 <= i < |parentOf| :: parentOf[i] < |ps|
    ensures |r| == |ps|
  {
    if k == 0 then ps
    else
      var prev := SubmitParents(ps, parentOf, fs, ds, k - 1);
      var p := parentOf[k - 1];
      if fs[k - 1].required then prev[p := ChildrenAfter(prev[p], ds[k - 1])] else prev
  }

  /** A parent that holds no required field among the first `k` keeps its children. */
  lemma {:induction false} SubmitParentsUntouched(
    ps: seq<seq<Node>>, parentOf: seq<nat>, fs: seq<Field>, ds: seq<Option<Failure>>, k: nat, g: nat)
    requires |parentOf| == |fs| && |ds| == |fs| && k <= |fs|
    requires forall i | 0 <= i < |parentOf| :: parentOf[i] < |ps|
    requires g < |ps|
    requires forall j | 0 <= j < k && fs[j].required :: parentOf[j] != g
    ensures SubmitParents(ps, parentOf, fs, ds, k)[g] == ps[g]
  {
    if k > 0 {
      SubmitParentsUntouched(ps, parentOf, fs, ds, k - 1, g);
    }
  }

  /** When no two fields share a parent, the parent of each required field among
      the first `k` holds what that field's own validation left, and the parent
      of every other field is untouched. */
  lemma {:induction false} SubmitParentsAt(
    ps: seq<seq<Node>>, parentOf: seq<nat>, fs: seq<Field>, ds: seq<Option<Failure>>, k: nat, j: nat)
    requires |parentOf| == |fs| && |ds| == |fs| && k <= |fs|
    requires forall i | 0 <= i < |parentOf| :: parentOf[i] < |ps|
    requires Separate(parentOf) && j < |fs|
    ensures SubmitParents(ps, parentOf, fs, ds, k)[parentOf[j]] ==
      if j < k && fs[j].required then ChildrenAfter(ps[parentOf[j]], ds[j]) else ps[parentOf[j]]
  {
    if k > 0 {
      SubmitParentsAt(ps, parentOf, fs, ds, k - 1, j);
      if j != k - 1 {
        assert parentOf[j] != parentOf[k - 1];
      }
    }
  }

  /** After the whole submit loop, `isValid` holds exactly when every required
      field was accepted. */
  lemma SubmitValidOutcome(fs: seq<Field>)
    ensures RequiredValid(fs, Decisions(fs), |fs|) <==>
      forall j | 0 <= j < |fs| && fs[j].required :: DecisionOf(fs, j).None?
  {
    RequiredValidIff(fs, Decisions(fs), |fs|);
  }

  /** After the whole submit loop, each required field carries the markers of
      its own decision and every other field keeps its markers. */
  lemma SubmitMarksOutcome(ms: seq<Marks>, fs: seq<Field>)
    requires |ms| == |fs|
    ensures forall j | 0 <= j < |fs| ::
      SubmitMarks(ms, fs, Decisions(fs), |fs|)[j] ==
        if fs[j].required then MarksAfter(DecisionOf(fs, j).None?) else ms[j]
  {
    forall j | 0 <= j < |fs|
      ensures SubmitMarks(ms, fs, Decisions(fs), |fs|)[j] ==
        if fs[j].required then MarksAfter(DecisionOf(fs, j).None?) else ms[j]
    {
      SubmitMarksAt(ms, fs, Decisions(fs), |fs|, j);
    }
  }

  /** When a required field was refused, some field carries `is-invalid` after
      the submit loop, so the query for the first one finds a field to focus. */
  lemma SubmitFocusOutcome(ms: seq<Marks>, fs: seq<Field>)
    requires |ms| == |fs|
    requires exists j | 0 <= j < |fs| :: fs[j].required && !DecisionOf(fs, j).None?
    ensures FirstInvalid(SubmitMarks(ms, fs, Decisions(fs), |fs|)).Some?
  {
    var j :| 0 <= j < |fs| && fs[j].required && !DecisionOf(fs, j).None?;
    SubmitMarksAt(ms, fs, Decisions(fs), |fs|, j);
    assert SubmitMarks(ms, fs, Decisions(fs), |fs|)[j].invalid;
  }

  /** When no field that is not required carries `is-invalid` before the
      submission, the field focused after it is the first required field that
      was refused. */
  lemma SubmitFocusFirstRefused(ms: seq<Marks>, fs: seq<Field>)
    requires |ms| == |fs|
    requires forall j | 0 <= j < |fs| && !fs[j].required :: !ms[j].invalid
    ensures var r := FirstInvalid(SubmitMarks(ms, fs, Decisions(fs), |fs|));
      && (r.Some? ==> fs[r.value].required && DecisionOf(fs, r.value).Some?)
      && (r.Some? ==> forall k | 0 <= k < r.value :: !(fs[k].required && DecisionOf(fs, k).Some?))
      && (r.None? ==> forall k | 0 <= k < |fs| :: !(fs[k].required && DecisionOf(fs, k).Some?))
  {
    SubmitMarksOutcome(ms, fs);
  }

  /** Focus can go to a field that is not required: an optional e-mail field
      refused earlier on blur keeps `is-invalid` through the submission and
      comes first in document order, ahead of the empty required field that
      cancelled it. */
  lemma SubmitFocusMayBeOptional()
    ensures var fs := [Field("x", false, "email"), Field("", true, "text")];
      var ms := [Marks(false, true), Marks(false, false)];
      && DecisionOf(fs, 1) == Some(RequiredEmpty)
      && FirstInvalid(SubmitMarks(ms, fs, Decisions(fs), |fs|)) == Some(0)
  {
    var fs := [Field("x", false, "email"), Field("", true, "text")];
    var ms := [Marks(false, true), Marks(false, false)];
    assert Text.Trim("") == "";
    assert DecisionOf(fs, 1) == Some(RequiredEmpty);
    SubmitMarksAt(ms, fs, Decisions(fs), |fs|, 0);
  }

  /** After the whole submit loop, a parent that holds no required field keeps
      its children. */
  lemma SubmitParentsOutcome(ps: seq<seq<Node>>, parentOf: seq<nat>, fs: seq<Field>)
    requires |parentOf| == |fs|
    requires forall i | 0 <= i < |parentOf| :: parentOf[i] < |ps|
    ensures forall g | 0 <= g < |ps| && !HostsRequiredField(fs, parentOf, g) ::
      SubmitParents(ps, parentOf, fs, Decisions(fs), |fs|)[g] == ps[g]
  {
    forall g | 0 <= g < |ps| && !HostsRequiredField(fs, parentOf, g)
      ensures SubmitParents(ps, parentOf, fs, Decisions(fs), |fs|)[g] == ps[g]
    {
      SubmitParentsUntouched(ps, parentOf, fs, Decisions(fs), |fs|, g);
    }
  }

  /** After the whole submit loop, when parents are not shared, each required
      field's parent holds what that field's validation left, and every other
      field's parent is untouched. */
  lemma SubmitSeparateOutcome(ps: seq<seq<Node>>, parentOf: seq<nat>, fs: seq<Field>)
    requires |parentOf| == |fs|
    requires forall i | 0 <= i < |parentOf| :: parentOf[i] < |ps|
    requires Separate(parentOf)
    ensures forall j | 0 <= j < |fs| ::
      SubmitParents(ps, parentOf, fs, Decisions(fs), |fs|)[parentOf[j]] ==
        if fs[j].required then ChildrenAfter(ps[parentOf[j]], DecisionOf(fs, j)) else ps[parentOf[j]]
  {
    forall j | 0 <= j < |fs|
      ensures SubmitParents(ps, parentOf, fs, Decisions(fs), |fs|)[parentOf[j]] ==
        if fs[j].required then ChildrenAfter(ps[parentOf[j]], DecisionOf(fs, j)) else ps[parentOf[j]]
    {
      SubmitParentsAt(ps, parentOf, fs, Decisions(fs), |fs|, j);
    }
  }

  /** The submit listener keeps a consistent form consistent. */
  lemma SubmitKeepsConsistent(
    fs: seq<Field>, ms: seq<Marks>, parentOf: seq<nat>, ps: seq<seq<Node>>, ds: seq<Option<Failure>>)
    requires WellFormed(fs, ms, parentOf, ps) && |ds| == |fs|
    requires Separate(parentOf) && ConsistentState(fs, ms, parentOf, ps)
    ensures WellFormed(fs, SubmitMarks(ms, fs, ds, |fs|), parentOf, SubmitParents(ps, parentOf, fs, ds, |fs|))
    ensures ConsistentState(fs, SubmitMarks(ms, fs, ds, |fs|), parentOf, SubmitParents(ps, parentOf, fs, ds, |fs|))
  {
    var ms' := SubmitMarks(ms, fs, ds, |fs|);
    var ps' := SubmitParents(ps, parentOf, fs, ds, |fs|);
    forall j | 0 <= j < |fs|
      ensures !(ms'[j].valid && ms'[j].invalid)
      ensures CountFeedback(ps'[parentOf[j]]) == if ms'[j].invalid then 1 else 0
    {
      SubmitMarksAt(ms, fs, ds, |fs|, j);
      SubmitParentsAt(ps, parentOf, fs, ds, |fs|, j);
      if fs[j].required {
        ChildrenAfterCount(ps[parentOf[j]], ds[j]);
      }
    }
  }
}
