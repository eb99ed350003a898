/**
  The loading state of a button: showLoading and hideLoading, and the click
  listener of every submit button inside a form, which puts the button in the
  loading state and appends a spinner when the form passes the browser's own
  constraint validation.
*/
module Loading {
  import opened Dom

  /** The child the click listener appends: `<span class="spinner">`. */
  const Spinner := Element("span.spinner")

  /** What the handlers change on a button: the `loading` class, the `disabled`
      property and the children. */
  datatype ButtonState = ButtonState(loading: bool, disabled: bool, children: seq<Node>)

  function Shown(b: ButtonState): ButtonState {
    b.(loading := true, disabled := true)
  }

  function Hidden(b: ButtonState): ButtonState {
    b.(loading := false, disabled := false)
  }

  /** The submit button's click listener, with `formValid` the result of
      form.checkValidity(). */
  function Clicked(b: ButtonState, formValid: bool): ButtonState {
    if formValid then Shown(b).(children := b.children + [Spinner]) else b
  }

  function SpinnerCount(cs: seq<Node>): nat {
    if cs == [] then 0 else (if cs[0] == Spinner then 1 else 0) + SpinnerCount(cs[1..])
  }

  lemma {:induction false} SpinnerCountAppend(cs: seq<Node>, n: Node)
    ensures SpinnerCount(cs + [n]) == SpinnerCount(cs) + if n == Spinner then 1 else 0
  {
    if cs != [] {
      assert (cs + [n])[1..] == cs[1..] + [n];
      SpinnerCountAppend(cs[1..], n);
    } else {
      assert [n][1..] == [];
    }
  }

  class Button {
    var loading: bool
    var disabled: bool
    var children: seq<Node>

    function State(): ButtonState
      reads this
    {
      ButtonState(loading, disabled, children)
    }

    constructor (loading: bool, disabled: bool, children: seq<Node>)
      ensures State() == ButtonState(loading, disabled, children)
    {
      this.loading := loading;
      this.disabled := disabled;
      this.children := children;
    }

    /** showLoading: add the `loading` class and disable the button. */
    method ShowLoading()
      modifies this
      ensures State() == Shown(old(State()))
    {
      loading := true;
      disabled := true;
    }

    /** hideLoading: remove the `loading` class and enable the button. */
    method HideLoading()
      modifies this
      ensures State() == Hidden(old(State()))
    {
      loading := false;
      disabled := false;
    }

    /** The click listener of a submit button. */
    method OnClick(formValid: bool)
      modifies this
      ensures State() == Clicked(old(State()), formValid)
    {
      if formValid {
        loading := true;
        disabled := true;
        children := children + [Spinner];
      }
    }
  }

  /** Showing twice is showing once, and hiding after showing leaves the button
      enabled and out of the loading state whatever it was before, with its
      children untouched. */
  lemma ShowHide(b: ButtonState)
    ensures Shown(Shown(b)) == Shown(b)
    ensures Hidden(Shown(b)) == Hidden(b)
    ensures Hidden(b) == ButtonState(false, false, b.children)
    ensures Shown(b) == ButtonState(true, true, b.children)
  {
  }

  /** A click on the submit button of a form that fails validation changes
      nothing; one that passes leaves the button loading and disabled with one
      more spinner as its last child and every earlier child kept. */
  lemma ClickEffect(b: ButtonState, formValid: bool)
    ensures !formValid ==> Clicked(b, false) == b
    ensures formValid ==>
      var c := Clicked(b, true);
      && c.loading && c.disabled
      && |c.children| == |b.children| + 1
      && c.children[..|b.children|] == b.children
      && c.children[|b.children|] == Spinner
      && SpinnerCount(c.children) == SpinnerCount(b.children) + 1
  {
    if formValid {
      SpinnerCountAppend(b.children, Spinner);
      assert Clicked(b, true).children[..|b.children|] == b.children;
    }
  }

  /** hideLoading does not take the spinner away: after a click, a hide and a
      second click the button holds two more spinners than before. */
  lemma SpinnersAccumulate(b: ButtonState)
    ensures SpinnerCount(Clicked(Hidden(Clicked(b, true)), true).children) == SpinnerCount(b.children) + 2
  {
    var c1 := Clicked(b, true);
    ClickEffect(b, true);
    ClickEffect(Hidden(c1), true);
  }
}
