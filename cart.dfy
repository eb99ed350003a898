/**
  The confirmation on the cart's remove links: every link whose href contains
  "remover_do_carrinho" asks the user before following it, and a refusal
  cancels the navigation.
*/
module Cart {

  const RemoveMarker := "remover_do_carrinho"

  /** The attribute selector [href*="..."]: `t` occurs in `s` as a substring. */
  predicate Contains(s: string, t: string) {
    exists i: nat | i <= |s| :: OccursAt(s, t, i)
  }

  predicate OccursAt(s: string, t: string, i: nat) {
    i + |t| <= |s| && s[i..i + |t|] == t
  }

  /** What a click on a link does: whether the confirm dialog is shown, and
      whether the default action (the navigation) is cancelled. */
  datatype ClickOutcome = ClickOutcome(asked: bool, prevented: bool)

  /** The click on a link with `href`, where `confirmed` is the user's answer to
      confirm() when the dialog is shown. Only links matching the selector have
      the listener. */
  function OnLinkClick(href: string, confirmed: bool): (r: ClickOutcome)
    ensures r.asked <==> Contains(href, RemoveMarker)
    ensures r.prevented <==> r.asked && !confirmed
  {
    if Contains(href, RemoveMarker) then ClickOutcome(true, !confirmed)
    else ClickOutcome(false, false)
  }

  /** The marker counts wherever it appears in the href: whatever comes
      before and after it, the user is asked. */
  lemma RemoveLinkExample(pre: string, post: string, confirmed: bool)
    ensures OnLinkClick(pre + RemoveMarker + post, confirmed).asked
  {
    var href := pre + RemoveMarker + post;
    assert href[|pre|..|pre| + |RemoveMarker|] == RemoveMarker;
    assert OccursAt(href, RemoveMarker, |pre|);
  }

  lemma OtherLinkExample(confirmed: bool)
    ensures !OnLinkClick("/carrinho", confirmed).asked
  {
  }
}
