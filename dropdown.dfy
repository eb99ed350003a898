/**
  The user dropdown: a `.user-dropdown` container with a button and a
  `.dropdown-content` panel whose `show` class opens it. The button toggles the
  panel, and a click anywhere outside the container or the Escape key closes it.
*/
module Dropdown {

  /** Where a click lands. A click on the button (or inside it) stops
      propagating there, so the document listener never sees it. */
  datatype Target = OnButton | InsideContainer | Outside

  /** The `show` class after a click on `target`. */
  function AfterClick(show: bool, target: Target): bool {
    match target
    case OnButton => !show
    case InsideContainer => show
    case Outside => false
  }

  /** The `show` class after a keydown of `key`. */
  function AfterKey(show: bool, key: string): bool {
    if key == "Escape" then false else show
  }

  class UserDropdown {
    /** Whether the listeners were installed: the container, its button and
        its panel all exist. Without them nothing reacts. */
    const wired: bool
    /** Whether the panel carries the `show` class. */
    var show: bool

    constructor (wired: bool, show: bool)
      ensures this.wired == wired && this.show == show
    {
      this.wired := wired;
      this.show := show;
    }

    /** A click on the page. */
    method Click(target: Target)
      modifies this
      ensures show == if wired then AfterClick(old(show), target) else old(show)
    {
      if wired {
        match target
        case OnButton =>
          show := !show;
        case InsideContainer =>
        case Outside =>
          show := false;
      }
    }

    /** A keydown on the page. */
    method KeyDown(key: string)
      modifies this
      ensures show == if wired then AfterKey(old(show), key) else old(show)
    {
      if wired && key == "Escape" {
        show := false;
      }
    }
  }

  /** Clicking the button twice returns the panel to where it was. */
  lemma ToggleTwice(show: bool)
    ensures AfterClick(AfterClick(show, OnButton), OnButton) == show
    ensures AfterClick(show, OnButton) != show
  {
  }

  /** An outside click or Escape closes the panel, and doing it again changes
      nothing. */
  lemma CloseIdempotent(show: bool)
    ensures !AfterClick(show, Outside) && !AfterKey(show, "Escape")
    ensures AfterClick(AfterClick(show, Outside), Outside) == AfterClick(show, Outside)
    ensures AfterKey(AfterKey(show, "Escape"), "Escape") == AfterKey(show, "Escape")
  {
  }

  /** A click inside the container but not on the button, and any other key,
      leave the panel as it is. */
  lemma OthersUnchanged(show: bool, key: string)
    requires key != "Escape"
    ensures AfterClick(show, InsideContainer) == show
    ensures AfterKey(show, key) == show
  {
  }

  /** Only the button opens the panel. */
  lemma OnlyButtonOpens(show: bool, target: Target)
    requires !show && AfterClick(show, target)
    ensures target == OnButton
  {
  }
}
