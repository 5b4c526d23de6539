/**
 * The mobile menu: three presentation flags (the button's `active` class, the
 * menu panel's `active` class and the body's `menu-open` class) and the three
 * click handlers that change them.
 */
module MobileMenu {

  datatype MenuFlags = MenuFlags(button: bool, menu: bool, body: bool)

  const Closed := MenuFlags(false, false, false)

  /** The three flags agree: the menu is wholly open or wholly closed. */
  predicate InLockstep(f: MenuFlags) { f.button == f.menu == f.body }

  /** The button's handler toggles each class on its own element. */
  function Toggled(f: MenuFlags): (r: MenuFlags)
    ensures InLockstep(r) <==> InLockstep(f)
    ensures r != f
    ensures r == Closed <==> f == MenuFlags(true, true, true)
  {
    MenuFlags(!f.button, !f.menu, !f.body)
  }

  /** The document's handler closes the menu only for a click outside the menu and the button. */
  function AfterDocumentClick(f: MenuFlags, insideMenu: bool, insideButton: bool): (r: MenuFlags)
    ensures r == Closed || r == f
    ensures InLockstep(f) ==> InLockstep(r)
  {
    if !insideMenu && !insideButton then Closed else f
  }

  /** Where a click lands, as far as the menu handlers can tell. */
  datatype ClickTarget = MenuButton | MenuLink | InsideMenu | Elsewhere

  /**
   * One click as the browser dispatches it: the target's own handler first (the
   * button toggles, a menu link closes), then the document's handler as the
   * event bubbles up.
   */
  function AfterClick(f: MenuFlags, t: ClickTarget): (r: MenuFlags)
    ensures t == MenuButton ==> r == Toggled(f)
    ensures t == MenuLink || t == Elsewhere ==> r == Closed
    ensures t == InsideMenu ==> r == f
  {
    match t
    case MenuButton => AfterDocumentClick(Toggled(f), false, true)
    case MenuLink => AfterDocumentClick(Closed, true, false)
    case InsideMenu => AfterDocumentClick(f, true, false)
    case Elsewhere => AfterDocumentClick(f, false, false)
  }

  /** A run of clicks, in order. */
  function AfterClicks(f: MenuFlags, ts: seq<ClickTarget>): MenuFlags
    decreases |ts|
  {
    if ts == [] then f else AfterClicks(AfterClick(f, ts[0]), ts[1..])
  }

  /** Toggling negates each flag, so flags that agree keep agreeing; twice is no change. */
  lemma ToggleNegatesEach(f: MenuFlags)
    ensures Toggled(f).button != f.button && Toggled(f).menu != f.menu && Toggled(f).body != f.body
    ensures InLockstep(f) ==> InLockstep(Toggled(f))
    ensures Toggled(Toggled(f)) == f
  {
  }

  /** The document handler closes all three flags exactly when the click is outside both elements. */
  lemma DocumentClickClosesOutside(f: MenuFlags, insideMenu: bool, insideButton: bool)
    requires f != Closed
    ensures AfterDocumentClick(f, insideMenu, insideButton) == Closed <==> !insideMenu && !insideButton
  {
  }

  /** Every run of clicks from agreeing flags leaves them agreeing. */
  lemma {:induction false} ClicksKeepLockstep(f: MenuFlags, ts: seq<ClickTarget>)
    requires InLockstep(f)
    ensures InLockstep(AfterClicks(f, ts))
    decreases |ts|
  {
    if ts != [] {
      ClicksKeepLockstep(AfterClick(f, ts[0]), ts[1..]);
    }
  }

  /** The last click decides: after any run ending in a menu-link or outside click, the menu is closed. */
  lemma {:induction false} LastCloseWins(f: MenuFlags, ts: seq<ClickTarget>)
    requires ts != [] && (ts[|ts| - 1] == MenuLink || ts[|ts| - 1] == Elsewhere)
    ensures AfterClicks(f, ts) == Closed
    decreases |ts|
  {
    if |ts| > 1 {
      assert ts[1..][|ts[1..]| - 1] == ts[|ts| - 1];
      LastCloseWins(AfterClick(f, ts[0]), ts[1..]);
    }
  }

  /** Open, toggle twice, then click outside: the menu ends closed. */
  lemma OpenToggleTwiceOutside()
    ensures AfterClicks(Closed, [MenuButton, MenuButton, MenuButton, Elsewhere]) == Closed
    ensures AfterClicks(Closed, [MenuButton]) == Toggled(Closed)
  {
  }
}
