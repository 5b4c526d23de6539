/**
 * The page interaction coordinator: the state the script keeps across events
 * (browser storage, the menu's class flags, the navigation bar's `scrolled`
 * flag and `lastScroll`, the fade-in elements still observed and those made
 * visible) and the handler for each event.
 */
module Coordinator {
  import opened Wrappers
  import opened ReferralStore
  import opened MobileMenu
  import opened FormFeedback
  import opened PageRules

  class Page {
    var storage: Storage
    var menuButtonActive: bool
    var menuActive: bool
    var bodyMenuOpen: bool
    /** Whether the document has a `.nav` element. */
    const hasNav: bool
    var navScrolled: bool
    var lastScroll: int
    /** Fade-in elements the observer still watches. */
    var observed: set<nat>
    /** Elements that carry the `visible` class. */
    var visible: set<nat>

    function Menu(): MenuFlags
      reads this
    {
      MenuFlags(menuButtonActive, menuActive, bodyMenuOpen)
    }

    function Nav(): NavState
      reads this
    {
      NavState(navScrolled, lastScroll)
    }

    /** No element is both visible and still observed: a card fades in at most once. */
    predicate Valid()
      reads this
    {
      visible !! observed
    }

    /**
     * Page load. The menu classes and the navigation bar's `scrolled` class are
     * whatever the markup gives (`markupMenu`, `markupScrolled`); the script
     * sets only `lastScroll`. `fadeElements` are the cards to animate, observed
     * only where the browser supports intersection observers; `stored` is the
     * storage the page finds, `query` its address's parameters and `now` the
     * load time. The load stores a referral from the address, then reads the
     * stored one back while annotating the store links, which purges a dead
     * record.
     */
    constructor Load(hasNav: bool, observerSupported: bool, fadeElements: set<nat>,
                     markupMenu: MenuFlags, markupScrolled: bool,
                     stored: Storage, query: Query, now: nat)
      ensures Valid()
      ensures storage == AfterLoad(stored, query, now)
      ensures Menu() == markupMenu && Nav() == NavState(markupScrolled, 0) && this.hasNav == hasNav
      ensures visible == {} && observed == (if observerSupported then fadeElements else {})
    {
      this.hasNav := hasNav;
      storage := stored;
      menuButtonActive, menuActive, bodyMenuOpen := markupMenu.button, markupMenu.menu, markupMenu.body;
      navScrolled, lastScroll := markupScrolled, 0;
      visible := {};
      observed := if observerSupported then fadeElements else {};
      new;
      StoreReferralCode(query, now);
      var _ := GetStoredReferralCode(now);
    }

    /** `storeReferralCode`: writes a thirty-day record when the address carries a code. */
    method StoreReferralCode(query: Query, now: nat)
      modifies this`storage
      ensures storage == AfterStore(old(storage), query, now)
    {
      var code := QueryReferral(query);
      if Truthy(code) {
        storage := storage[StorageKey := RecordText.Encode(code.value, now + TtlMs)];
      }
    }

    /** `getStoredReferralCode`: the live stored code, purging a dead or unreadable record. */
    method GetStoredReferralCode(now: nat) returns (code: Option<string>)
      modifies this`storage
      ensures (code, storage) == ReadStored(old(storage), now)
    {
      code := None;
      if StorageKey in storage && storage[StorageKey] != "" {
        var decoded := RecordText.Decode(storage[StorageKey]);
        if decoded.Some? && Live(decoded.value, now) {
          code := Some(decoded.value.code);
        } else {
          storage := storage - {StorageKey};
        }
      }
    }

    /** A click on the menu button toggles each of the three classes. */
    method OnMenuButtonClick()
      modifies this`menuButtonActive, this`menuActive, this`bodyMenuOpen
      ensures Menu() == Toggled(old(Menu()))
    {
      menuButtonActive := !menuButtonActive;
      menuActive := !menuActive;
      bodyMenuOpen := !bodyMenuOpen;
    }

    /** A click on a link inside the menu removes all three classes. */
    method OnMenuLinkClick()
      modifies this`menuButtonActive, this`menuActive, this`bodyMenuOpen
      ensures Menu() == Closed
    {
      menuButtonActive := false;
      menuActive := false;
      bodyMenuOpen := false;
    }

    /** Any click reaching the document: outside the menu and the button, it closes the menu. */
    method OnDocumentClick(insideMenu: bool, insideButton: bool)
      modifies this`menuButtonActive, this`menuActive, this`bodyMenuOpen
      ensures Menu() == AfterDocumentClick(old(Menu()), insideMenu, insideButton)
    {
      if !insideMenu && !insideButton {
        menuButtonActive := false;
        menuActive := false;
        bodyMenuOpen := false;
      }
    }

    /** A scroll event at vertical offset `offset`. */
    method OnScroll(offset: int)
      modifies this`navScrolled, this`lastScroll
      ensures Nav() == AfterScroll(old(Nav()), hasNav, offset)
    {
      if hasNav {
        if offset > ScrollThreshold {
          navScrolled := true;
        } else {
          navScrolled := false;
        }
      }
      lastScroll := offset;
    }

    /**
     * The observer callback for one batch of entries: each intersecting element
     * becomes visible and is no longer observed, so it never fades in twice.
     */
    method OnIntersections(entries: seq<Entry>)
      requires Valid()
      modifies this`visible, this`observed
      ensures Valid()
      ensures visible == old(visible) + IntersectingTargets(entries)
      ensures observed == old(observed) - IntersectingTargets(entries)
    {
      var i := 0;
      while i < |entries|
        invariant 0 <= i <= |entries|
        invariant visible == old(visible) + IntersectingTargets(entries[..i])
        invariant observed == old(observed) - IntersectingTargets(entries[..i])
      {
        var entry := entries[i];
        if entry.isIntersecting {
          visible := visible + {entry.target};
          observed := observed - {entry.target};
        }
        assert entries[..i + 1][..i] == entries[..i];
        i := i + 1;
      }
      assert entries[..i] == entries;
    }

    /**
     * A submit of `form`: the label is read, the live stored code (if any) goes
     * into the `referral_code` input, and the button turns busy with a restore
     * pending. A form without a submit button stops at the first read.
     */
    method OnSubmit(form: Form, now: nat)
      requires form.Valid()
      modifies form, this`storage
      ensures form.Valid()
      ensures !form.hasSubmitButton ==> storage == old(storage) && form.View() == old(form.View())
      ensures form.hasSubmitButton ==>
        var (code, after) := ReadStored(old(storage), now);
        storage == after && form.View() == SubmitView(old(form.View()), code)
    {
      if form.hasSubmitButton {
        var code := GetStoredReferralCode(now);
        form.Submit(code);
      }
    }
  }
}
