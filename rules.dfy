/**
 * The page's small decision rules: the navigation bar's `scrolled` flag, the
 * in-page anchor click, the one-shot fade-in, and the store-badge label.
 */
module PageRules {

  // ---- Navigation scroll effect ----

  /** The offset, in pixels, above which the navigation bar is marked `scrolled`. */
  const ScrollThreshold: int := 50

  /** The navigation bar's `scrolled` flag and the module-level `lastScroll`. */
  datatype NavState = NavState(scrolled: bool, lastScroll: int)

  /** One scroll event at vertical offset `offset`; without a navigation bar only `lastScroll` moves. */
  function AfterScroll(n: NavState, hasNav: bool, offset: int): (r: NavState)
    ensures r.lastScroll == offset
    ensures hasNav ==> (r.scrolled <==> offset > ScrollThreshold)
    ensures !hasNav ==> r.scrolled == n.scrolled
  {
    NavState(if hasNav then offset > ScrollThreshold else n.scrolled, offset)
  }

  function AfterScrolls(n: NavState, hasNav: bool, offsets: seq<int>): NavState
    decreases |offsets|
  {
    if offsets == [] then n else AfterScrolls(AfterScroll(n, hasNav, offsets[0]), hasNav, offsets[1..])
  }

  /**
   * The state after any run of scroll events depends only on the last offset:
   * `scrolled` holds iff it is above the threshold, and `lastScroll` equals it.
   */
  lemma {:induction false} LastScrollDecides(n: NavState, hasNav: bool, offsets: seq<int>)
    requires offsets != []
    ensures AfterScrolls(n, hasNav, offsets).lastScroll == offsets[|offsets| - 1]
    ensures hasNav ==> (AfterScrolls(n, hasNav, offsets).scrolled <==> offsets[|offsets| - 1] > ScrollThreshold)
    ensures !hasNav ==> AfterScrolls(n, hasNav, offsets).scrolled == n.scrolled
    decreases |offsets|
  {
    if |offsets| > 1 {
      assert offsets[1..][|offsets[1..]| - 1] == offsets[|offsets| - 1];
      LastScrollDecides(AfterScroll(n, hasNav, offsets[0]), hasNav, offsets[1..]);
    }
  }

  /** Scrolling from 10 to 80 marks the bar; going back to 20 clears it. */
  lemma ScrollScenario(n: NavState)
    ensures AfterScrolls(n, true, [10, 80]).scrolled
    ensures !AfterScrolls(n, true, [10, 80, 20]).scrolled
  {
  }

  // ---- Smooth scroll for in-page anchors ----

  /** What a click on an in-page anchor does: leave the default alone, or scroll to an element. */
  datatype AnchorAction = KeepDefault | SmoothScrollTo(targetId: string)

  /**
   * The click rule for a link whose `href` starts with `#`; `ids` are the
   * identifiers of the document's elements.
   */
  function AnchorClick(href: string, ids: set<string>): (a: AnchorAction)
    requires |href| >= 1 && href[0] == '#'
    ensures a.SmoothScrollTo? <==> href != "#" && href[1..] in ids
    ensures a.SmoothScrollTo? ==> "#" + a.targetId == href
  {
    if href == "#" then KeepDefault
    else if href[1..] in ids then SmoothScrollTo(href[1..])
    else KeepDefault
  }

  /** A click on `#missing-id` with no such element keeps the default; a bare `#` always does. */
  lemma AnchorScenario(ids: set<string>)
    requires "missing-id" !in ids
    ensures AnchorClick("#missing-id", ids) == KeepDefault
    ensures AnchorClick("#", ids) == KeepDefault
  {
  }

  // ---- One-shot fade-in ----

  /** One observer entry: the element (by identity) and whether it is intersecting. */
  datatype Entry = Entry(target: nat, isIntersecting: bool)

  /** The elements that some entry of the batch reports as intersecting. */
  function IntersectingTargets(entries: seq<Entry>): (r: set<nat>)
    ensures forall x :: x in r <==> exists i :: 0 <= i < |entries| && entries[i] == Entry(x, true)
    decreases |entries|
  {
    if entries == [] then {}
    else
      var last := entries[|entries| - 1];
      var prefix := entries[..|entries| - 1];
      assert forall i :: 0 <= i < |prefix| ==> prefix[i] == entries[i];
      IntersectingTargets(prefix) + (if last.isIntersecting then {last.target} else {})
  }

  // ---- Store-badge click tracking ----

  const AppleHost: string := "apple.com"

  /** `t` occurs in `s` starting at index `i`. */
  predicate OccursAt(s: string, t: string, i: nat)
  {
    i + |t| <= |s| && s[i..i + |t|] == t
  }

  /** `s.includes(t)`, scanning from the front. */
  function Contains(s: string, t: string): (r: bool)
    ensures r ==> |t| <= |s|
    ensures t == [] ==> r
    decreases |s|
  {
    if t == [] then true
    else if |t| > |s| then false
    else if s[..|t|] == t then true
    else Contains(s[1..], t)
  }

  lemma {:induction false} ContainsIffOccurs(s: string, t: string)
    ensures Contains(s, t) <==> exists i: nat :: OccursAt(s, t, i)
    decreases |s|
  {
    if t == [] {
      assert OccursAt(s, t, 0);
    } else if |t| > |s| {
    } else if s[..|t|] == t {
      assert OccursAt(s, t, 0);
    } else {
      ContainsIffOccurs(s[1..], t);
      if exists i: nat :: OccursAt(s, t, i) {
        var i: nat :| OccursAt(s, t, i);
        assert i != 0;
        assert s[1..][i - 1..i - 1 + |t|] == s[i..i + |t|];
        assert OccursAt(s[1..], t, i - 1);
      }
      if exists i: nat :: OccursAt(s[1..], t, i) {
        var i: nat :| OccursAt(s[1..], t, i);
        assert s[1..][i..i + |t|] == s[i + 1..i + 1 + |t|];
        assert OccursAt(s, t, i + 1);
      }
    }
  }

  /** The tracked label: "App Store" exactly when the link's URL contains `apple.com`. */
  function StoreLabel(href: string): (store: string)
    ensures store == "App Store" <==> exists i: nat :: OccursAt(href, AppleHost, i)
    ensures store == "App Store" || store == "Google Play"
  {
    ContainsIffOccurs(href, AppleHost);
    if Contains(href, AppleHost) then "App Store" else "Google Play"
  }
}
