/**
 The mobile menu toggle of `initNavigation` (js/main.js): the hamburger button and the
 navigation menu each carry an `active` class, and three click listeners change the two
 together. A click is described by where its target lies; the hamburger and the menu are
 taken to be disjoint parts of the page.
 */
module Menu {

  /** Whether the hamburger and the navigation menu carry the `active` class. */
  datatype Menu = Menu(hamburgerActive: bool, navActive: bool)

  /** Where a click lands: on the hamburger, on a `.nav-link` in the menu, elsewhere in the menu, or outside both. */
  datatype Target = OnHamburger | OnNavLink | InsideNav | Outside

  /** Both flags agree: the menu is either open as a whole or closed as a whole. */
  predicate Synced(m: Menu)
  {
    m.hamburgerActive == m.navActive
  }

  /**
   One click, dispatched as the page does it: the listeners on the elements the click
   bubbles through run first, the document's listener last. The hamburger's listener
   toggles both classes; the menu's listener closes the menu when the target is a
   `.nav-link`; the document's listener closes it when the target lies outside both
   elements. The listeners are bound only when both elements exist.
   */
  function Click(m: Menu, bound: bool, t: Target): (r: Menu)
    ensures !bound ==> r == m
    ensures bound && t == OnHamburger ==> r.hamburgerActive != m.hamburgerActive && r.navActive != m.navActive
    ensures bound && (t == OnNavLink || t == Outside) ==> !r.hamburgerActive && !r.navActive
    ensures bound && t == InsideNav ==> r == m
    ensures Synced(m) ==> Synced(r)
  {
    if !bound then m
    else
      var afterHamburger :=
        if t == OnHamburger then Menu(!m.hamburgerActive, !m.navActive) else m;
      var afterNav :=
        if t == OnNavLink then Menu(false, false) else afterHamburger;
      if t == Outside then Menu(false, false) else afterNav
  }

  /** A sequence of clicks. */
  function Clicks(m: Menu, bound: bool, ts: seq<Target>): (r: Menu)
    decreases |ts|
  {
    if |ts| == 0 then m else Clicks(Click(m, bound, ts[0]), bound, ts[1..])
  }

  /** Flags that start equal stay equal after any sequence of clicks. */
  lemma {:induction false} ClicksKeepSynced(m: Menu, bound: bool, ts: seq<Target>)
    requires Synced(m)
    ensures Synced(Clicks(m, bound, ts))
    decreases |ts|
  {
    if |ts| > 0 {
      ClicksKeepSynced(Click(m, bound, ts[0]), bound, ts[1..]);
    }
  }

  /**
   Reference machine with a single open/closed bit: a hamburger click flips it, a click on
   a link or outside closes it, any other click leaves it.
   */
  function OpenAfter(open: bool, ts: seq<Target>): (r: bool)
    decreases |ts|
  {
    if |ts| == 0 then open
    else if ts[0] == OnHamburger then OpenAfter(!open, ts[1..])
    else if ts[0] == OnNavLink || ts[0] == Outside then OpenAfter(false, ts[1..])
    else OpenAfter(open, ts[1..])
  }

  /** The bound listeners drive a synced menu exactly as the open/closed reference machine. */
  lemma {:induction false} ClicksFollowOpenAfter(m: Menu, ts: seq<Target>)
    requires Synced(m)
    ensures Clicks(m, true, ts) == Menu(OpenAfter(m.navActive, ts), OpenAfter(m.navActive, ts))
    decreases |ts|
  {
    if |ts| > 0 {
      ClicksFollowOpenAfter(Click(m, true, ts[0]), ts[1..]);
    }
  }

  /** Without both elements no listener exists and clicks change nothing. */
  lemma {:induction false} UnboundIgnoresClicks(m: Menu, ts: seq<Target>)
    ensures Clicks(m, false, ts) == m
    decreases |ts|
  {
    if |ts| > 0 {
      UnboundIgnoresClicks(m, ts[1..]);
    }
  }
}
