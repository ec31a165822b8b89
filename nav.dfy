/** The navigation bar: the scroll-aware choice of the active link, the
    mobile menu's open flags and the `scrolled` style flag. */
module Nav {
  import opened Flags

  /** The page sections, in page order, that can make a nav link active. */
  const SECTIONS: seq<string> := ["hero", "about", "sponsors", "contact"]
  const DEFAULT_SECTION: string := "hero"
  /** A section counts as reached once its top edge is at most this far below
      the viewport top, or above it. */
  const REACHED_TOP: int := 150
  /** The navbar takes the `scrolled` style past this scroll offset. */
  const SCROLLED_AFTER: int := 50
  /** Above this window width the mobile menu is reset. */
  const DESKTOP_WIDTH: int := 768

  /** Section `id` is on the page (it is a key of `tops`, which maps each
      present section to the top of its bounding box) and is reached. */
  predicate Reached(id: string, tops: map<string, int>)
  {
    id in tops && tops[id] <= REACHED_TOP
  }

  /** The section the forEach over `ids` ends on: each reached section
      overwrites the current one, starting from `dflt`. */
  function LastReached(ids: seq<string>, tops: map<string, int>, dflt: string): (r: string)
    decreases |ids|
  {
    if ids == [] then dflt
    else if Reached(ids[|ids| - 1], tops) then ids[|ids| - 1]
    else LastReached(ids[..|ids| - 1], tops, dflt)
  }

  /** `ids[k]` is reached and no section after it is. */
  ghost predicate IsLastReached(ids: seq<string>, tops: map<string, int>, k: int)
  {
    0 <= k < |ids| && Reached(ids[k], tops) &&
    forall j :: k < j < |ids| ==> !Reached(ids[j], tops)
  }

  /** The selected section is the default when no section is reached, and
      otherwise the last reached one in page order. */
  lemma {:induction false} LastReachedIsLast(ids: seq<string>, tops: map<string, int>, dflt: string)
    ensures (forall k :: 0 <= k < |ids| ==> !Reached(ids[k], tops)) ==> LastReached(ids, tops, dflt) == dflt
    ensures (exists k :: 0 <= k < |ids| && Reached(ids[k], tops)) ==>
              exists k :: IsLastReached(ids, tops, k) && ids[k] == LastReached(ids, tops, dflt)
    decreases |ids|
  {
    if ids != [] {
      var init, last := ids[..|ids| - 1], |ids| - 1;
      if Reached(ids[last], tops) {
        assert IsLastReached(ids, tops, last);
      } else {
        LastReachedIsLast(init, tops, dflt);
        if exists k :: 0 <= k < |ids| && Reached(ids[k], tops) {
          var k0 :| 0 <= k0 < |ids| && Reached(ids[k0], tops);
          assert init[k0] == ids[k0];
          var k :| IsLastReached(init, tops, k) && init[k] == LastReached(init, tops, dflt);
          forall j | k < j < |ids| ensures !Reached(ids[j], tops) {
            if j < last {
              assert init[j] == ids[j];
            }
          }
          assert IsLastReached(ids, tops, k);
        } else {
          forall k | 0 <= k < |init| ensures !Reached(init[k], tops) {
            assert init[k] == ids[k];
          }
        }
      }
    }
  }

  /** The section `updateActiveNavLink` selects. */
  function SelectedSection(tops: map<string, int>): (r: string)
  {
    LastReached(SECTIONS, tops, DEFAULT_SECTION)
  }

  /** At the top of the page, where only the hero can be reached, the hero is selected. */
  lemma TopOfPageSelectsHero(tops: map<string, int>)
    requires !Reached("about", tops) && !Reached("sponsors", tops) && !Reached("contact", tops)
    ensures SelectedSection(tops) == "hero"
  {
    LastReachedIsLast(SECTIONS, tops, DEFAULT_SECTION);
    assert SECTIONS[1] == "about" && SECTIONS[2] == "sponsors" && SECTIONS[3] == "contact";
  }

  /** Once "about" is reached and the later sections are not, "about" is selected. */
  lemma AboutReachedSelectsAbout(tops: map<string, int>)
    requires Reached("about", tops) && !Reached("sponsors", tops) && !Reached("contact", tops)
    ensures SelectedSection(tops) == "about"
  {
    LastReachedIsLast(SECTIONS, tops, DEFAULT_SECTION);
    assert SECTIONS[1] == "about" && SECTIONS[2] == "sponsors" && SECTIONS[3] == "contact";
    assert !IsLastReached(SECTIONS, tops, 0);
  }

  /** `link.getAttribute('href').substring(1)`: the href without its leading `#`. */
  function Fragment(href: string): (r: string)
    ensures |href| >= 1 ==> [href[0]] + r == href
    ensures |href| == 0 ==> r == ""
  {
    if |href| >= 1 then href[1..] else ""
  }

  /** The link flags when exactly the links pointing at section `id` are active. */
  function ActiveLinks(hrefs: seq<string>, id: string): (r: seq<bool>)
    ensures |r| == |hrefs|
    ensures forall j :: 0 <= j < |hrefs| ==> (r[j] <==> Fragment(hrefs[j]) == id)
  {
    seq(|hrefs|, j requires 0 <= j < |hrefs| => Fragment(hrefs[j]) == id)
  }

  /** The first half of `updateActiveNavLink`: the walk over the sections. */
  method CurrentSection(tops: map<string, int>) returns (id: string)
    ensures id == SelectedSection(tops)
    ensures id == DEFAULT_SECTION || Reached(id, tops)
  {
    id := DEFAULT_SECTION;
    var i := 0;
    while i < |SECTIONS|
      invariant 0 <= i <= |SECTIONS|
      invariant id == LastReached(SECTIONS[..i], tops, DEFAULT_SECTION)
      invariant id == DEFAULT_SECTION || Reached(id, tops)
    {
      assert SECTIONS[..i + 1][..i] == SECTIONS[..i];
      if SECTIONS[i] in tops {
        var sectionTop := tops[SECTIONS[i]];
        if sectionTop <= REACHED_TOP {
          id := SECTIONS[i];
        }
      }
      i := i + 1;
    }
    assert SECTIONS[..|SECTIONS|] == SECTIONS;
  }

  /** The nav bar's state: each link's target and `active` class, the `active`
      class of the toggle button and of the menu, whether the body's overflow
      is hidden, and the navbar's `scrolled` class. */
  class NavBar {
    const hrefs: seq<string>
    const links: array<bool>
    var toggleActive: bool
    var menuActive: bool
    var overflowHidden: bool
    var scrolled: bool

    ghost predicate Valid()
      reads this
    {
      links.Length == |hrefs|
    }

    ghost predicate MenuClosed()
      reads this
    {
      !toggleActive && !menuActive && !overflowHidden
    }

    /** The toggle, the menu and the page's overflow agree. */
    ghost predicate MenuInSync()
      reads this
    {
      toggleActive == menuActive && overflowHidden == menuActive
    }

    /** Page load: the flags come from the markup, then the active link is
        chosen once for the initial geometry. */
    constructor (hrefs0: seq<string>, toggle0: bool, menu0: bool, scrolled0: bool, tops: map<string, int>)
      ensures Valid() && fresh(links) && hrefs == hrefs0
      ensures links[..] == ActiveLinks(hrefs, SelectedSection(tops))
      ensures toggleActive == toggle0 && menuActive == menu0 && !overflowHidden && scrolled == scrolled0
    {
      hrefs := hrefs0;
      links := new bool[|hrefs0|];
      toggleActive, menuActive, overflowHidden, scrolled := toggle0, menu0, false, scrolled0;
      new;
      UpdateActiveNavLink(tops);
    }

    /** `updateActiveNavLink`: exactly the links whose target is the selected
        section end up active. */
    method UpdateActiveNavLink(tops: map<string, int>)
      requires Valid()
      modifies links
      ensures links[..] == ActiveLinks(hrefs, SelectedSection(tops))
    {
      var current := CurrentSection(tops);
      var j := 0;
      while j < links.Length
        invariant 0 <= j <= links.Length
        invariant forall k :: 0 <= k < j ==> (links[k] <==> Fragment(hrefs[k]) == current)
      {
        links[j] := false;
        if Fragment(hrefs[j]) == current {
          links[j] := true;
        }
        j := j + 1;
      }
    }

    /** The mobile toggle's click handler: both `active` classes flip and the
        page scroll is locked exactly when the menu is now open. */
    method ToggleMenu()
      modifies this`toggleActive, this`menuActive, this`overflowHidden
      ensures toggleActive == !old(toggleActive) && menuActive == !old(menuActive)
      ensures overflowHidden <==> menuActive
      ensures old(MenuInSync()) ==> MenuInSync()
    {
      toggleActive := !toggleActive;
      menuActive := !menuActive;
      overflowHidden := menuActive;
    }

    method CloseMenu()
      modifies this`toggleActive, this`menuActive, this`overflowHidden
      ensures MenuClosed() && MenuInSync()
    {
      toggleActive, menuActive, overflowHidden := false, false, false;
    }

    /** A nav link's click handler: only the clicked link stays active and
        the menu closes (the smooth scroll is not modelled). */
    method ClickLink(k: nat)
      requires Valid() && k < links.Length
      modifies links, this`toggleActive, this`menuActive, this`overflowHidden
      ensures links[..] == OneHot(links.Length, k)
      ensures MenuClosed() && MenuInSync()
    {
      ClearAll(links);
      links[k] := true;
      CloseMenu();
    }

    /** The document's click handler: a click outside both the menu and the
        toggle closes the menu; any other click leaves it as it was. */
    method ClickDocument(insideMenu: bool, insideToggle: bool)
      modifies this`toggleActive, this`menuActive, this`overflowHidden
      ensures !insideMenu && !insideToggle ==> MenuClosed()
      ensures insideMenu || insideToggle ==>
        toggleActive == old(toggleActive) && menuActive == old(menuActive) && overflowHidden == old(overflowHidden)
      ensures old(MenuInSync()) ==> MenuInSync()
    {
      if !insideMenu && !insideToggle {
        CloseMenu();
      }
    }

    /** The window's scroll handler. */
    method Scroll(scrollTop: int, tops: map<string, int>)
      requires Valid()
      modifies this`scrolled, links
      ensures scrolled <==> scrollTop > SCROLLED_AFTER
      ensures links[..] == ActiveLinks(hrefs, SelectedSection(tops))
    {
      if scrollTop > SCROLLED_AFTER {
        scrolled := true;
      } else {
        scrolled := false;
      }
      UpdateActiveNavLink(tops);
    }

    /** The window's resize handler: wider than the mobile layout, the menu is reset. */
    method Resize(width: int)
      modifies this`toggleActive, this`menuActive, this`overflowHidden
      ensures width > DESKTOP_WIDTH ==> MenuClosed()
      ensures width <= DESKTOP_WIDTH ==>
        toggleActive == old(toggleActive) && menuActive == old(menuActive) && overflowHidden == old(overflowHidden)
      ensures old(MenuInSync()) ==> MenuInSync()
    {
      if width > DESKTOP_WIDTH {
        CloseMenu();
      }
    }
  }
}
