/**
 * The site's navigation bar: the header's "scrolled" class, the scroll-spy
 * that marks the nav link of the section on screen as active, and the
 * Tab / Shift+Tab focus trap inside the nav menu.
 */
module Nav {

  datatype Option<T> = None | Some(value: T)

  /** A `section[id]` element: its id and its layout box, in whole pixels. */
  datatype Section = Section(id: string, offsetTop: int, offsetHeight: int)

  /** How far above a section's top the scroll-spy starts counting it as on screen. */
  const SpyMargin: int := 100

  /** Above this scroll offset the header carries the "scrolled" class. */
  const HeaderThreshold: real := 50.0

  /** `window.pageYOffset || document.documentElement.scrollTop`: a zero offset falls back to the document's. */
  function ScrollTop(pageYOffset: real, documentScrollTop: real): (r: real)
    ensures pageYOffset != 0.0 ==> r == pageYOffset
    ensures pageYOffset == 0.0 ==> r == documentScrollTop
  {
    if pageYOffset != 0.0 then pageYOffset else documentScrollTop
  }

  /** Whether the header shows as scrolled at the given scroll offset. */
  function HeaderScrolled(scrollTop: real): (r: bool)
    ensures r <==> scrollTop > 50.0
    ensures r ==> scrollTop > 0.0
  {
    scrollTop > HeaderThreshold
  }

  /** The scroll-spy's window for a section: above its top less the margin, up to that point plus its height. */
  function Contains(s: Section, scrollY: real): (r: bool)
    ensures r ==> s.offsetHeight > 0
    ensures r ==> (s.offsetTop - 100) as real < scrollY <= (s.offsetTop - 100 + s.offsetHeight) as real
  {
    var top := s.offsetTop - SpyMargin;
    scrollY > top as real && scrollY <= (top + s.offsetHeight) as real
  }

  /**
   * Sections laid out one below the other have disjoint windows, so on such a
   * page at most one section holds the offset and "the last match" is "the match".
   */
  lemma StackedSectionsDisjoint(a: Section, b: Section, scrollY: real)
    requires a.offsetTop + a.offsetHeight <= b.offsetTop
    ensures !(Contains(a, scrollY) && Contains(b, scrollY))
  {
  }

  /** The active flags the inner loop leaves for section `id`: exactly the links whose href is `#id`. */
  function Highlight(hrefs: seq<string>, id: string): (r: seq<bool>)
    ensures |r| == |hrefs|
    ensures forall j :: 0 <= j < |hrefs| ==> (r[j] <==> hrefs[j] == "#" + id)
  {
    seq(|hrefs|, j requires 0 <= j < |hrefs| => hrefs[j] == "#" + id)
  }

  /**
   * The active flags after the outer loop has visited `sections` in document
   * order starting from `flags`: each containing section rewrites all flags.
   */
  function Sweep(sections: seq<Section>, hrefs: seq<string>, scrollY: real, flags: seq<bool>): (r: seq<bool>)
    ensures |flags| == |hrefs| ==> |r| == |hrefs|
    ensures (forall j :: 0 <= j < |sections| ==> !Contains(sections[j], scrollY)) ==> r == flags
  {
    if sections == [] then flags
    else
      var last := sections[|sections| - 1];
      if Contains(last, scrollY) then Highlight(hrefs, last.id)
      else Sweep(sections[..|sections| - 1], hrefs, scrollY, flags)
  }

  /** The index of the last section, in document order, whose window holds `scrollY`, if any. */
  function LastContaining(sections: seq<Section>, scrollY: real): (r: Option<nat>)
    ensures r.Some? ==> r.value < |sections| && Contains(sections[r.value], scrollY)
    ensures r.Some? ==> forall j :: r.value < j < |sections| ==> !Contains(sections[j], scrollY)
    ensures r.None? <==> forall j :: 0 <= j < |sections| ==> !Contains(sections[j], scrollY)
  {
    if sections == [] then None
    else if Contains(sections[|sections| - 1], scrollY) then Some(|sections| - 1)
    else LastContaining(sections[..|sections| - 1], scrollY)
  }

  /**
   * The scroll-spy's effect: when no section holds the scroll offset, the
   * flags are left as they were; otherwise a link is active exactly when its
   * href names the last section that holds it.
   */
  lemma {:induction false} SweepSelectsLastContaining(sections: seq<Section>, hrefs: seq<string>, scrollY: real, flags: seq<bool>)
    ensures LastContaining(sections, scrollY).None? ==> Sweep(sections, hrefs, scrollY, flags) == flags
    ensures LastContaining(sections, scrollY).Some? ==>
      Sweep(sections, hrefs, scrollY, flags) == Highlight(hrefs, sections[LastContaining(sections, scrollY).value].id)
  {
    if sections != [] && !Contains(sections[|sections| - 1], scrollY) {
      SweepSelectsLastContaining(sections[..|sections| - 1], hrefs, scrollY, flags);
    }
  }

  /** What a Tab keydown inside the nav menu does: nothing, or move focus and prevent the default. */
  datatype TabAction<E> = Default | Redirect(target: E)

  /**
   * The nav menu's focus trap over its focusable elements (`a, button`, in
   * document order): Shift+Tab on the first wraps to the last, Tab on the last
   * wraps to the first. With no focusable elements no handler is installed.
   */
  function TrapFocus<E(==)>(focusables: seq<E>, key: string, shiftKey: bool, activeElement: E): (r: TabAction<E>)
    ensures r.Redirect? <==>
      key == "Tab" && |focusables| > 0 &&
      (if shiftKey then activeElement == focusables[0] else activeElement == focusables[|focusables| - 1])
    ensures r.Redirect? ==> r.target in focusables
    ensures r.Redirect? && shiftKey ==> r.target == focusables[|focusables| - 1]
    ensures r.Redirect? && !shiftKey ==> r.target == focusables[0]
  {
    if |focusables| == 0 || key != "Tab" then Default
    else if shiftKey && activeElement == focusables[0] then Redirect(focusables[|focusables| - 1])
    else if !shiftKey && activeElement == focusables[|focusables| - 1] then Redirect(focusables[0])
    else Default
  }

  /**
   * Wrapping is a round trip: Shift+Tab from the first element lands on the
   * last, and Tab from there lands back on the first.
   */
  lemma TrapFocusRoundTrip<E>(focusables: seq<E>)
    requires |focusables| > 0
    ensures TrapFocus(focusables, "Tab", true, focusables[0]) == Redirect(focusables[|focusables| - 1])
    ensures TrapFocus(focusables, "Tab", false, TrapFocus(focusables, "Tab", true, focusables[0]).target)
            == Redirect(focusables[0])
  {
  }

  /**
   * The navigation component: the links' "active" classes and the state the
   * header's scroll handler keeps. The section and link lists are fixed when
   * the component is created; their geometry, ids and hrefs are read afresh
   * on every scroll.
   */
  class Navigation {
    /** How many `section[id]` elements the page has. */
    const sectionCount: nat
    /** Whether each `.nav-link`, in document order, carries the "active" class. */
    const active: array<bool>
    /** Whether the header carries the "scrolled" class. */
    var headerScrolled: bool
    /** The scroll offset seen by the last scroll event. */
    var lastScrollTop: real

    /**
     * Takes the page's sections and links as laid out now, the links' initial
     * "active" classes and the header's initial "scrolled" class, and runs the
     * scroll-spy once for the current offset.
     */
    constructor (sections: seq<Section>, hrefs: seq<string>, initialActive: seq<bool>, headerScrolled: bool, pageYOffset: real)
      requires |initialActive| == |hrefs|
      ensures fresh(active)
      ensures sectionCount == |sections| && active.Length == |hrefs|
      ensures this.headerScrolled == headerScrolled && lastScrollTop == 0.0
      ensures active[..] == Sweep(sections, hrefs, pageYOffset, initialActive)
    {
      sectionCount := |sections|;
      this.headerScrolled := headerScrolled;
      lastScrollTop := 0.0;
      active := new bool[|hrefs|](j => if 0 <= j < |initialActive| then initialActive[j] else false);
      new;
      assert active[..] == initialActive;
      UpdateActiveLink(sections, hrefs, pageYOffset);
    }

    /** The header's scroll handler: sets "scrolled" by the threshold and records the offset. */
    method OnScroll(pageYOffset: real, documentScrollTop: real)
      modifies this
      ensures headerScrolled == HeaderScrolled(ScrollTop(pageYOffset, documentScrollTop))
      ensures lastScrollTop == ScrollTop(pageYOffset, documentScrollTop)
    {
      var scrollTop := if pageYOffset != 0.0 then pageYOffset else documentScrollTop;
      if scrollTop > 50.0 {
        headerScrolled := true;
      } else {
        headerScrolled := false;
      }
      lastScrollTop := scrollTop;
    }

    /**
     * The scroll-spy, given the sections' and links' current geometry, ids and
     * hrefs: for every section whose window holds `scrollY`, in document
     * order, clears every link's "active" class and sets it again on the links
     * whose href is `#` followed by the section's id.
     */
    method UpdateActiveLink(sections: seq<Section>, hrefs: seq<string>, scrollY: real)
      requires |sections| == sectionCount && |hrefs| == active.Length
      modifies active
      ensures active[..] == Sweep(sections, hrefs, scrollY, old(active[..]))
      ensures LastContaining(sections, scrollY).None? ==> active[..] == old(active[..])
      ensures LastContaining(sections, scrollY).Some? ==>
        forall j :: 0 <= j < active.Length ==>
          (active[j] <==> hrefs[j] == "#" + sections[LastContaining(sections, scrollY).value].id)
    {
      ghost var flags := active[..];
      var i := 0;
      while i < |sections|
        invariant 0 <= i <= |sections|
        invariant active[..] == Sweep(sections[..i], hrefs, scrollY, flags)
      {
        var section := sections[i];
        var sectionTop := section.offsetTop - 100;
        if scrollY > sectionTop as real && scrollY <= (sectionTop + section.offsetHeight) as real {
          var j := 0;
          while j < active.Length
            invariant 0 <= j <= active.Length
            invariant forall m :: 0 <= m < j ==> (active[m] <==> hrefs[m] == "#" + section.id)
          {
            active[j] := false;
            if hrefs[j] == "#" + section.id {
              active[j] := true;
            }
            j := j + 1;
          }
          assert active[..] == Highlight(hrefs, section.id);
        }
        assert sections[..i + 1][..i] == sections[..i];
        i := i + 1;
      }
      assert sections[..i] == sections;
      SweepSelectsLastContaining(sections, hrefs, scrollY, flags);
    }
  }
}
