/**
 * What holds of the dashboard over any sequence of clicks and window
 * resizes after the page has loaded: at most one view on screen, at most
 * one menu entry and at most one sub-menu link selected, an active
 * sub-menu entry holding the active link, the selected direct entry or
 * link naming the view on screen, and the sticky
 * heights coherent and zero outside find-consultant.
 */
module NavigationInvariants {
  import opened Wrappers
  import opened Layout
  import opened Views
  import opened Navigation

  /** The browser events the controller reacts to, each with the boxes measured while handling it. */
  datatype Event =
    | MenuClick(item: nat, m: Measure)      // click on the header of a menu item
    | SubMenuClick(link: nat, m: Measure)   // click on a sub-menu link
    | Resize(m: Measure)                    // window resize: updateDynamicHeights

  ghost predicate AtMostOneVisible(p: Page, s: Nav)
    requires WellFormed(p) && Fits(p, s)
  {
    forall k1, k2 :: 0 <= k1 < |ViewIds| && 0 <= k2 < |ViewIds| && Visible(p, s, k1) && Visible(p, s, k2) ==> k1 == k2
  }

  /** Menu item i carries `active` or `open`. */
  ghost predicate Flagged(s: Nav, i: nat)
    requires i < |s.active| && i < |s.open|
  {
    s.active[i] || s.open[i]
  }

  ghost predicate AtMostOneMenuEntry(s: Nav)
    requires |s.active| == |s.open|
  {
    forall i1, i2 :: 0 <= i1 < |s.active| && 0 <= i2 < |s.active| && Flagged(s, i1) && Flagged(s, i2) ==> i1 == i2
  }

  ghost predicate AtMostOneLink(s: Nav)
  {
    forall j1, j2 :: 0 <= j1 < |s.linkActive| && 0 <= j2 < |s.linkActive| && s.linkActive[j1] && s.linkActive[j2] ==> j1 == j2
  }

  /** An active link sits under the active, open menu item. */
  ghost predicate LinkUnderItem(p: Page, s: Nav)
    requires WellFormed(p) && Fits(p, s)
  {
    forall j :: 0 <= j < |p.links| && s.linkActive[j] ==> s.active[p.links[j].owner] && s.open[p.links[j].owner]
  }

  /** An active sub-menu item has an active link of its own. */
  ghost predicate ActiveItemHasLink(p: Page, s: Nav)
    requires WellFormed(p) && Fits(p, s)
  {
    forall i :: 0 <= i < |p.menu| && p.menu[i].hasSubMenu && s.active[i] ==>
      exists j :: 0 <= j < |p.links| && p.links[j].owner == i && s.linkActive[j]
  }

  /** An active direct-view item is the view on screen. */
  ghost predicate DirectItemShown(p: Page, s: Nav)
    requires WellFormed(p) && Fits(p, s)
  {
    forall i :: 0 <= i < |p.menu| && !p.menu[i].hasSubMenu && s.active[i] ==> ViewsShow(p, s.hidden, DirectTarget(p.menu[i]))
  }

  /** An active link with a non-empty target is the view on screen. */
  ghost predicate LinkShown(p: Page, s: Nav)
    requires WellFormed(p) && Fits(p, s)
  {
    forall j :: 0 <= j < |p.links| && s.linkActive[j] && LinkTarget(p.links[j]) != "" ==> ViewsShow(p, s.hidden, LinkTarget(p.links[j]))
  }

  /** The sticky heights are 0 while find-consultant is not on screen. */
  ghost predicate StickyZeroOffView(p: Page, s: Nav)
    requires WellFormed(p) && Fits(p, s)
  {
    FindConsultantSlot();
    !Visible(p, s, FindConsultantIndex) ==> s.heights.left == 0 && s.heights.right == 0 && s.heights.stickyMax == 0
  }

  /** The body has `no-scroll` exactly while find-consultant is on screen (when the page has that view). */
  ghost predicate ScrollMatchesView(p: Page, s: Nav)
    requires WellFormed(p) && Fits(p, s)
  {
    FindConsultantSlot();
    p.viewPresent[FindConsultantIndex] ==> (s.noScroll <==> Visible(p, s, FindConsultantIndex))
  }

  ghost predicate Inv(p: Page, s: Nav)
    requires WellFormed(p)
  {
    && Fits(p, s)
    && AtMostOneVisible(p, s)
    && AtMostOneMenuEntry(s)
    && AtMostOneLink(s)
    && LinkUnderItem(p, s)
    && ActiveItemHasLink(p, s)
    && DirectItemShown(p, s)
    && LinkShown(p, s)
    && Coherent(p.anchors, s.heights)
    && StickyZeroOffView(p, s)
    && ScrollMatchesView(p, s)
  }

  /** The event names an element of the page. */
  ghost predicate InRange(p: Page, e: Event)
  {
    match e
    case MenuClick(i, _) => i < |p.menu|
    case SubMenuClick(j, _) => j < |p.links|
    case Resize(_) => true
  }

  function Step(p: Page, s: Nav, e: Event): (r: Nav)
    requires WellFormed(p) && Fits(p, s) && InRange(p, e)
    ensures Fits(p, r)
  {
    match e
    case MenuClick(i, m) => HandleMenuItemClick(p, s, i, m)
    case SubMenuClick(j, m) => HandleSubMenuItemClick(p, s, j, m)
    case Resize(m) => s.(heights := UpdateDynamicHeights(p.anchors, s.heights, m))
  }

  /**
   * The layout assumption behind resizes: the sticky cards of a
   * find-consultant view that is not on screen have empty boxes (its
   * section is `hidden`, hence not rendered).
   */
  ghost predicate LaidOut(p: Page, s: Nav, m: Measure)
    requires WellFormed(p) && Fits(p, s)
  {
    FindConsultantSlot();
    !Visible(p, s, FindConsultantIndex) ==> m.left == 0 && m.right == 0
  }

  ghost predicate Plausible(p: Page, s: Nav, e: Event)
    requires WellFormed(p) && Fits(p, s)
  {
    InRange(p, e) && (e.Resize? ==> LaidOut(p, s, e.m))
  }

  /** Every event of the run is in range and every resize measures the page as laid out. */
  ghost predicate PlausibleRun(p: Page, s: Nav, evs: seq<Event>)
    requires WellFormed(p) && Fits(p, s)
    decreases |evs|
  {
    |evs| > 0 ==> Plausible(p, s, evs[0]) && PlausibleRun(p, Step(p, s, evs[0]), evs[1..])
  }

  function Run(p: Page, s: Nav, evs: seq<Event>): (r: Nav)
    requires WellFormed(p) && Fits(p, s) && PlausibleRun(p, s, evs)
    ensures Fits(p, r)
    decreases |evs|
  {
    if |evs| == 0 then s else Run(p, Step(p, s, evs[0]), evs[1..])
  }

  /** Showing a view puts at most that one view on screen. */
  lemma ShowingIsExclusive(p: Page, s: Nav, id: string)
    requires WellFormed(p) && Fits(p, s) && ViewsShow(p, s.hidden, id)
    ensures AtMostOneVisible(p, s)
    ensures forall k :: 0 <= k < |ViewIds| ==> (Visible(p, s, k) <==> p.viewPresent[k] && ViewIds[k] == id)
  {
    ViewIdsDistinct();
  }

  /** What showing `id` says about find-consultant and the scroll mode. */
  lemma ShowingFindConsultant(p: Page, s: Nav, id: string)
    requires WellFormed(p) && Fits(p, s) && ViewsShow(p, s.hidden, id)
    ensures FindConsultantIndex < |ViewIds|
    ensures Visible(p, s, FindConsultantIndex) <==> p.viewPresent[FindConsultantIndex] && id == FindConsultant
  {
    FindConsultantSlot();
  }

  /**
   * The screen part of the invariant, for a state that shows `id` with the
   * scroll mode and heights that showing it leaves.
   */
  lemma ScreenInv(p: Page, r: Nav, id: string)
    requires WellFormed(p) && Fits(p, r) && ViewsShow(p, r.hidden, id)
    requires (r.noScroll <==> id == FindConsultant) && Coherent(p.anchors, r.heights)
    requires id != FindConsultant ==> r.heights.left == 0 && r.heights.right == 0
    ensures AtMostOneVisible(p, r) && StickyZeroOffView(p, r) && ScrollMatchesView(p, r)
  {
    ShowingIsExclusive(p, r, id);
    ShowingFindConsultant(p, r, id);
  }

  /** After a navigation with the menu flags already valid, every part of the invariant holds. */
  lemma NavigatedKeepsInv(p: Page, s: Nav, r: Nav, id: string, m: Measure)
    requires WellFormed(p) && Inv(p, s) && Fits(p, r)
    requires Navigated(p, s, r, id, m)
    requires AtMostOneMenuEntry(r) && AtMostOneLink(r) && LinkUnderItem(p, r) && ActiveItemHasLink(p, r)
    requires DirectItemShown(p, r) && LinkShown(p, r)
    ensures Inv(p, r)
  {
    if id == FindConsultant {
      UpdateKeepsCoherent(p.anchors, s.heights, m);
    } else {
      ResetIsCoherent(p.anchors, s.heights);
    }
    ScreenInv(p, r, id);
  }

  /** A step that leaves the screen alone and leaves valid selection flags keeps the invariant. */
  lemma SelectionKeepsInv(p: Page, s: Nav, r: Nav)
    requires WellFormed(p) && Inv(p, s) && Fits(p, r) && SameView(s, r)
    requires AtMostOneMenuEntry(r) && AtMostOneLink(r) && LinkUnderItem(p, r) && ActiveItemHasLink(p, r)
    requires DirectItemShown(p, r) && LinkShown(p, r)
    ensures Inv(p, r)
  {
    assert forall k :: 0 <= k < |ViewIds| ==> Visible(p, r, k) == Visible(p, s, k);
  }

  /** Flags confined to menu item i and no active link satisfy the selection part of the invariant. */
  lemma OneItemSelected(p: Page, r: Nav, i: nat)
    requires WellFormed(p) && Fits(p, r) && i < |p.menu|
    requires OnlyActive(r, i) || NoneActive(r)
    requires OnlyOpen(r, i) || NoneOpen(r)
    requires NoLinkActive(r)
    ensures AtMostOneMenuEntry(r) && AtMostOneLink(r) && LinkUnderItem(p, r)
  {
    assert forall k :: 0 <= k < |p.menu| && Flagged(r, k) ==> k == i;
  }

  lemma MenuClickKeepsInv(p: Page, s: Nav, i: nat, m: Measure)
    requires WellFormed(p) && Inv(p, s) && i < |p.menu|
    ensures Inv(p, HandleMenuItemClick(p, s, i, m))
  {
    var r := HandleMenuItemClick(p, s, i, m);
    var item := p.menu[i];
    OneItemSelected(p, r, i);
    if item.hasSubMenu && !s.open[i] {
      SelectionKeepsInv(p, s, r);
    } else if item.hasSubMenu || s.active[i] {
      NavigatedKeepsInv(p, s, r, Default, m);
    } else {
      NavigatedKeepsInv(p, s, r, DirectTarget(item), m);
    }
  }

  lemma SubMenuClickKeepsInv(p: Page, s: Nav, j: nat, m: Measure)
    requires WellFormed(p) && Inv(p, s) && j < |p.links|
    ensures Inv(p, HandleSubMenuItemClick(p, s, j, m))
  {
    var r := HandleSubMenuItemClick(p, s, j, m);
    var owner := p.links[j].owner;
    assert p.menu[owner].hasSubMenu;
    assert AtMostOneMenuEntry(r) by {
      assert forall k :: 0 <= k < |p.menu| && Flagged(r, k) ==> k == owner;
    }
    var t := LinkTarget(p.links[j]);
    if t != "" {
      NavigatedKeepsInv(p, s, r, t, m);
    } else {
      SelectionKeepsInv(p, s, r);
    }
  }

  lemma ResizeKeepsInv(p: Page, s: Nav, m: Measure)
    requires WellFormed(p) && Inv(p, s) && LaidOut(p, s, m)
    ensures Inv(p, s.(heights := UpdateDynamicHeights(p.anchors, s.heights, m)))
  {
    var r := s.(heights := UpdateDynamicHeights(p.anchors, s.heights, m));
    FindConsultantSlot();
    UpdateKeepsCoherent(p.anchors, s.heights, m);
    assert forall k :: 0 <= k < |ViewIds| ==> Visible(p, r, k) == Visible(p, s, k);
    assert forall k :: 0 <= k < |p.menu| ==> Flagged(r, k) == Flagged(s, k);
  }

  lemma StepKeepsInv(p: Page, s: Nav, e: Event)
    requires WellFormed(p) && Inv(p, s) && Plausible(p, s, e)
    ensures Inv(p, Step(p, s, e))
  {
    match e
    case MenuClick(i, m) => MenuClickKeepsInv(p, s, i, m);
    case SubMenuClick(j, m) => SubMenuClickKeepsInv(p, s, j, m);
    case Resize(m) => ResizeKeepsInv(p, s, m);
  }

  /** Any plausible run from a state that satisfies the invariant keeps it. */
  lemma {:induction false} RunKeepsInv(p: Page, s: Nav, evs: seq<Event>)
    requires WellFormed(p) && Inv(p, s) && PlausibleRun(p, s, evs)
    ensures Inv(p, Run(p, s, evs))
    decreases |evs|
  {
    if |evs| > 0 {
      StepKeepsInv(p, s, evs[0]);
      RunKeepsInv(p, Step(p, s, evs[0]), evs[1..]);
    }
  }

  /** The markup carries no `active` or `open` class on menu items and links. */
  ghost predicate CleanMarkup(s: Nav)
  {
    NothingSelected(s)
  }

  /**
   * The first menu item is the dashboard group: a sub-menu with a
   * #comparison link that leads to the default view, or a direct item for
   * the default view.
   */
  ghost predicate FirstItemIsDefault(p: Page)
  {
    && (|p.menu| > 0 && !p.menu[0].hasSubMenu ==> DirectTarget(p.menu[0]) == Default)
    && (|p.menu| > 0 && p.menu[0].hasSubMenu ==> ComparisonLink(p).Some?)
    && (ComparisonLink(p).Some? ==> LinkTarget(p.links[ComparisonLink(p).value]) == Default)
  }

  /**
   * Without that assumption load can break the invariant: a #comparison
   * link of the first item whose `data-view` names another view is
   * highlighted while `comparison` is on screen.
   */
  lemma BootstrapHighlightsOtherView(p: Page, s: Nav, m: Measure)
    requires WellFormed(p) && Fits(p, s) && ComparisonLink(p).Some?
    requires LinkTarget(p.links[ComparisonLink(p).value]) != Default
    requires p.viewPresent[DefaultIndex]
    ensures !LinkShown(p, Bootstrap(p, s, m))
  {
    var r := Bootstrap(p, s, m);
    var j := ComparisonLink(p).value;
    DefaultSlot();
    var t := LinkTarget(p.links[j]);
    assert t != "" && r.linkActive[j];
    assert !ViewsShow(p, r.hidden, t) by {
      assert ViewsShow(p, r.hidden, Default);
      assert !r.hidden[DefaultIndex] && ViewIds[DefaultIndex] != t;
    }
  }

  /**
   * After loading clean markup, the invariant holds; the first menu item is
   * the only flagged one, active and open; its #comparison link, if it has
   * one, is the only active link.
   */
  lemma BootstrapEstablishesInv(p: Page, s: Nav, m: Measure)
    requires WellFormed(p) && Fits(p, s) && CleanMarkup(s) && FirstItemIsDefault(p)
    ensures Inv(p, Bootstrap(p, s, m))
    ensures |p.menu| > 0 ==> OnlyActive(Bootstrap(p, s, m), 0) && OnlyOpen(Bootstrap(p, s, m), 0)
    ensures ComparisonLink(p).Some? ==> OnlyLinkActive(Bootstrap(p, s, m), ComparisonLink(p).value)
    ensures ComparisonLink(p).None? ==> NoLinkActive(Bootstrap(p, s, m))
  {
    var r := Bootstrap(p, s, m);
    BootstrapSelection(p, s, m);
    ResetIsCoherent(p.anchors, UpdateDynamicHeights(p.anchors, s.heights, m));
    ScreenInv(p, r, Default);
    assert AtMostOneMenuEntry(r) by {
      forall i1, i2 | 0 <= i1 < |r.active| && 0 <= i2 < |r.active| && Flagged(r, i1) && Flagged(r, i2)
        ensures i1 == i2
      {
        assert i1 == 0 && i2 == 0;
      }
    }
    BootstrapLinks(p, s, m);
  }

  /** The link part of the invariant after loading clean markup. */
  lemma BootstrapLinks(p: Page, s: Nav, m: Measure)
    requires WellFormed(p) && Fits(p, s) && CleanMarkup(s) && FirstItemIsDefault(p)
    ensures AtMostOneLink(Bootstrap(p, s, m)) && LinkUnderItem(p, Bootstrap(p, s, m))
    ensures ActiveItemHasLink(p, Bootstrap(p, s, m)) && LinkShown(p, Bootstrap(p, s, m))
  {
    var r := Bootstrap(p, s, m);
    BootstrapSelection(p, s, m);
    if |p.menu| > 0 && p.menu[0].hasSubMenu {
      var j := ComparisonLink(p).value;
      assert p.links[j].owner == 0 && r.linkActive[j];
    }
    if ComparisonLink(p).Some? {
      assert LinkTarget(p.links[ComparisonLink(p).value]) == Default;
    }
  }

  /** The menu and link flags that loading clean markup leaves. */
  lemma BootstrapSelection(p: Page, s: Nav, m: Measure)
    requires WellFormed(p) && Fits(p, s) && CleanMarkup(s)
    ensures |p.menu| > 0 ==> OnlyActive(Bootstrap(p, s, m), 0) && OnlyOpen(Bootstrap(p, s, m), 0)
    ensures |p.menu| == 0 ==> NoneActive(Bootstrap(p, s, m)) && NoneOpen(Bootstrap(p, s, m))
    ensures ComparisonLink(p).Some? ==> OnlyLinkActive(Bootstrap(p, s, m), ComparisonLink(p).value)
    ensures ComparisonLink(p).None? ==> NoLinkActive(Bootstrap(p, s, m))
  {
    var r := Bootstrap(p, s, m);
    var c := ComparisonLink(p);
    assert forall k :: 0 < k < |p.menu| ==> !r.active[k] && !r.open[k];
    assert forall j :: 0 <= j < |p.links| && c != Some(j) ==> !r.linkActive[j];
    if |p.menu| == 0 {
      assert c.None?;
    }
  }

  /** Every state reached from clean markup by plausible events satisfies the invariant. */
  lemma Reachable(p: Page, s: Nav, m: Measure, evs: seq<Event>)
    requires WellFormed(p) && Fits(p, s) && CleanMarkup(s) && FirstItemIsDefault(p)
    requires PlausibleRun(p, Bootstrap(p, s, m), evs)
    ensures Inv(p, Run(p, Bootstrap(p, s, m), evs))
  {
    BootstrapEstablishesInv(p, s, m);
    RunKeepsInv(p, Bootstrap(p, s, m), evs);
  }

  /** Under the invariant the sticky heights are 0 whenever the body scrolls. */
  lemma ScrollingMeansNoStickyHeights(p: Page, s: Nav)
    requires WellFormed(p) && Inv(p, s) && !s.noScroll
    ensures s.heights.left == 0 && s.heights.right == 0 && s.heights.stickyMax == 0
  {
    FindConsultantSlot();
  }

  /**
   * Under the invariant an absent sticky card's property is 0, although
   * updateDynamicHeights itself never writes it.
   */
  lemma AbsentCardIsZero(p: Page, s: Nav)
    requires WellFormed(p) && Inv(p, s)
    ensures !p.anchors.hasRight ==> s.heights.right == 0
    ensures !p.anchors.hasLeft ==> s.heights.left == 0
    ensures s.heights.stickyMax == Max(s.heights.left, s.heights.right)
  {
  }

  /** Clicking the header of a sub-menu item flips its `open` flag. */
  lemma ToggleFlipsOpen(p: Page, s: Nav, i: nat, m: Measure)
    requires WellFormed(p) && Fits(p, s) && i < |p.menu| && p.menu[i].hasSubMenu
    ensures HandleMenuItemClick(p, s, i, m).open[i] == !s.open[i]
  {
  }

  /** n clicks on the header of item i, each measuring the boxes `m`. */
  function RepeatClick(p: Page, s: Nav, i: nat, m: Measure, n: nat): (r: Nav)
    requires WellFormed(p) && Fits(p, s) && i < |p.menu|
    ensures Fits(p, r)
    decreases n
  {
    if n == 0 then s else RepeatClick(p, HandleMenuItemClick(p, s, i, m), i, m, n - 1)
  }

  /** An odd number of header clicks toggles a sub-menu, an even number leaves it as it was. */
  lemma {:induction false} ClickParity(p: Page, s: Nav, i: nat, m: Measure, n: nat)
    requires WellFormed(p) && Fits(p, s) && i < |p.menu| && p.menu[i].hasSubMenu
    ensures RepeatClick(p, s, i, m, n).open[i] == (if n % 2 == 0 then s.open[i] else !s.open[i])
    decreases n
  {
    if n > 0 {
      var next := HandleMenuItemClick(p, s, i, m);
      ClickParity(p, next, i, m, n - 1);
      ToggleFlipsOpen(p, s, i, m);
      Parity(n, s.open[i], next.open[i], RepeatClick(p, next, i, m, n - 1).open[i]);
    }
  }

  lemma Parity(n: nat, b: bool, b1: bool, bn: bool)
    requires n > 0 && b1 == !b
    requires bn == (if (n - 1) % 2 == 0 then b1 else !b1)
    ensures bn == (if n % 2 == 0 then b else !b)
  {
  }

  /**
   * With sub-menu item i open, nothing else selected and the default view on
   * screen, two clicks on its header give back exactly the same state.
   */
  lemma DoubleToggleRestores(p: Page, s: Nav, i: nat, m1: Measure, m2: Measure)
    requires WellFormed(p) && Fits(p, s) && i < |p.menu| && p.menu[i].hasSubMenu
    requires OnlyOpen(s, i) && NoneActive(s) && NoLinkActive(s)
    requires ViewsShow(p, s.hidden, Default) && !s.noScroll
    requires s.heights.left == 0 && s.heights.right == 0 && s.heights.stickyMax == 0
    requires p.hasCulturalResults ==> s.culturalHidden
    ensures HandleMenuItemClick(p, HandleMenuItemClick(p, s, i, m1), i, m2) == s
  {
    var closed := HandleMenuItemClick(p, s, i, m1);
    var r := HandleMenuItemClick(p, closed, i, m2);
    assert closed.hidden == s.hidden;
    assert r.active == s.active;
    assert r.open == s.open;
    assert r.linkActive == s.linkActive;
  }

  /**
   * Clicking a direct-view item twice ends with nothing selected and the
   * default view on screen, whatever the first click showed.
   */
  lemma DirectTwiceFallsBack(p: Page, s: Nav, i: nat, m1: Measure, m2: Measure)
    requires WellFormed(p) && Fits(p, s) && i < |p.menu| && !p.menu[i].hasSubMenu && !s.active[i]
    ensures var r := HandleMenuItemClick(p, HandleMenuItemClick(p, s, i, m1), i, m2);
      NothingSelected(r) && ViewsShow(p, r.hidden, Default) && !r.noScroll
      && r.heights.left == 0 && r.heights.right == 0 && r.heights.stickyMax == 0
  {
    var first := HandleMenuItemClick(p, s, i, m1);
    assert first.active[i];
  }
}
