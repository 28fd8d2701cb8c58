/**
 * The navigation controller of main.js (lines 59-233) over an explicit state.
 *
 * The page's static shape (which views exist, the menu items, the sub-menu
 * links and their attributes) is a `Page`; the class lists that the handlers
 * change are a `Nav`. Each function here is one handler of the source, with
 * the state it leaves as its result.
 */
module Navigation {
  import opened Wrappers
  import opened Layout
  import opened Views

  /** A `.menu-item`: whether it holds a `.sub-menu`, and the `data-view` of its first element that has one. */
  datatype MenuItem = MenuItem(hasSubMenu: bool, dataView: Option<string>)

  /** A `.sub-menu a` link: the index of its `.menu-item`, and its `data-view` and `href` attributes. */
  datatype SubLink = SubLink(owner: nat, dataView: Option<string>, href: Option<string>)

  /** What the document holds, fixed once it is loaded. */
  datatype Page = Page(
    viewPresent: seq<bool>,     // getElementById found the section of ViewIds[k]
    hasCulturalResults: bool,   // #cultural-adaptation-results exists
    menu: seq<MenuItem>,        // document.querySelectorAll('.menu-item')
    links: seq<SubLink>,        // document.querySelectorAll('.sub-menu a')
    anchors: Anchors)           // the header and the two sticky cards

  /** The class lists and style properties the handlers change. */
  datatype Nav = Nav(
    hidden: seq<bool>,          // `hidden` on each view section (meaningful where present)
    culturalHidden: bool,       // `hidden` on the cultural-adaptation results area
    active: seq<bool>,          // `active` on each menu item
    open: seq<bool>,            // `open` on each menu item
    linkActive: seq<bool>,      // `active` on each sub-menu link
    noScroll: bool,             // `no-scroll` on the body
    heights: Heights)           // the four custom properties

  ghost predicate WellFormed(p: Page)
  {
    && |p.viewPresent| == |ViewIds|
    && (forall j :: 0 <= j < |p.links| ==> p.links[j].owner < |p.menu| && p.menu[p.links[j].owner].hasSubMenu)
    // both sticky cards are looked up inside #find-consultant-view
    && (!p.viewPresent[FindConsultantIndex] ==> !p.anchors.hasLeft && !p.anchors.hasRight)
  }

  /** The state has one flag per element of the page. */
  ghost predicate Fits(p: Page, s: Nav)
  {
    && |s.hidden| == |ViewIds|
    && |s.active| == |p.menu|
    && |s.open| == |p.menu|
    && |s.linkActive| == |p.links|
  }

  /** View k is on screen: its section exists and is not hidden. */
  ghost predicate Visible(p: Page, s: Nav, k: nat)
    requires WellFormed(p) && Fits(p, s) && k < |ViewIds|
  {
    p.viewPresent[k] && !s.hidden[k]
  }

  /** Every existing view section is hidden except the one named `id`. */
  ghost predicate ViewsShow(p: Page, hidden: seq<bool>, id: string)
    requires WellFormed(p) && |hidden| == |ViewIds|
  {
    forall k :: 0 <= k < |ViewIds| && p.viewPresent[k] ==> hidden[k] == (ViewIds[k] != id)
  }

  /** No menu item and no sub-menu link carries a flag. */
  ghost predicate NothingSelected(s: Nav)
  {
    && (forall i :: 0 <= i < |s.active| ==> !s.active[i])
    && (forall i :: 0 <= i < |s.open| ==> !s.open[i])
    && (forall j :: 0 <= j < |s.linkActive| ==> !s.linkActive[j])
  }

  ghost predicate OnlyActive(s: Nav, i: nat)
  {
    forall k :: 0 <= k < |s.active| ==> (s.active[k] <==> k == i)
  }

  ghost predicate OnlyOpen(s: Nav, i: nat)
  {
    forall k :: 0 <= k < |s.open| ==> (s.open[k] <==> k == i)
  }

  ghost predicate OnlyLinkActive(s: Nav, j: nat)
  {
    forall k :: 0 <= k < |s.linkActive| ==> (s.linkActive[k] <==> k == j)
  }

  ghost predicate NoneActive(s: Nav)
  {
    forall k :: 0 <= k < |s.active| ==> !s.active[k]
  }

  ghost predicate NoneOpen(s: Nav)
  {
    forall k :: 0 <= k < |s.open| ==> !s.open[k]
  }

  ghost predicate NoLinkActive(s: Nav)
  {
    forall k :: 0 <= k < |s.linkActive| ==> !s.linkActive[k]
  }

  /** Going from s to r changed nothing on screen: sections, scroll mode and heights. */
  ghost predicate SameView(s: Nav, r: Nav)
  {
    && r.hidden == s.hidden && r.culturalHidden == s.culturalHidden
    && r.noScroll == s.noScroll && r.heights == s.heights
  }

  /**
   * Going from s to r showed view `id`: it alone is on screen, the
   * cultural results area is hidden when the page has it, the body
   * scrolls unless it is find-consultant, and the heights were re-measured
   * (find-consultant) or the sticky ones zeroed (any other id).
   */
  ghost predicate Navigated(p: Page, s: Nav, r: Nav, id: string, m: Measure)
    requires WellFormed(p) && |r.hidden| == |ViewIds|
  {
    && ViewsShow(p, r.hidden, id)
    && r.culturalHidden == (p.hasCulturalResults || s.culturalHidden)
    && (r.noScroll <==> id == FindConsultant)
    && r.heights == (if id == FindConsultant then UpdateDynamicHeights(p.anchors, s.heights, m)
                     else ResetStickyHeights(s.heights))
  }

  /** A JavaScript value is truthy as a string exactly when it is a non-empty string. */
  predicate Truthy(v: Option<string>)
  {
    v.Some? && v.value != ""
  }

  /** The view a direct-view menu item navigates to: its `data-view`, or the default. */
  function DirectTarget(item: MenuItem): (r: string)
    ensures Truthy(item.dataView) ==> r == item.dataView.value
    ensures !Truthy(item.dataView) ==> r == Default
    ensures r != ""
  {
    if Truthy(item.dataView) then item.dataView.value else Default
  }

  /**
   * `getAttribute('data-view') || getAttribute('href')?.substring(1)`: the
   * link's view, or "" when it has none. `substring(1)` drops the first
   * UTF-16 code unit; the model drops the first character.
   */
  function LinkTarget(l: SubLink): (r: string)
    ensures Truthy(l.dataView) ==> r == l.dataView.value
    ensures !Truthy(l.dataView) && l.href.Some? && |l.href.value| >= 1 ==> r == l.href.value[1..]
    ensures !Truthy(l.dataView) && (l.href.None? || |l.href.value| <= 1) ==> r == ""
  {
    if Truthy(l.dataView) then l.dataView.value
    else match l.href
      case None => ""
      case Some(h) => if |h| == 0 then "" else h[1..]
  }

  function Falses(n: nat): (r: seq<bool>)
    ensures |r| == n && forall i :: 0 <= i < n ==> !r[i]
  {
    seq(n, _ => false)
  }

  /** hideAllViews: every existing view section and the cultural results area get `hidden`. */
  function HideAllViews(p: Page, s: Nav): (r: Nav)
    requires WellFormed(p) && Fits(p, s)
    ensures Fits(p, r)
    ensures forall k :: 0 <= k < |ViewIds| && p.viewPresent[k] ==> r.hidden[k]
    ensures forall k :: 0 <= k < |ViewIds| && !p.viewPresent[k] ==> r.hidden[k] == s.hidden[k]
    ensures r.culturalHidden == (p.hasCulturalResults || s.culturalHidden)
    ensures r.(hidden := s.hidden, culturalHidden := s.culturalHidden) == s
  {
    s.(hidden := seq(|ViewIds|, k requires 0 <= k < |ViewIds| => p.viewPresent[k] || s.hidden[k]),
       culturalHidden := p.hasCulturalResults || s.culturalHidden)
  }

  /** removeAllActiveStates: `active` and `open` leave every menu item, `active` every sub-menu link. */
  function RemoveAllActiveStates(s: Nav): (r: Nav)
    ensures NothingSelected(r)
    ensures |r.active| == |s.active| && |r.open| == |s.open| && |r.linkActive| == |s.linkActive|
    ensures r.(active := s.active, open := s.open, linkActive := s.linkActive) == s
  {
    s.(active := Falses(|s.active|), open := Falses(|s.open|), linkActive := Falses(|s.linkActive|))
  }

  /**
   * showView: only the view named `id` stays on screen (none if the id is not
   * a key or its section is missing); the body scrolls unless `id` is
   * find-consultant; entering find-consultant re-measures the heights with
   * the boxes `m` it has after the reveal, every other view zeroes the
   * sticky ones (help-center twice).
   */
  function ShowView(p: Page, s: Nav, id: string, m: Measure): (r: Nav)
    requires WellFormed(p) && Fits(p, s)
    ensures Fits(p, r)
    ensures ViewsShow(p, r.hidden, id)
    ensures forall k :: 0 <= k < |ViewIds| && !p.viewPresent[k] ==> r.hidden[k] == s.hidden[k]
    ensures r.culturalHidden == (p.hasCulturalResults || s.culturalHidden)
    ensures r.noScroll <==> id == FindConsultant
    ensures id == FindConsultant ==> r.heights == UpdateDynamicHeights(p.anchors, s.heights, m)
    ensures id != FindConsultant ==> r.heights == ResetStickyHeights(s.heights)
    ensures r.active == s.active && r.open == s.open && r.linkActive == s.linkActive
  {
    var h := HideAllViews(p, s);
    var hidden := Reveal(p, h.hidden, id);
    var heights := if id == FindConsultant then UpdateDynamicHeights(p.anchors, s.heights, m)
                   else ResetStickyHeights(s.heights);
    var heights' := if id == HelpCenter then ResetStickyHeights(heights) else heights;
    h.(hidden := hidden, noScroll := id == FindConsultant, heights := heights')
  }

  /**
   * `if (views[viewId]) views[viewId].classList.remove('hidden')` after every
   * existing section was hidden: the section of `id` alone comes back.
   */
  function Reveal(p: Page, hidden: seq<bool>, id: string): (r: seq<bool>)
    requires WellFormed(p) && |hidden| == |ViewIds|
    requires forall k :: 0 <= k < |ViewIds| && p.viewPresent[k] ==> hidden[k]
    ensures |r| == |ViewIds|
    ensures ViewsShow(p, r, id)
    ensures forall k :: 0 <= k < |ViewIds| && !p.viewPresent[k] ==> r[k] == hidden[k]
  {
    var slot := ViewIndex(id);
    var r := if slot.Some? && p.viewPresent[slot.value] then hidden[slot.value := false] else hidden;
    ViewIdsDistinct();
    RevealShows(ViewIds, p.viewPresent, hidden, id, slot, r);
    r
  }

  /** The reveal step over any table of distinct keys. */
  lemma RevealShows(ids: seq<string>, present: seq<bool>, hidden: seq<bool>, id: string, slot: Option<nat>, r: seq<bool>)
    requires |present| == |ids| && |hidden| == |ids|
    requires forall i, j :: 0 <= i < |ids| && 0 <= j < |ids| && ids[i] == ids[j] ==> i == j
    requires forall k :: 0 <= k < |ids| && present[k] ==> hidden[k]
    requires slot.Some? ==> slot.value < |ids| && ids[slot.value] == id
    requires slot.None? ==> id !in ids
    requires r == if slot.Some? && present[slot.value] then hidden[slot.value := false] else hidden
    ensures forall k :: 0 <= k < |ids| && present[k] ==> r[k] == (ids[k] != id)
  {
  }

  /** activateMenuItem: item i becomes the only flagged menu entry, active and not open. */
  function ActivateMenuItem(p: Page, s: Nav, i: nat): (r: Nav)
    requires Fits(p, s) && i < |p.menu|
    ensures Fits(p, r)
    ensures forall k :: 0 <= k < |r.active| ==> (r.active[k] <==> k == i)
    ensures forall k :: 0 <= k < |r.open| ==> !r.open[k]
    ensures forall j :: 0 <= j < |r.linkActive| ==> !r.linkActive[j]
    ensures r.hidden == s.hidden && r.culturalHidden == s.culturalHidden
    ensures r.noScroll == s.noScroll && r.heights == s.heights
  {
    var c := RemoveAllActiveStates(s);
    c.(active := c.active[i := true])
  }

  /**
   * handleMenuItemClick on the header of item i. An item with a sub-menu
   * toggles: open, it closes with everything else and the default view comes
   * back; closed, it becomes the only open item and the view stays. A direct
   * item: active, everything is cleared and the default view comes back;
   * otherwise it becomes the only active item and its view is shown.
   */
  function HandleMenuItemClick(p: Page, s: Nav, i: nat, m: Measure): (r: Nav)
    requires WellFormed(p) && Fits(p, s) && i < |p.menu|
    ensures Fits(p, r)
    ensures p.menu[i].hasSubMenu && s.open[i] ==>
      NothingSelected(r) && Navigated(p, s, r, Default, m)
    ensures p.menu[i].hasSubMenu && !s.open[i] ==>
      OnlyOpen(r, i) && NoneActive(r) && NoLinkActive(r) && SameView(s, r)
    ensures !p.menu[i].hasSubMenu && s.active[i] ==>
      NothingSelected(r) && Navigated(p, s, r, Default, m)
    ensures !p.menu[i].hasSubMenu && !s.active[i] ==>
      OnlyActive(r, i) && NoneOpen(r) && NoLinkActive(r) && Navigated(p, s, r, DirectTarget(p.menu[i]), m)
  {
    var item := p.menu[i];
    if item.hasSubMenu then
      if s.open[i] then
        ShowView(p, RemoveAllActiveStates(s.(open := s.open[i := false])), Default, m)
      else
        var c := RemoveAllActiveStates(s);
        c.(open := c.open[i := true])
    else if s.active[i] then
      ShowView(p, RemoveAllActiveStates(s), Default, m)
    else
      ShowView(p, ActivateMenuItem(p, s, i), DirectTarget(item), m)
  }

  /**
   * handleSubMenuItemClick on link j: its menu item becomes the only active
   * and open one, link j the only active link, and its view is shown when it
   * names one.
   */
  function HandleSubMenuItemClick(p: Page, s: Nav, j: nat, m: Measure): (r: Nav)
    requires WellFormed(p) && Fits(p, s) && j < |p.links|
    ensures Fits(p, r)
    ensures OnlyActive(r, p.links[j].owner) && OnlyOpen(r, p.links[j].owner) && OnlyLinkActive(r, j)
    ensures LinkTarget(p.links[j]) != "" ==> Navigated(p, s, r, LinkTarget(p.links[j]), m)
    ensures LinkTarget(p.links[j]) == "" ==> SameView(s, r)
  {
    var l := p.links[j];
    var c := RemoveAllActiveStates(s);
    var c' := c.(active := c.active[l.owner := true], open := c.open[l.owner := true]);
    var c'' := c'.(linkActive := Falses(|p.links|)[j := true]);
    var target := LinkTarget(l);
    if target != "" then ShowView(p, c'', target, m) else c''
  }

  /** `firstMenuItem.querySelector('a[href="#comparison"]')`: the first link of item 0 pointing at #comparison. */
  function ComparisonLink(p: Page): (r: Option<nat>)
    ensures r.Some? ==> r.value < |p.links| && p.links[r.value].owner == 0 && p.links[r.value].href == Some("#comparison")
    ensures r.Some? ==> forall j :: 0 <= j < r.value ==> !(p.links[j].owner == 0 && p.links[j].href == Some("#comparison"))
    ensures r.None? ==> forall j :: 0 <= j < |p.links| ==> !(p.links[j].owner == 0 && p.links[j].href == Some("#comparison"))
  {
    FirstComparisonLink(p.links, 0)
  }

  function FirstComparisonLink(links: seq<SubLink>, from: nat): (r: Option<nat>)
    requires from <= |links|
    ensures r.Some? ==> from <= r.value < |links| && links[r.value].owner == 0 && links[r.value].href == Some("#comparison")
    ensures r.Some? ==> forall j :: from <= j < r.value ==> !(links[j].owner == 0 && links[j].href == Some("#comparison"))
    ensures r.None? ==> forall j :: from <= j < |links| ==> !(links[j].owner == 0 && links[j].href == Some("#comparison"))
    decreases |links| - from
  {
    if from == |links| then None
    else if links[from].owner == 0 && links[from].href == Some("#comparison") then Some(from)
    else FirstComparisonLink(links, from + 1)
  }

  /**
   * Page load: the heights are measured once with the boxes `m` (line 35),
   * the default view is shown, and the first menu item, if any, gets
   * `active` and `open`, and its #comparison link `active`, without clearing
   * anything the markup already carried.
   */
  function Bootstrap(p: Page, s: Nav, m: Measure): (r: Nav)
    requires WellFormed(p) && Fits(p, s)
    ensures Fits(p, r)
    ensures ViewsShow(p, r.hidden, Default) && !r.noScroll
    ensures r.culturalHidden == (p.hasCulturalResults || s.culturalHidden)
    ensures r.heights == ResetStickyHeights(UpdateDynamicHeights(p.anchors, s.heights, m))
    ensures |p.menu| > 0 ==> r.active[0] && r.open[0]
    ensures forall k :: 0 < k < |p.menu| ==> r.active[k] == s.active[k] && r.open[k] == s.open[k]
    ensures ComparisonLink(p).Some? ==> r.linkActive[ComparisonLink(p).value]
    ensures forall j :: 0 <= j < |p.links| && ComparisonLink(p) != Some(j) ==> r.linkActive[j] == s.linkActive[j]
  {
    var loaded := s.(heights := UpdateDynamicHeights(p.anchors, s.heights, m));
    var shown := ShowView(p, loaded, Default, m);
    if |p.menu| == 0 then shown
    else
      var first := shown.(active := shown.active[0 := true], open := shown.open[0 := true]);
      match ComparisonLink(p)
      case None => first
      case Some(j) => first.(linkActive := first.linkActive[j := true])
  }
}
