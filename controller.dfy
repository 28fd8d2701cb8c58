/**
 * The dashboard as main.js runs it: the class lists live in arrays that the
 * handlers update in place, one loop per `forEach` of the source, and the
 * custom properties and inline styles in fields. Every method is proved to
 * leave the state that the matching function of module Navigation (or Chat)
 * describes, so the properties proved there hold of these objects too.
 */
module Controller {
  import opened Wrappers
  import opened Layout
  import opened Views
  import N = Navigation
  import Chat

  class Dashboard {
    /** The document's static shape. */
    const page: N.Page
    /** `hidden` on each view section, indexed like ViewIds. */
    const hidden: array<bool>
    /** `active` and `open` on each `.menu-item`. */
    const active: array<bool>
    const open: array<bool>
    /** `active` on each `.sub-menu a`. */
    const linkActive: array<bool>
    var culturalHidden: bool
    var noScroll: bool
    /** --main-header-h, --left-sticky-h, --right-sticky-h, --sticky-max-h */
    var headerH: nat
    var leftH: nat
    var rightH: nat
    var stickyMax: nat

    ghost predicate Valid()
    {
      && N.WellFormed(page)
      && hidden.Length == |ViewIds|
      && active.Length == |page.menu| && open.Length == |page.menu|
      && linkActive.Length == |page.links|
      && hidden != active && hidden != open && hidden != linkActive
      && active != open && active != linkActive && open != linkActive
    }

    /** The state as a value. */
    function State(): (s: N.Nav)
      reads this, hidden, active, open, linkActive
      requires Valid()
      ensures N.Fits(page, s)
    {
      N.Nav(hidden[..], culturalHidden, active[..], open[..], linkActive[..], noScroll,
            Heights(headerH, leftH, rightH, stickyMax))
    }

    /** The document as parsed, before any script ran. */
    constructor (p: N.Page, markup: N.Nav)
      requires N.WellFormed(p) && N.Fits(p, markup)
      ensures Valid() && page == p && State() == markup
      ensures fresh(hidden) && fresh(active) && fresh(open) && fresh(linkActive)
    {
      page := p;
      hidden := new bool[|ViewIds|](k requires 0 <= k < |ViewIds| reads {} => markup.hidden[k]);
      active := new bool[|p.menu|](k requires 0 <= k < |p.menu| reads {} => markup.active[k]);
      open := new bool[|p.menu|](k requires 0 <= k < |p.menu| reads {} => markup.open[k]);
      linkActive := new bool[|p.links|](k requires 0 <= k < |p.links| reads {} => markup.linkActive[k]);
      culturalHidden := markup.culturalHidden;
      noScroll := markup.noScroll;
      headerH, leftH, rightH, stickyMax := markup.heights.header, markup.heights.left, markup.heights.right, markup.heights.stickyMax;
    }

    /** updateDynamicHeights, with the boxes `m` measured now (also the resize handler). */
    method UpdateDynamicHeights(m: Measure)
      requires Valid()
      modifies this`headerH, this`leftH, this`rightH, this`stickyMax
      ensures State() == old(State()).(heights := Layout.UpdateDynamicHeights(page.anchors, old(State()).heights, m))
    {
      if page.anchors.hasHeader {
        headerH := m.header;
      }
      if page.anchors.hasLeft {
        leftH := m.left;
      }
      if page.anchors.hasRight {
        rightH := m.right;
      }
      var left := if page.anchors.hasLeft then m.left else 0;
      var right := if page.anchors.hasRight then m.right else 0;
      stickyMax := Max(left, right);
    }

    method ResetStickyHeights()
      requires Valid()
      modifies this`leftH, this`rightH, this`stickyMax
      ensures State() == old(State()).(heights := Layout.ResetStickyHeights(old(State()).heights))
    {
      leftH, rightH, stickyMax := 0, 0, 0;
    }

    /** The `forEach` over the view sections. */
    method HideSections()
      requires Valid()
      modifies hidden
      ensures forall k :: 0 <= k < hidden.Length ==> hidden[k] == (page.viewPresent[k] || old(hidden[k]))
    {
      var k := 0;
      while k < hidden.Length
        invariant 0 <= k <= hidden.Length
        invariant forall q :: 0 <= q < k ==> hidden[q] == (page.viewPresent[q] || old(hidden[q]))
        invariant forall q :: k <= q < hidden.Length ==> hidden[q] == old(hidden[q])
      {
        if page.viewPresent[k] {
          hidden[k] := true;
        }
        k := k + 1;
      }
    }

    method HideAllViews()
      requires Valid()
      modifies hidden, this`culturalHidden
      ensures State() == N.HideAllViews(page, old(State()))
    {
      HideSections();
      if page.hasCulturalResults {
        culturalHidden := true;
      }
      assert hidden[..] == N.HideAllViews(page, old(State())).hidden;
    }

    /** The `forEach` over the menu items. */
    method ClearMenuItems()
      requires Valid()
      modifies active, open
      ensures active[..] == N.Falses(active.Length) && open[..] == N.Falses(open.Length)
    {
      var k := 0;
      while k < active.Length
        invariant 0 <= k <= active.Length
        invariant forall q :: 0 <= q < k ==> !active[q] && !open[q]
      {
        active[k] := false;
        open[k] := false;
        k := k + 1;
      }
      assert active[..] == N.Falses(active.Length);
      assert open[..] == N.Falses(open.Length);
    }

    /** The `forEach` over the sub-menu links. */
    method ClearLinks()
      requires Valid()
      modifies linkActive
      ensures linkActive[..] == N.Falses(linkActive.Length)
    {
      var k := 0;
      while k < linkActive.Length
        invariant 0 <= k <= linkActive.Length
        invariant forall q :: 0 <= q < k ==> !linkActive[q]
      {
        linkActive[k] := false;
        k := k + 1;
      }
      assert linkActive[..] == N.Falses(linkActive.Length);
    }

    method RemoveAllActiveStates()
      requires Valid()
      modifies active, open, linkActive
      ensures State() == N.RemoveAllActiveStates(old(State()))
    {
      ClearMenuItems();
      ClearLinks();
    }

    /** `views[viewId].classList.remove('hidden')` when the id is a key and its section exists. */
    method RevealSection(id: string)
      requires Valid()
      requires forall k :: 0 <= k < |ViewIds| && page.viewPresent[k] ==> hidden[k]
      modifies hidden
      ensures hidden[..] == N.Reveal(page, old(hidden[..]), id)
    {
      var slot := ViewIndex(id);
      if slot.Some? && page.viewPresent[slot.value] {
        hidden[slot.value] := false;
      }
    }

    /** showView, with the boxes `m` measured once the view is revealed. */
    method ShowView(id: string, m: Measure)
      requires Valid()
      modifies this, hidden
      ensures State() == N.ShowView(page, old(State()), id, m)
    {
      HideAllViews();
      RevealSection(id);
      ghost var revealed := State();
      if id == FindConsultant {
        noScroll := true;
        UpdateDynamicHeights(m);
      } else {
        noScroll := false;
        ResetStickyHeights();
      }
      if id == HelpCenter {
        leftH, rightH, stickyMax := 0, 0, 0;
      }
      assert State().hidden == revealed.hidden;
    }

    method ActivateMenuItem(i: nat)
      requires Valid() && i < |page.menu|
      modifies active, open, linkActive
      ensures State() == N.ActivateMenuItem(page, old(State()), i)
    {
      RemoveAllActiveStates();
      active[i] := true;
    }

    method HandleMenuItemClick(i: nat, m: Measure)
      requires Valid() && i < |page.menu|
      modifies this, hidden, active, open, linkActive
      ensures State() == N.HandleMenuItemClick(page, old(State()), i, m)
    {
      var item := page.menu[i];
      if item.hasSubMenu {
        if open[i] {
          open[i] := false;
          RemoveAllActiveStates();
          ShowView(Default, m);
        } else {
          RemoveAllActiveStates();
          open[i] := true;
        }
      } else if active[i] {
        RemoveAllActiveStates();
        ShowView(Default, m);
      } else {
        ActivateMenuItem(i);
        if N.Truthy(item.dataView) {
          ShowView(item.dataView.value, m);
        } else {
          ShowView(Default, m);
        }
      }
    }

    method HandleSubMenuItemClick(j: nat, m: Measure)
      requires Valid() && j < |page.links|
      modifies this, hidden, active, open, linkActive
      ensures State() == N.HandleSubMenuItemClick(page, old(State()), j, m)
    {
      var link := page.links[j];
      var target := N.LinkTarget(link);
      RemoveAllActiveStates();
      active[link.owner] := true;
      open[link.owner] := true;
      ClearLinks();
      linkActive[j] := true;
      if target != "" {
        ShowView(target, m);
      }
    }

    /** The load sequence: measure, show the default view, select the first menu item. */
    method Bootstrap(m: Measure)
      requires Valid()
      modifies this, hidden, active, open, linkActive
      ensures State() == N.Bootstrap(page, old(State()), m)
    {
      UpdateDynamicHeights(m);
      ShowView(Default, m);
      if |page.menu| > 0 {
        active[0] := true;
        open[0] := true;
        var comparison := N.ComparisonLink(page);
        if comparison.Some? {
          linkActive[comparison.value] := true;
        }
      }
    }
  }

  /** The contact list and the two chat images, updated in place. */
  class ChatPanel {
    /** `data-contact` of each `#my-consultant-view .contact-item`. */
    const names: seq<Option<string>>
    /** `active` on each contact item. */
    const contactActive: array<bool>
    var julia: Option<Chat.Display>
    var jiajian: Option<Chat.Display>

    ghost predicate Valid()
    {
      contactActive.Length == |names|
    }

    function View(): (v: Chat.ChatView)
      reads this, contactActive
      requires Valid()
      ensures |v.contactActive| == |names|
    {
      Chat.ChatView(contactActive[..], julia, jiajian)
    }

    constructor (contacts: seq<Option<string>>, markup: Chat.ChatView)
      requires |markup.contactActive| == |contacts|
      ensures Valid() && names == contacts && View() == markup && fresh(contactActive)
    {
      names := contacts;
      contactActive := new bool[|contacts|](k requires 0 <= k < |contacts| reads {} => markup.contactActive[k]);
      julia, jiajian := markup.julia, markup.jiajian;
    }

    method SwitchChatWindow(contact: string)
      requires Valid()
      modifies this, contactActive
      ensures View() == Chat.SwitchChatWindow(names, old(View()), contact)
    {
      ClearContacts();
      var chosen := Chat.FirstContact(names, contact);
      if chosen.Some? {
        contactActive[chosen.value] := true;
      }
      if contact == Chat.Julia && julia.Some? {
        julia := Some(Chat.Block);
        if jiajian.Some? {
          jiajian := Some(Chat.NoDisplay);
        }
      } else if contact == Chat.Jiajian && jiajian.Some? {
        jiajian := Some(Chat.Block);
        if julia.Some? {
          julia := Some(Chat.NoDisplay);
        }
      }
    }

    /** The `forEach` that removes `active` from every contact item. */
    method ClearContacts()
      requires Valid()
      modifies contactActive
      ensures contactActive[..] == seq(|names|, k => false)
    {
      var k := 0;
      while k < contactActive.Length
        invariant 0 <= k <= contactActive.Length
        invariant forall q :: 0 <= q < k ==> !contactActive[q]
      {
        contactActive[k] := false;
        k := k + 1;
      }
      assert contactActive[..] == seq(|names|, k => false);
    }
  }
}
