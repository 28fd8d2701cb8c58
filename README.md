# Dashboard navigation and sticky-height model

A Dafny model of the navigation core of `main.js`, the client script of a
single-page marketing/consulting dashboard. The page holds a fixed set of
pre-rendered view sections and a side menu. The script decides which section
is on screen and which menu entries are highlighted (`active`) or expanded
(`open`). It also publishes the heights of a fixed header and of the two
sticky cards of the find-consultant view as CSS custom properties.

The DOM is replaced by explicit state:

- `Navigation.Page` is the static shape of the document. It records which view sections exist, and for each menu item whether it has a sub-menu and its `data-view`. For each sub-menu link it records its menu item, `data-view` and `href`. It also records whether the header and the two sticky cards exist.
- `Navigation.Nav` is what the handlers change: `hidden` per view section and on the cultural-results area, `active`/`open` per menu item, `active` per sub-menu link, `no-scroll` on the body, and the four height properties (`Layout.Heights`).
- Measured box heights are opaque inputs (`Layout.Measure`), whole non-negative pixels.
- `Chat.ChatView` is the contact list of the my-consultant view and its two chat images. An image the page lacks is `None`.

The project has two layers:

- **Specification.** Modules `Layout`, `Views`, `Navigation` and `Chat` give one function per handler. `NavigationInvariants` proves what holds over any sequence of clicks and resizes after load. At most one view is on screen. At most one menu item carries a flag. At most one link is active, and it sits under the active, open item; an active sub-menu item holds an active link of its own, so an active, open sub-menu item has exactly one. An active direct item's view is the one shown, and so is the view of an active link that names one. On a page that has the find-consultant section, `no-scroll` is set exactly while that section is shown. The sticky heights are coherent (the maximum is the larger one) and are zero whenever find-consultant is not on screen.
- **Implementation.** Module `Controller` holds the class `Dashboard`, with the class lists in arrays and one `while` loop per `forEach` of the source, and the class `ChatPanel`. Each method is proved to leave exactly the state the matching specification function gives, so the lemmas carry over.

The view table is the twelve keys of main.js:44-57, with `comparison` as the fallback view. `find-consultant` is the scroll-locked view. `help-center` zeroes the sticky heights a second time.

Points of main.js that the model keeps as they are:

- A missing sticky card leaves its own property untouched (main.js:13-20); it only counts as 0 in the maximum. `NavigationInvariants.AbsentCardIsZero` shows that the property is 0 anyway once the page has loaded.
- A sub-menu link whose `data-view` and `href` give no view (main.js:184, 199-201) changes the highlight but not the view.
- `showView` zeroes the sticky heights for every view other than find-consultant, whether or not find-consultant was on screen before (main.js:96-100).
- `showView` sets `no-scroll` by testing the id, not the section (main.js:92-93): on a page without the find-consultant section, showing that id locks scrolling with no section on screen.
- Bootstrap adds `active`/`open` without clearing the markup's own classes (main.js:224-233). The invariant after load therefore assumes markup without those classes (`CleanMarkup`). It also assumes a first menu item that is a sub-menu with a `#comparison` link leading to `comparison`, or a direct item pointing at `comparison` (`FirstItemIsDefault`).
- Bootstrap highlights the first item's `a[href="#comparison"]` link whatever its `data-view` says (main.js:221, 229-231). A link `<a href="#comparison" data-view="market-report">` is then highlighted while `comparison` is on screen; `NavigationInvariants.BootstrapHighlightsOtherView` proves this.
- When the first item has no `#comparison` link, load leaves that active, open item with no active link (main.js:229-232), so an active, open sub-menu item does not always have exactly one active link. `FirstItemIsDefault` excludes this page shape.
- Resizes re-measure in any view (main.js:36). The invariant assumes that a hidden find-consultant section's cards measure 0 (`LaidOut`), as a section with the `hidden` class is not rendered.

## Model

| member | source | states |
|---|---|---|
| Layout.UpdateDynamicHeights | main.js:8-27 | each present element publishes its measured height and an absent one leaves its property unchanged; the sticky maximum is an upper bound of both card heights and equal to one of them, an absent card counting 0 |
| Layout.ResetStickyHeights | main.js:30-34 | the left, right and maximum sticky properties become 0 and the header height is kept |
| Layout.UpdateKeepsCoherent | main.js:8-27 | measuring from coherent properties keeps the maximum equal to the larger sticky height and absent cards at 0 |
| Layout.ResetIsCoherent | main.js:30-34 | zeroed sticky properties are coherent |
| Layout.UpdateIdempotent | main.js:8-27 | measuring twice with the same boxes publishes what measuring once does |
| Layout.StickyMaxExample | main.js:22-26 | cards of 120px and 340px publish a maximum of 340px |
| Layout.MissingRightCard | main.js:17-25 | without a right card the maximum is the left height and the right property is left as it was |
| Views.IndexOf | main.js:87 | the result is the first position holding the id, and None exactly when the id does not occur |
| Views.ViewIndex | main.js:44-57 | a slot is found exactly for the twelve keys, and it holds the id |
| Views.ViewIndexOfKey | main.js:44-57 | every key is found at its own slot (the keys are distinct) |
| Navigation.DirectTarget | main.js:168-174 | a direct item's view is its non-empty `data-view`, otherwise `comparison` |
| Navigation.LinkTarget | main.js:184 | a link's view is its non-empty `data-view`, else its `href` without the first character, else none |
| Navigation.HideAllViews | main.js:60-70 | every existing section and the cultural results area become hidden; absent sections and all other state are unchanged |
| Navigation.RemoveAllActiveStates | main.js:73-82 | no menu item is active or open and no link is active; nothing else changes |
| Navigation.Reveal | main.js:86-89 | after hiding, only the section named by the id comes back, none for an unknown id or a missing section |
| Navigation.ShowView | main.js:85-107 | only the view named by the id is on screen; cultural results stay hidden; `no-scroll` exactly for find-consultant; find-consultant re-measures, every other id zeroes the sticky heights and keeps the header; menu flags untouched |
| Navigation.ActivateMenuItem | main.js:123-128 | the item is the only active one, none is open, no link is active, the screen is unchanged |
| Navigation.HandleMenuItemClick | main.js:131-177 | open sub-menu: all flags cleared and `comparison` shown; closed sub-menu: only it open, nothing active, screen unchanged; active direct item: all cleared and `comparison` shown; other direct item: only it active, nothing open, its view shown; every navigation also hides the cultural results area |
| Navigation.HandleSubMenuItemClick | main.js:180-202 | the link's item is the only active and open one, the link the only active link; the link's view is shown and the results area hidden, or the screen is unchanged when it names none |
| Navigation.ComparisonLink | main.js:229 | the first link of the first menu item whose `href` is `#comparison`, or none when there is no such link |
| Navigation.Bootstrap | main.js:221-233 | `comparison` alone is shown, the body scrolls, the sticky heights are 0; the first item becomes active and open and its #comparison link active; other flags keep the markup's value |
| NavigationInvariants.ShowingIsExclusive | main.js:85-89 | showing an id puts at most one view on screen, and a view is on screen exactly when its section exists and it is named by the id |
| NavigationInvariants.MenuClickKeepsInv | main.js:131-177 | a header click keeps the whole invariant |
| NavigationInvariants.SubMenuClickKeepsInv | main.js:180-202 | a sub-menu link click keeps the whole invariant |
| NavigationInvariants.ResizeKeepsInv | main.js:36 | a resize that measures the page as laid out keeps the whole invariant |
| NavigationInvariants.StepKeepsInv | main.js:204-217 | any click or resize keeps the invariant |
| NavigationInvariants.RunKeepsInv | main.js:131-202 | any sequence of plausible events keeps the invariant (mutual exclusion of views, menu entries and links, an active sub-menu item holding an active link of its own, the selected entry or link naming the view shown, sticky coherence, zero sticky heights off find-consultant) |
| NavigationInvariants.BootstrapSelection | main.js:224-233 | from clean markup the first item is the only active and open one and its #comparison link the only active link |
| NavigationInvariants.BootstrapEstablishesInv | main.js:219-233 | loading markup without `active`/`open` classes (`CleanMarkup`) whose first item is the dashboard group (`FirstItemIsDefault`) establishes the invariant |
| NavigationInvariants.Reachable | main.js:219-233 | under `CleanMarkup` and `FirstItemIsDefault`, every state reached after load by in-range clicks and resizes that measure a hidden find-consultant section's cards as 0 (`LaidOut`) satisfies the invariant |
| NavigationInvariants.BootstrapHighlightsOtherView | main.js:221-233 | when the first item's #comparison link names another view and the comparison section exists, the highlighted link's view is not the one on screen after load |
| NavigationInvariants.ScrollingMeansNoStickyHeights | main.js:91-100 | under the invariant, whenever the body scrolls the sticky heights are 0 |
| NavigationInvariants.AbsentCardIsZero | main.js:13-24 | under the invariant an absent card's property is 0 and the maximum is the larger sticky height |
| NavigationInvariants.ToggleFlipsOpen | main.js:138-153 | a header click on a sub-menu item flips its `open` flag |
| NavigationInvariants.ClickParity | main.js:138-153 | after n header clicks a sub-menu item is toggled exactly when n is odd |
| NavigationInvariants.DoubleToggleRestores | main.js:138-153 | from an open sub-menu with `comparison` shown, two header clicks give back exactly the same state |
| NavigationInvariants.DirectTwiceFallsBack | main.js:154-175 | clicking an inactive direct item twice ends with nothing selected, `comparison` shown and zero sticky heights |
| Chat.FirstContact | main.js:540 | the first contact item whose `data-contact` is the contact, or none when no item has it |
| Chat.SwitchImages | main.js:545-551 | julia or jiajian, when its image exists, is shown and the other image hidden; any other contact leaves both untouched |
| Chat.SwitchChatWindow | main.js:530-551 | exactly the first contact item named by the contact is active, so at most one, and the images switch as SwitchImages says |
| Chat.SwitchIdempotent | main.js:530-551 | selecting the same contact twice equals selecting it once |
| Chat.LastSelectionShows | main.js:545-551 | with both images present, the last of several selections decides which image is shown and the other is hidden |
| Controller.Dashboard.constructor | main.js:1-57 | the object holds the markup's classes and properties |
| Controller.Dashboard.UpdateDynamicHeights | main.js:8-27 | the properties become Layout.UpdateDynamicHeights of the old ones |
| Controller.Dashboard.ResetStickyHeights | main.js:30-34 | the properties become Layout.ResetStickyHeights of the old ones |
| Controller.Dashboard.HideSections | main.js:61-63 | the loop hides every existing section and leaves the others |
| Controller.Dashboard.HideAllViews | main.js:60-70 | the new state is Navigation.HideAllViews of the old |
| Controller.Dashboard.ClearMenuItems | main.js:74-76 | the loop clears `active` and `open` on every menu item |
| Controller.Dashboard.ClearLinks | main.js:79-81 | the loop clears `active` on every sub-menu link |
| Controller.Dashboard.RemoveAllActiveStates | main.js:73-82 | the new state is Navigation.RemoveAllActiveStates of the old |
| Controller.Dashboard.RevealSection | main.js:87-89 | the hidden flags become Navigation.Reveal of the old ones |
| Controller.Dashboard.ShowView | main.js:85-107 | the new state is Navigation.ShowView of the old |
| Controller.Dashboard.ActivateMenuItem | main.js:123-128 | the new state is Navigation.ActivateMenuItem of the old |
| Controller.Dashboard.HandleMenuItemClick | main.js:131-177 | the new state is Navigation.HandleMenuItemClick of the old |
| Controller.Dashboard.HandleSubMenuItemClick | main.js:180-202 | the new state is Navigation.HandleSubMenuItemClick of the old |
| Controller.Dashboard.Bootstrap | main.js:221-233 | the new state is Navigation.Bootstrap of the old |
| Controller.ChatPanel.constructor | main.js:530-537 | the panel holds the markup's contact classes and image styles |
| Controller.ChatPanel.ClearContacts | main.js:535-537 | the loop clears `active` on every contact item |
| Controller.ChatPanel.SwitchChatWindow | main.js:530-551 | the new view is Chat.SwitchChatWindow of the old |

## Left out

- Element lookup and listener wiring (main.js:3-6, 36, 41, 205-217, 316) are host plumbing. Elements are given as a `Page`; a click event names a menu item or link by index, and `preventDefault` is not modelled.
- Deferred timers (main.js:111-113, 294-313) are left out. Two of them (main.js:294-301, 304-312) add `active` to the jiajian contact without clearing the others. If another contact was selected before they fire, two contacts can be active; the model does not capture this race.
- `setupContactClickAreas` (main.js:236-278) scales hit boxes with floating-point pixel arithmetic and is not modelled. From `handleContactClick` (main.js:280-288) only the resulting `switchChatWindow` call is modelled.
- `setupHashUploadClick` (main.js:319-383), which `showView` calls for hash-value, is not modelled. It only inserts fixed markup, one slot per wrapper, behind a `data-bound` guard.
- The cultural-adaptation upload flow (main.js:386-527) is not modelled: file reading, size formatting, drag-and-drop styling and the reveal animation are I/O, floating point or cosmetic.
- The detect button's click (main.js:446-449) removes `hidden` from the cultural results area, the element `showView` hides. It is not an event of the model. So `NavigationInvariants.Inv` says nothing about that area; only the navigation contracts (`Navigation.ShowView`, `Navigation.Navigated`) say it is hidden after every view change.
- Heights are whole non-negative pixels. The source's floating-point values and their `px` string form are not modelled.
- Navigation.LinkTarget: cuts the `href` by Unicode character, while `substring(1)` (main.js:184) drops one UTF-16 code unit. An `href` whose first character lies outside the Basic Multilingual Plane therefore gives a different view id in the model (for `"😀"` the model finds no view and leaves the screen as it was; the source hides every section).
- Views.ViewIndex: `views[viewId]` is a lookup on a plain object. An id naming an `Object.prototype` member such as `toString` would make the source throw; the model treats every id outside the twelve keys as unknown.
- Chat.SwitchChatWindow: `switchChatWindow` builds an attribute selector from the contact. A contact containing a quote would make `querySelector` throw, and a backslash is read as a CSS escape (`'ju\\lia'` selects the `julia` item, main.js:540, while the images stay untouched); the model compares the contact as a plain string, so it activates no item for `ju\lia`.
- Navigation.ComparisonLink: at load, `a[href="#comparison"]` matches any anchor inside the first menu item; the model looks only among that item's sub-menu links.
- `NavigationInvariants.ResizeKeepsInv` assumes that the sticky cards of a hidden find-consultant section measure 0. This is a property of the page's CSS, which is not part of this model.
