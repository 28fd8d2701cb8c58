/**
 * The two-contact chat window of the my-consultant view (main.js lines
 * 530-551): selecting a contact highlights its list entry and shows its chat
 * image in place of the other one.
 */
module Chat {
  import opened Wrappers

  const Julia: string := "julia"
  const Jiajian: string := "jiajian"

  /** The inline `style.display` of a chat image. */
  datatype Display = Unset | Block | NoDisplay

  /**
   * The `active` class of each `.contact-item` of the my-consultant view and
   * the display of the `.julia-chat` and `.jiajian-chat` images (None when the
   * page has no such image).
   */
  datatype ChatView = ChatView(contactActive: seq<bool>, julia: Option<Display>, jiajian: Option<Display>)

  /** The first contact item whose `data-contact` is `contact`, as querySelector finds it. */
  function FirstContact(names: seq<Option<string>>, contact: string): (r: Option<nat>)
    ensures r.Some? ==> r.value < |names| && names[r.value] == Some(contact)
    ensures r.Some? ==> forall q :: 0 <= q < r.value ==> names[q] != Some(contact)
    ensures r.None? <==> Some(contact) !in names
  {
    if |names| == 0 then None
    else if names[0] == Some(contact) then Some(0)
    else match FirstContact(names[1..], contact)
      case None => None
      case Some(k) => Some(k + 1)
  }

  /** The image the page shows after selecting `contact`: the image, when it exists, is shown and the other hidden. */
  function SwitchImages(c: ChatView, contact: string): (r: ChatView)
    ensures r.contactActive == c.contactActive
    ensures r.julia.Some? == c.julia.Some? && r.jiajian.Some? == c.jiajian.Some?
    ensures contact == Julia && c.julia.Some? ==> r.julia == Some(Block) && (c.jiajian.Some? ==> r.jiajian == Some(NoDisplay))
    ensures contact == Jiajian && c.jiajian.Some? ==> r.jiajian == Some(Block) && (c.julia.Some? ==> r.julia == Some(NoDisplay))
    ensures !(contact == Julia && c.julia.Some?) && !(contact == Jiajian && c.jiajian.Some?) ==> r == c
  {
    if contact == Julia && c.julia.Some? then
      c.(julia := Some(Block), jiajian := if c.jiajian.Some? then Some(NoDisplay) else None)
    else if contact == Jiajian && c.jiajian.Some? then
      c.(jiajian := Some(Block), julia := if c.julia.Some? then Some(NoDisplay) else None)
    else c
  }

  /**
   * switchChatWindow: every contact item loses `active`, the first one named
   * `contact` gains it, and the images switch.
   */
  function SwitchChatWindow(names: seq<Option<string>>, c: ChatView, contact: string): (r: ChatView)
    requires |c.contactActive| == |names|
    ensures |r.contactActive| == |names|
    ensures forall k :: 0 <= k < |names| ==>
      (r.contactActive[k] <==> names[k] == Some(contact) && forall q :: 0 <= q < k ==> names[q] != Some(contact))
    ensures forall k1, k2 :: 0 <= k1 < |names| && 0 <= k2 < |names| && r.contactActive[k1] && r.contactActive[k2] ==> k1 == k2
    ensures Some(contact) !in names ==> forall k :: 0 <= k < |names| ==> !r.contactActive[k]
    ensures r.(contactActive := c.contactActive) == SwitchImages(c, contact)
  {
    var chosen := FirstContact(names, contact);
    var cleared := c.(contactActive := seq(|names|, k => false));
    var selected := match chosen
      case None => cleared
      case Some(k) => cleared.(contactActive := cleared.contactActive[k := true]);
    SwitchImages(selected, contact)
  }

  /** Selecting the same contact twice is the same as selecting it once. */
  lemma SwitchIdempotent(names: seq<Option<string>>, c: ChatView, contact: string)
    requires |c.contactActive| == |names|
    ensures SwitchChatWindow(names, SwitchChatWindow(names, c, contact), contact) == SwitchChatWindow(names, c, contact)
  {
  }

  /**
   * With both images on the page, the last of several selections among the
   * two contacts decides which image is shown: the other is hidden.
   */
  lemma {:induction false} LastSelectionShows(names: seq<Option<string>>, c: ChatView, picks: seq<string>)
    requires |c.contactActive| == |names| && c.julia.Some? && c.jiajian.Some?
    requires |picks| > 0 && forall q :: 0 <= q < |picks| ==> picks[q] == Julia || picks[q] == Jiajian
    ensures var r := SwitchAll(names, c, picks);
      if picks[|picks| - 1] == Julia then r.julia == Some(Block) && r.jiajian == Some(NoDisplay)
      else r.jiajian == Some(Block) && r.julia == Some(NoDisplay)
    decreases |picks|
  {
    if |picks| > 1 {
      var c' := SwitchChatWindow(names, c, picks[0]);
      LastSelectionShows(names, c', picks[1..]);
      assert picks[1..][|picks[1..]| - 1] == picks[|picks| - 1];
    }
  }

  /** A sequence of selections, applied from the first. */
  function SwitchAll(names: seq<Option<string>>, c: ChatView, picks: seq<string>): (r: ChatView)
    requires |c.contactActive| == |names|
    ensures |r.contactActive| == |names|
    ensures r.julia.Some? == c.julia.Some? && r.jiajian.Some? == c.jiajian.Some?
    decreases |picks|
  {
    if |picks| == 0 then c else SwitchAll(names, SwitchChatWindow(names, c, picks[0]), picks[1..])
  }
}
