/**
 * The fixed table of views of main.js (lines 44-57): each view id names one
 * content section of the dashboard. The key set never changes at run time.
 */
module Views {
  import opened Wrappers

  /** The keys of the `views` object, in declaration order. */
  const ViewIds: seq<string> := [
    "real-time", "comparison", "market-report", "market-size-chart",
    "marketing-plan", "find-consultant", "my-consultant", "case-report",
    "overseas-cases", "hash-value", "cultural-adaptation", "help-center"]

  /** The view shown at start-up and whenever a selection is withdrawn. */
  const Default: string := "comparison"

  /** The view with its own scrolling side columns (body gets `no-scroll`). */
  const FindConsultant: string := "find-consultant"

  /** The view that re-zeroes the sticky heights a second time. */
  const HelpCenter: string := "help-center"

  /** Position of Default in ViewIds. */
  const DefaultIndex: nat := 1

  /** Position of FindConsultant in ViewIds. */
  const FindConsultantIndex: nat := 5

  /** The first position of `id` in `ids`, if it occurs. */
  function IndexOf(ids: seq<string>, id: string): (r: Option<nat>)
    ensures r.Some? ==> r.value < |ids| && ids[r.value] == id
    ensures r.Some? ==> forall q :: 0 <= q < r.value ==> ids[q] != id
    ensures r.None? <==> id !in ids
  {
    if |ids| == 0 then None
    else if ids[0] == id then Some(0)
    else match IndexOf(ids[1..], id)
      case None => None
      case Some(k) => Some(k + 1)
  }

  /** `views[viewId]`: the slot of a view id, or None for an id outside the table. */
  function ViewIndex(id: string): (r: Option<nat>)
    ensures r.Some? <==> id in ViewIds
    ensures r.Some? ==> r.value < |ViewIds| && ViewIds[r.value] == id
  {
    IndexOf(ViewIds, id)
  }

  lemma ViewIdsDistinct()
    ensures forall i, j :: 0 <= i < |ViewIds| && 0 <= j < |ViewIds| && ViewIds[i] == ViewIds[j] ==> i == j
  {
  }

  /** Every key is found at its own slot. */
  lemma ViewIndexOfKey(k: nat)
    requires k < |ViewIds|
    ensures ViewIndex(ViewIds[k]) == Some(k)
  {
    ViewIdsDistinct();
  }

  lemma DefaultSlot()
    ensures DefaultIndex < |ViewIds| && ViewIds[DefaultIndex] == Default
  {
  }

  lemma FindConsultantSlot()
    ensures FindConsultantIndex < |ViewIds| && ViewIds[FindConsultantIndex] == FindConsultant
    ensures Default in ViewIds && HelpCenter in ViewIds && Default != FindConsultant && HelpCenter != FindConsultant
  {
  }
}
