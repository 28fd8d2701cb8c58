/**
 * The layout height synchronizer of main.js (lines 3-34): the page measures a
 * fixed header and the two sticky cards of the find-consultant view and
 * publishes the results as the CSS custom properties --main-header-h,
 * --left-sticky-h, --right-sticky-h and --sticky-max-h.
 *
 * Measured box heights are opaque inputs (a `Measure`), whole CSS pixels.
 */
module Layout {

  /** The heights getBoundingClientRect() reports at the moment of a call. */
  datatype Measure = Measure(header: nat, left: nat, right: nat)

  /** The four custom properties on the document root. */
  datatype Heights = Heights(header: nat, left: nat, right: nat, stickyMax: nat)

  /** Which of the three measured elements the page holds; they are looked up once, at load. */
  datatype Anchors = Anchors(hasHeader: bool, hasLeft: bool, hasRight: bool)

  function Max(a: nat, b: nat): nat
  {
    if a >= b then a else b
  }

  /** What one sticky card adds to the maximum: its height, or 0 when it is absent. */
  function Contribution(present: bool, h: nat): nat
  {
    if present then h else 0
  }

  /**
   * updateDynamicHeights: every present element publishes its measured height;
   * an absent one leaves its property as it was; the sticky maximum is the
   * larger of the two sticky heights, an absent card counting as 0.
   */
  function UpdateDynamicHeights(a: Anchors, h: Heights, m: Measure): (r: Heights)
    ensures a.hasHeader ==> r.header == m.header
    ensures !a.hasHeader ==> r.header == h.header
    ensures a.hasLeft ==> r.left == m.left
    ensures !a.hasLeft ==> r.left == h.left
    ensures a.hasRight ==> r.right == m.right
    ensures !a.hasRight ==> r.right == h.right
    ensures r.stickyMax >= Contribution(a.hasLeft, m.left) && r.stickyMax >= Contribution(a.hasRight, m.right)
    ensures r.stickyMax == Contribution(a.hasLeft, m.left) || r.stickyMax == Contribution(a.hasRight, m.right)
  {
    var leftH := Contribution(a.hasLeft, m.left);
    var rightH := Contribution(a.hasRight, m.right);
    Heights(if a.hasHeader then m.header else h.header,
            if a.hasLeft then m.left else h.left,
            if a.hasRight then m.right else h.right,
            Max(leftH, rightH))
  }

  /** resetStickyHeights: the three sticky properties become 0; the header height is kept. */
  function ResetStickyHeights(h: Heights): (r: Heights)
    ensures r.left == 0 && r.right == 0 && r.stickyMax == 0
    ensures r.header == h.header
  {
    h.(left := 0, right := 0, stickyMax := 0)
  }

  /**
   * The properties agree with the elements: the maximum is the larger sticky
   * height and an absent card's property is 0.
   */
  ghost predicate Coherent(a: Anchors, h: Heights)
  {
    && h.stickyMax == Max(h.left, h.right)
    && (!a.hasLeft ==> h.left == 0)
    && (!a.hasRight ==> h.right == 0)
  }

  /**
   * Resetting and then measuring, or measuring from coherent properties, gives
   * coherent properties: the published maximum is always the maximum of the
   * published sticky heights.
   */
  lemma UpdateKeepsCoherent(a: Anchors, h: Heights, m: Measure)
    requires Coherent(a, h)
    ensures Coherent(a, UpdateDynamicHeights(a, h, m))
  {
  }

  lemma ResetIsCoherent(a: Anchors, h: Heights)
    ensures Coherent(a, ResetStickyHeights(h))
  {
  }

  /** Measuring twice with the same boxes publishes the same values as measuring once. */
  lemma UpdateIdempotent(a: Anchors, h: Heights, m: Measure)
    ensures UpdateDynamicHeights(a, UpdateDynamicHeights(a, h, m), m) == UpdateDynamicHeights(a, h, m)
  {
  }

  /** A left card of 120px and a right card of 340px publish a maximum of 340px. */
  lemma StickyMaxExample(h: Heights, header: nat)
    ensures UpdateDynamicHeights(Anchors(true, true, true), h, Measure(header, 120, 340)).stickyMax == 340
  {
  }

  /**
   * A missing right card does not disturb the left height nor the maximum,
   * which is then the left height alone; the right property is left as it was.
   */
  lemma MissingRightCard(hasHeader: bool, h: Heights, m: Measure)
    ensures var r := UpdateDynamicHeights(Anchors(hasHeader, true, false), h, m);
      r.left == m.left && r.stickyMax == m.left && r.right == h.right
  {
  }
}
