/**
 * Placement of the overlapping regions of the 17x17 occupancy grid.
 *
 * The centre coordinates of the region columns (and, independently, of the
 * region rows) are laid out by recursive midpoint bisection: the two end
 * centres sit exactly half a region away from the frame edges and every
 * interior centre is the truncated average of the two centres bracketing it.
 */
module Layout {

  /** Frame and region geometry of the 17x17 scanner. */
  const NumRect: nat := 17
  const FrameWidth: int := 1280
  const FrameHeight: int := 720
  const HalfWidth: int := 314
  const HalfHeight: int := 126

  /** C's `a / 2` on a signed int: the quotient is truncated toward zero. */
  function Half(a: int): int {
    if a >= 0 then a / 2 else -((-a) / 2)
  }

  /** Every step from index lo up to index hi rises by at least g. */
  ghost predicate GapsAtLeast(s: seq<int>, lo: nat, hi: nat, g: int)
    requires lo <= hi < |s|
  {
    forall i :: lo <= i < hi ==> s[i] + g <= s[i + 1]
  }

  /** Every step from index lo up to index hi rises by at most g. */
  ghost predicate GapsAtMost(s: seq<int>, lo: nat, hi: nat, g: int)
    requires lo <= hi < |s|
  {
    forall i :: lo <= i < hi ==> s[i + 1] <= s[i] + g
  }

  /** k is 1, 2, 4, 8, ... */
  predicate PowerOfTwo(k: nat) {
    k == 1 || (k > 1 && k % 2 == 0 && PowerOfTwo(k / 2))
  }

  /**
   * fillArray: fills the slots strictly between start and end by midpoint
   * bisection. The recursion shrinks end - start, so it terminates as long as
   * start < end; with start == end the call would repeat itself forever.
   */
  function FillArray(arr: seq<int>, start: nat, end: nat): (r: seq<int>)
    requires start < end < |arr|
    ensures |r| == |arr|
    ensures forall i :: 0 <= i < |arr| && (i <= start || end <= i) ==> r[i] == arr[i]
    decreases end - start
  {
    if end - start == 1 then arr
    else
      var mid := (start + end) / 2;
      var withMid := arr[mid := Half(arr[start] + arr[end])];
      FillArray(FillArray(withMid, start, mid), mid, end)
  }

  /** The initial contents of one axis before fillArray runs: both end centres set. */
  function Seeded(init: seq<int>, extent: int, half: int): (a: seq<int>)
    requires |init| >= 2
    ensures |a| == |init| && a[0] == half && a[|init| - 1] == extent - half
  {
    init[0 := half][|init| - 1 := extent - half]
  }

  /**
   * partition, for one axis: the n centres along an axis of the given extent,
   * starting from arbitrary (uninitialised) contents init.
   */
  function Axis(init: seq<int>, extent: int, half: int): (r: seq<int>)
    requires |init| >= 2
    ensures |r| == |init|
    ensures r[0] == half && r[|r| - 1] == extent - half
  {
    FillArray(Seeded(init, extent, half), 0, |init| - 1)
  }

  /** The column centres and row centres produced by partition. */
  datatype Centres = Centres(widths: seq<int>, heights: seq<int>)

  /** partition with the scanner's constants; the arrays start out zeroed here. */
  function Partition(): (c: Centres)
    ensures |c.widths| == NumRect && |c.heights| == NumRect
    ensures c.widths[0] == HalfWidth && c.widths[NumRect - 1] == FrameWidth - HalfWidth
    ensures c.heights[0] == HalfHeight && c.heights[NumRect - 1] == FrameHeight - HalfHeight
  {
    var zero := seq(NumRect, _ => 0);
    Centres(Axis(zero, FrameWidth, HalfWidth), Axis(zero, FrameHeight, HalfHeight))
  }

  lemma HalfBetween(x: int, y: int)
    requires x <= y
    ensures x <= Half(x + y) <= y
  {
  }

  /**
   * Every slot strictly between start and end is overwritten: the result on
   * [start, end] depends only on the two endpoint values.
   */
  lemma {:induction false} FillOverwrites(a: seq<int>, b: seq<int>, start: nat, end: nat)
    requires start < end < |a| == |b|
    requires a[start] == b[start] && a[end] == b[end]
    ensures forall i :: start <= i <= end ==> FillArray(a, start, end)[i] == FillArray(b, start, end)[i]
    decreases end - start
  {
    if end - start > 1 {
      var mid := (start + end) / 2;
      var a1 := a[mid := Half(a[start] + a[end])];
      var b1 := b[mid := Half(b[start] + b[end])];
      FillOverwrites(a1, b1, start, mid);
      var a2 := FillArray(a1, start, mid);
      var b2 := FillArray(b1, start, mid);
      FillOverwrites(a2, b2, mid, end);
    }
  }

  /** Between two ordered endpoints the filled values are non-decreasing and bracketed by the endpoints. */
  lemma {:induction false} FillNondecreasing(arr: seq<int>, start: nat, end: nat)
    requires start < end < |arr|
    requires arr[start] <= arr[end]
    ensures GapsAtLeast(FillArray(arr, start, end), start, end, 0)
    ensures forall i :: start <= i <= end ==> arr[start] <= FillArray(arr, start, end)[i] <= arr[end]
    decreases end - start
  {
    if end - start > 1 {
      var mid := (start + end) / 2;
      var a1 := arr[mid := Half(arr[start] + arr[end])];
      HalfBetween(arr[start], arr[end]);
      FillNondecreasing(a1, start, mid);
      var a2 := FillArray(a1, start, mid);
      FillNondecreasing(a2, mid, end);
    }
  }

  /**
   * With non-negative endpoints at least one unit apart per index step, the
   * filled values are strictly increasing.
   */
  lemma {:induction false} FillIncreasing(arr: seq<int>, start: nat, end: nat)
    requires start < end < |arr|
    requires 0 <= arr[start] && arr[start] + (end - start) <= arr[end]
    ensures GapsAtLeast(FillArray(arr, start, end), start, end, 1)
    decreases end - start
  {
    if end - start > 1 {
      var mid := (start + end) / 2;
      var a1 := arr[mid := Half(arr[start] + arr[end])];
      FillIncreasing(a1, start, mid);
      var a2 := FillArray(a1, start, mid);
      FillIncreasing(a2, mid, end);
    }
  }

  /**
   * When end - start is a power of two the bisection splits evenly, so an
   * average step of at most g keeps every single step at most g.
   */
  lemma {:induction false} FillGapBound(arr: seq<int>, start: nat, end: nat, g: int)
    requires start < end < |arr|
    requires PowerOfTwo(end - start)
    requires 0 <= arr[start] <= arr[end] <= arr[start] + g * (end - start)
    ensures GapsAtMost(FillArray(arr, start, end), start, end, g)
    decreases end - start
  {
    if end - start > 1 {
      var mid := (start + end) / 2;
      var k := (end - start) / 2;
      assert mid - start == k && end - mid == k;
      assert g * (end - start) == 2 * (g * k);
      var a1 := arr[mid := Half(arr[start] + arr[end])];
      FillGapBound(a1, start, mid, g);
      var a2 := FillArray(a1, start, mid);
      FillGapBound(a2, mid, end, g);
    }
  }

  /** The first bisection step places the truncated average of the endpoints at the middle slot, and no later step moves it. */
  lemma FillMidpoint(arr: seq<int>, start: nat, end: nat)
    requires start + 1 < end < |arr|
    ensures FillArray(arr, start, end)[(start + end) / 2] == Half(arr[start] + arr[end])
  {
  }

  /** The middle region column is centred on the frame's centre column 640, the middle row on 360. */
  lemma PartitionMidpoints()
    ensures Partition().widths[NumRect / 2] == FrameWidth / 2
    ensures Partition().heights[NumRect / 2] == FrameHeight / 2
  {
    var zero := seq(NumRect, _ => 0);
    FillMidpoint(Seeded(zero, FrameWidth, HalfWidth), 0, NumRect - 1);
    FillMidpoint(Seeded(zero, FrameHeight, HalfHeight), 0, NumRect - 1);
  }

  /** partition does not depend on what the arrays held before the call. */
  lemma AxisIgnoresInitialContent(init1: seq<int>, init2: seq<int>, extent: int, half: int)
    requires 2 <= |init1| == |init2|
    ensures Axis(init1, extent, half) == Axis(init2, extent, half)
  {
    var a := Seeded(init1, extent, half);
    var b := Seeded(init2, extent, half);
    FillOverwrites(a, b, 0, |init1| - 1);
  }

  /**
   * The layout conditions the sliding membership scan relies on: the first
   * region starts at coordinate 0, centres strictly increase, and
   * neighbouring regions of half-extent `half` overlap or touch.
   */
  ghost predicate WellSpaced(c: seq<int>, half: int) {
    && |c| >= 1
    && half > 0
    && c[0] == half
    && GapsAtLeast(c, 0, |c| - 1, 1)
    && GapsAtMost(c, 0, |c| - 1, 2 * half)
  }

  /**
   * An axis with a power-of-two number of gaps whose end centres are far
   * enough apart (one unit per gap) and close enough (one region width per
   * gap) is well spaced.
   */
  lemma AxisWellSpaced(init: seq<int>, extent: int, half: int)
    requires |init| >= 2 && PowerOfTwo(|init| - 1)
    requires 0 < half
    requires half + (|init| - 1) <= extent - half
    requires extent - half <= half + 2 * half * (|init| - 1)
    ensures WellSpaced(Axis(init, extent, half), half)
  {
    var a := Seeded(init, extent, half);
    FillIncreasing(a, 0, |init| - 1);
    FillGapBound(a, 0, |init| - 1, 2 * half);
  }

  /** The 1280x720 layout with 17 regions per axis meets the scanner's layout conditions. */
  lemma PartitionWellSpaced()
    ensures WellSpaced(Partition().widths, HalfWidth)
    ensures WellSpaced(Partition().heights, HalfHeight)
  {
    var zero := seq(NumRect, _ => 0);
    assert PowerOfTwo(16);
    AxisWellSpaced(zero, FrameWidth, HalfWidth);
    AxisWellSpaced(zero, FrameHeight, HalfHeight);
  }
}
