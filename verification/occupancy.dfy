/**
 * Occupancy counting of the 17x17 scanner: one raster pass over the depth
 * map drives the row and column windows, and every unsafe pixel bumps the
 * counter of each region whose row and column windows are both active.
 */
module Occupancy {
  import opened Depth
  import opened Layout
  import opened Window

  /** TOTAL_RECT: the number of regions, indexed row-major as row * 17 + column. */
  const Sections: nat := 289

  /** TOTAL_PIXELS = HALF_WIDTH * HALF_HEIGHT * 4: the pixel area of one region. */
  const TotalPixels: nat := 158256

  /** Centre coordinate of the row of region k. */
  function RowCentre(c: Centres, k: nat): int
    requires |c.heights| == NumRect && k < Sections
  {
    c.heights[k / NumRect]
  }

  /** Centre coordinate of the column of region k. */
  function ColCentre(c: Centres, k: nat): int
    requires |c.widths| == NumRect && k < Sections
  {
    c.widths[k % NumRect]
  }

  /** Unsafe pixels among row[0 .. xEnd) that lie in the column band of a region centred at cx. */
  function RowCount(row: seq<Reading>, xEnd: nat, cx: int): nat
    requires xEnd <= |row|
  {
    if xEnd == 0 then 0
    else RowCount(row, xEnd - 1, cx) + (if Unsafe(row[xEnd - 1]) && Contains(cx, HalfWidth, xEnd - 1) then 1 else 0)
  }

  /** Unsafe pixels among the rows 0 .. yEnd-1 that lie in the region centred at (cx, cy). */
  function RegionCount(depth: seq<seq<Reading>>, yEnd: nat, cy: int, cx: int): nat
    requires yEnd <= |depth|
  {
    if yEnd == 0 then 0
    else RegionCount(depth, yEnd - 1, cy, cx)
         + (if Contains(cy, HalfHeight, yEnd - 1) then RowCount(depth[yEnd - 1], |depth[yEnd - 1]|, cx) else 0)
  }

  /**
   * Brute-force occupancy of region k: the number of unsafe pixels (x, y)
   * of the frame with x in [cx - HALF_WIDTH, cx + HALF_WIDTH) and y in
   * [cy - HALF_HEIGHT, cy + HALF_HEIGHT).
   */
  function Occupancy(depth: seq<seq<Reading>>, c: Centres, k: nat): nat
    requires |c.widths| == NumRect && |c.heights| == NumRect && k < Sections
  {
    RegionCount(depth, |depth|, RowCentre(c, k), ColCentre(c, k))
  }

  /**
   * updateCounters: adds one to the counter of every region whose row is in
   * the first run of active rows and whose column is in the first run of
   * active columns; every other counter is unchanged.
   */
  method UpdateCounters(rows: seq<bool>, cols: seq<bool>, sections: seq<int>) returns (s: seq<int>)
    requires |rows| == NumRect && |cols| == NumRect && |sections| == Sections
    ensures |s| == Sections
    ensures forall k :: 0 <= k < Sections ==>
              s[k] == sections[k] + (if InFirstRun(rows, k / NumRect) && InFirstRun(cols, k % NumRect) then 1 else 0)
  {
    s := sections;
    var r := 0;
    while r < NumRect && rows[r] == false
      invariant 0 <= r <= NumRect
      invariant forall t :: 0 <= t < r ==> !rows[t]
    {
      r := r + 1;
    }
    var c := 0;
    while c < NumRect && cols[c] == false
      invariant 0 <= c <= NumRect
      invariant forall t :: 0 <= t < c ==> !cols[t]
    {
      c := c + 1;
    }
    assert r == Lead(rows) && c == Lead(cols);
    var r2 := r;
    var c2 := c;
    while r2 < NumRect && rows[r2] == true
      invariant r <= r2 <= NumRect
      invariant forall t :: r <= t < r2 ==> rows[t]
      invariant |s| == Sections
      invariant forall k :: 0 <= k < Sections ==>
                  s[k] == sections[k] + (if r <= k / NumRect < r2 && InFirstRun(cols, k % NumRect) then 1 else 0)
    {
      c2 := c;
      while c2 < NumRect && cols[c2] == true
        invariant c <= c2 <= NumRect
        invariant forall t :: c <= t < c2 ==> cols[t]
        invariant |s| == Sections
        invariant forall k :: 0 <= k < Sections ==>
                    s[k] == sections[k] + (if (r <= k / NumRect < r2 && InFirstRun(cols, k % NumRect))
                                              || (k / NumRect == r2 && c <= k % NumRect < c2) then 1 else 0)
      {
        s := s[r2 * NumRect + c2 := s[r2 * NumRect + c2] + 1];
        c2 := c2 + 1;
      }
      assert c2 == Skip(cols, c, true);
      r2 := r2 + 1;
    }
    assert r2 == Skip(rows, r, true);
  }

  /**
   * What the counter of region k holds in the middle of the raster pass,
   * once rows 0 .. y-1 and the pixels 0 .. x-1 of row y have been visited.
   */
  function Partial(depth: seq<seq<Reading>>, c: Centres, y: nat, x: nat, k: nat): nat
    requires |c.widths| == NumRect && |c.heights| == NumRect && k < Sections
    requires y < |depth| && x <= |depth[y]|
  {
    RegionCount(depth, y, RowCentre(c, k), ColCentre(c, k))
    + (if Contains(RowCentre(c, k), HalfHeight, y) then RowCount(depth[y], x, ColCentre(c, k)) else 0)
  }

  /**
   * Visiting pixel (x, y) with windows that hold brute-force membership and
   * bumping exactly the regions active in both windows when the pixel is
   * unsafe advances every counter from Partial(.., x, ..) to Partial(.., x + 1, ..).
   */
  lemma PixelStep(depth: seq<seq<Reading>>, c: Centres, y: nat, x: nat,
                  rows: seq<bool>, cols: seq<bool>, before: seq<int>, after: seq<int>)
    requires |c.widths| == NumRect && |c.heights| == NumRect
    requires y < |depth| && x < |depth[y]|
    requires |rows| == NumRect && |cols| == NumRect && |before| == Sections && |after| == Sections
    requires forall i :: 0 <= i < NumRect ==> (rows[i] <==> Contains(c.heights[i], HalfHeight, y))
    requires forall i :: 0 <= i < NumRect ==> (cols[i] <==> Contains(c.widths[i], HalfWidth, x))
    requires forall k :: 0 <= k < Sections ==> before[k] == Partial(depth, c, y, x, k)
    requires forall k :: 0 <= k < Sections ==>
               after[k] == before[k] + (if Unsafe(depth[y][x]) && rows[k / NumRect] && cols[k % NumRect] then 1 else 0)
    ensures forall k :: 0 <= k < Sections ==> after[k] == Partial(depth, c, y, x + 1, k)
  {
    forall k | 0 <= k < Sections
      ensures after[k] == Partial(depth, c, y, x + 1, k)
    {
      assert rows[k / NumRect] <==> Contains(RowCentre(c, k), HalfHeight, y);
      assert cols[k % NumRect] <==> Contains(ColCentre(c, k), HalfWidth, x);
    }
  }

  /**
   * The inner loop of countPixels: the pass over row y, with the row window
   * already stepped to y. The column window restarts from its initial state.
   */
  method ScanRow(depth: seq<seq<Reading>>, width: nat, c: Centres, y: nat, rows: seq<bool>, sections: seq<int>)
    returns (s: seq<int>)
    requires Rectangular(depth, width) && y < |depth|
    requires |c.widths| == NumRect && |c.heights| == NumRect
    requires WellSpaced(c.widths, HalfWidth)
    requires |rows| == NumRect && |sections| == Sections
    requires forall i :: 0 <= i < NumRect ==> (rows[i] <==> Contains(c.heights[i], HalfHeight, y))
    requires forall i :: 0 <= i < NumRect ==> (InFirstRun(rows, i) <==> rows[i])
    requires forall k :: 0 <= k < Sections ==> sections[k] == RegionCount(depth, y, RowCentre(c, k), ColCentre(c, k))
    ensures |s| == Sections
    ensures forall k :: 0 <= k < Sections ==> s[k] == RegionCount(depth, y + 1, RowCentre(c, k), ColCentre(c, k))
  {
    s := sections;
    var cols := Initial(NumRect);
    var x := 0;
    while x < width
      invariant 0 <= x <= width
      invariant |s| == Sections
      invariant cols == if x == 0 then Initial(NumRect) else Active(c.widths, HalfWidth, x - 1)
      invariant forall k :: 0 <= k < Sections ==> s[k] == Partial(depth, c, y, x, k)
    {
      cols, s := ScanPixel(depth, width, c, y, x, rows, cols, s);
      x := x + 1;
    }
    RowDone(depth, c, y, s);
  }

  /** One pixel of the row pass: step the column window to x, then bump the active regions if the pixel is unsafe. */
  method ScanPixel(depth: seq<seq<Reading>>, width: nat, c: Centres, y: nat, x: nat,
                   rows: seq<bool>, cols: seq<bool>, sections: seq<int>)
    returns (cols': seq<bool>, s: seq<int>)
    requires Rectangular(depth, width) && y < |depth| && x < width
    requires |c.widths| == NumRect && |c.heights| == NumRect
    requires WellSpaced(c.widths, HalfWidth)
    requires |rows| == NumRect && |sections| == Sections
    requires forall i :: 0 <= i < NumRect ==> (rows[i] <==> Contains(c.heights[i], HalfHeight, y))
    requires forall i :: 0 <= i < NumRect ==> (InFirstRun(rows, i) <==> rows[i])
    requires cols == if x == 0 then Initial(NumRect) else Active(c.widths, HalfWidth, x - 1)
    requires forall k :: 0 <= k < Sections ==> sections[k] == Partial(depth, c, y, x, k)
    ensures cols' == Active(c.widths, HalfWidth, x)
    ensures |s| == Sections
    ensures forall k :: 0 <= k < Sections ==> s[k] == Partial(depth, c, y, x + 1, k)
  {
    cols' := CheckWindow(cols, c.widths, HalfWidth, x);
    ScanMatchesBruteForce(c.widths, HalfWidth, cols, cols', x);
    ActiveContiguous(c.widths, HalfWidth, x);
    ContiguousFirstRun(cols');
    s := sections;
    if Unsafe(depth[y][x]) {
      s := UpdateCounters(rows, cols', s);
    }
    PixelStep(depth, c, y, x, rows, cols', sections, s);
  }

  /** A finished row pass leaves every counter at the region's count of rows 0 .. y. */
  lemma RowDone(depth: seq<seq<Reading>>, c: Centres, y: nat, s: seq<int>)
    requires y < |depth| && |c.widths| == NumRect && |c.heights| == NumRect && |s| == Sections
    requires forall k :: 0 <= k < Sections ==> s[k] == Partial(depth, c, y, |depth[y]|, k)
    ensures forall k :: 0 <= k < Sections ==> s[k] == RegionCount(depth, y + 1, RowCentre(c, k), ColCentre(c, k))
  {
  }

  /**
   * countPixels (without the final percentage step): one raster pass that
   * yields, for every region, exactly its brute-force occupancy.
   */
  method CountPixels(depth: seq<seq<Reading>>, width: nat, c: Centres) returns (sections: seq<int>)
    requires Rectangular(depth, width)
    requires |c.widths| == NumRect && |c.heights| == NumRect
    requires WellSpaced(c.widths, HalfWidth) && WellSpaced(c.heights, HalfHeight)
    ensures |sections| == Sections
    ensures forall k :: 0 <= k < Sections ==> sections[k] == Occupancy(depth, c, k)
  {
    sections := seq(Sections, _ => 0);
    var rows := Initial(NumRect);
    var y := 0;
    while y < |depth|
      invariant 0 <= y <= |depth|
      invariant |sections| == Sections
      invariant rows == if y == 0 then Initial(NumRect) else Active(c.heights, HalfHeight, y - 1)
      invariant forall k :: 0 <= k < Sections ==> sections[k] == RegionCount(depth, y, RowCentre(c, k), ColCentre(c, k))
    {
      var prevRows := rows;
      rows := CheckWindow(rows, c.heights, HalfHeight, y);
      ScanMatchesBruteForce(c.heights, HalfHeight, prevRows, rows, y);
      ActiveContiguous(c.heights, HalfHeight, y);
      ContiguousFirstRun(rows);
      sections := ScanRow(depth, width, c, y, rows, sections);
      y := y + 1;
    }
  }

  /** max(0, min(n, hi) - max(0, lo)) when lo <= hi: how many of 0 .. n-1 fall in [lo, hi), for lo >= 0. */
  function Clip(n: int, lo: int, hi: int): int {
    if n <= lo then 0 else if n <= hi then n - lo else hi - lo
  }

  lemma {:induction false} RowCountBound(row: seq<Reading>, xEnd: nat, cx: int)
    requires xEnd <= |row|
    requires 0 <= cx - HalfWidth
    ensures RowCount(row, xEnd, cx) <= Clip(xEnd, cx - HalfWidth, cx + HalfWidth)
  {
    if xEnd > 0 {
      RowCountBound(row, xEnd - 1, cx);
    }
  }

  lemma {:induction false} RegionCountBound(depth: seq<seq<Reading>>, yEnd: nat, cy: int, cx: int)
    requires yEnd <= |depth|
    requires 0 <= cx - HalfWidth && 0 <= cy - HalfHeight
    ensures RegionCount(depth, yEnd, cy, cx) <= Clip(yEnd, cy - HalfHeight, cy + HalfHeight) * (2 * HalfWidth)
  {
    if yEnd > 0 {
      RegionCountBound(depth, yEnd - 1, cy, cx);
      var row := depth[yEnd - 1];
      RowCountBound(row, |row|, cx);
    }
  }

  /** No region can count more unsafe pixels than its area TOTAL_PIXELS. */
  lemma OccupancyBound(depth: seq<seq<Reading>>, c: Centres, k: nat)
    requires |c.widths| == NumRect && |c.heights| == NumRect && k < Sections
    requires WellSpaced(c.widths, HalfWidth) && WellSpaced(c.heights, HalfHeight)
    ensures Occupancy(depth, c, k) <= TotalPixels
  {
    Ascending(c.widths, 0, k % NumRect);
    Ascending(c.heights, 0, k / NumRect);
    RegionCountBound(depth, |depth|, RowCentre(c, k), ColCentre(c, k));
  }

  /** n, but no more than bound. */
  function Cap(n: nat, bound: nat): nat {
    if n < bound then n else bound
  }

  /** The running row count is the plain count of the row segment the region's column band cuts out. */
  lemma {:induction false} RowCountIsUnsafeInRow(row: seq<Reading>, xEnd: nat, cx: int)
    requires xEnd <= |row| && 0 <= cx - HalfWidth
    ensures RowCount(row, xEnd, cx) == UnsafeInRow(row, Cap(cx - HalfWidth, xEnd), Cap(cx + HalfWidth, xEnd))
  {
    if xEnd > 0 {
      RowCountIsUnsafeInRow(row, xEnd - 1, cx);
    }
  }

  /** The running region count is the plain count of the rectangle the region's bands cut out. */
  lemma {:induction false} RegionCountIsUnsafeInRect(depth: seq<seq<Reading>>, width: nat, yEnd: nat, cy: int, cx: int)
    requires Rectangular(depth, width) && yEnd <= |depth|
    requires 0 <= cx - HalfWidth && cx + HalfWidth <= width && 0 <= cy - HalfHeight
    ensures RegionCount(depth, yEnd, cy, cx)
            == UnsafeInRect(depth, width, cx - HalfWidth, cx + HalfWidth, Cap(cy - HalfHeight, yEnd), Cap(cy + HalfHeight, yEnd))
  {
    if yEnd > 0 {
      RegionCountIsUnsafeInRect(depth, width, yEnd - 1, cy, cx);
      RowCountIsUnsafeInRow(depth[yEnd - 1], width, cx);
    }
  }

  /**
   * The scanner's occupancy of a region that lies inside the frame is the
   * unsafe count of its rectangle [cx - HALF_WIDTH, cx + HALF_WIDTH) x
   * [cy - HALF_HEIGHT, cy + HALF_HEIGHT), the count the even 3x3 scanner uses.
   */
  lemma OccupancyIsUnsafeInRect(depth: seq<seq<Reading>>, width: nat, c: Centres, k: nat)
    requires Rectangular(depth, width)
    requires |c.widths| == NumRect && |c.heights| == NumRect && k < Sections
    requires 0 <= ColCentre(c, k) - HalfWidth && ColCentre(c, k) + HalfWidth <= width
    requires 0 <= RowCentre(c, k) - HalfHeight && RowCentre(c, k) + HalfHeight <= |depth|
    ensures Occupancy(depth, c, k)
            == UnsafeInRect(depth, width, ColCentre(c, k) - HalfWidth, ColCentre(c, k) + HalfWidth,
                            RowCentre(c, k) - HalfHeight, RowCentre(c, k) + HalfHeight)
  {
    RegionCountIsUnsafeInRect(depth, width, |depth|, RowCentre(c, k), ColCentre(c, k));
  }

  /** getPercentage: the share of unsafe pixels in one region, in percent (exact arithmetic). */
  function Percentage(count: int): (p: real)
    ensures 0 <= count <= TotalPixels ==> 0.0 <= p <= 100.0
  {
    (count as real / TotalPixels as real) * 100.0
  }

  /** calcPercentages: the percentage of every region. */
  function CalcPercentages(sections: seq<int>): (v: seq<real>)
    ensures |v| == |sections|
    ensures forall k :: 0 <= k < |v| ==> v[k] == Percentage(sections[k])
    ensures forall j, k :: 0 <= j < |v| && 0 <= k < |v| ==> (v[j] < v[k] <==> sections[j] < sections[k])
    ensures forall j, k :: 0 <= j < |v| && 0 <= k < |v| ==> (v[j] == v[k] <==> sections[j] == sections[k])
  {
    var v := seq(|sections|, k requires 0 <= k < |sections| => Percentage(sections[k]));
    PercentagesOrder(sections, v);
    v
  }

  /** Pointwise percentages order and equate exactly as the counts. */
  lemma PercentagesOrder(sections: seq<int>, v: seq<real>)
    requires |v| == |sections| && forall k :: 0 <= k < |v| ==> v[k] == Percentage(sections[k])
    ensures forall j, k :: 0 <= j < |v| && 0 <= k < |v| ==> (v[j] < v[k] <==> sections[j] < sections[k])
    ensures forall j, k :: 0 <= j < |v| && 0 <= k < |v| ==> (v[j] == v[k] <==> sections[j] == sections[k])
  {
    forall j, k | 0 <= j < |v| && 0 <= k < |v|
      ensures v[j] < v[k] <==> sections[j] < sections[k]
      ensures v[j] == v[k] <==> sections[j] == sections[k]
    {
      PercentageOrder(sections[j], sections[k]);
    }
  }

  /**
   * All regions share the denominator TOTAL_PIXELS, so percentages compare
   * exactly as the raw counts do: the selector's ordering and tie tests on
   * percentages are ordering and tie tests on counts.
   */
  lemma PercentageOrder(a: int, b: int)
    ensures Percentage(a) < Percentage(b) <==> a < b
    ensures Percentage(a) == Percentage(b) <==> a == b
  {
    var t := TotalPixels as real;
    assert Percentage(a) == a as real * (100.0 / t);
    assert Percentage(b) == b as real * (100.0 / t);
  }

  /** A region is below the 15 percent threshold exactly when 100 * count < 15 * TOTAL_PIXELS. */
  lemma PercentageThreshold(count: int, thresh: int)
    ensures Percentage(count) < thresh as real <==> 100 * count < thresh * TotalPixels
  {
    var t := TotalPixels as real;
    assert Percentage(count) == (100 * count) as real / t;
  }

  /** After a scan every region's percentage lies in [0, 100]. */
  lemma ScanPercentagesBounded(depth: seq<seq<Reading>>, c: Centres, k: nat)
    requires |c.widths| == NumRect && |c.heights| == NumRect && k < Sections
    requires WellSpaced(c.widths, HalfWidth) && WellSpaced(c.heights, HalfHeight)
    ensures 0.0 <= Percentage(Occupancy(depth, c, k)) <= 100.0
  {
    OccupancyBound(depth, c, k);
  }
}
