/**
 * The 3x3 partition shared by the even-thirds scanner (smallEven.cpp) and
 * the disparity scanner (main.cpp): each axis is cut into three bands at
 * start offsets 0, s1, s2, the last band running to the frame edge, and
 * section i is the tile in row band i / 3 and column band i % 3. Both
 * scanners map the chosen section to a flight action with the same switch.
 */
module Thirds {
  import opened Motion

  /** The cuts of one axis of the given extent: bands [0, s1), [s1, s2), [s2, extent). */
  datatype Cuts = Cuts(s1: int, s2: int, extent: int)

  /** The cuts are in order, so the three bands are well formed. */
  predicate Ordered(c: Cuts) {
    0 <= c.s1 <= c.s2 <= c.extent
  }

  /** startWidth[k] / startHeight[k]: where band k starts. */
  function Start(c: Cuts, k: int): int
    requires 0 <= k < 3
  {
    if k == 0 then 0 else if k == 1 then c.s1 else c.s2
  }

  /** endW / endH of partitionCalc: the next band's start, or the extent for the last band. */
  function End(c: Cuts, k: int): int
    requires 0 <= k < 3
  {
    if k == 2 then c.extent else Start(c, k + 1)
  }

  /** The band holding coordinate x. */
  function BandOf(c: Cuts, x: int): (k: int)
    ensures 0 <= k < 3
  {
    if x < c.s1 then 0 else if x < c.s2 then 1 else 2
  }

  /**
   * The bands are disjoint and cover the axis: every coordinate in
   * [0, extent) lies in band k exactly when k is its band.
   */
  lemma BandsPartition(c: Cuts, x: int, k: int)
    requires Ordered(c) && 0 <= x < c.extent && 0 <= k < 3
    ensures Start(c, k) <= x < End(c, k) <==> k == BandOf(c, x)
  {
  }

  /** The widths of the three bands add up to the extent. */
  lemma BandWidthsSum(c: Cuts)
    requires Ordered(c)
    ensures (End(c, 0) - Start(c, 0)) + (End(c, 1) - Start(c, 1)) + (End(c, 2) - Start(c, 2)) == c.extent
  {
  }

  /** Pixel (x, y) lies in section i of the frame cut by cols and rows. */
  predicate InSection(cols: Cuts, rows: Cuts, i: int, x: int, y: int)
    requires 0 <= i < 9
  {
    Start(cols, i % 3) <= x < End(cols, i % 3) && Start(rows, i / 3) <= y < End(rows, i / 3)
  }

  /** The section of pixel (x, y). */
  function SectionAt(cols: Cuts, rows: Cuts, x: int, y: int): (i: int)
    ensures 0 <= i < 9
  {
    3 * BandOf(rows, y) + BandOf(cols, x)
  }

  /** The nine sections tile the frame: every pixel lies in exactly one of them. */
  lemma SectionsTile(cols: Cuts, rows: Cuts, x: int, y: int, i: int)
    requires Ordered(cols) && Ordered(rows)
    requires 0 <= x < cols.extent && 0 <= y < rows.extent && 0 <= i < 9
    ensures InSection(cols, rows, i, x, y) <==> i == SectionAt(cols, rows, x, y)
  {
    BandsPartition(cols, x, i % 3);
    BandsPartition(rows, y, i / 3);
  }

  /** totalPix of section i: the area of its tile. */
  function Area(cols: Cuts, rows: Cuts, i: int): (a: int)
    requires Ordered(cols) && Ordered(rows) && 0 <= i < 9
    ensures a >= 0
  {
    (End(cols, i % 3) - Start(cols, i % 3)) * (End(rows, i / 3) - Start(rows, i / 3))
  }

  /** The areas of sections 0 .. n-1. */
  function AreaUpTo(cols: Cuts, rows: Cuts, n: int): int
    requires Ordered(cols) && Ordered(rows) && 0 <= n <= 9
  {
    if n == 0 then 0 else AreaUpTo(cols, rows, n - 1) + Area(cols, rows, n - 1)
  }

  /** The three sections of row band r together cover that band across the full width. */
  lemma RowAreas(cols: Cuts, rows: Cuts, r: int)
    requires Ordered(cols) && Ordered(rows) && 0 <= r < 3
    ensures Area(cols, rows, 3 * r) + Area(cols, rows, 3 * r + 1) + Area(cols, rows, 3 * r + 2)
            == cols.extent * (End(rows, r) - Start(rows, r))
  {
    var h := End(rows, r) - Start(rows, r);
    var w0, w1, w2 := End(cols, 0) - Start(cols, 0), End(cols, 1) - Start(cols, 1), End(cols, 2) - Start(cols, 2);
    assert Area(cols, rows, 3 * r) == w0 * h;
    assert Area(cols, rows, 3 * r + 1) == w1 * h;
    assert Area(cols, rows, 3 * r + 2) == w2 * h;
    BandWidthsSum(cols);
    Distribute(w0, w1, w2, h);
  }

  /** The nine areas add up to the frame: every pixel is counted once. */
  lemma AreasSum(cols: Cuts, rows: Cuts)
    requires Ordered(cols) && Ordered(rows)
    ensures AreaUpTo(cols, rows, 9) == cols.extent * rows.extent
  {
    var h0, h1, h2 := End(rows, 0) - Start(rows, 0), End(rows, 1) - Start(rows, 1), End(rows, 2) - Start(rows, 2);
    RowAreas(cols, rows, 0);
    RowAreas(cols, rows, 1);
    RowAreas(cols, rows, 2);
    assert AreaUpTo(cols, rows, 1) == Area(cols, rows, 0);
    assert AreaUpTo(cols, rows, 2) == AreaUpTo(cols, rows, 1) + Area(cols, rows, 1);
    assert AreaUpTo(cols, rows, 3) == AreaUpTo(cols, rows, 2) + Area(cols, rows, 2);
    assert AreaUpTo(cols, rows, 4) == AreaUpTo(cols, rows, 3) + Area(cols, rows, 3);
    assert AreaUpTo(cols, rows, 5) == AreaUpTo(cols, rows, 4) + Area(cols, rows, 4);
    assert AreaUpTo(cols, rows, 6) == AreaUpTo(cols, rows, 5) + Area(cols, rows, 5);
    assert AreaUpTo(cols, rows, 7) == AreaUpTo(cols, rows, 6) + Area(cols, rows, 6);
    assert AreaUpTo(cols, rows, 8) == AreaUpTo(cols, rows, 7) + Area(cols, rows, 7);
    assert AreaUpTo(cols, rows, 9) == AreaUpTo(cols, rows, 8) + Area(cols, rows, 8);
    assert AreaUpTo(cols, rows, 3) == cols.extent * h0;
    assert AreaUpTo(cols, rows, 6) == cols.extent * h0 + cols.extent * h1;
    assert AreaUpTo(cols, rows, 9) == cols.extent * h0 + cols.extent * h1 + cols.extent * h2;
    BandWidthsSum(rows);
    Distribute(h0, h1, h2, cols.extent);
  }

  lemma Distribute(a: int, b: int, c: int, h: int)
    ensures a * h + b * h + c * h == (a + b + c) * h
    ensures h * a + h * b + h * c == h * (a + b + c)
  {
  }

  /** The cuts of partitionCalc in smallEven.cpp: extent / 3 and extent / 3 * 2. */
  function EvenCuts(extent: nat): (c: Cuts)
    ensures Ordered(c)
  {
    Cuts(extent / 3, extent / 3 * 2, extent)
  }

  /** With even cuts every band is nonempty exactly when the extent is at least 3. */
  lemma EvenCutsNonempty(extent: nat)
    ensures (forall k :: 0 <= k < 3 ==> Start(EvenCuts(extent), k) < End(EvenCuts(extent), k)) <==> extent >= 3
  {
    var c := EvenCuts(extent);
    if extent < 3 {
      assert Start(c, 0) == End(c, 0);
    }
  }

  /** The sections of a frame are all nonempty exactly when both cut axes have nonempty bands. */
  lemma AreasPositive(cols: Cuts, rows: Cuts)
    requires Ordered(cols) && Ordered(rows)
    ensures (forall i :: 0 <= i < 9 ==> Area(cols, rows, i) > 0) <==>
            (forall k :: 0 <= k < 3 ==> Start(cols, k) < End(cols, k) && Start(rows, k) < End(rows, k))
  {
    if forall i :: 0 <= i < 9 ==> Area(cols, rows, i) > 0 {
      BandsFromAreas(cols, rows);
    }
    if forall k :: 0 <= k < 3 ==> Start(cols, k) < End(cols, k) && Start(rows, k) < End(rows, k) {
      forall i | 0 <= i < 9
        ensures Area(cols, rows, i) > 0
      {
        PositiveProduct(End(cols, i % 3) - Start(cols, i % 3), End(rows, i / 3) - Start(rows, i / 3));
      }
    }
  }

  /** Nonempty tiles in the top row and the left column make every band nonempty. */
  lemma BandsFromAreas(cols: Cuts, rows: Cuts)
    requires Ordered(cols) && Ordered(rows)
    requires forall i :: 0 <= i < 9 ==> Area(cols, rows, i) > 0
    ensures forall k :: 0 <= k < 3 ==> Start(cols, k) < End(cols, k) && Start(rows, k) < End(rows, k)
  {
    var c0, c1, c2 := End(cols, 0) - Start(cols, 0), End(cols, 1) - Start(cols, 1), End(cols, 2) - Start(cols, 2);
    var r0, r1, r2 := End(rows, 0) - Start(rows, 0), End(rows, 1) - Start(rows, 1), End(rows, 2) - Start(rows, 2);
    assert Area(cols, rows, 0) == c0 * r0 && Area(cols, rows, 1) == c1 * r0 && Area(cols, rows, 2) == c2 * r0;
    assert Area(cols, rows, 3) == c0 * r1 && Area(cols, rows, 6) == c0 * r2;
    FactorsPositive(c0, r0);
    FactorsPositive(c1, r0);
    FactorsPositive(c2, r0);
    FactorsPositive(c0, r1);
    FactorsPositive(c0, r2);
  }

  lemma PositiveProduct(a: int, b: int)
    requires a > 0 && b > 0
    ensures a * b > 0
  {
  }

  lemma FactorsPositive(a: int, b: int)
    requires a >= 0 && b >= 0 && a * b > 0
    ensures a > 0 && b > 0
  {
  }

  /**
   * A flight action: turn in place, or move with a vertical sense (Negative
   * is up) and a lateral sense (Negative is left); Move(Still, Still) is
   * "continue straight to the destination".
   */
  datatype Action = TurnInPlace | Move(vertical: Sense, lateral: Sense)

  /** The manuever switch: one case per section, everything else turns in place. */
  function ActionOf(section: int): (a: Action)
    ensures 0 <= section < 9 ==> a == Move(SenseOf(section / 3 - 1), SenseOf(section % 3 - 1))
    ensures !(0 <= section < 9) ==> a == TurnInPlace
  {
    match section
    case 0 => Move(Negative, Negative)
    case 1 => Move(Negative, Still)
    case 2 => Move(Negative, Positive)
    case 3 => Move(Still, Negative)
    case 4 => Move(Still, Still)
    case 5 => Move(Still, Positive)
    case 6 => Move(Positive, Negative)
    case 7 => Move(Positive, Still)
    case 8 => Move(Positive, Positive)
    case _ => TurnInPlace
  }

  /** The section an action comes from, -1 for turning in place. */
  function SectionFor(a: Action): (section: int)
    ensures -1 <= section < 9
  {
    match a
    case TurnInPlace => -1
    case Move(v, l) => 3 * (Unit(v) + 1) + (Unit(l) + 1)
  }

  /** Every action is produced by exactly one section in -1 .. 8: the switch is a bijection. */
  lemma ActionRoundTrip(a: Action, section: int)
    requires -1 <= section < 9
    ensures ActionOf(SectionFor(a)) == a
    ensures SectionFor(ActionOf(section)) == section
  {
    if a.Move? {
      SenseRoundTrip(a.vertical);
      SenseRoundTrip(a.lateral);
    }
  }
}
