/**
 * The even-thirds scanner (smallEven.cpp): the depth frame is cut into a
 * 3x3 grid at width / 3 and width / 3 * 2 (and the same for the height),
 * every tile's share of unsafe samples is taken as a float percentage, and
 * the selector prefers the centre tile, then the lowest tile index, among
 * the tiles of least share, provided that share is below PER_THRESH.
 *
 * Tiles differ in size here, so the percentages are kept as exact
 * rationals, with the IEEE special values a division by an empty tile
 * produces (0 / 0 is NaN, every comparison with NaN is false).
 */
module SmallEven {
  import opened Depth
  import opened Thirds
  import opened Motion

  /** PER_THRESH of smallEven.cpp, in percent. */
  const PerThresh: real := 20.0

  /** A float percentage: an exact value, an infinity from x / 0 with x != 0, or NaN from 0 / 0. */
  datatype Percent = NaN | PosInf | NegInf | Pct(value: real)

  /** IEEE `<` on percentages: false whenever NaN is involved. */
  predicate Less(a: Percent, b: Percent) {
    match a
    case NaN => false
    case PosInf => false
    case NegInf => !b.NaN? && !b.NegInf?
    case Pct(x) => b.PosInf? || (b.Pct? && x < b.value)
  }

  /** `<` on the non-NaN percentages is a strict total order. */
  lemma LessOrder(a: Percent, b: Percent, c: Percent)
    requires !a.NaN? && !b.NaN? && !c.NaN?
    ensures !Less(a, a)
    ensures a == b || Less(a, b) || Less(b, a)
    ensures Less(a, b) && Less(b, c) ==> Less(a, c)
  {
  }

  /** getPercentage: (float) numAbove / totalPix * 100 with IEEE division by zero. */
  function GetPercentage(numAbove: int, totalPix: int): (p: Percent)
    ensures p.NaN? <==> numAbove == 0 && totalPix == 0
    ensures 0 <= numAbove <= totalPix && 0 < totalPix ==> p.Pct? && 0.0 <= p.value <= 100.0
  {
    if totalPix == 0 then
      if numAbove == 0 then NaN else if numAbove > 0 then PosInf else NegInf
    else
      Pct((numAbove as real / totalPix as real) * 100.0)
  }

  /**
   * Percentages of non-empty tiles compare as the cross-multiplied counts:
   * a1 / t1 < a2 / t2 exactly when a1 * t2 < a2 * t1.
   */
  lemma PercentageCompare(a1: int, t1: int, a2: int, t2: int)
    requires 0 < t1 && 0 < t2
    ensures Less(GetPercentage(a1, t1), GetPercentage(a2, t2)) <==> a1 * t2 < a2 * t1
  {
    var r1 := a1 as real / t1 as real;
    var r2 := a2 as real / t2 as real;
    assert r1 * t1 as real == a1 as real;
    assert r2 * t2 as real == a2 as real;
    assert (a1 * t2) as real == r1 * (t1 as real * t2 as real);
    assert (a2 * t1) as real == r2 * (t1 as real * t2 as real);
  }

  /** A non-empty tile is below PER_THRESH exactly when 100 * numAbove < 20 * totalPix. */
  lemma PercentageThreshold(a: int, t: int)
    requires 0 < t
    ensures Less(GetPercentage(a, t), Pct(PerThresh)) <==> 100 * a < 20 * t
  {
    var tr := t as real;
    var r := a as real / tr;
    assert r * tr == a as real;
    var x := r * 100.0;
    assert GetPercentage(a, t) == Pct(x);
    RealScale(x, PerThresh, tr, (100 * a) as real, (20 * t) as real);
  }

  /** Multiplying both sides by a positive factor keeps a strict comparison. */
  lemma RealScale(x: real, y: real, s: real, xs: real, ys: real)
    requires 0.0 < s && xs == x * s && ys == y * s
    ensures x < y <==> xs < ys
  {
    assert ys - xs == (y - x) * s;
    if x < y {
      assert (y - x) * s > 0.0;
    } else {
      assert (x - y) * s >= 0.0;
    }
  }

  /**
   * countPixels: visits every pixel of [startW, endW) x [startH, endH),
   * counting the pixels in totalPix and the unsafe ones in numAbove.
   */
  method CountPixels(depth: seq<seq<Reading>>, width: nat, startW: nat, startH: nat, endW: nat, endH: nat)
    returns (numAbove: int, totalPix: int)
    requires Rectangular(depth, width)
    requires startW <= endW <= width && startH <= endH <= |depth|
    ensures totalPix == (endW - startW) * (endH - startH)
    ensures numAbove == UnsafeInRect(depth, width, startW, endW, startH, endH)
    ensures 0 <= numAbove <= totalPix
  {
    numAbove, totalPix := 0, 0;
    var y := startH;
    while y < endH
      invariant startH <= y <= endH
      invariant totalPix == (endW - startW) * (y - startH)
      invariant numAbove == UnsafeInRect(depth, width, startW, endW, startH, y)
    {
      var x := startW;
      while x < endW
        invariant startW <= x <= endW
        invariant totalPix == (endW - startW) * (y - startH) + (x - startW)
        invariant numAbove == UnsafeInRect(depth, width, startW, endW, startH, y) + UnsafeInRow(depth[y], startW, x)
      {
        totalPix := totalPix + 1;
        if Unsafe(depth[y][x]) {
          numAbove := numAbove + 1;
        }
        x := x + 1;
      }
      y := y + 1;
    }
    UnsafeInRectBound(depth, width, startW, endW, startH, endH);
  }

  /** The unsafe samples of section i of a frame cut by cols and rows. */
  function TileCount(depth: seq<seq<Reading>>, width: nat, cols: Cuts, rows: Cuts, i: int): nat
    requires Rectangular(depth, width) && Ordered(cols) && Ordered(rows)
    requires cols.extent == width && rows.extent == |depth| && 0 <= i < 9
  {
    UnsafeInRect(depth, width, Start(cols, i % 3), End(cols, i % 3), Start(rows, i / 3), End(rows, i / 3))
  }

  /** The unsafe counts of sections 0 .. n-1. */
  function TileCountUpTo(depth: seq<seq<Reading>>, width: nat, cols: Cuts, rows: Cuts, n: int): nat
    requires Rectangular(depth, width) && Ordered(cols) && Ordered(rows)
    requires cols.extent == width && rows.extent == |depth| && 0 <= n <= 9
  {
    if n == 0 then 0 else TileCountUpTo(depth, width, cols, rows, n - 1) + TileCount(depth, width, cols, rows, n - 1)
  }

  /** The three sections of row band r together count the band across the full width. */
  lemma RowTileCounts(depth: seq<seq<Reading>>, width: nat, cols: Cuts, rows: Cuts, r: int)
    requires Rectangular(depth, width) && Ordered(cols) && Ordered(rows)
    requires cols.extent == width && rows.extent == |depth| && 0 <= r < 3
    ensures TileCount(depth, width, cols, rows, 3 * r) + TileCount(depth, width, cols, rows, 3 * r + 1)
              + TileCount(depth, width, cols, rows, 3 * r + 2)
            == UnsafeInRect(depth, width, 0, width, Start(rows, r), End(rows, r))
  {
    var ylo, yhi := Start(rows, r), End(rows, r);
    assert TileCount(depth, width, cols, rows, 3 * r) == UnsafeInRect(depth, width, 0, cols.s1, ylo, yhi);
    assert TileCount(depth, width, cols, rows, 3 * r + 1) == UnsafeInRect(depth, width, cols.s1, cols.s2, ylo, yhi);
    assert TileCount(depth, width, cols, rows, 3 * r + 2) == UnsafeInRect(depth, width, cols.s2, width, ylo, yhi);
    UnsafeInRectSplitX(depth, width, 0, cols.s1, width, ylo, yhi);
    UnsafeInRectSplitX(depth, width, cols.s1, cols.s2, width, ylo, yhi);
  }

  /** The nine sections' unsafe counts add up to the whole frame's: every pixel is counted once. */
  lemma TileCountsSum(depth: seq<seq<Reading>>, width: nat, cols: Cuts, rows: Cuts)
    requires Rectangular(depth, width) && Ordered(cols) && Ordered(rows)
    requires cols.extent == width && rows.extent == |depth|
    ensures TileCountUpTo(depth, width, cols, rows, 9) == UnsafeInRect(depth, width, 0, width, 0, |depth|)
  {
    RowTileCounts(depth, width, cols, rows, 0);
    RowTileCounts(depth, width, cols, rows, 1);
    RowTileCounts(depth, width, cols, rows, 2);
    assert TileCountUpTo(depth, width, cols, rows, 1) == TileCountUpTo(depth, width, cols, rows, 0) + TileCount(depth, width, cols, rows, 0);
    assert TileCountUpTo(depth, width, cols, rows, 2) == TileCountUpTo(depth, width, cols, rows, 1) + TileCount(depth, width, cols, rows, 1);
    assert TileCountUpTo(depth, width, cols, rows, 3) == TileCountUpTo(depth, width, cols, rows, 2) + TileCount(depth, width, cols, rows, 2);
    assert TileCountUpTo(depth, width, cols, rows, 4) == TileCountUpTo(depth, width, cols, rows, 3) + TileCount(depth, width, cols, rows, 3);
    assert TileCountUpTo(depth, width, cols, rows, 5) == TileCountUpTo(depth, width, cols, rows, 4) + TileCount(depth, width, cols, rows, 4);
    assert TileCountUpTo(depth, width, cols, rows, 6) == TileCountUpTo(depth, width, cols, rows, 5) + TileCount(depth, width, cols, rows, 5);
    assert TileCountUpTo(depth, width, cols, rows, 7) == TileCountUpTo(depth, width, cols, rows, 6) + TileCount(depth, width, cols, rows, 6);
    assert TileCountUpTo(depth, width, cols, rows, 8) == TileCountUpTo(depth, width, cols, rows, 7) + TileCount(depth, width, cols, rows, 7);
    assert TileCountUpTo(depth, width, cols, rows, 9) == TileCountUpTo(depth, width, cols, rows, 8) + TileCount(depth, width, cols, rows, 8);
    assert TileCountUpTo(depth, width, cols, rows, 9)
           == UnsafeInRect(depth, width, 0, width, 0, rows.s1)
              + UnsafeInRect(depth, width, 0, width, rows.s1, rows.s2)
              + UnsafeInRect(depth, width, 0, width, rows.s2, |depth|);
    UnsafeInRectSplitY(depth, width, 0, width, 0, rows.s1, |depth|);
    UnsafeInRectSplitY(depth, width, 0, width, rows.s1, rows.s2, |depth|);
  }

  /** The share of section i of the frame, cut evenly. */
  function TileShare(depth: seq<seq<Reading>>, width: nat, i: int): Percent
    requires Rectangular(depth, width) && 0 <= i < 9
  {
    GetPercentage(TileCount(depth, width, EvenCuts(width), EvenCuts(|depth|), i), Area(EvenCuts(width), EvenCuts(|depth|), i))
  }

  /**
   * One section of partitionCalc: its bounds from the cuts (the last band
   * ends at the frame edge), then countPixels and getPercentage.
   */
  method SectionValue(depth: seq<seq<Reading>>, width: nat, i: int) returns (p: Percent)
    requires Rectangular(depth, width) && 0 <= i < 9
    ensures p == TileShare(depth, width, i)
  {
    var cols := EvenCuts(width);
    var rows := EvenCuts(|depth|);
    var row := i / 3;
    var col := i % 3;
    var startW := Start(cols, col);
    var startH := Start(rows, row);
    var endW := if col == 2 then width else Start(cols, col + 1);
    var endH := if row == 2 then |depth| else Start(rows, row + 1);
    var numAbove, totalPix := CountPixels(depth, width, startW, startH, endW, endH);
    p := GetPercentage(numAbove, totalPix);
  }

  /** A section's share is NaN exactly when its tile is empty, and a proper value exactly when it is not. */
  lemma TileShareDefined(depth: seq<seq<Reading>>, width: nat, i: int)
    requires Rectangular(depth, width) && 0 <= i < 9
    ensures TileShare(depth, width, i).NaN? <==> Area(EvenCuts(width), EvenCuts(|depth|), i) == 0
    ensures TileShare(depth, width, i).Pct? <==> Area(EvenCuts(width), EvenCuts(|depth|), i) > 0
  {
    var cols := EvenCuts(width);
    var rows := EvenCuts(|depth|);
    UnsafeInRectBound(depth, width, Start(cols, i % 3), End(cols, i % 3), Start(rows, i / 3), End(rows, i / 3));
  }

  /**
   * partitionCalc: the percentage of every section of the evenly cut frame.
   * A section's value is NaN exactly when its tile is empty, and every
   * value is a proper percentage exactly when the frame is at least 3x3.
   */
  method PartitionCalc(depth: seq<seq<Reading>>, width: nat) returns (values: seq<Percent>)
    requires Rectangular(depth, width)
    ensures |values| == 9
    ensures forall i :: 0 <= i < 9 ==> values[i] == TileShare(depth, width, i)
    ensures forall i :: 0 <= i < 9 ==> (values[i].NaN? <==> Area(EvenCuts(width), EvenCuts(|depth|), i) == 0)
    ensures (forall i :: 0 <= i < 9 ==> values[i].Pct?) <==> width >= 3 && |depth| >= 3
  {
    values := [];
    var i := 0;
    while i < 9
      invariant 0 <= i <= 9 && |values| == i
      invariant forall j :: 0 <= j < i ==> values[j] == TileShare(depth, width, j)
    {
      var p := SectionValue(depth, width, i);
      values := values + [p];
      i := i + 1;
    }
    forall j | 0 <= j < 9
      ensures values[j].NaN? <==> Area(EvenCuts(width), EvenCuts(|depth|), j) == 0
      ensures values[j].Pct? <==> Area(EvenCuts(width), EvenCuts(|depth|), j) > 0
    {
      TileShareDefined(depth, width, j);
    }
    AreasPositive(EvenCuts(width), EvenCuts(|depth|));
    EvenCutsNonempty(width);
    EvenCutsNonempty(|depth|);
  }

  /**
   * The selection law of smallEven.cpp, given a centre value that is not
   * NaN: r holds a least value that is below PER_THRESH; the centre section
   * 4 wins unless some value is strictly below it, and otherwise no earlier
   * section holds the same value.
   */
  ghost predicate CentreFirst(values: seq<Percent>, r: int)
    requires |values| == 9
  {
    && 0 <= r < 9
    && Less(values[r], Pct(PerThresh))
    && (forall i :: 0 <= i < 9 ==> !Less(values[i], values[r]))
    && (r != 4 ==> Less(values[r], values[4]))
    && (r != 4 ==> forall i :: 0 <= i < r ==> values[i].NaN? || Less(values[r], values[i]))
  }

  /** At most one section satisfies the selection law. */
  lemma CentreFirstUnique(values: seq<Percent>, a: int, b: int)
    requires |values| == 9 && CentreFirst(values, a) && CentreFirst(values, b)
    ensures a == b
  {
    LessOrder(values[a], values[b], values[a]);
  }

  /** A value not below the running minimum m, and m below v, means v is below the value. */
  lemma BelowMinimum(v: Percent, m: Percent, w: Percent)
    requires Less(v, m) && !Less(w, m) && !w.NaN?
    ensures Less(v, w)
  {
    LessOrder(v, m, w);
    LessOrder(w, m, v);
  }

  /**
   * selectSection: start at section 4, replace on a strictly smaller value
   * while scanning 0 .. 8, and return the position if its value is below
   * PER_THRESH. A NaN centre makes every comparison false, so the result is
   * then -1 whatever the other sections hold.
   */
  method SelectSection(values: seq<Percent>) returns (r: int)
    requires |values| == 9
    ensures values[4].NaN? ==> r == -1
    ensures !values[4].NaN? ==> (r == -1 <==> forall i :: 0 <= i < 9 ==> !Less(values[i], Pct(PerThresh)))
    ensures r != -1 ==> CentreFirst(values, r)
  {
    var minPercent := values[4];
    var minPos := 4;
    var i := 0;
    while i < 9
      invariant 0 <= i <= 9 && 0 <= minPos < 9 && minPercent == values[minPos]
      invariant values[4].NaN? ==> minPos == 4
      invariant !values[4].NaN? ==> forall j :: 0 <= j < i ==> !Less(values[j], minPercent)
      invariant minPos != 4 ==> minPos < i && Less(minPercent, values[4])
      invariant minPos != 4 ==> forall j :: 0 <= j < minPos ==> values[j].NaN? || Less(minPercent, values[j])
    {
      if Less(values[i], minPercent) {
        forall j | 0 <= j < i && !values[j].NaN?
          ensures Less(values[i], values[j])
        {
          BelowMinimum(values[i], minPercent, values[j]);
        }
        if minPos != 4 {
          LessOrder(values[i], minPercent, values[4]);
        }
        minPercent := values[i];
        minPos := i;
      }
      i := i + 1;
    }
    if Less(minPercent, Pct(PerThresh)) {
      r := minPos;
      forall j | 0 <= j < 9
        ensures !Less(values[j], values[r])
      {
        if values[j].NaN? {
        } else {
          LessOrder(values[j], values[r], values[j]);
        }
      }
    } else {
      r := -1;
      if !values[4].NaN? {
        forall j | 0 <= j < 9
          ensures !Less(values[j], Pct(PerThresh))
        {
          if !values[j].NaN? {
            LessOrder(minPercent, values[j], Pct(PerThresh));
            LessOrder(values[j], minPercent, Pct(PerThresh));
          }
        }
      }
    }
  }

  /**
   * One frame of the even-thirds scanner: partition, select and map the
   * section to an action. A frame narrower or shorter than 3 pixels has an
   * empty centre tile, so the craft turns in place whatever it sees.
   */
  method ControlCycle(depth: seq<seq<Reading>>, width: nat) returns (section: int, action: Action)
    requires Rectangular(depth, width)
    ensures (width < 3 || |depth| < 3) ==> section == -1 && action == TurnInPlace
    ensures section != -1 ==> action == Move(SenseOf(section / 3 - 1), SenseOf(section % 3 - 1))
    ensures width >= 3 && |depth| >= 3 ==>
              (action == TurnInPlace <==> forall i :: 0 <= i < 9 ==> !Less(TileShare(depth, width, i), Pct(PerThresh)))
  {
    var values := PartitionCalc(depth, width);
    if width < 3 || |depth| < 3 {
      NarrowCentre(width, |depth|);
    }
    section := SelectSection(values);
    action := ActionOf(section);
  }

  /** With fewer than 3 columns or rows, the centre tile (section 4) is empty. */
  lemma NarrowCentre(width: nat, height: nat)
    requires width < 3 || height < 3
    ensures Area(EvenCuts(width), EvenCuts(height), 4) == 0
  {
  }
}
