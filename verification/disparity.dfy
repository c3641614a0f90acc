/**
 * The disparity scanner (main.cpp): the frame is a 4-channel byte image
 * whose first channel holds the disparity (higher is closer); it is cut into
 * a 3x3 grid at given boundaries, every tile's share of near pixels is
 * truncated to a whole percentage, and the selector takes the centre tile
 * whenever its share is below PER_THRESH, otherwise the lowest-indexed tile
 * of least share if that share is below PER_THRESH.
 */
module Disparity {
  import opened Thirds
  import opened Motion

  newtype byte = b: int | 0 <= b < 256

  /** DIS_THRESH of main.cpp: disparities at or above 120 are near. */
  const DisThresh: byte := 120

  /** PER_THRESH of main.cpp, in percent. */
  const PerThresh: int := 20

  /** Bytes per pixel: the scan steps through a row four bytes at a time. */
  const Channels: nat := 4

  /** Every row of the image holds cols pixels of Channels bytes each. */
  ghost predicate Image(img: seq<seq<byte>>, cols: nat) {
    forall y :: 0 <= y < |img| ==> |img[y]| == Channels * cols
  }

  /** Pixel x of a row is near: its first byte is at least DIS_THRESH. */
  predicate Near(row: seq<byte>, x: nat)
    requires Channels * x < |row|
  {
    row[Channels * x] >= DisThresh
  }

  /** The number of near pixels among pixels lo .. hi-1 of a row. */
  function NearInRow(row: seq<byte>, lo: nat, hi: nat): (n: nat)
    requires lo <= hi && Channels * hi <= |row|
    ensures n <= hi - lo
    decreases hi - lo
  {
    if hi == lo then 0 else NearInRow(row, lo, hi - 1) + (if Near(row, hi - 1) then 1 else 0)
  }

  /** The number of near pixels in [xlo, xhi) x [ylo, yhi). */
  function NearInRect(img: seq<seq<byte>>, cols: nat, xlo: nat, xhi: nat, ylo: nat, yhi: nat): nat
    requires Image(img, cols) && xlo <= xhi <= cols && ylo <= yhi <= |img|
    decreases yhi - ylo
  {
    if yhi == ylo then 0 else NearInRect(img, cols, xlo, xhi, ylo, yhi - 1) + NearInRow(img[yhi - 1], xlo, xhi)
  }

  /** A rectangle never holds more near pixels than pixels. */
  lemma {:induction false} NearInRectBound(img: seq<seq<byte>>, cols: nat, xlo: nat, xhi: nat, ylo: nat, yhi: nat)
    requires Image(img, cols) && xlo <= xhi <= cols && ylo <= yhi <= |img|
    ensures NearInRect(img, cols, xlo, xhi, ylo, yhi) <= (xhi - xlo) * (yhi - ylo)
    decreases yhi - ylo
  {
    if yhi > ylo {
      NearInRectBound(img, cols, xlo, xhi, ylo, yhi - 1);
      assert (xhi - xlo) * (yhi - ylo) == (xhi - xlo) * (yhi - 1 - ylo) + (xhi - xlo);
    }
  }

  /**
   * The inner loop of countPixels for one row: walks the byte offsets
   * startW * 4, startW * 4 + 4, ... below endW * 4, adding one to totalPix
   * per pixel and one to numAbove per near pixel.
   */
  method ScanRow(row: seq<byte>, startW: nat, endW: nat, numAbove: int, totalPix: int)
    returns (numAbove': int, totalPix': int)
    requires startW <= endW && Channels * endW <= |row|
    ensures totalPix' == totalPix + (endW - startW)
    ensures numAbove' == numAbove + NearInRow(row, startW, endW)
  {
    numAbove', totalPix' := numAbove, totalPix;
    var x := startW * Channels;
    assert x / Channels == startW;
    while x < endW * Channels
      invariant startW * Channels <= x <= endW * Channels && x % Channels == 0
      invariant totalPix' == totalPix + (x / Channels - startW)
      invariant numAbove' == numAbove + NearInRow(row, startW, x / Channels)
    {
      totalPix' := totalPix' + 1;
      if row[x] >= DisThresh {
        numAbove' := numAbove' + 1;
      }
      x := x + Channels;
    }
  }

  /**
   * countPixels: for every row of the tile, the row scan, counting pixels in
   * totalPix and near pixels in numAbove.
   */
  method CountPixels(img: seq<seq<byte>>, cols: nat, startW: nat, startH: nat, endW: nat, endH: nat)
    returns (numAbove: int, totalPix: int)
    requires Image(img, cols)
    requires startW <= endW <= cols && startH <= endH <= |img|
    ensures totalPix == (endW - startW) * (endH - startH)
    ensures numAbove == NearInRect(img, cols, startW, endW, startH, endH)
    ensures 0 <= numAbove <= totalPix
  {
    numAbove, totalPix := 0, 0;
    var y := startH;
    while y < endH
      invariant startH <= y <= endH
      invariant totalPix == (endW - startW) * (y - startH)
      invariant numAbove == NearInRect(img, cols, startW, endW, startH, y)
    {
      numAbove, totalPix := ScanRow(img[y], startW, endW, numAbove, totalPix);
      y := y + 1;
    }
    NearInRectBound(img, cols, startW, endW, startH, endH);
  }

  /** Euclidean division of a non-negative n by a positive t brackets n between consecutive multiples of t. */
  lemma DivBounds(n: int, t: int)
    requires 0 <= n && 0 < t
    ensures 0 <= n / t
    ensures (n / t) * t <= n < (n / t) * t + t
  {
    var q, r := n / t, n % t;
    assert n == q * t + r;
  }

  /** Multiplying by a non-negative factor preserves <=. */
  lemma ScaleMonotone(a: int, b: int, t: int)
    requires a <= b && 0 <= t
    ensures a * t <= b * t
  {
    assert b * t - a * t == (b - a) * t;
  }

  /** Cancelling a positive factor preserves <=. */
  lemma CancelFactor(q: int, k: int, t: int)
    requires 0 < t && q * t <= k * t
    ensures q <= k
  {
    if k < q {
      ScaleMonotone(k + 1, q, t);
    }
  }

  /**
   * getPercentage: ((float) numAbove / totalPix) * 100 converted to int,
   * which truncates toward zero. A tile must not be empty: the conversion
   * of the NaN or infinity a division by zero gives is undefined.
   */
  function TruncPercentage(numAbove: int, totalPix: int): (p: int)
    requires totalPix > 0
    ensures 0 <= numAbove ==> p * totalPix <= 100 * numAbove < (p + 1) * totalPix
    ensures numAbove <= 0 ==> (p - 1) * totalPix < 100 * numAbove <= p * totalPix
    ensures 0 <= numAbove <= totalPix ==> 0 <= p <= 100
  {
    var n := 100 * numAbove;
    if n >= 0 then
      var q := n / totalPix;
      DivBounds(n, totalPix);
      assert (q + 1) * totalPix == q * totalPix + totalPix;
      if numAbove <= totalPix then CancelFactor(q, 100, totalPix); q else q
    else
      var q := (-n) / totalPix;
      DivBounds(-n, totalPix);
      assert (-q) * totalPix == -(q * totalPix);
      assert (-q - 1) * totalPix == -(q * totalPix) - totalPix;
      -q
  }

  /** A tile is below PER_THRESH exactly when 100 * numAbove < 20 * totalPix: truncation does not move the threshold. */
  lemma TruncThreshold(numAbove: int, totalPix: int)
    requires totalPix > 0 && 0 <= numAbove
    ensures TruncPercentage(numAbove, totalPix) < PerThresh <==> 100 * numAbove < PerThresh * totalPix
  {
    var p := TruncPercentage(numAbove, totalPix);
    if p < PerThresh {
      ScaleMonotone(p + 1, PerThresh, totalPix);
    } else {
      ScaleMonotone(PerThresh, p, totalPix);
    }
  }

  /** The near pixels of section i. */
  function TileNear(img: seq<seq<byte>>, cols: Cuts, rows: Cuts, i: int): nat
    requires Ordered(cols) && Ordered(rows) && Image(img, cols.extent) && rows.extent == |img| && 0 <= i < 9
  {
    NearInRect(img, cols.extent, Start(cols, i % 3), End(cols, i % 3), Start(rows, i / 3), End(rows, i / 3))
  }

  /** Every band of the cuts is nonempty. */
  predicate Proper(c: Cuts) {
    0 < c.s1 < c.s2 < c.extent
  }

  /**
   * One section of partitionCalc: the tile bounds from the cuts, then
   * countPixels and getPercentage.
   */
  method SectionValue(img: seq<seq<byte>>, cols: Cuts, rows: Cuts, i: int) returns (p: int)
    requires Proper(cols) && Proper(rows) && Image(img, cols.extent) && rows.extent == |img| && 0 <= i < 9
    ensures Area(cols, rows, i) > 0
    ensures p == TruncPercentage(TileNear(img, cols, rows, i), Area(cols, rows, i))
    ensures 0 <= p <= 100
  {
    var row := i / 3;
    var col := i % 3;
    var startW := Start(cols, col);
    var startH := Start(rows, row);
    var endW := if col == 2 then cols.extent else Start(cols, col + 1);
    var endH := if row == 2 then |img| else Start(rows, row + 1);
    var numAbove, totalPix := CountPixels(img, cols.extent, startW, startH, endW, endH);
    PositiveProduct(endW - startW, endH - startH);
    p := TruncPercentage(numAbove, totalPix);
  }

  /**
   * partitionCalc with the boundaries as parameters (the source takes
   * cols / 3 and (int) (cols * (2.0 / 3))): every section's truncated
   * percentage, each in 0 .. 100.
   */
  method PartitionCalc(img: seq<seq<byte>>, cols: Cuts, rows: Cuts) returns (values: seq<int>)
    requires Proper(cols) && Proper(rows) && Image(img, cols.extent) && rows.extent == |img|
    ensures |values| == 9
    ensures forall i :: 0 <= i < 9 ==> Area(cols, rows, i) > 0
    ensures forall i :: 0 <= i < 9 ==> values[i] == TruncPercentage(TileNear(img, cols, rows, i), Area(cols, rows, i))
    ensures forall i :: 0 <= i < 9 ==> 0 <= values[i] <= 100
  {
    values := [];
    var i := 0;
    while i < 9
      invariant 0 <= i <= 9 && |values| == i
      invariant forall j :: 0 <= j < i ==> Area(cols, rows, j) > 0
      invariant forall j :: 0 <= j < i ==> values[j] == TruncPercentage(TileNear(img, cols, rows, j), Area(cols, rows, j))
      invariant forall j :: 0 <= j < i ==> 0 <= values[j] <= 100
    {
      var p := SectionValue(img, cols, rows, i);
      values := values + [p];
      i := i + 1;
    }
  }

  /**
   * The selection law of main.cpp: the centre section 4 whenever its value
   * is below PER_THRESH; otherwise the lowest section holding the least
   * value, provided that value is below PER_THRESH.
   */
  ghost predicate CentreThenLowest(values: seq<int>, r: int)
    requires |values| == 9
  {
    && 0 <= r < 9
    && values[r] < PerThresh
    && (values[4] < PerThresh ==> r == 4)
    && (values[4] >= PerThresh ==>
          && (forall i :: 0 <= i < 9 ==> values[r] <= values[i])
          && (forall i :: 0 <= i < r ==> values[r] < values[i]))
  }

  /** At most one section satisfies the selection law. */
  lemma CentreThenLowestUnique(values: seq<int>, a: int, b: int)
    requires |values| == 9 && CentreThenLowest(values, a) && CentreThenLowest(values, b)
    ensures a == b
  {
  }

  /**
   * selectSection: return 4 at once if the centre is below PER_THRESH;
   * otherwise scan 0 .. 8 from the centre's value, replacing on a strictly
   * smaller value, and return the position if its value is below PER_THRESH.
   */
  method SelectSection(values: seq<int>) returns (r: int)
    requires |values| == 9
    ensures r == -1 <==> forall i :: 0 <= i < 9 ==> values[i] >= PerThresh
    ensures r != -1 ==> CentreThenLowest(values, r)
  {
    var minPercent := values[4];
    var minPos := 4;
    if minPercent < PerThresh {
      return minPos;
    }
    var i := 0;
    while i < 9
      invariant 0 <= i <= 9 && 0 <= minPos < 9 && minPercent == values[minPos]
      invariant forall j :: 0 <= j < i ==> minPercent <= values[j]
      invariant minPercent <= values[4]
      invariant minPos != 4 ==> minPos < i && forall j :: 0 <= j < minPos ==> minPercent < values[j]
      invariant minPos == 4 ==> forall j :: 0 <= j < i ==> PerThresh <= values[j]
    {
      if values[i] < minPercent {
        minPercent := values[i];
        minPos := i;
      }
      i := i + 1;
    }
    if minPercent < PerThresh {
      r := minPos;
    } else {
      r := -1;
    }
  }

  /**
   * The centre takes priority over every strictly better tile: whenever its
   * value is below PER_THRESH the law picks it, whatever the other values.
   */
  lemma CentreOverridesMinimum(values: seq<int>)
    requires |values| == 9 && values[4] < PerThresh
    ensures CentreThenLowest(values, 4)
    ensures forall r :: CentreThenLowest(values, r) ==> r == 4
  {
  }

  /**
   * One frame of the disparity scanner: partition at the given boundaries,
   * select and map the section to an action. The craft keeps flying
   * straight whenever the centre tile's near share is below PER_THRESH.
   */
  method ControlCycle(img: seq<seq<byte>>, cols: Cuts, rows: Cuts) returns (section: int, action: Action)
    requires Proper(cols) && Proper(rows) && Image(img, cols.extent) && rows.extent == |img|
    ensures 100 * TileNear(img, cols, rows, 4) < PerThresh * Area(cols, rows, 4) ==> action == Move(Still, Still)
    ensures action == TurnInPlace <==>
              forall i :: 0 <= i < 9 ==> PerThresh * Area(cols, rows, i) <= 100 * TileNear(img, cols, rows, i)
  {
    var values := PartitionCalc(img, cols, rows);
    forall i | 0 <= i < 9
      ensures values[i] < PerThresh <==> 100 * TileNear(img, cols, rows, i) < PerThresh * Area(cols, rows, i)
    {
      TruncThreshold(TileNear(img, cols, rows, i), Area(cols, rows, i));
    }
    section := SelectSection(values);
    action := ActionOf(section);
  }
}
