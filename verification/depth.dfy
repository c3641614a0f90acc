/**
 * Depth readings and the unsafe-pixel test shared by the 17x17 scanner and
 * the even 3x3 partition.
 */
module Depth {

  /**
   * One depth sample as the camera reports it, in feet: a measured distance,
   * a not-a-number sample (the sensor could not resolve the pixel), or one
   * of the two infinities the camera uses for "closer than the minimum
   * range" and "beyond the maximum range".
   */
  datatype Reading = Measured(feet: real) | Invalid | TooClose | TooFar

  /** DIS_THRESH: readings at or below 6 feet are obstacles. */
  const DisThresh: real := 6.0

  /**
   * `depth <= DIS_THRESH || depth == NAN || depth == TOO_CLOSE` under IEEE
   * comparison rules. Every comparison with a NaN is false, so `depth == NAN`
   * never holds and an Invalid sample is NOT counted as unsafe; TOO_CLOSE
   * is minus infinity, which is below the threshold anyway.
   */
  predicate Unsafe(r: Reading) {
    match r
    case Measured(d) => d <= DisThresh
    case TooClose => true
    case Invalid => false
    case TooFar => false
  }

  /** Every row of the depth map has the same width. */
  ghost predicate Rectangular(depth: seq<seq<Reading>>, width: nat) {
    forall y :: 0 <= y < |depth| ==> |depth[y]| == width
  }

  /** The number of unsafe samples among row[lo .. hi). */
  function UnsafeInRow(row: seq<Reading>, lo: nat, hi: nat): (n: nat)
    requires lo <= hi <= |row|
    ensures n <= hi - lo
    decreases hi - lo
  {
    if hi == lo then 0 else UnsafeInRow(row, lo, hi - 1) + (if Unsafe(row[hi - 1]) then 1 else 0)
  }

  /** The number of unsafe samples in the rectangle [xlo, xhi) x [ylo, yhi). */
  function UnsafeInRect(depth: seq<seq<Reading>>, width: nat, xlo: nat, xhi: nat, ylo: nat, yhi: nat): (n: nat)
    requires Rectangular(depth, width)
    requires xlo <= xhi <= width && ylo <= yhi <= |depth|
    decreases yhi - ylo
  {
    if yhi == ylo then 0
    else UnsafeInRect(depth, width, xlo, xhi, ylo, yhi - 1) + UnsafeInRow(depth[yhi - 1], xlo, xhi)
  }

  /** A rectangle never holds more unsafe samples than pixels. */
  lemma {:induction false} UnsafeInRectBound(depth: seq<seq<Reading>>, width: nat, xlo: nat, xhi: nat, ylo: nat, yhi: nat)
    requires Rectangular(depth, width)
    requires xlo <= xhi <= width && ylo <= yhi <= |depth|
    ensures UnsafeInRect(depth, width, xlo, xhi, ylo, yhi) <= (xhi - xlo) * (yhi - ylo)
    decreases yhi - ylo
  {
    if yhi > ylo {
      UnsafeInRectBound(depth, width, xlo, xhi, ylo, yhi - 1);
      assert (xhi - xlo) * (yhi - ylo) == (xhi - xlo) * (yhi - 1 - ylo) + (xhi - xlo);
    }
  }

  /** Counting a row segment in two pieces gives the count of the whole. */
  lemma {:induction false} UnsafeInRowSplit(row: seq<Reading>, lo: nat, mid: nat, hi: nat)
    requires lo <= mid <= hi <= |row|
    ensures UnsafeInRow(row, lo, hi) == UnsafeInRow(row, lo, mid) + UnsafeInRow(row, mid, hi)
    decreases hi - mid
  {
    if hi > mid {
      UnsafeInRowSplit(row, lo, mid, hi - 1);
    }
  }

  /** Cutting a rectangle at row ymid splits its count. */
  lemma {:induction false} UnsafeInRectSplitY(depth: seq<seq<Reading>>, width: nat, xlo: nat, xhi: nat, ylo: nat, ymid: nat, yhi: nat)
    requires Rectangular(depth, width)
    requires xlo <= xhi <= width && ylo <= ymid <= yhi <= |depth|
    ensures UnsafeInRect(depth, width, xlo, xhi, ylo, yhi)
            == UnsafeInRect(depth, width, xlo, xhi, ylo, ymid) + UnsafeInRect(depth, width, xlo, xhi, ymid, yhi)
    decreases yhi - ymid
  {
    if yhi > ymid {
      UnsafeInRectSplitY(depth, width, xlo, xhi, ylo, ymid, yhi - 1);
    }
  }

  /** Cutting a rectangle at column xmid splits its count. */
  lemma {:induction false} UnsafeInRectSplitX(depth: seq<seq<Reading>>, width: nat, xlo: nat, xmid: nat, xhi: nat, ylo: nat, yhi: nat)
    requires Rectangular(depth, width)
    requires xlo <= xmid <= xhi <= width && ylo <= yhi <= |depth|
    ensures UnsafeInRect(depth, width, xlo, xhi, ylo, yhi)
            == UnsafeInRect(depth, width, xlo, xmid, ylo, yhi) + UnsafeInRect(depth, width, xmid, xhi, ylo, yhi)
    decreases yhi - ylo
  {
    if yhi > ylo {
      UnsafeInRectSplitX(depth, width, xlo, xmid, xhi, ylo, yhi - 1);
      UnsafeInRowSplit(depth[yhi - 1], xlo, xmid, xhi);
    }
  }
}
