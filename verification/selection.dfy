/**
 * Section selection of the 17x17 scanner (selectSection, clearPositions,
 * closest, distanceCalc).
 *
 * The selector finds the smallest percentage, collects every region that
 * holds it into a fixed buffer `positions` of TOTAL_RECT entries, and, if
 * the smallest percentage is strictly below PER_THRESH, returns the
 * collected region closest to the centre cell (8, 8), the first one
 * collected on equal distance. Otherwise it returns -1.
 *
 * As written, the buffer is seeded with region 0 and the loop then visits
 * region 0 again, so when all 289 percentages are equal the loop makes 290
 * writes into the 289-entry buffer. SelectSectionAsWritten models that code
 * with the buffer bound as a precondition; SelectSection is the corrected
 * loop, which starts at region 1.
 */
module Selection {
  import opened Layout
  import opened Occupancy
  import opened Motion

  /** PER_THRESH of the 17x17 scanner, in percent. */
  const PerThresh: real := 15.0

  /** The centre cell index NUM_RECT / 2 along both axes. */
  const CentreCell: int := 8

  /**
   * distanceCalc, squared. The source takes the square root as a float;
   * the root is monotone, so comparing squared distances orders candidates
   * the same way.
   */
  function Dist2(section: int): (d: nat)
    requires 0 <= section < Sections
    ensures d == 0 <==> section == CentreCell * NumRect + CentreCell
    ensures d <= 2 * CentreCell * CentreCell
  {
    var deltaRow := Abs(section / NumRect - CentreCell);
    var deltaCol := Abs(section % NumRect - CentreCell);
    SquareBound(deltaRow);
    SquareBound(deltaCol);
    deltaRow * deltaRow + deltaCol * deltaCol
  }

  /** A cell offset of at most CentreCell has a square of at most CentreCell squared, zero only at 0. */
  lemma SquareBound(a: nat)
    requires a <= CentreCell
    ensures a * a <= CentreCell * CentreCell
    ensures a * a == 0 <==> a == 0
  {
    assert a * a <= a * CentreCell <= CentreCell * CentreCell;
  }

  /** The indices j < i whose value is m, in ascending order. */
  function Ties(v: seq<real>, m: real, i: nat): (t: seq<int>)
    requires i <= |v|
    ensures |t| <= i
    ensures forall p :: 0 <= p < |t| ==> 0 <= t[p] < i && v[t[p]] == m
    ensures forall p, q :: 0 <= p < q < |t| ==> t[p] < t[q]
    ensures forall j :: 0 <= j < i && v[j] == m ==> j in t
    ensures |t| == i ==> forall j :: 0 <= j < i ==> v[j] == m
  {
    if i == 0 then [] else Ties(v, m, i - 1) + (if v[i - 1] == m then [i - 1] else [])
  }

  /** minPercent once the loop has visited v[0 .. i): the least of v[0] and those values. */
  function MinUpTo(v: seq<real>, i: nat): (m: real)
    requires 1 <= |v| && i <= |v|
    ensures m <= v[0]
    ensures forall j :: 0 <= j < i ==> m <= v[j]
  {
    if i == 0 then v[0]
    else
      var m := MinUpTo(v, i - 1);
      if v[i - 1] < m then v[i - 1] else m
  }

  /**
   * The regions collected by the corrected loop after visiting v[0 .. i):
   * every region seen so far that holds the running minimum.
   */
  function Candidates(v: seq<real>, i: nat): seq<int>
    requires 1 <= |v| && i <= |v|
  {
    Ties(v, MinUpTo(v, i), i)
  }

  /**
   * positions[0 .. position) of the loop as written after visiting
   * v[0 .. i): while no value below v[0] has been seen, the seed entry 0
   * precedes the collected ties (region 0 among them a second time).
   */
  function Pending(v: seq<real>, i: nat): seq<int>
    requires 1 <= |v| && i <= |v|
  {
    (if MinUpTo(v, i) == v[0] then [0] else []) + Candidates(v, i)
  }

  /** One loop iteration on the collected ties: restart on a new minimum, append on a tie. */
  lemma CandidatesStep(v: seq<real>, i: nat)
    requires 1 <= |v| && i < |v|
    ensures Candidates(v, i + 1) ==
              if v[i] < MinUpTo(v, i) then [i]
              else if v[i] == MinUpTo(v, i) then Candidates(v, i) + [i]
              else Candidates(v, i)
  {
    if v[i] < MinUpTo(v, i) {
      TiesNone(v, v[i], i);
    }
  }

  /** One loop iteration as written: clear and restart on a new minimum, append on a tie. */
  lemma PendingStep(v: seq<real>, i: nat)
    requires 1 <= |v| && i < |v|
    ensures Pending(v, i + 1) ==
              if v[i] < MinUpTo(v, i) then [i]
              else if v[i] == MinUpTo(v, i) then Pending(v, i) + [i]
              else Pending(v, i)
  {
    CandidatesStep(v, i);
  }

  /** Every value equals the first one. */
  ghost predicate AllEqual(v: seq<real>) {
    forall j :: 0 <= j < |v| ==> v[j] == v[0]
  }

  /**
   * The loop as written overruns a buffer of |v| entries exactly when every
   * value is equal: it then holds |v| + 1 entries at the end; otherwise it
   * never holds more than |v|.
   */
  lemma PendingOverflowIff(v: seq<real>)
    requires 1 <= |v|
    ensures AllEqual(v) <==> |Pending(v, |v|)| > |v|
    ensures AllEqual(v) ==> |Pending(v, |v|)| == |v| + 1
  {
    var n := |v|;
    if AllEqual(v) {
      MinOfEqual(v, n);
      TiesAll(v, v[0], n);
    } else {
      PendingFits(v, n);
    }
  }

  /** Unless every value is equal, the buffer as written never holds more than |v| entries. */
  lemma PendingFits(v: seq<real>, i: nat)
    requires 1 <= |v| && i <= |v| && !AllEqual(v)
    ensures |Pending(v, i)| <= |v|
  {
  }

  /** With every value equal, the running minimum is that value. */
  lemma {:induction false} MinOfEqual(v: seq<real>, i: nat)
    requires 1 <= |v| && i <= |v| && AllEqual(v)
    ensures MinUpTo(v, i) == v[0]
  {
    if i > 0 {
      MinOfEqual(v, i - 1);
    }
  }

  /** With every value before i equal to m, all of them are ties. */
  lemma {:induction false} TiesAll(v: seq<real>, m: real, i: nat)
    requires i <= |v| && forall j :: 0 <= j < i ==> v[j] == m
    ensures |Ties(v, m, i)| == i
  {
    if i > 0 {
      TiesAll(v, m, i - 1);
    }
  }

  /** With no value before i equal to m, there are no ties. */
  lemma {:induction false} TiesNone(v: seq<real>, m: real, i: nat)
    requires i <= |v| && forall j :: 0 <= j < i ==> v[j] != m
    ensures Ties(v, m, i) == []
  {
    if i > 0 {
      TiesNone(v, m, i - 1);
    }
  }

  /**
   * The selection law: r holds the smallest value, and among the regions
   * holding it r is nearest the centre cell, the lowest index on equal
   * distance.
   */
  ghost predicate IsBest(v: seq<real>, r: int)
    requires |v| == Sections
  {
    && 0 <= r < Sections
    && (forall j :: 0 <= j < Sections ==> v[r] <= v[j])
    && (forall j :: 0 <= j < Sections && v[j] == v[r] ==>
          Dist2(r) < Dist2(j) || (Dist2(r) == Dist2(j) && r <= j))
  }

  /** At most one region satisfies the selection law. */
  lemma BestUnique(v: seq<real>, a: int, b: int)
    requires |v| == Sections && IsBest(v, a) && IsBest(v, b)
    ensures a == b
  {
    assert v[a] == v[b];
    assert Dist2(a) < Dist2(b) || (Dist2(a) == Dist2(b) && a <= b);
    assert Dist2(b) < Dist2(a) || (Dist2(b) == Dist2(a) && b <= a);
  }

  /**
   * clearPositions: zeroes the first `position` entries and resets the fill
   * level to 0.
   */
  method ClearPositions(positions: seq<int>, position: nat) returns (cleared: seq<int>, level: nat)
    requires position <= |positions|
    ensures |cleared| == |positions| && level == 0
    ensures forall t :: 0 <= t < |positions| ==> cleared[t] == (if t < position then 0 else positions[t])
  {
    cleared := positions;
    var i := 0;
    while i < position
      invariant 0 <= i <= position
      invariant |cleared| == |positions|
      invariant forall t :: 0 <= t < |positions| ==> cleared[t] == (if t < i then 0 else positions[t])
    {
      cleared := cleared[i := 0];
      i := i + 1;
    }
    level := 0;
  }

  /**
   * closest: among positions[0 .. position), the region with the smallest
   * distance to the centre cell; a later entry replaces the current one only
   * when strictly closer, so the first entry at the smallest distance wins.
   */
  method Closest(positions: seq<int>, position: nat) returns (p: int)
    requires 1 <= position <= |positions|
    requires forall t :: 0 <= t < position ==> 0 <= positions[t] < Sections
    ensures 0 <= p < Sections
    ensures forall t :: 0 <= t < position ==> Dist2(p) <= Dist2(positions[t])
    ensures exists t :: 0 <= t < position && positions[t] == p && forall u :: 0 <= u < t ==> Dist2(positions[u]) > Dist2(p)
  {
    var closestPos := positions[0];
    var closestDis := Dist2(positions[0]);
    ghost var at := 0;
    var i := 1;
    while i < position
      invariant 1 <= i <= position
      invariant 0 <= at < i && positions[at] == closestPos && closestDis == Dist2(closestPos)
      invariant forall t :: 0 <= t < i ==> closestDis <= Dist2(positions[t])
      invariant forall u :: 0 <= u < at ==> Dist2(positions[u]) > closestDis
    {
      var distance := Dist2(positions[i]);
      if distance < closestDis {
        closestDis := distance;
        closestPos := positions[i];
        at := i;
      }
      i := i + 1;
    }
    p := closestPos;
  }

  /**
   * The first entry at the smallest distance in an ascending list that holds
   * exactly minimum regions, all of them, satisfies the selection law.
   */
  lemma ClosestIsBest(v: seq<real>, list: seq<int>, t: nat)
    requires |v| == Sections && t < |list|
    requires forall a :: 0 <= a < |list| ==> 0 <= list[a] < Sections
    requires forall a, b :: 0 <= a < b < |list| ==> list[a] <= list[b]
    requires forall a, j :: 0 <= a < |list| && 0 <= j < Sections ==> v[list[a]] <= v[j]
    requires forall j :: 0 <= j < Sections && v[j] == v[list[t]] ==> j in list
    requires forall a :: 0 <= a < |list| ==> Dist2(list[t]) <= Dist2(list[a])
    requires forall a :: 0 <= a < t ==> Dist2(list[a]) > Dist2(list[t])
    ensures IsBest(v, list[t])
  {
    var r := list[t];
    forall j | 0 <= j < Sections && v[j] == v[r]
      ensures Dist2(r) < Dist2(j) || (Dist2(r) == Dist2(j) && r <= j)
    {
      var a :| 0 <= a < |list| && list[a] == j;
      if Dist2(r) == Dist2(j) {
        assert t <= a;
      }
    }
  }

  /**
   * One iteration of the selectSection loop at region i: a strictly smaller
   * percentage clears the buffer and restarts it with i, an equal one
   * appends i, a larger one changes nothing.
   */
  method Visit(values: seq<real>, i: nat, positions: seq<int>, position: nat, minPercent: real)
    returns (positions': seq<int>, position': nat, minPercent': real)
    requires i < |values| && 1 <= |positions| && position <= |positions|
    requires values[i] == minPercent ==> position < |positions|
    ensures |positions'| == |positions| && position' <= |positions|
    ensures minPercent' == if values[i] < minPercent then values[i] else minPercent
    ensures positions'[..position'] ==
              if values[i] < minPercent then [i]
              else if values[i] == minPercent then positions[..position] + [i]
              else positions[..position]
  {
    positions', position', minPercent' := positions, position, minPercent;
    if values[i] < minPercent {
      positions', position' := ClearPositions(positions', position');
      minPercent' := values[i];
      positions' := positions'[position' := i];
      position' := position' + 1;
    } else if values[i] == minPercent {
      positions' := positions'[position' := i];
      position' := position' + 1;
      assert positions'[..position'] == positions[..position] + [i];
    }
  }

  /**
   * list holds exactly the regions of minimum value m, in ascending order
   * (repeats allowed), and is not empty.
   */
  ghost predicate MinimumRegions(v: seq<real>, list: seq<int>, m: real)
    requires |v| == Sections
  {
    && 1 <= |list|
    && (forall j :: 0 <= j < Sections ==> m <= v[j])
    && (forall t :: 0 <= t < |list| ==> 0 <= list[t] < Sections && v[list[t]] == m)
    && (forall a, b :: 0 <= a < b < |list| ==> list[a] <= list[b])
    && (forall j :: 0 <= j < Sections && v[j] == m ==> j in list)
  }

  /**
   * The ending of selectSection: with the buffer holding exactly the
   * minimum regions in ascending order, the result is -1 when the minimum is
   * not below PER_THRESH and otherwise the region the selection law picks.
   */
  method Finish(values: seq<real>, positions: seq<int>, position: nat, minPercent: real) returns (r: int)
    requires |values| == Sections && position <= |positions|
    requires MinimumRegions(values, positions[..position], minPercent)
    ensures r == -1 <==> forall j :: 0 <= j < Sections ==> values[j] >= PerThresh
    ensures r != -1 ==> IsBest(values, r)
  {
    var list := positions[..position];
    if minPercent < PerThresh {
      r := Closest(list, |list|);
      ghost var t :| 0 <= t < |list| && list[t] == r && forall u :: 0 <= u < t ==> Dist2(list[u]) > Dist2(r);
      MinimumClosestIsBest(values, list, minPercent, t);
    } else {
      r := -1;
      assert values[list[0]] == minPercent;
    }
  }

  /** ClosestIsBest for a list that holds exactly the minimum regions. */
  lemma MinimumClosestIsBest(v: seq<real>, list: seq<int>, m: real, t: nat)
    requires |v| == Sections && MinimumRegions(v, list, m) && t < |list|
    requires forall a :: 0 <= a < |list| ==> Dist2(list[t]) <= Dist2(list[a])
    requires forall a :: 0 <= a < t ==> Dist2(list[a]) > Dist2(list[t])
    ensures IsBest(v, list[t])
  {
    ClosestIsBest(v, list, t);
  }

  /** One iteration of the loop as written keeps the buffer equal to Pending. */
  method VisitAsWritten(values: seq<real>, i: nat, positions: seq<int>, position: nat, minPercent: real)
    returns (positions': seq<int>, position': nat, minPercent': real)
    requires |values| == Sections && !AllEqual(values) && i < Sections
    requires |positions| == Sections && position <= Sections
    requires minPercent == MinUpTo(values, i) && positions[..position] == Pending(values, i)
    ensures |positions'| == Sections && position' <= Sections
    ensures minPercent' == MinUpTo(values, i + 1) && positions'[..position'] == Pending(values, i + 1)
  {
    PendingStep(values, i);
    PendingFits(values, i + 1);
    positions', position', minPercent' := Visit(values, i, positions, position, minPercent);
  }

  /** One iteration of the corrected loop keeps the buffer equal to Candidates. */
  method VisitCorrected(values: seq<real>, i: nat, positions: seq<int>, position: nat, minPercent: real)
    returns (positions': seq<int>, position': nat, minPercent': real)
    requires |values| == Sections && 1 <= i < Sections
    requires |positions| == Sections && position <= i
    requires minPercent == MinUpTo(values, i) && positions[..position] == Candidates(values, i)
    ensures |positions'| == Sections && position' <= i + 1
    ensures minPercent' == MinUpTo(values, i + 1) && positions'[..position'] == Candidates(values, i + 1)
  {
    CandidatesStep(values, i);
    assert MinUpTo(values, i + 1) == if values[i] < minPercent then values[i] else minPercent;
    CandidatesFit(values, i + 1);
    positions', position', minPercent' := Visit(values, i, positions, position, minPercent);
    assert |positions'[..position']| == position';
  }

  /** The corrected buffer never holds more entries than regions visited. */
  lemma CandidatesFit(v: seq<real>, i: nat)
    requires 1 <= |v| && i <= |v|
    ensures |Candidates(v, i)| <= i
  {
  }

  /**
   * The loop of selectSection as written, with `positions` as the fixed
   * 289-entry buffer of the source: it is seeded with region 0 and then
   * visits every region from 0 on. The precondition is what keeps every
   * write inside the buffer (PendingOverflowIff shows it is exactly the
   * bound).
   */
  method CollectAsWritten(values: seq<real>) returns (positions: seq<int>, position: nat, minPercent: real)
    requires |values| == Sections && !AllEqual(values)
    ensures |positions| == Sections && position <= Sections
    ensures minPercent == MinUpTo(values, |values|)
    ensures positions[..position] == Pending(values, |values|)
  {
    positions := seq(Sections, _ => 0);
    position := 0;
    minPercent := values[0];
    positions := positions[position := 0];
    position := position + 1;
    assert positions[..position] == [0];
    assert Pending(values, 0) == [0] by {
      assert MinUpTo(values, 0) == values[0];
    }
    var i := 0;
    while i < Sections
      invariant 0 <= i <= Sections
      invariant |positions| == Sections && position <= Sections
      invariant minPercent == MinUpTo(values, i)
      invariant positions[..position] == Pending(values, i)
    {
      positions, position, minPercent := VisitAsWritten(values, i, positions, position, minPercent);
      i := i + 1;
    }
  }

  /**
   * The loop of selectSection corrected: region 0 seeds the buffer and the
   * loop starts at region 1, so the buffer never holds more than 289
   * entries and no precondition is needed.
   */
  method Collect(values: seq<real>) returns (positions: seq<int>, position: nat, minPercent: real)
    requires |values| == Sections
    ensures |positions| == Sections && position <= Sections
    ensures minPercent == MinUpTo(values, |values|)
    ensures positions[..position] == Candidates(values, |values|)
  {
    positions := seq(Sections, _ => 0);
    position := 0;
    minPercent := values[0];
    positions := positions[position := 0];
    position := position + 1;
    assert positions[..position] == [0];
    assert Candidates(values, 1) == [0] by {
      assert MinUpTo(values, 1) == values[0];
    }
    var i := 1;
    while i < Sections
      invariant 1 <= i <= Sections
      invariant |positions| == Sections && position <= i
      invariant minPercent == MinUpTo(values, i)
      invariant positions[..position] == Candidates(values, i)
    {
      positions, position, minPercent := VisitCorrected(values, i, positions, position, minPercent);
      i := i + 1;
    }
  }

  /**
   * selectSection as written: -1 when no region is below PER_THRESH,
   * otherwise the region the selection law picks. Its precondition is the
   * one of CollectAsWritten.
   */
  method SelectSectionAsWritten(values: seq<real>) returns (r: int)
    requires |values| == Sections
    requires !AllEqual(values)
    ensures r == -1 <==> forall j :: 0 <= j < Sections ==> values[j] >= PerThresh
    ensures r != -1 ==> IsBest(values, r)
  {
    var positions, position, minPercent := CollectAsWritten(values);
    PendingShape(values);
    r := Finish(values, positions, position, minPercent);
  }

  /** selectSection corrected: the same result law, for every percentage vector. */
  method SelectSection(values: seq<real>) returns (r: int)
    requires |values| == Sections
    ensures r == -1 <==> forall j :: 0 <= j < Sections ==> values[j] >= PerThresh
    ensures r != -1 ==> IsBest(values, r)
  {
    var positions, position, minPercent := Collect(values);
    CandidatesShape(values);
    r := Finish(values, positions, position, minPercent);
  }

  /** The collected regions at the end are exactly the minimum regions. */
  lemma CandidatesShape(v: seq<real>)
    requires |v| == Sections
    ensures MinimumRegions(v, Candidates(v, |v|), MinUpTo(v, |v|))
  {
    MinAttained(v, Sections);
  }

  /** The buffer as written at the end: the same, with region 0 possibly listed twice. */
  lemma PendingShape(v: seq<real>)
    requires |v| == Sections
    ensures MinimumRegions(v, Pending(v, |v|), MinUpTo(v, |v|))
  {
    CandidatesShape(v);
    var m := MinUpTo(v, |v|);
    if m == v[0] {
      assert Pending(v, |v|) == [0] + Candidates(v, |v|);
    }
  }

  /** The running minimum is one of the values seen (v[0] counts as seen). */
  lemma {:induction false} MinAttained(v: seq<real>, i: nat)
    requires 1 <= |v| && 1 <= i <= |v|
    ensures exists j :: 0 <= j < i && v[j] == MinUpTo(v, i)
  {
    if i == 1 {
      assert v[0] == MinUpTo(v, 1);
    } else {
      MinAttained(v, i - 1);
      if v[i - 1] < MinUpTo(v, i - 1) {
        assert v[i - 1] == MinUpTo(v, i);
      } else {
        var j :| 0 <= j < i - 1 && v[j] == MinUpTo(v, i - 1);
        assert v[j] == MinUpTo(v, i);
      }
    }
  }

  /** An open frame: every region has percentage 0. */
  function OpenFrame(): (v: seq<real>)
    ensures |v| == Sections
  {
    seq(Sections, _ => 0.0)
  }

  /**
   * On an open frame the buffer as written would receive 290 entries, so the
   * precondition of SelectSectionAsWritten fails: the overflow happens on the
   * most ordinary input there is.
   */
  lemma OpenFrameOverflows()
    ensures AllEqual(OpenFrame())
    ensures |Pending(OpenFrame(), Sections)| == Sections + 1
  {
    var v := OpenFrame();
    assert AllEqual(v);
    PendingOverflowIff(v);
  }

  /** On an open frame the corrected selector picks the centre region (8, 8) = 144. */
  lemma OpenFrameSelectsCentre()
    ensures IsBest(OpenFrame(), 144)
  {
    forall j | 0 <= j < Sections && j != 144
      ensures Dist2(144) < Dist2(j)
    {
      var dr := Abs(j / NumRect - CentreCell);
      var dc := Abs(j % NumRect - CentreCell);
      assert dr != 0 || dc != 0;
      assert dr * dr + dc * dc > 0;
    }
  }
}
