/**
 * From the selected region to a flight command (getCenter, manuever) in the
 * 17x17 scanner.
 *
 * getCenter turns a region index into the pixel centre of that region, with
 * (0, 0) standing for "no region". manuever turns the centre into a velocity
 * set-point: spin in place when there is no region, otherwise fly toward the
 * region at constant speed VELO, splitting the speed between the lateral and
 * vertical axes by the angle theta = atan(delta_h / delta_w).
 *
 * As written, delta_h / delta_w is a C integer division. It divides by zero
 * for every region of the centre column, where delta_w is 0, and it
 * truncates the tangent, to 0 whenever delta_h < delta_w, so the climb or
 * descent component vanishes. ManeuverAsWritten models that code, and
 * Maneuver the corrected one, with an exact tangent and a vertical heading
 * for the centre column.
 */
module Command {
  import opened Layout
  import opened Motion
  import opened Occupancy
  import opened Window

  /** CENTER_WIDTH and CENTER_HEIGHT: the pixel at the middle of the frame. */
  const CenterWidth: int := FrameWidth / 2
  const CenterHeight: int := FrameHeight / 2

  /**
   * getCenter: (0, 0) for section -1, otherwise the centre of the region in
   * row section / NUM_RECT and column section % NUM_RECT.
   */
  function GetCenter(section: int, c: Centres): (p: (int, int))
    requires -1 <= section < Sections
    requires |c.widths| == NumRect && |c.heights| == NumRect
    ensures section == -1 ==> p == (0, 0)
    ensures section != -1 ==> p == (ColCentre(c, section), RowCentre(c, section))
  {
    if section == -1 then (0, 0) else (c.widths[section % NumRect], c.heights[section / NumRect])
  }

  /**
   * On the scanner's layout, a region's centre is never (0, 0) along either
   * axis and the region drawn around it lies inside the frame.
   */
  lemma CenterOfSection(section: int)
    requires 0 <= section < Sections
    ensures var p := GetCenter(section, Partition());
      && HalfWidth <= p.0 <= FrameWidth - HalfWidth
      && HalfHeight <= p.1 <= FrameHeight - HalfHeight
  {
    var c := Partition();
    PartitionWellSpaced();
    Ascending(c.widths, 0, section % NumRect);
    Ascending(c.widths, section % NumRect, NumRect - 1);
    Ascending(c.heights, 0, section / NumRect);
    Ascending(c.heights, section / NumRect, NumRect - 1);
  }

  /** Different sections (including -1) have different centres on the scanner's layout. */
  lemma CenterInjective(s1: int, s2: int)
    requires -1 <= s1 < Sections && -1 <= s2 < Sections
    requires GetCenter(s1, Partition()) == GetCenter(s2, Partition())
    ensures s1 == s2
  {
    var c := Partition();
    PartitionWellSpaced();
    if s1 == -1 || s2 == -1 {
      if s1 != -1 {
        CenterOfSection(s1);
      }
      if s2 != -1 {
        CenterOfSection(s2);
      }
    } else {
      StrictlyIncreasingInjective(c.widths, s1 % NumRect, s2 % NumRect);
      StrictlyIncreasingInjective(c.heights, s1 / NumRect, s2 / NumRect);
    }
  }

  /** Strictly increasing centres take each value at most once. */
  lemma StrictlyIncreasingInjective(centres: seq<int>, i: nat, j: nat)
    requires i < |centres| && j < |centres| && GapsAtLeast(centres, 0, |centres| - 1, 1)
    requires centres[i] == centres[j]
    ensures i == j
  {
    if i < j {
      Ascending(centres, i, j);
    } else if j < i {
      Ascending(centres, j, i);
    }
  }

  /**
   * How the speed VELO is split between the axes: straight up or down
   * (theta = pi/2, all of it vertical), or by theta = atan(t), lateral
   * VELO cos(theta) and vertical VELO sin(theta).
   */
  datatype Pitch = Vertical | Tangent(t: real)

  /**
   * A set-point: spin in place (zero velocity, yaw rate pi/4), or fly with
   * the given lateral and vertical signs at the given pitch, holding the
   * initial yaw.
   */
  datatype Command = Spin | Fly(lateral: Sense, vertical: Sense, pitch: Pitch)

  /** The commanded lateral velocity is nonzero: cos(theta) is nonzero unless theta = pi/2. */
  predicate MovesLaterally(cmd: Command) {
    cmd.Fly? && cmd.lateral != Still && cmd.pitch.Tangent?
  }

  /** The commanded vertical velocity is nonzero: sin(atan(t)) is zero exactly when t is. */
  predicate MovesVertically(cmd: Command) {
    cmd.Fly? && cmd.vertical != Still && (cmd.pitch.Tangent? ==> cmd.pitch.t != 0.0)
  }

  /**
   * The command heads for the pixel (cw, ch): its lateral and vertical
   * signs are those of the offset from the frame centre, and the velocity
   * (lateral cos, vertical sin) is parallel to that offset: straight
   * vertical in the centre column, otherwise with the tangent
   * delta_h / delta_w of the offset itself.
   */
  ghost predicate AimsAt(cmd: Command, cw: int, ch: int) {
    && cmd.Fly?
    && cmd.lateral == SenseOf(cw - CenterWidth)
    && cmd.vertical == SenseOf(ch - CenterHeight)
    && match cmd.pitch
       case Vertical => cw == CenterWidth
       case Tangent(t) =>
         && cw != CenterWidth
         && t * (Abs(CenterWidth - cw) as real) == Abs(CenterHeight - ch) as real
  }

  /**
   * The nine-way sign table of manuever, with the pitch supplied: every
   * branch flies with the signs of the offset from the frame centre.
   */
  function Heading(cw: int, ch: int, pitch: Pitch): (cmd: Command)
    ensures cmd.Fly? && cmd.pitch == pitch
    ensures cmd.lateral == SenseOf(cw - CenterWidth) && cmd.vertical == SenseOf(ch - CenterHeight)
  {
    if cw < CenterWidth then
      if ch == CenterHeight then Fly(Negative, Still, pitch)
      else if ch < CenterHeight then Fly(Negative, Negative, pitch)
      else Fly(Negative, Positive, pitch)
    else if cw == CenterWidth then
      if ch == CenterHeight then Fly(Still, Still, pitch)
      else if ch < CenterHeight then Fly(Still, Negative, pitch)
      else Fly(Still, Positive, pitch)
    else
      if ch == CenterHeight then Fly(Positive, Still, pitch)
      else if ch < CenterHeight then Fly(Positive, Negative, pitch)
      else Fly(Positive, Positive, pitch)
  }

  /**
   * manuever as written. theta = atan(delta_h / delta_w) with C integer
   * division, so the pitch tangent is the truncated quotient; the
   * precondition excludes the division by zero of the centre column.
   */
  function ManeuverAsWritten(cw: int, ch: int): (cmd: Command)
    requires cw == 0 || ch == 0 || cw != CenterWidth
    ensures cmd.Spin? <==> cw == 0 || ch == 0
    ensures cmd.Fly? ==> cmd.lateral == SenseOf(cw - CenterWidth) && cmd.vertical == SenseOf(ch - CenterHeight)
    ensures cmd.Fly? ==> cmd.pitch.Tangent? && 0.0 <= cmd.pitch.t
    ensures cmd.Fly? ==>
              && cmd.pitch.t == cmd.pitch.t.Floor as real
              && cmd.pitch.t * (Abs(CenterWidth - cw) as real) <= Abs(CenterHeight - ch) as real
              && Abs(CenterHeight - ch) as real < (cmd.pitch.t + 1.0) * (Abs(CenterWidth - cw) as real)
  {
    if cw == 0 || ch == 0 then Spin
    else
      Heading(cw, ch, Tangent(TruncatedTangent(Abs(CenterHeight - ch), Abs(CenterWidth - cw))))
  }

  /** theta = atan(delta_h / delta_w) as written: the tangent is the C integer quotient. */
  function TruncatedTangent(deltaH: nat, deltaW: nat): (t: real)
    requires deltaW != 0
    ensures 0.0 <= t && t == t.Floor as real
    ensures t * (deltaW as real) <= deltaH as real < (t + 1.0) * (deltaW as real)
  {
    var q := deltaH / deltaW;
    assert q * deltaW <= deltaH < q * deltaW + deltaW;
    assert (q as real) * (deltaW as real) == (q * deltaW) as real;
    q as real
  }

  /**
   * manuever corrected: the tangent is the exact ratio delta_h / delta_w,
   * and the centre column, where delta_w is 0, flies straight up or down
   * (or hovers at the centre region). The command aims at the region.
   */
  function Maneuver(cw: int, ch: int): (cmd: Command)
    ensures cmd.Spin? <==> cw == 0 || ch == 0
    ensures cmd.Fly? ==> AimsAt(cmd, cw, ch)
  {
    if cw == 0 || ch == 0 then Spin
    else
      var deltaW := Abs(CenterWidth - cw);
      var deltaH := Abs(CenterHeight - ch);
      if deltaW == 0 then Heading(cw, ch, Vertical)
      else
        var cmd := Heading(cw, ch, Tangent((deltaH as real) / (deltaW as real)));
        AimsAtTangent(cmd, cw, ch, deltaW, deltaH);
        cmd
  }

  lemma AimsAtTangent(cmd: Command, cw: int, ch: int, deltaW: nat, deltaH: nat)
    requires deltaW == Abs(CenterWidth - cw) && deltaH == Abs(CenterHeight - ch) && deltaW != 0
    requires cmd == Heading(cw, ch, Tangent((deltaH as real) / (deltaW as real)))
    ensures AimsAt(cmd, cw, ch)
  {
    var t := (deltaH as real) / (deltaW as real);
    assert t * (deltaW as real) == deltaH as real;
  }

  /** An aimed command moves along an axis exactly when the target is off-centre along it. */
  lemma AimedMotion(cmd: Command, cw: int, ch: int)
    requires AimsAt(cmd, cw, ch)
    ensures MovesLaterally(cmd) <==> cw != CenterWidth
    ensures MovesVertically(cmd) <==> ch != CenterHeight
  {
    if cmd.pitch.Tangent? && ch != CenterHeight {
      assert cmd.pitch.t != 0.0 by {
        assert Abs(CenterHeight - ch) as real != 0.0;
      }
    }
  }

  /** The aiming law leaves no freedom: at most one command aims at a given pixel. */
  lemma AimsAtUnique(a: Command, b: Command, cw: int, ch: int)
    requires AimsAt(a, cw, ch) && AimsAt(b, cw, ch)
    ensures a == b
  {
    if a.pitch.Tangent? {
      assert cw != CenterWidth && b.pitch.Tangent?;
      CancelPositive(a.pitch.t, b.pitch.t, Abs(CenterWidth - cw), Abs(CenterHeight - ch) as real);
    }
  }

  /** Two solutions of t * d == e with d positive are equal. */
  lemma CancelPositive(x: real, y: real, d: nat, e: real)
    requires 0 < d && x * (d as real) == e && y * (d as real) == e
    ensures x == y
  {
    assert (x - y) * (d as real) == 0.0;
  }

  /**
   * Where the code as written is defined it picks the same spin/fly choice
   * and the same lateral and vertical signs as the corrected one; only the
   * pitch can differ.
   */
  lemma ManeuverAgreesOnSigns(cw: int, ch: int)
    requires cw == 0 || ch == 0 || cw != CenterWidth
    ensures ManeuverAsWritten(cw, ch).Spin? == Maneuver(cw, ch).Spin?
    ensures ManeuverAsWritten(cw, ch).Fly? ==>
              && ManeuverAsWritten(cw, ch).lateral == Maneuver(cw, ch).lateral
              && ManeuverAsWritten(cw, ch).vertical == Maneuver(cw, ch).vertical
  {
  }

  /**
   * Every region of the centre column (column 8) is centred on pixel column
   * 640 and not on row 0, so the code as written divides by zero for it;
   * section 144, the centre region and the corrected selector's pick on an
   * open frame, is one of them.
   */
  lemma CentreColumnDividesByZero(section: int)
    requires 0 <= section < Sections && section % NumRect == NumRect / 2
    ensures var p := GetCenter(section, Partition());
      !(p.0 == 0 || p.1 == 0 || p.0 != CenterWidth)
  {
    PartitionMidpoints();
    CenterOfSection(section);
  }

  /**
   * Section 0, the top-left region, is centred at (314, 126): delta_w is
   * 326 and delta_h is 234, so the truncated tangent is 0 and the command as
   * written has no vertical component, although the region is above the
   * centre; the corrected command climbs.
   */
  lemma TopLeftLosesClimb()
    ensures GetCenter(0, Partition()) == (314, 126)
    ensures !MovesVertically(ManeuverAsWritten(314, 126))
    ensures MovesVertically(Maneuver(314, 126))
  {
    assert Abs(CenterWidth - 314) == 326 && Abs(CenterHeight - 126) == 234;
    assert TruncatedTangent(234, 326) == 0.0;
    AimedMotion(Maneuver(314, 126), 314, 126);
  }
}
