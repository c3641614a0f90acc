/**
 * One pass of the 17x17 scanner's control loop: from a depth frame to a
 * flight command, composed of the corrected steps (partition, countPixels,
 * calcPercentages, selectSection, getCenter, manuever).
 */
module Cycle {
  import opened Layout
  import opened Depth
  import opened Occupancy
  import opened Selection
  import opened Command

  /** The percentage of every region of a frame, on the scanner's layout. */
  function FramePercentages(depth: seq<seq<Reading>>): (v: seq<real>)
    ensures |v| == Sections
  {
    CalcPercentages(seq(Sections, k requires 0 <= k < Sections => Occupancy.Occupancy(depth, Partition(), k)))
  }

  /**
   * One frame through the whole pipeline. The craft spins in place exactly
   * when no region's unsafe share is below PER_THRESH; otherwise it flies
   * toward the centre of the region the selection law picks.
   */
  method ControlCycle(depth: seq<seq<Reading>>, width: nat) returns (section: int, center: (int, int), cmd: Command)
    requires Rectangular(depth, width)
    ensures section == -1 <==>
              forall k :: 0 <= k < Sections ==> 15 * TotalPixels <= 100 * Occupancy.Occupancy(depth, Partition(), k)
    ensures section != -1 ==> IsBest(FramePercentages(depth), section)
    ensures section != -1 ==> center == (Partition().widths[section % NumRect], Partition().heights[section / NumRect])
    ensures cmd.Spin? <==> section == -1
    ensures cmd.Fly? ==> AimsAt(cmd, center.0, center.1)
  {
    var c := Partition();
    PartitionWellSpaced();
    var counts := CountPixels(depth, width, c);
    var values := CalcPercentages(counts);
    assert values == FramePercentages(depth);
    section := SelectSection(values);
    forall k | 0 <= k < Sections
      ensures values[k] >= PerThresh <==> 15 * TotalPixels <= 100 * Occupancy.Occupancy(depth, c, k)
    {
      PercentageThreshold(Occupancy.Occupancy(depth, c, k), 15);
    }
    center := GetCenter(section, c);
    if section != -1 {
      CenterOfSection(section);
    }
    cmd := Maneuver(center.0, center.1);
  }
}
