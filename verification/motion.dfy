/**
 * Signs of a velocity component, in the vehicle's body frame as the
 * commands use it: lateral Negative is left, Positive right; vertical
 * Negative is up, Positive down (the autopilot's z axis points down).
 */
module Motion {

  datatype Sense = Negative | Still | Positive

  /** The sign of d. */
  function SenseOf(d: int): Sense {
    if d < 0 then Negative else if d == 0 then Still else Positive
  }

  /** The integer -1, 0 or 1 a sense stands for. */
  function Unit(s: Sense): int {
    match s
    case Negative => -1
    case Still => 0
    case Positive => 1
  }

  /** SenseOf and Unit are inverse on -1 .. 1. */
  lemma SenseRoundTrip(s: Sense)
    ensures SenseOf(Unit(s)) == s
  {
  }

  /** C's abs on int (the argument never reaches INT_MIN here). */
  function Abs(a: int): (r: nat)
    ensures r == a || r == -a
  {
    if a < 0 then -a else a
  }
}
