/**
 * Lane arithmetic (`convertLaneToD`, src/main.cpp:181-184): lanes are
 * counted from 1 at the road's centre line, each 4 units wide in the
 * Frenet `d` direction.
 */
module Lanes {
  /** The C++ `int` the lane number arrives in. */
  newtype Int32 = x: int | -0x8000_0000 <= x < 0x8000_0000

  const LaneWidth: real := 4.0

  /** The `d` at which lane `lane` begins and ends. */
  function LaneLeft(lane: int): real
  {
    LaneWidth * (lane - 1) as real
  }

  function LaneRight(lane: int): real
  {
    LaneWidth * lane as real
  }

  /**
   * The `d` coordinate of the centre of lane `lane`. `lane - 1` is computed
   * in `int`, which overflows (undefined behaviour) for the smallest `int`.
   */
  function ConvertLaneToD(lane: Int32): (d: real)
    requires lane > -0x8000_0000
    ensures LaneLeft(lane as int) < d < LaneRight(lane as int)
    ensures d - LaneLeft(lane as int) == LaneRight(lane as int) - d
  {
    2.0 + 4.0 * ((lane - 1) as int) as real
  }

  /** The lane whose band `[LaneLeft, LaneRight)` holds `d`: the inverse of `ConvertLaneToD`. */
  function LaneOf(d: real): (lane: int)
    ensures LaneLeft(lane) <= d < LaneRight(lane)
  {
    (d / LaneWidth).Floor + 1
  }

  /** Lane 1 is centred 2 units from the centre line. */
  lemma FirstLane()
    ensures ConvertLaneToD(1) == 2.0
  {
  }

  /** Each successive lane lies exactly one lane width further out. */
  lemma NextLane(lane: Int32)
    requires -0x8000_0000 < lane < 0x7fff_ffff
    ensures ConvertLaneToD(lane + 1) - ConvertLaneToD(lane) == LaneWidth
  {
  }

  /** Distinct lanes have distinct centres, and the centre lies in its own lane. */
  lemma LaneRoundTrip(lane: Int32)
    requires lane > -0x8000_0000
    ensures LaneOf(ConvertLaneToD(lane)) == lane as int
  {
  }

  /** `LaneOf` gives the only lane whose band holds `d`. */
  lemma LaneOfUnique(d: real, lane: int)
    requires LaneLeft(lane) <= d < LaneRight(lane)
    ensures LaneOf(d) == lane
  {
  }
}
