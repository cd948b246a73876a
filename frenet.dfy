/**
 * Conversion between map coordinates and the road frame (`getFrenet` and
 * `getXY`, src/main.cpp:79-128). A road-frame position is the distance `s`
 * travelled along the waypoint polyline and the signed lateral offset `d`.
 */
module Frenet {
  import opened Wrappers
  import opened Geometry
  import opened Waypoints

  datatype FrenetPoint = FrenetPoint(s: real, d: real)

  /** The waypoint before `next` on the closed loop of `n` waypoints. */
  function PrevWaypoint(next: nat, n: nat): (prev: nat)
    requires next < n
    ensures prev < n && (prev + 1) % n == next
  {
    var prev := if next == 0 then n - 1 else next - 1;
    SuccessorMod(prev, n);
    prev
  }

  /** Stepping forward on a closed loop of `n` waypoints. */
  lemma SuccessorMod(p: int, n: int)
    requires 0 <= p < n
    ensures (p + 1) % n == if p + 1 == n then 0 else p + 1
  {
  }

  /** Projection of the vector `(xx, xy)` onto the direction `(nx, ny)` (src/main.cpp:91-93). */
  function Project(xx: real, xy: real, nx: real, ny: real): Point
    requires Dot(nx, ny, nx, ny) != 0.0
  {
    var projNorm := Dot(xx, xy, nx, ny) / Dot(nx, ny, nx, ny);
    Point(projNorm * nx, projNorm * ny)
  }

  /**
   * The projection is the foot of the perpendicular: it lies on the line
   * through the origin along `(nx, ny)`, and what is left of `(xx, xy)` is
   * orthogonal to that line.
   */
  lemma ProjectionOrthogonal(xx: real, xy: real, nx: real, ny: real)
    requires Dot(nx, ny, nx, ny) != 0.0
    ensures var p := Project(xx, xy, nx, ny);
      && Dot(xx - p.x, xy - p.y, nx, ny) == 0.0
      && p.x * ny == p.y * nx
  {
    var projNorm := Dot(xx, xy, nx, ny) / Dot(nx, ny, nx, ny);
    var p := Project(xx, xy, nx, ny);
    assert Dot(xx - p.x, xy - p.y, nx, ny) == Dot(xx, xy, nx, ny) - projNorm * Dot(nx, ny, nx, ny);
  }

  /** Path length from waypoint 0 to waypoint `k` along the polyline. */
  function ArcLength(sqrt: real -> real, mapsX: seq<real>, mapsY: seq<real>, k: nat): real
    requires k < |mapsX| <= |mapsY|
  {
    if k == 0 then 0.0
    else ArcLength(sqrt, mapsX, mapsY, k - 1) + Distance(sqrt, mapsX[k - 1], mapsY[k - 1], mapsX[k], mapsY[k])
  }

  ghost predicate NonNegative(sqrt: real -> real)
  {
    forall v :: sqrt(v) >= 0.0
  }

  /** With non-negative square roots, the arc length grows with the waypoint index. */
  lemma {:induction false} ArcLengthMonotone(sqrt: real -> real, mapsX: seq<real>, mapsY: seq<real>, j: nat, k: nat)
    requires NonNegative(sqrt)
    requires j <= k < |mapsX| <= |mapsY|
    ensures 0.0 <= ArcLength(sqrt, mapsX, mapsY, j) <= ArcLength(sqrt, mapsX, mapsY, k)
  {
    if j < k {
      ArcLengthMonotone(sqrt, mapsX, mapsY, j, k - 1);
      assert Distance(sqrt, mapsX[k - 1], mapsY[k - 1], mapsX[k], mapsY[k]) >= 0.0;
    } else if j > 0 {
      ArcLengthMonotone(sqrt, mapsX, mapsY, j - 1, j - 1);
      assert Distance(sqrt, mapsX[j - 1], mapsY[j - 1], mapsX[j], mapsY[j]) >= 0.0;
    }
  }

  /**
   * The segment `getFrenet` projects onto, from the waypoint before `next` to
   * `next`, has a non-zero squared length, the divisor of src/main.cpp:91.
   */
  predicate SegmentNonDegenerate(mapsX: seq<real>, mapsY: seq<real>, next: nat)
    requires next < |mapsX| <= |mapsY|
  {
    var prev := PrevWaypoint(next, |mapsX|);
    var nx := mapsX[next] - mapsX[prev];
    var ny := mapsY[next] - mapsY[prev];
    Dot(nx, ny, nx, ny) != 0.0
  }

  /**
   * The signed lateral offset of src/main.cpp:94-102: the distance from the
   * car `(xx, xy)` to its projection `p`, both relative to the segment start,
   * negated when the car is no farther from the reference point `(cx, cy)`
   * than its projection is. With non-negative square roots, `|d|` is that
   * distance, and `d` is negative only when the car is the nearer of the two
   * to the reference point, and never positive when it is.
   */
  function SignedOffset(sqrt: real -> real, xx: real, xy: real, p: Point, cx: real, cy: real): (d: real)
    ensures NonNegative(sqrt) ==>
      var nearer := Distance(sqrt, cx, cy, xx, xy) <= Distance(sqrt, cx, cy, p.x, p.y);
      && Abs(d) == Distance(sqrt, xx, xy, p.x, p.y)
      && (d < 0.0 ==> nearer)
      && (nearer ==> d <= 0.0)
  {
    var offset := Distance(sqrt, xx, xy, p.x, p.y);
    if Distance(sqrt, cx, cy, xx, xy) <= Distance(sqrt, cx, cy, p.x, p.y) then -offset else offset
  }

  /**
   * The road-frame position `getFrenet` computes for the car at (x, y) on the
   * segment ending at `next`: `s` is the arc length to the segment start plus
   * the length of the projection; `d` is the signed distance from the
   * projection, with the reference point (1000, 2000) relative to the segment start.
   */
  function FrenetAt(sqrt: real -> real, x: real, y: real, mapsX: seq<real>, mapsY: seq<real>, next: nat): FrenetPoint
    requires next < |mapsX| <= |mapsY|
    requires SegmentNonDegenerate(mapsX, mapsY, next)
  {
    var prev := PrevWaypoint(next, |mapsX|);
    var p := Project(x - mapsX[prev], y - mapsY[prev], mapsX[next] - mapsX[prev], mapsY[next] - mapsY[prev]);
    FrenetPoint(ArcLength(sqrt, mapsX, mapsY, prev) + Distance(sqrt, 0.0, 0.0, p.x, p.y),
                SignedOffset(sqrt, x - mapsX[prev], y - mapsY[prev], p, 1000.0 - mapsX[prev], 2000.0 - mapsY[prev]))
  }

  /** With non-negative square roots, `s` is never negative. */
  lemma FrenetProgressNonNegative(sqrt: real -> real, x: real, y: real, mapsX: seq<real>, mapsY: seq<real>, next: nat)
    requires NonNegative(sqrt)
    requires next < |mapsX| <= |mapsY|
    requires SegmentNonDegenerate(mapsX, mapsY, next)
    ensures FrenetAt(sqrt, x, y, mapsX, mapsY, next).s >= 0.0
  {
    var prev := PrevWaypoint(next, |mapsX|);
    ArcLengthMonotone(sqrt, mapsX, mapsY, prev, prev);
  }

  /**
   * `getFrenet`, with the next waypoint wrapped to 0 past the end of the map
   * (as written, src/main.cpp:87 indexes `maps_x[maps_x.size()]` then).
   */
  method GetFrenet(t: Trig, x: real, y: real, theta: real, mapsX: seq<real>, mapsY: seq<real>) returns (r: FrenetPoint)
    requires 0 < |mapsX| <= |mapsY|
    requires SegmentNonDegenerate(mapsX, mapsY, NextIndexWrapped(t, x, y, theta, mapsX, mapsY))
    ensures r == FrenetAt(t.sqrt, x, y, mapsX, mapsY, NextIndexWrapped(t, x, y, theta, mapsX, mapsY))
    ensures NonNegative(t.sqrt) ==> r.s >= 0.0
  {
    var nextWp := NextWaypointWrapped(t, x, y, theta, mapsX, mapsY);
    r := FrenetOnSegment(t.sqrt, x, y, mapsX, mapsY, nextWp);
  }

  /** The body of `getFrenet` once the next waypoint `nextWp` is chosen (src/main.cpp:82-109). */
  method FrenetOnSegment(sqrt: real -> real, x: real, y: real, mapsX: seq<real>, mapsY: seq<real>, nextWp: nat) returns (r: FrenetPoint)
    requires nextWp < |mapsX| <= |mapsY|
    requires SegmentNonDegenerate(mapsX, mapsY, nextWp)
    ensures r == FrenetAt(sqrt, x, y, mapsX, mapsY, nextWp)
    ensures NonNegative(sqrt) ==> r.s >= 0.0
  {
    var prevWp := nextWp as int - 1;
    if nextWp == 0 {
      prevWp := |mapsX| - 1;
    }
    assert prevWp == PrevWaypoint(nextWp, |mapsX|);
    var nX := mapsX[nextWp] - mapsX[prevWp];
    var nY := mapsY[nextWp] - mapsY[prevWp];
    var xX := x - mapsX[prevWp];
    var xY := y - mapsY[prevWp];
    var proj := Project(xX, xY, nX, nY);
    var projX, projY := proj.x, proj.y;
    var frenetD := Distance(sqrt, xX, xY, projX, projY);
    var centerX := 1000.0 - mapsX[prevWp];
    var centerY := 2000.0 - mapsY[prevWp];
    var centerToPos := Distance(sqrt, centerX, centerY, xX, xY);
    var centerToRef := Distance(sqrt, centerX, centerY, projX, projY);
    if centerToPos <= centerToRef {
      frenetD := -frenetD;
    }
    var frenetS := 0.0;
    for i := 0 to prevWp
      invariant frenetS == ArcLength(sqrt, mapsX, mapsY, i)
    {
      frenetS := frenetS + Distance(sqrt, mapsX[i], mapsY[i], mapsX[i + 1], mapsY[i + 1]);
    }
    frenetS := frenetS + Distance(sqrt, 0.0, 0.0, projX, projY);
    r := FrenetPoint(frenetS, frenetD);
    if NonNegative(sqrt) {
      FrenetProgressNonNegative(sqrt, x, y, mapsX, mapsY, nextWp);
    }
  }

  /**
   * The loop of `getXY` as written: the guard reads `maps_s[prev_wp + 1]`
   * before it tests `prev_wp < size - 1`. `None` is the run whose guard reads
   * `maps_s[size]`; `Some(p)` is the run that stops at `prev_wp == p`.
   */
  function WrittenBracketFrom(mapsS: seq<real>, s: real, p: int): Option<int>
    requires -1 <= p < |mapsS|
    decreases |mapsS| - p
  {
    if p + 1 == |mapsS| then None
    else if s > mapsS[p + 1] && p < |mapsS| - 1 then WrittenBracketFrom(mapsS, s, p + 1)
    else Some(p)
  }

  /** The loop of `getXY` with the bound tested first: the last `prev_wp` it reaches. */
  function BracketFrom(mapsS: seq<real>, s: real, p: int): int
    requires -1 <= p < |mapsS|
    decreases |mapsS| - p
  {
    if p < |mapsS| - 1 && s > mapsS[p + 1] then BracketFrom(mapsS, s, p + 1) else p
  }

  function Bracket(mapsS: seq<real>, s: real): int
    requires 0 < |mapsS|
  {
    BracketFrom(mapsS, s, -1)
  }

  /**
   * From `p`, the loop passes the run of waypoints after `p` whose `s` lies
   * below the query, and stops at the last of that run: either the next
   * waypoint's `s` is at or above the query, or the run reached the last
   * waypoint. On an unsorted map, later waypoints may lie below the query too.
   */
  lemma {:induction false} BracketFromSpec(mapsS: seq<real>, s: real, p: int)
    requires -1 <= p < |mapsS|
    ensures var r := BracketFrom(mapsS, s, p);
      && p <= r < |mapsS|
      && (forall j :: p < j <= r ==> mapsS[j] < s)
      && (r == |mapsS| - 1 || s <= mapsS[r + 1])
    decreases |mapsS| - p
  {
    if p < |mapsS| - 1 && s > mapsS[p + 1] {
      BracketFromSpec(mapsS, s, p + 1);
    }
  }

  /**
   * The loop's guarantee for a map sorted by `s`: a query strictly above the
   * first waypoint and at most the last lies in (maps_s[prev], maps_s[prev+1]];
   * a query above the last waypoint stops at the last waypoint.
   */
  lemma BracketOfSorted(mapsS: seq<real>, s: real)
    requires 0 < |mapsS|
    requires forall i, j :: 0 <= i < j < |mapsS| ==> mapsS[i] < mapsS[j]
    requires mapsS[0] < s
    ensures var prev := Bracket(mapsS, s);
      && 0 <= prev < |mapsS|
      && mapsS[prev] < s
      && (s <= mapsS[|mapsS| - 1] ==> prev < |mapsS| - 1 && s <= mapsS[prev + 1])
      && (s > mapsS[|mapsS| - 1] <==> prev == |mapsS| - 1)
  {
    BracketFromSpec(mapsS, s, -1);
  }

  /**
   * As written, the loop reads past the end of `maps_s` exactly when no
   * waypoint from `p + 1` on has `s` at or above the query; otherwise it stops
   * where the bound-first loop stops, and never at the last waypoint, so the
   * `% maps_x.size()` wrap of src/main.cpp:119 never changes the index.
   */
  lemma {:induction false} WrittenBracketAgrees(mapsS: seq<real>, s: real, p: int)
    requires -1 <= p < |mapsS|
    ensures WrittenBracketFrom(mapsS, s, p).None? <==> forall j :: p < j < |mapsS| ==> s > mapsS[j]
    ensures WrittenBracketFrom(mapsS, s, p).Some? ==>
      && WrittenBracketFrom(mapsS, s, p).value == BracketFrom(mapsS, s, p)
      && WrittenBracketFrom(mapsS, s, p).value < |mapsS| - 1
    decreases |mapsS| - p
  {
    if p + 1 < |mapsS| && s > mapsS[p + 1] {
      WrittenBracketAgrees(mapsS, s, p + 1);
    }
  }

  /**
   * A query at or before the first waypoint leaves `prev_wp` at -1, the index
   * src/main.cpp:120-121 then reads `maps_x` and `maps_s` at.
   */
  lemma BracketBeforeFirst(mapsS: seq<real>, s: real)
    requires 0 < |mapsS|
    requires s <= mapsS[0]
    ensures Bracket(mapsS, s) == -1
  {
  }

  /** A query beyond the last waypoint makes the guard as written read `maps_s[2]` of a two-entry map. */
  lemma WrittenBracketOverrunExample()
    ensures WrittenBracketFrom([0.0, 10.0], 20.0, -1) == None
    ensures Bracket([0.0, 10.0], 20.0) == 1 && (Bracket([0.0, 10.0], 20.0) + 1) % 2 == 0
  {
  }

  /**
   * `getXY` with the bound tested first in the segment search. The result is
   * the point `s - maps_s[prev]` along the segment from waypoint `prev` to its
   * successor (wrapping to waypoint 0), moved by `d` to the right of the
   * segment's heading.
   */
  method GetXY(t: Trig, s: real, d: real, mapsS: seq<real>, mapsX: seq<real>, mapsY: seq<real>) returns (r: Point)
    requires 0 < |mapsS| <= |mapsX| <= |mapsY|
    requires mapsS[0] < s
    ensures 0 <= Bracket(mapsS, s) < |mapsS|
    ensures var prev := Bracket(mapsS, s);
      var wp2 := (prev + 1) % |mapsX|;
      var heading := t.atan2(mapsY[wp2] - mapsY[prev], mapsX[wp2] - mapsX[prev]);
      var onSegment := Advance(t, Point(mapsX[prev], mapsY[prev]), heading, s - mapsS[prev]);
      && r == Advance(t, onSegment, heading - Pi / 2.0, d)
      && (Pythagorean(t) ==> SquaredDistance(onSegment, r) == d * d)
  {
    BracketFromSpec(mapsS, s, -1);
    var prevWp := -1;
    while prevWp < |mapsS| - 1 && s > mapsS[prevWp + 1]
      invariant -1 <= prevWp < |mapsS|
      invariant BracketFrom(mapsS, s, prevWp) == Bracket(mapsS, s)
      decreases |mapsS| - prevWp
    {
      prevWp := prevWp + 1;
    }
    var wp2 := (prevWp + 1) % |mapsX|;
    var heading := t.atan2(mapsY[wp2] - mapsY[prevWp], mapsX[wp2] - mapsX[prevWp]);
    var segS := s - mapsS[prevWp];
    var seg := Advance(t, Point(mapsX[prevWp], mapsY[prevWp]), heading, segS);
    var perpHeading := heading - Pi / 2.0;
    r := Advance(t, seg, perpHeading, d);
  }
}
