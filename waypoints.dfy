/**
 * Nearest-waypoint search over the map (`ClosestWaypoint` and `NextWaypoint`,
 * src/main.cpp:47-77). The map is given as its x and y columns.
 */
module Waypoints {
  import opened Geometry

  /** Starting value of `closestLen`: waypoints this far away or farther are never chosen. */
  const SearchRadius: real := 100000.0

  function WaypointDistance(sqrt: real -> real, x: real, y: real, mapsX: seq<real>, mapsY: seq<real>, i: nat): real
    requires i < |mapsX| <= |mapsY|
  {
    Distance(sqrt, x, y, mapsX[i], mapsY[i])
  }

  /**
   * `(closestLen, closestWaypoint)` after the first `k` iterations of the loop
   * in `ClosestWaypoint`.
   */
  function Scan(sqrt: real -> real, x: real, y: real, mapsX: seq<real>, mapsY: seq<real>, k: nat): (real, nat)
    requires k <= |mapsX| <= |mapsY|
  {
    if k == 0 then (SearchRadius, 0)
    else
      var (len, best) := Scan(sqrt, x, y, mapsX, mapsY, k - 1);
      var dist := WaypointDistance(sqrt, x, y, mapsX, mapsY, k - 1);
      if dist < len then (dist, k - 1) else (len, best)
  }

  function ClosestIndex(sqrt: real -> real, x: real, y: real, mapsX: seq<real>, mapsY: seq<real>): nat
    requires |mapsX| <= |mapsY|
  {
    Scan(sqrt, x, y, mapsX, mapsY, |mapsX|).1
  }

  /**
   * `c` is the waypoint the search should pick: when some waypoint lies within
   * the search radius, `c` is a nearest one and the lowest-numbered among those
   * at that distance; otherwise `c` is 0.
   */
  ghost predicate IsClosest(sqrt: real -> real, x: real, y: real, mapsX: seq<real>, mapsY: seq<real>, c: nat)
    requires |mapsX| <= |mapsY|
  {
    if forall j :: 0 <= j < |mapsX| ==> WaypointDistance(sqrt, x, y, mapsX, mapsY, j) >= SearchRadius then
      c == 0
    else
      && c < |mapsX|
      && WaypointDistance(sqrt, x, y, mapsX, mapsY, c) < SearchRadius
      && (forall j :: 0 <= j < c ==>
            WaypointDistance(sqrt, x, y, mapsX, mapsY, c) < WaypointDistance(sqrt, x, y, mapsX, mapsY, j))
      && (forall j :: c <= j < |mapsX| ==>
            WaypointDistance(sqrt, x, y, mapsX, mapsY, c) <= WaypointDistance(sqrt, x, y, mapsX, mapsY, j))
  }

  /** What the scan knows after `k` waypoints. */
  lemma {:induction false} ScanInvariant(sqrt: real -> real, x: real, y: real, mapsX: seq<real>, mapsY: seq<real>, k: nat)
    requires k <= |mapsX| <= |mapsY|
    ensures var (len, best) := Scan(sqrt, x, y, mapsX, mapsY, k);
      && len <= SearchRadius
      && (forall j :: 0 <= j < k ==> len <= WaypointDistance(sqrt, x, y, mapsX, mapsY, j))
      && (len == SearchRadius ==> best == 0)
      && (len < SearchRadius ==>
            && best < k
            && len == WaypointDistance(sqrt, x, y, mapsX, mapsY, best)
            && forall j :: 0 <= j < best ==> len < WaypointDistance(sqrt, x, y, mapsX, mapsY, j))
  {
    if k > 0 {
      ScanInvariant(sqrt, x, y, mapsX, mapsY, k - 1);
    }
  }

  /** The scan over the whole map picks the waypoint `IsClosest` describes. */
  lemma ClosestIndexIsClosest(sqrt: real -> real, x: real, y: real, mapsX: seq<real>, mapsY: seq<real>)
    requires |mapsX| <= |mapsY|
    ensures IsClosest(sqrt, x, y, mapsX, mapsY, ClosestIndex(sqrt, x, y, mapsX, mapsY))
  {
    ScanInvariant(sqrt, x, y, mapsX, mapsY, |mapsX|);
  }

  /** `IsClosest` describes a single waypoint. */
  lemma IsClosestUnique(sqrt: real -> real, x: real, y: real, mapsX: seq<real>, mapsY: seq<real>, c1: nat, c2: nat)
    requires |mapsX| <= |mapsY|
    requires IsClosest(sqrt, x, y, mapsX, mapsY, c1) && IsClosest(sqrt, x, y, mapsX, mapsY, c2)
    ensures c1 == c2
  {
  }

  /** `ClosestWaypoint`: the argmin loop. */
  method ClosestWaypoint(sqrt: real -> real, x: real, y: real, mapsX: seq<real>, mapsY: seq<real>) returns (closestWaypoint: nat)
    requires |mapsX| <= |mapsY|
    ensures closestWaypoint == ClosestIndex(sqrt, x, y, mapsX, mapsY)
    ensures IsClosest(sqrt, x, y, mapsX, mapsY, closestWaypoint)
    ensures |mapsX| > 0 ==> closestWaypoint < |mapsX|
  {
    var closestLen := SearchRadius;
    closestWaypoint := 0;
    for i := 0 to |mapsX|
      invariant (closestLen, closestWaypoint) == Scan(sqrt, x, y, mapsX, mapsY, i)
    {
      var dist := Distance(sqrt, x, y, mapsX[i], mapsY[i]);
      if dist < closestLen {
        closestLen := dist;
        closestWaypoint := i;
      }
    }
    ClosestIndexIsClosest(sqrt, x, y, mapsX, mapsY);
  }

  /** Bearing from the car at (x, y) towards waypoint `c`. */
  function HeadingTo(t: Trig, x: real, y: real, mapsX: seq<real>, mapsY: seq<real>, c: nat): real
    requires c < |mapsX| <= |mapsY|
  {
    t.atan2(mapsY[c] - y, mapsX[c] - x)
  }

  /** The car's yaw differs from the bearing to waypoint `c` by more than 45 degrees. */
  predicate FacesAway(t: Trig, x: real, y: real, theta: real, mapsX: seq<real>, mapsY: seq<real>, c: nat)
    requires c < |mapsX| <= |mapsY|
  {
    Abs(theta - HeadingTo(t, x, y, mapsX, mapsY, c)) > Pi / 4.0
  }

  /** What `NextWaypoint` returns, as written: it may be `|mapsX|`. */
  function NextIndex(t: Trig, x: real, y: real, theta: real, mapsX: seq<real>, mapsY: seq<real>): nat
    requires 0 < |mapsX| <= |mapsY|
  {
    ClosestIndexIsClosest(t.sqrt, x, y, mapsX, mapsY);
    var c := ClosestIndex(t.sqrt, x, y, mapsX, mapsY);
    if FacesAway(t, x, y, theta, mapsX, mapsY, c) then c + 1 else c
  }

  /**
   * The next waypoint is the closest one or the one after it, the latter
   * exactly when the bearing to the closest lies more than 45 degrees off the
   * yaw (the angle difference is not normalised, so this includes waypoints to
   * the side, and ones nearly ahead when yaw and bearing straddle +-pi); it
   * equals the map size exactly when the closest is the last waypoint and lies
   * more than 45 degrees off the yaw.
   */
  lemma NextIndexCases(t: Trig, x: real, y: real, theta: real, mapsX: seq<real>, mapsY: seq<real>)
    requires 0 < |mapsX| <= |mapsY|
    ensures var c := ClosestIndex(t.sqrt, x, y, mapsX, mapsY);
      && c < |mapsX|
      && NextIndex(t, x, y, theta, mapsX, mapsY) <= |mapsX|
      && (NextIndex(t, x, y, theta, mapsX, mapsY) == c + 1 <==> FacesAway(t, x, y, theta, mapsX, mapsY, c))
      && (NextIndex(t, x, y, theta, mapsX, mapsY) == c <==> !FacesAway(t, x, y, theta, mapsX, mapsY, c))
      && (NextIndex(t, x, y, theta, mapsX, mapsY) == |mapsX| <==>
            c == |mapsX| - 1 && FacesAway(t, x, y, theta, mapsX, mapsY, c))
  {
    ClosestIndexIsClosest(t.sqrt, x, y, mapsX, mapsY);
  }

  /** `NextWaypoint` as written. */
  method NextWaypoint(t: Trig, x: real, y: real, theta: real, mapsX: seq<real>, mapsY: seq<real>) returns (closestWaypoint: nat)
    requires 0 < |mapsX| <= |mapsY|
    ensures closestWaypoint == NextIndex(t, x, y, theta, mapsX, mapsY)
    ensures closestWaypoint <= |mapsX|
  {
    closestWaypoint := ClosestWaypoint(t.sqrt, x, y, mapsX, mapsY);
    var mapX := mapsX[closestWaypoint];
    var mapY := mapsY[closestWaypoint];
    var heading := t.atan2(mapY - y, mapX - x);
    var angle := Abs(theta - heading);
    if angle > Pi / 4.0 {
      closestWaypoint := closestWaypoint + 1;
    }
  }

  /**
   * A car just past the last waypoint of a two-waypoint map, driving away from
   * it, gets the map size back as its next waypoint (with exact square roots
   * and `atan2(0, -1) == pi`).
   */
  lemma NextIndexReachesSizeExample(t: Trig)
    requires t.sqrt(121.0) == 11.0 && t.sqrt(1.0) == 1.0 && t.atan2(0.0, -1.0) == Pi
    ensures NextIndex(t, 11.0, 0.0, 0.0, [0.0, 10.0], [0.0, 0.0]) == 2
  {
    var mapsX, mapsY := [0.0, 10.0], [0.0, 0.0];
    assert WaypointDistance(t.sqrt, 11.0, 0.0, mapsX, mapsY, 0) == 11.0;
    assert WaypointDistance(t.sqrt, 11.0, 0.0, mapsX, mapsY, 1) == 1.0;
    assert Scan(t.sqrt, 11.0, 0.0, mapsX, mapsY, 1) == (11.0, 0);
    assert ClosestIndex(t.sqrt, 11.0, 0.0, mapsX, mapsY) == 1;
    assert HeadingTo(t, 11.0, 0.0, mapsX, mapsY, 1) == Pi;
  }

  /** The next waypoint with the wrap to 0 past the end of the map that `getFrenet` needs. */
  function NextIndexWrapped(t: Trig, x: real, y: real, theta: real, mapsX: seq<real>, mapsY: seq<real>): (r: nat)
    requires 0 < |mapsX| <= |mapsY|
    ensures r < |mapsX|
    ensures r == NextIndex(t, x, y, theta, mapsX, mapsY) % |mapsX|
    ensures NextIndex(t, x, y, theta, mapsX, mapsY) < |mapsX| ==> r == NextIndex(t, x, y, theta, mapsX, mapsY)
  {
    NextIndexCases(t, x, y, theta, mapsX, mapsY);
    var next := NextIndex(t, x, y, theta, mapsX, mapsY);
    if next == |mapsX| then 0 else next
  }

  /** `NextWaypoint` with the wrap past the end of the map. */
  method NextWaypointWrapped(t: Trig, x: real, y: real, theta: real, mapsX: seq<real>, mapsY: seq<real>) returns (closestWaypoint: nat)
    requires 0 < |mapsX| <= |mapsY|
    ensures closestWaypoint == NextIndexWrapped(t, x, y, theta, mapsX, mapsY)
    ensures closestWaypoint < |mapsX|
  {
    closestWaypoint := NextWaypoint(t, x, y, theta, mapsX, mapsY);
    if closestWaypoint == |mapsX| {
      closestWaypoint := 0;
    }
  }
}
