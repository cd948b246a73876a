/**
 * Shared geometry: the transcendental functions the planner calls, the
 * Euclidean `distance` helper (src/main.cpp:42-45) and the constant pi.
 *
 * `sqrt`, `atan2`, `cos` and `sin` are library calls on doubles; the model
 * receives them as function values and assumes nothing about them unless a
 * lemma says so in its requires.
 */
module Geometry {
  /** The math library the planner links against. */
  datatype Trig = Trig(sqrt: real -> real, atan2: (real, real) -> real, cos: real -> real, sin: real -> real)

  /** A Cartesian map position. */
  datatype Point = Point(x: real, y: real)

  /** `M_PI`, written with the shortest decimal that identifies the double. */
  const Pi: real := 3.141592653589793

  function Abs(v: real): (r: real)
    ensures r >= 0.0 && (r == v || r == -v)
  {
    if v < 0.0 then -v else v
  }

  /** `distance(x1, y1, x2, y2)`: the square root of the squared Euclidean distance. */
  function Distance(sqrt: real -> real, x1: real, y1: real, x2: real, y2: real): real
  {
    sqrt((x2 - x1) * (x2 - x1) + (y2 - y1) * (y2 - y1))
  }

  /** The dot product of (ax, ay) and (ux, uy). */
  function Dot(ax: real, ay: real, ux: real, uy: real): real
  {
    ax * ux + ay * uy
  }

  function SquaredDistance(p: Point, q: Point): (r: real)
    ensures r >= 0.0
  {
    var dx := q.x - p.x;
    var dy := q.y - p.y;
    NonNegativeSquare(dx);
    NonNegativeSquare(dy);
    dx * dx + dy * dy
  }

  lemma NonNegativeSquare(v: real)
    ensures v * v >= 0.0
  {
  }

  /** The distance does not depend on the order of the two points. */
  lemma DistanceSymmetric(sqrt: real -> real, x1: real, y1: real, x2: real, y2: real)
    ensures Distance(sqrt, x1, y1, x2, y2) == Distance(sqrt, x2, y2, x1, y1)
  {
    assert (x2 - x1) * (x2 - x1) == (x1 - x2) * (x1 - x2);
    assert (y2 - y1) * (y2 - y1) == (y1 - y2) * (y1 - y2);
  }

  /** Sines and cosines of every angle satisfy the Pythagorean identity. */
  ghost predicate Pythagorean(t: Trig)
  {
    forall a :: t.cos(a) * t.cos(a) + t.sin(a) * t.sin(a) == 1.0
  }

  /** `p` moved by `dist` along `heading`. */
  function Advance(t: Trig, p: Point, heading: real, dist: real): (r: Point)
    ensures Pythagorean(t) ==> SquaredDistance(p, r) == dist * dist
  {
    ScaledUnitLength(t, heading, dist);
    Point(p.x + dist * t.cos(heading), p.y + dist * t.sin(heading))
  }

  lemma ScaledUnitLength(t: Trig, heading: real, dist: real)
    ensures Pythagorean(t) ==>
      (dist * t.cos(heading)) * (dist * t.cos(heading)) + (dist * t.sin(heading)) * (dist * t.sin(heading)) == dist * dist
  {
    if Pythagorean(t) {
      var c, s := t.cos(heading), t.sin(heading);
      assert c * c + s * s == 1.0;
      assert (dist * c) * (dist * c) + (dist * s) * (dist * s) == dist * dist * (c * c + s * s);
    }
  }
}
