# Highway path planner core, in Dafny

This project models the computational core of a highway path planner for a
simulated car, all of it in `src/main.cpp`:

- the message framing that extracts the JSON part of a simulator message (`hasData`);
- the waypoint search that picks the closest waypoint and the next one ahead (`ClosestWaypoint`, `NextWaypoint`);
- the conversion between map coordinates and the road frame (`getFrenet`, `getXY`).
  The road frame is `s`, the distance along the waypoint polyline, and `d`, the signed lateral offset.
- the lane-to-offset map (`convertLaneToD`);
- the minimum-jerk trajectory synthesiser (`minimum_jerk_path`).

Doubles are modelled as exact `real`s. The library functions `sqrt`, `atan2`,
`cos` and `sin` are passed in as function values (`Geometry.Trig`). The model
assumes nothing about them, except where a lemma says so in its `requires`:
non-negative square roots (`Frenet.NonNegative`) or the Pythagorean identity
(`Geometry.Pythagorean`). `size_t` arithmetic in `hasData` is written out modulo
2^64. The lane number is a 32-bit `int`.

Modules, one per part of the source:

| file | module | models |
|---|---|---|
| `wrappers.dfy` | `Wrappers` | `Option`, for `npos` and for out-of-range reads |
| `framing.dfy` | `Framing` | `hasData` and the `std::string` operations it uses |
| `geometry.dfy` | `Geometry` | `distance`, `M_PI`, and a point moved along a heading |
| `waypoints.dfy` | `Waypoints` | `ClosestWaypoint`, `NextWaypoint` |
| `frenet.dfy` | `Frenet` | `getFrenet`, `getXY` |
| `lanes.dfy` | `Lanes` | `convertLaneToD` |
| `jerk.dfy` | `Jerk` | `minimum_jerk_path` |

Loops that update local variables in the source are `method`s with `while`
or `for` loops. Each is proved equal to a specification function, and the
properties are proved about that function.

## Model

| member | source | states |
|---|---|---|
| Framing.Find | src/main.cpp:28 | `find("null")` returns the first index where the pattern occurs, or `None` (`npos`) when it occurs nowhere |
| Framing.FindFirst | src/main.cpp:29-30 | `find_first_of` returns the index of the first occurrence of the character, or `None` when it is absent |
| Framing.SizeT | src/main.cpp:37 | the `size_t` length `b2 - b1 + 2` equals the integer when it fits, and wraps by 2^64 when it is negative |
| Framing.HasData | src/main.cpp:26-40 | the result is never longer than the message, and when non-empty it starts at a `[` |
| Framing.HasDataDropsNull | src/main.cpp:31-34 | a message containing "null" anywhere gives "" |
| Framing.HasDataNeedsBrackets | src/main.cpp:35-39 | without "null", a message missing `[` or `}` gives "" |
| Framing.HasDataSlice | src/main.cpp:28-38 | without "null", the result runs from the first `[` through one character past the first `}`, clamped at the end; when `}` comes first, the wrapped length gives `"["`, `""` or the whole tail from `[` |
| Framing.HasDataTelemetryFrame | src/main.cpp:26-40 | for the frame `42["e",{}]` the result is `["e",{}]`, so the `]` after the first `}` is kept |
| Framing.Substr | src/main.cpp:37 | `substr(pos, count)` returns at most `count` characters, exactly `count` unless clamped at the end of the string, each the character at the same offset from `pos` |
| Geometry.Distance | src/main.cpp:42-45 | the Euclidean distance through the given square root; `Geometry.DistanceSymmetric` and `Frenet.ArcLengthMonotone` state its properties |
| Geometry.DistanceSymmetric | src/main.cpp:42-45 | `distance` does not depend on the order of its two points |
| Geometry.Advance | src/main.cpp:122-126 | a point moved by `dist` along a heading lies at squared distance `dist*dist` from where it started, given the Pythagorean identity |
| Waypoints.Scan | src/main.cpp:49-61 | the first `k` iterations of the closest-waypoint loop; `Waypoints.ScanInvariant` states what they compute |
| Waypoints.ScanInvariant | src/main.cpp:49-61 | after `k` iterations, `closestLen` is the smallest distance below 100000 seen so far, and `closestWaypoint` is the first index that attains it; both stay at their initial values while no distance is below 100000 |
| Waypoints.ClosestIndexIsClosest | src/main.cpp:47-63 | the scan returns the first waypoint of minimum distance below 100000, and 0 when none is below 100000 |
| Waypoints.IsClosestUnique | src/main.cpp:47-63 | at most one index has that property, so it fully determines the result |
| Waypoints.ClosestWaypoint | src/main.cpp:47-63 | the loop returns the index `ClosestIndex` has that property for, and the index is in range for a non-empty map |
| Waypoints.NextIndexCases | src/main.cpp:65-77 | the next waypoint is the closest one plus 1 exactly when the yaw differs from the bearing by more than pi/4 (the difference is not normalised, so this covers waypoints to the side, and ones nearly ahead when yaw and bearing straddle ±pi); it equals the map size exactly when the closest is the last waypoint and its bearing is more than pi/4 off the yaw |
| Waypoints.NextWaypoint | src/main.cpp:65-77 | the method computes `NextIndex`, which is at most the map size |
| Waypoints.NextIndexReachesSizeExample | src/main.cpp:72-75 | a car just past the last waypoint of a two-waypoint map, driving away from it, gets 2, the map size |
| Waypoints.NextIndexWrapped | src/main.cpp:81-87 | the wrapped next waypoint is `NextIndex mod size`, always in range, and unchanged when already in range |
| Waypoints.NextWaypointWrapped | src/main.cpp:81-87 | the method computes `NextIndexWrapped` |
| Frenet.PrevWaypoint | src/main.cpp:82-86 | `prev_wp` is in range and its cyclic successor is `next_wp`, with the wrap to `size - 1` at 0 |
| Frenet.Project | src/main.cpp:91-93 | the projection of the car onto the segment; `Frenet.ProjectionOrthogonal` states that it is the orthogonal one |
| Frenet.ProjectionOrthogonal | src/main.cpp:87-93 | the projection lies on the segment's line, and the car's offset from it is orthogonal to the segment |
| Frenet.ArcLength | src/main.cpp:103-107 | the summed lengths of the segments before waypoint `k`; `Frenet.ArcLengthMonotone` states that it is non-negative and non-decreasing |
| Frenet.ArcLengthMonotone | src/main.cpp:103-107 | given non-negative square roots, the summed segment lengths are non-negative and non-decreasing in the waypoint index |
| Frenet.SignedOffset | src/main.cpp:94-102 | given non-negative square roots, `abs(frenet_d)` is the car's distance from its projection; `frenet_d` is negative only when the car is no farther from (1000, 2000) than its projection, and is never positive when it is |
| Frenet.FrenetAt | src/main.cpp:82-109 | the `(s, d)` pair `getFrenet` returns for a given next waypoint; `Frenet.SignedOffset`, `Frenet.FrenetProgressNonNegative` and `Frenet.FrenetOnSegment` state its properties |
| Frenet.FrenetProgressNonNegative | src/main.cpp:103-108 | given non-negative square roots, `frenet_s` is non-negative |
| Frenet.FrenetOnSegment | src/main.cpp:82-109 | the body of `getFrenet` computes `FrenetAt`: `frenet_s` is the arc length up to `prev_wp` plus the projection length, and `frenet_d` is the signed offset; `frenet_s >= 0` given non-negative square roots |
| Frenet.GetFrenet | src/main.cpp:79-110 | `getFrenet` with the wrapped next waypoint computes `FrenetAt` on that segment |
| Frenet.BracketFromSpec | src/main.cpp:114-118 | the segment search, bound tested first, passes the first run of waypoints whose `s` lies below the query and stops at the last of that run: where the next waypoint's `s` is at or above the query, or at the last waypoint |
| Frenet.BracketBeforeFirst | src/main.cpp:114-121 | a query at or before `maps_s[0]` leaves `prev_wp` at -1, the index lines 120-121 then read |
| Frenet.BracketFrom | src/main.cpp:114-118 | the segment search with the bound tested first; `Frenet.BracketFromSpec` states where it stops |
| Frenet.Bracket | src/main.cpp:113-118 | the search from `prev_wp = -1`; `Frenet.BracketOfSorted` and `Frenet.BracketBeforeFirst` state its result |
| Frenet.BracketOfSorted | src/main.cpp:114-119 | for strictly increasing `maps_s`, if `maps_s[0] < s <= maps_s[n-1]` the search stops with `maps_s[prev] < s <= maps_s[prev+1]`; beyond the last waypoint it stops at `n-1` |
| Frenet.WrittenBracketFrom | src/main.cpp:115-118 | the segment search as written, `None` where it reads `maps_s[size]`; `Frenet.WrittenBracketAgrees` states when that happens |
| Frenet.WrittenBracketAgrees | src/main.cpp:115-119 | the loop as written reads `maps_s[size]` exactly when every `maps_s` entry after the start lies below the query; otherwise it agrees with the bound-first loop and stops before the last waypoint |
| Frenet.WrittenBracketOverrunExample | src/main.cpp:115 | for `maps_s = [0, 10]` and `s = 20`, the guard as written reads `maps_s[2]`; the bound-first loop stops at 1 and `wp2` wraps to 0 |
| Frenet.GetXY | src/main.cpp:112-128 | `getXY` returns the point `s - maps_s[prev]` along the heading to `wp2 = (prev+1) mod n`, moved by `d` along `heading - pi/2`, where `prev` is the bracket; given the Pythagorean identity the final point lies at distance `|d|` from the on-segment point |
| Lanes.ConvertLaneToD | src/main.cpp:181-184 | the offset lies strictly inside lane `lane`'s 4-wide band and is equidistant from both edges |
| Lanes.LaneOf | src/main.cpp:181-184 | an inverse of the lane map: the lane whose band holds a given `d` |
| Lanes.FirstLane | src/main.cpp:181-184 | lane 1 maps to 2.0 |
| Lanes.NextLane | src/main.cpp:181-184 | each successive lane adds exactly 4.0 |
| Lanes.LaneRoundTrip | src/main.cpp:181-184 | `LaneOf(ConvertLaneToD(lane)) == lane`, so distinct lanes get distinct offsets |
| Jerk.Rhs | src/main.cpp:151-153 | the vector `b`; `Jerk.CoefficientsSolve` and `Jerk.EndConditions` state what it is for |
| Jerk.Coefficients | src/main.cpp:141-162 | the six coefficients, with the closed-form solution of `A x = b` for `a3..a5`; `Jerk.CoefficientsSolve` and `Jerk.SolutionUnique` state that they are what `A.inverse() * b` gives |
| Jerk.Position | src/main.cpp:167-172 | the quintic at time `t`; `Jerk.StartConditions`, `Jerk.EndConditions` and `Jerk.MinimumJerkPath` state its values |
| Jerk.CoefficientsSolve | src/main.cpp:137-162 | `a0 = start[0]`, `a1 = start[1]`, `a2 = start[2]/2`, and `(a3, a4, a5)` solves `A x = b` with the `A` and `b` of lines 147-153 |
| Jerk.SolutionUnique | src/main.cpp:147-155 | `A` is invertible for every non-zero duration, so `A x = b` has only one solution, which is `A.inverse() * b` |
| Jerk.HomogeneousOnlyZero | src/main.cpp:147-149 | `A d = 0` only for `d = 0` |
| Jerk.StartConditions | src/main.cpp:157-162 | with exact arithmetic, position, velocity and acceleration at time 0 are `start[0..2]` |
| Jerk.EndConditions | src/main.cpp:137-162 | with exact arithmetic, position, velocity and acceleration at `t = max_time` are `end[0..2]` |
| Jerk.MinimumJerkPath | src/main.cpp:135-177 | sample `k` is the quintic at `k*time_inc`; samples are taken for exactly those `k` with `k*time_inc < max_time`, so `max_time` itself is never included; the first sample is `start[0]`; a non-positive `max_time` gives no samples |

## Left out

- `main`, which covers CSV map reading, websocket and HTTP handling, JSON parsing and serialisation. It is I/O plumbing.
- `tk::spline` resampling of the map and of the output path. `spline.h` is not part of this model.
- Eigen's `A.inverse()`. It is replaced by the closed-form inverse of the 3x3 matrix, and `Jerk.SolutionUnique` shows the result is the solution the inverse would give.
- `sqrt`, `atan2`, `cos`, `sin`, `deg2rad` and `rad2deg`. These are floating-point library functions, so they are parameters, and `deg2rad`/`rad2deg` are not used by the modelled core.
- Floating-point rounding throughout. In particular, `t += time_inc` in `minimum_jerk_path` accumulates rounding, while the model takes the `k`-th `t` as exactly `k*time_inc`. So near `max_time` the real program may take one sample more or one fewer.
- `abs(theta - heading)` in `NextWaypoint` is modelled as the absolute value of a real. Which `abs` overload the C++ picks is not modelled.
- The cost and setpoint functions. They are empty stubs with no return statement.
- Maneuver selection, which is hard-coded to "keep", and the fixed setpoint constants. Both are glue inside the message handler.
- Frenet.GetFrenet, Frenet.FrenetOnSegment: the projection divides by the squared segment length. A degenerate segment, two equal consecutive waypoints, gives NaN or infinity in the source and is excluded by `SegmentNonDegenerate`.
- Frenet.GetXY: a query `s <= maps_s[0]` leaves `prev_wp` at -1 (`Frenet.BracketBeforeFirst`), and the source then indexes `maps_x[-1]`. It is excluded by `requires maps_s[0] < s`.
- Waypoints.ClosestWaypoint and the other waypoint members require `|maps_x| <= |maps_y|`, because the source indexes `maps_y[i]` for every `i < maps_x.size()`. `NextWaypoint` also requires a non-empty map, because the source reads `maps_x[0]` then.
- Lanes.ConvertLaneToD requires `lane` above the smallest 32-bit `int`, where `lane - 1` overflows.
- Jerk.MinimumJerkPath requires `time_inc > 0` when `max_time > 0`. Otherwise the source loop never ends.
- Framing.HasData works on `string`, a sequence of characters, where the source's `std::string` holds bytes and counts positions and lengths in bytes. One `char` stands for one byte, so the model agrees with the source on ASCII messages; multi-byte encodings are not modelled.
- Framing.HasDataSlice assumes the message is shorter than 2^64 - 1 characters, so that `b2 - b1 + 2` cannot itself wrap to 0.
- Where the design description and the code disagree, the model follows the code:
  - For a non-positive duration, `minimum_jerk_path` returns an empty path rather than an `InvalidDuration` error.
  - `getXY` does not wrap `s` modulo the track length. A query beyond the last waypoint extrapolates from waypoint n-1 along the closing segment towards waypoint 0 (`wp2 = 0`).
  - The lateral sign is decided by comparing distances to the fixed point (1000, 2000), as the code does, not by a cross product.

## Findings

| source | as written | input that shows it | evidently intended | confidence | as-written member | corrected member |
|---|---|---|---|---|---|---|
| src/main.cpp:115 | the loop guard reads `maps_s[prev_wp+1]` before it tests `prev_wp < size-1`, so a query beyond the last waypoint reads `maps_s[size]` | `maps_s = [0, 10]`, `s = 20` | test the bound first, stop at the last waypoint, and let `wp2` wrap to 0 (the `% maps_x.size()` on line 119 then has a purpose) | not executed | Frenet.WrittenBracketOverrunExample | Frenet.GetXY |
| src/main.cpp:72-75, 87 | `NextWaypoint` can return `maps_x.size()`, and `getFrenet` then reads `maps_x[next_wp]` out of range | waypoints (0,0) and (10,0), car at (11,0) with yaw 0, exact `sqrt` and `atan2(0,-1) = pi` | wrap the next waypoint to 0 on the closed track | not executed | Waypoints.NextIndexReachesSizeExample | Waypoints.NextWaypointWrapped |
