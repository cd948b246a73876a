/**
 * The minimum-jerk trajectory synthesiser (`minimum_jerk_path`,
 * src/main.cpp:135-177): the quintic that starts and ends with the given
 * position, velocity and acceleration over a duration `T`, sampled every
 * `timeInc` strictly before `T`.
 */
module Jerk {
  /** Position, velocity and acceleration: the three entries of `start` and `end`. */
  datatype Kinematics = Kinematics(pos: real, vel: real, acc: real)

  /** The coefficients of a0 + a1 t + a2 t^2 + a3 t^3 + a4 t^4 + a5 t^5. */
  datatype Quintic = Quintic(a0: real, a1: real, a2: real, a3: real, a4: real, a5: real)

  /** `t` to the power `n`, built as the source builds `t2 = t * t`, `t3 = t * t2`, ... */
  function Pow(t: real, n: nat): real
  {
    if n == 0 then 1.0 else t * Pow(t, n - 1)
  }

  /** The sample value `r` of src/main.cpp:167-172. */
  function Position(c: Quintic, t: real): real
  {
    c.a0 + c.a1 * t + c.a2 * Pow(t, 2) + c.a3 * Pow(t, 3) + c.a4 * Pow(t, 4) + c.a5 * Pow(t, 5)
  }

  /** The time derivative of `Position`, written out term by term. */
  function Velocity(c: Quintic, t: real): real
  {
    c.a1 + 2.0 * c.a2 * t + 3.0 * c.a3 * Pow(t, 2) + 4.0 * c.a4 * Pow(t, 3) + 5.0 * c.a5 * Pow(t, 4)
  }

  /** The second time derivative of `Position`, written out term by term. */
  function Acceleration(c: Quintic, t: real): real
  {
    2.0 * c.a2 + 6.0 * c.a3 * t + 12.0 * c.a4 * Pow(t, 2) + 20.0 * c.a5 * Pow(t, 3)
  }

  /**
   * The right-hand side `b` of the system (src/main.cpp:151-153): what the
   * cubic, quartic and quintic terms must add to the motion that `start`
   * alone would give after `t`.
   */
  function Rhs(start: Kinematics, end: Kinematics, t: real): Kinematics
  {
    Kinematics(end.pos - (start.pos + start.vel * t + 0.5 * start.acc * Pow(t, 2)),
               end.vel - (start.vel + start.acc * t),
               end.acc - start.acc)
  }

  /**
   * `p2 .. p5` are `t^2 .. t^5` for a non-zero `t`, built as the source
   * builds `t2 .. t5`; the powers that `A.inverse()` divides by are non-zero.
   */
  ghost predicate PowerChain(t: real, p2: real, p3: real, p4: real, p5: real)
  {
    && t != 0.0 && p2 == t * t && p3 == t * p2 && p4 == t * p3 && p5 == t * p4
    && p3 != 0.0 && p4 != 0.0 && p5 != 0.0
  }

  /** The three rows of `A x = b` for the matrix `A` of src/main.cpp:147-149, on powers given as plain reals. */
  ghost predicate Rows(t: real, p2: real, p3: real, p4: real, p5: real, b0: real, b1: real, b2: real, x3: real, x4: real, x5: real)
  {
    && p3 * x3 + p4 * x4 + p5 * x5 == b0
    && 3.0 * p2 * x3 + 4.0 * p3 * x4 + 5.0 * p4 * x5 == b1
    && 6.0 * t * x3 + 12.0 * p2 * x4 + 20.0 * p3 * x5 == b2
  }

  /** `(x3, x4, x5)` solves `A x = b` for duration `t`. */
  ghost predicate SolvesSystem(t: real, b: Kinematics, x3: real, x4: real, x5: real)
  {
    Rows(t, Pow(t, 2), Pow(t, 3), Pow(t, 4), Pow(t, 5), b.pos, b.vel, b.acc, x3, x4, x5)
  }

  /** The closed-form numerators of `A.inverse() * b`, over `t^3`, `t^4` and `t^5` respectively. */
  function Numerator3(t: real, p2: real, b0: real, b1: real, b2: real): real
  {
    10.0 * b0 - 4.0 * (t * b1) + 0.5 * (p2 * b2)
  }

  function Numerator4(t: real, p2: real, b0: real, b1: real, b2: real): real
  {
    -15.0 * b0 + 7.0 * (t * b1) - p2 * b2
  }

  function Numerator5(t: real, p2: real, b0: real, b1: real, b2: real): real
  {
    6.0 * b0 - 3.0 * (t * b1) + 0.5 * (p2 * b2)
  }

  /**
   * The coefficients of src/main.cpp:137-162, with `x = A.inverse() * b`
   * written as the closed-form inverse of `A`, which exists for every
   * non-zero duration.
   */
  function Coefficients(start: Kinematics, end: Kinematics, t: real): Quintic
    requires t != 0.0
  {
    var b := Rhs(start, end, t);
    PowNonZero(t, 3);
    PowNonZero(t, 4);
    PowNonZero(t, 5);
    Quintic(start.pos, start.vel, start.acc / 2.0,
            Numerator3(t, Pow(t, 2), b.pos, b.vel, b.acc) / Pow(t, 3),
            Numerator4(t, Pow(t, 2), b.pos, b.vel, b.acc) / Pow(t, 4),
            Numerator5(t, Pow(t, 2), b.pos, b.vel, b.acc) / Pow(t, 5))
  }

  /** `a0 .. a2` are read off `start`, and `(a3, a4, a5)` solves the system of src/main.cpp:147-155. */
  lemma CoefficientsSolve(start: Kinematics, end: Kinematics, t: real)
    requires t != 0.0
    ensures var c := Coefficients(start, end, t);
      && c.a0 == start.pos && c.a1 == start.vel && c.a2 == start.acc / 2.0
      && SolvesSystem(t, Rhs(start, end, t), c.a3, c.a4, c.a5)
  {
    var b := Rhs(start, end, t);
    PowersChain(t);
    ClosedFormSolves(t, Pow(t, 2), Pow(t, 3), Pow(t, 4), Pow(t, 5), b.pos, b.vel, b.acc);
  }

  /**
   * With exact arithmetic the quintic leaves from `start`: its position,
   * velocity and acceleration at time 0 are those of `start`.
   */
  lemma StartConditions(start: Kinematics, end: Kinematics, t: real)
    requires t != 0.0
    ensures var c := Coefficients(start, end, t);
      Position(c, 0.0) == start.pos && Velocity(c, 0.0) == start.vel && Acceleration(c, 0.0) == start.acc
  {
  }

  /**
   * With exact arithmetic the quintic arrives at `end`: its position,
   * velocity and acceleration at the duration `t` are those of `end`.
   */
  lemma EndConditions(start: Kinematics, end: Kinematics, t: real)
    requires t != 0.0
    ensures var c := Coefficients(start, end, t);
      Position(c, t) == end.pos && Velocity(c, t) == end.vel && Acceleration(c, t) == end.acc
  {
    var c := Coefficients(start, end, t);
    CoefficientsSolve(start, end, t);
    ArrivesPosition(start, end, t, c);
    ArrivesVelocity(start, end, t, c);
    ArrivesAcceleration(start, end, t, c);
  }

  /** A quintic that starts from `start` and whose `a3 .. a5` solve the system has position `end.pos` at `t`. */
  lemma ArrivesPosition(start: Kinematics, end: Kinematics, t: real, c: Quintic)
    requires c.a0 == start.pos && c.a1 == start.vel && c.a2 == start.acc / 2.0
    requires SolvesSystem(t, Rhs(start, end, t), c.a3, c.a4, c.a5)
    ensures Position(c, t) == end.pos
  {
  }

  /** As `ArrivesPosition`, for the velocity. */
  lemma ArrivesVelocity(start: Kinematics, end: Kinematics, t: real, c: Quintic)
    requires c.a1 == start.vel && c.a2 == start.acc / 2.0
    requires SolvesSystem(t, Rhs(start, end, t), c.a3, c.a4, c.a5)
    ensures Velocity(c, t) == end.vel
  {
  }

  /** As `ArrivesPosition`, for the acceleration. */
  lemma ArrivesAcceleration(start: Kinematics, end: Kinematics, t: real, c: Quintic)
    requires c.a2 == start.acc / 2.0
    requires SolvesSystem(t, Rhs(start, end, t), c.a3, c.a4, c.a5)
    ensures Acceleration(c, t) == end.acc
  {
  }

  /**
   * `A` is invertible for every non-zero duration (its determinant is
   * `2 t^9`), so `A x = b` has one solution and `Coefficients` is it.
   */
  lemma SolutionUnique(t: real, b: Kinematics, x3: real, x4: real, x5: real, y3: real, y4: real, y5: real)
    requires t != 0.0
    requires SolvesSystem(t, b, x3, x4, x5) && SolvesSystem(t, b, y3, y4, y5)
    ensures x3 == y3 && x4 == y4 && x5 == y5
  {
    PowersChain(t);
    UniqueSolution(t, Pow(t, 2), Pow(t, 3), Pow(t, 4), Pow(t, 5), b.pos, b.vel, b.acc, x3, x4, x5, y3, y4, y5);
  }

  /** The `k`-th value of the loop variable `t` of src/main.cpp:165, over exact reals. */
  function SampleTime(k: nat, timeInc: real): real
  {
    (k as real) * timeInc
  }

  /**
   * The samples of src/main.cpp:164-174. With a negative or zero `maxTime`
   * the loop runs zero times, since it starts at 0; a non-positive
   * `timeInc` with a positive `maxTime` never leaves the loop.
   */
  method MinimumJerkPath(start: Kinematics, end: Kinematics, maxTime: real, timeInc: real) returns (result: seq<real>)
    requires timeInc > 0.0 || maxTime <= 0.0
    ensures maxTime <= 0.0 ==> result == []
    ensures maxTime > 0.0 ==> forall k: nat :: k < |result| <==> SampleTime(k, timeInc) < maxTime
    ensures forall k: nat | k < |result| ::
      maxTime != 0.0 && result[k] == Position(Coefficients(start, end, maxTime), SampleTime(k, timeInc))
    ensures |result| > 0 ==> result[0] == start.pos
  {
    result := [];
    if maxTime <= 0.0 {
      return;
    }
    var c := Coefficients(start, end, maxTime);
    ghost var bound := Archimedean(maxTime, timeInc);
    var t := 0.0;
    while t < maxTime
      invariant t == SampleTime(|result|, timeInc)
      invariant |result| <= bound
      invariant forall k: nat | k < |result| :: SampleTime(k, timeInc) < maxTime
      invariant forall k: nat | k < |result| :: result[k] == Position(c, SampleTime(k, timeInc))
      decreases bound - |result|
    {
      SampleTimeCancel(|result|, bound, timeInc);
      result := result + [Position(c, t)];
      t := t + timeInc;
    }
    forall k: nat | |result| <= k
      ensures maxTime <= SampleTime(k, timeInc)
    {
      SampleTimeMonotone(|result|, k, timeInc);
    }
  }

  // Real-arithmetic helpers, kept apart so each nonlinear step is proved on its own.

  /** The chain `t2 = t * t`, `t3 = t * t2`, `t4 = t * t3`, `t5 = t * t4`. */
  lemma PowChain(t: real)
    ensures Pow(t, 2) == t * t && Pow(t, 3) == t * Pow(t, 2) && Pow(t, 4) == t * Pow(t, 3) && Pow(t, 5) == t * Pow(t, 4)
  {
    assert Pow(t, 1) == t;
  }

  lemma PowersChain(t: real)
    requires t != 0.0
    ensures PowerChain(t, Pow(t, 2), Pow(t, 3), Pow(t, 4), Pow(t, 5))
  {
    PowChain(t);
    PowNonZero(t, 3);
    PowNonZero(t, 4);
    PowNonZero(t, 5);
  }

  lemma {:induction false} PowNonZero(t: real, n: nat)
    requires t != 0.0
    ensures Pow(t, n) != 0.0
  {
    if n > 0 {
      PowNonZero(t, n - 1);
      ProductNonZero(t, Pow(t, n - 1));
    }
  }

  lemma ProductNonZero(a: real, b: real)
    requires a != 0.0 && b != 0.0
    ensures a * b != 0.0
  {
  }

  lemma DivCancel(n: real, d: real)
    requires d != 0.0
    ensures d * (n / d) == n
  {
  }

  lemma CancelFactor(x: real, y: real, t: real)
    requires t != 0.0 && t * x == t * y
    ensures x == y
  {
  }

  /** The closed form of `A.inverse() * b` satisfies the three rows, on the powers as plain reals. */
  lemma ClosedFormSolves(t: real, p2: real, p3: real, p4: real, p5: real, b0: real, b1: real, b2: real)
    requires PowerChain(t, p2, p3, p4, p5)
    ensures Rows(t, p2, p3, p4, p5, b0, b1, b2,
                 Numerator3(t, p2, b0, b1, b2) / p3, Numerator4(t, p2, b0, b1, b2) / p4, Numerator5(t, p2, b0, b1, b2) / p5)
  {
    var n3, n4, n5 := Numerator3(t, p2, b0, b1, b2), Numerator4(t, p2, b0, b1, b2), Numerator5(t, p2, b0, b1, b2);
    var x3, x4, x5 := n3 / p3, n4 / p4, n5 / p5;
    DivCancel(n3, p3);
    DivCancel(n4, p4);
    DivCancel(n5, p5);
    Numerators(b0, t * b1, p2 * b2, n3, n4, n5);
    SystemRow1(p3, p4, p5, x3, x4, x5, n3, n4, n5, b0);
    SystemRow2(t, p2, p3, p4, p5, x3, x4, x5, n3, n4, n5, b1);
    SystemRow3(t, p2, p3, p4, p5, x3, x4, x5, n3, n4, n5, b2);
  }

  /** Two solutions of the three rows, on the powers as plain reals, are equal. */
  lemma UniqueSolution(t: real, p2: real, p3: real, p4: real, p5: real, b0: real, b1: real, b2: real,
                       x3: real, x4: real, x5: real, y3: real, y4: real, y5: real)
    requires PowerChain(t, p2, p3, p4, p5)
    requires Rows(t, p2, p3, p4, p5, b0, b1, b2, x3, x4, x5) && Rows(t, p2, p3, p4, p5, b0, b1, b2, y3, y4, y5)
    ensures x3 == y3 && x4 == y4 && x5 == y5
  {
    DifferenceRows(t, p2, p3, p4, p5, b0, b1, b2, x3, x4, x5, y3, y4, y5);
    HomogeneousOnlyZero(t, p2, p3, p4, p5, x3 - y3, x4 - y4, x5 - y5);
  }

  /** The difference of two solutions solves the homogeneous rows. */
  lemma DifferenceRows(t: real, p2: real, p3: real, p4: real, p5: real, b0: real, b1: real, b2: real,
                       x3: real, x4: real, x5: real, y3: real, y4: real, y5: real)
    requires Rows(t, p2, p3, p4, p5, b0, b1, b2, x3, x4, x5) && Rows(t, p2, p3, p4, p5, b0, b1, b2, y3, y4, y5)
    ensures Rows(t, p2, p3, p4, p5, 0.0, 0.0, 0.0, x3 - y3, x4 - y4, x5 - y5)
  {
    RowDifference(p3, p4, p5, x3, x4, x5, y3, y4, y5);
    RowDifference(3.0 * p2, 4.0 * p3, 5.0 * p4, x3, x4, x5, y3, y4, y5);
    RowDifference(6.0 * t, 12.0 * p2, 20.0 * p3, x3, x4, x5, y3, y4, y5);
  }

  /** The closed-form numerators combine, row by row of `A` scaled to `t^3`, into `b`. */
  lemma Numerators(b0: real, u: real, v: real, n3: real, n4: real, n5: real)
    requires n3 == 10.0 * b0 - 4.0 * u + 0.5 * v
    requires n4 == -15.0 * b0 + 7.0 * u - v
    requires n5 == 6.0 * b0 - 3.0 * u + 0.5 * v
    ensures n3 + n4 + n5 == b0
    ensures 3.0 * n3 + 4.0 * n4 + 5.0 * n5 == u
    ensures 6.0 * n3 + 12.0 * n4 + 20.0 * n5 == v
  {
  }

  lemma SystemRow1(p3: real, p4: real, p5: real, x3: real, x4: real, x5: real, n3: real, n4: real, n5: real, b0: real)
    requires p3 * x3 == n3 && p4 * x4 == n4 && p5 * x5 == n5
    requires n3 + n4 + n5 == b0
    ensures p3 * x3 + p4 * x4 + p5 * x5 == b0
  {
  }

  lemma SystemRow2(t: real, p2: real, p3: real, p4: real, p5: real, x3: real, x4: real, x5: real, n3: real, n4: real, n5: real, b1: real)
    requires t != 0.0 && p3 == t * p2 && p4 == t * p3 && p5 == t * p4
    requires p3 * x3 == n3 && p4 * x4 == n4 && p5 * x5 == n5
    requires 3.0 * n3 + 4.0 * n4 + 5.0 * n5 == t * b1
    ensures 3.0 * p2 * x3 + 4.0 * p3 * x4 + 5.0 * p4 * x5 == b1
  {
    ShiftRow2(t, p2, p3, p4, p5, x3, x4, x5);
    CancelFactor(3.0 * p2 * x3 + 4.0 * p3 * x4 + 5.0 * p4 * x5, b1, t);
  }

  lemma SystemRow3(t: real, p2: real, p3: real, p4: real, p5: real, x3: real, x4: real, x5: real, n3: real, n4: real, n5: real, b2: real)
    requires t != 0.0 && p2 == t * t && p3 == t * p2 && p4 == t * p3 && p5 == t * p4
    requires p3 * x3 == n3 && p4 * x4 == n4 && p5 * x5 == n5
    requires 6.0 * n3 + 12.0 * n4 + 20.0 * n5 == p2 * b2
    ensures 6.0 * t * x3 + 12.0 * p2 * x4 + 20.0 * p3 * x5 == b2
  {
    ScaledRow3(t, p2, p3, p4, p5, x3, x4, x5, n3, n4, n5, b2);
    ShiftRow3(t, t, p2, p3, p4, x3, x4, x5);
    CancelFactor(6.0 * t * x3 + 12.0 * p2 * x4 + 20.0 * p3 * x5, b2, t);
  }

  /** The third row scaled by `t`, one step short of `SystemRow3`. */
  lemma ScaledRow3(t: real, p2: real, p3: real, p4: real, p5: real, x3: real, x4: real, x5: real, n3: real, n4: real, n5: real, b2: real)
    requires t != 0.0 && p2 == t * t && p3 == t * p2 && p4 == t * p3 && p5 == t * p4
    requires p3 * x3 == n3 && p4 * x4 == n4 && p5 * x5 == n5
    requires 6.0 * n3 + 12.0 * n4 + 20.0 * n5 == p2 * b2
    ensures 6.0 * p2 * x3 + 12.0 * p3 * x4 + 20.0 * p4 * x5 == t * b2
  {
    ShiftRow3(t, p2, p3, p4, p5, x3, x4, x5);
    Associate(t, t, b2);
    CancelFactor(6.0 * p2 * x3 + 12.0 * p3 * x4 + 20.0 * p4 * x5, t * b2, t);
  }

  lemma Associate(a: real, b: real, c: real)
    ensures (a * b) * c == a * (b * c)
  {
  }

  /** Multiplying a row with coefficients 3, 4, 5 on `q1`, `q2`, `q3` by `t` moves each power up by one. */
  lemma ShiftRow2(t: real, q1: real, q2: real, q3: real, q4: real, x3: real, x4: real, x5: real)
    requires q2 == t * q1 && q3 == t * q2 && q4 == t * q3
    ensures t * (3.0 * q1 * x3 + 4.0 * q2 * x4 + 5.0 * q3 * x5) == 3.0 * q2 * x3 + 4.0 * q3 * x4 + 5.0 * q4 * x5
  {
  }

  /** Multiplying a row with coefficients 6, 12, 20 on `q1`, `q2`, `q3` by `t` moves each power up by one. */
  lemma ShiftRow3(t: real, q1: real, q2: real, q3: real, q4: real, x3: real, x4: real, x5: real)
    requires q2 == t * q1 && q3 == t * q2 && q4 == t * q3
    ensures t * (6.0 * q1 * x3 + 12.0 * q2 * x4 + 20.0 * q3 * x5) == 6.0 * q2 * x3 + 12.0 * q3 * x4 + 20.0 * q4 * x5
  {
  }

  /** A row of `A` applied to two vectors differs by the row applied to their difference. */
  lemma RowDifference(p: real, q: real, r: real, x3: real, x4: real, x5: real, y3: real, y4: real, y5: real)
    ensures (p * x3 + q * x4 + r * x5) - (p * y3 + q * y4 + r * y5) == p * (x3 - y3) + q * (x4 - y4) + r * (x5 - y5)
  {
  }

  /** The homogeneous system `A d = 0` has only the zero solution. */
  lemma HomogeneousOnlyZero(t: real, p2: real, p3: real, p4: real, p5: real, d3: real, d4: real, d5: real)
    requires PowerChain(t, p2, p3, p4, p5)
    requires Rows(t, p2, p3, p4, p5, 0.0, 0.0, 0.0, d3, d4, d5)
    ensures d3 == 0.0 && d4 == 0.0 && d5 == 0.0
  {
    ShiftRow2(t, p2, p3, p4, p5, d3, d4, d5);
    ShiftRow3(t, t, p2, p3, p4, d3, d4, d5);
    ShiftRow3(t, p2, p3, p4, p5, d3, d4, d5);
    Eliminate(p3 * d3, p4 * d4, p5 * d5);
    ZeroFactor(p3, d3);
    ZeroFactor(p4, d4);
    ZeroFactor(p5, d5);
  }

  /** The integer matrix [[1, 1, 1], [3, 4, 5], [6, 12, 20]] left after scaling has determinant 2. */
  lemma Eliminate(e3: real, e4: real, e5: real)
    requires e3 + e4 + e5 == 0.0
    requires 3.0 * e3 + 4.0 * e4 + 5.0 * e5 == 0.0
    requires 6.0 * e3 + 12.0 * e4 + 20.0 * e5 == 0.0
    ensures e3 == 0.0 && e4 == 0.0 && e5 == 0.0
  {
  }

  lemma ZeroFactor(p: real, d: real)
    requires p != 0.0 && p * d == 0.0
    ensures d == 0.0
  {
  }

  /** Some multiple of a positive step reaches any bound; it bounds the sampling loop. */
  lemma Archimedean(m: real, d: real) returns (n: nat)
    requires d > 0.0
    ensures m <= SampleTime(n, d)
  {
    if m <= 0.0 {
      n := 0;
    } else {
      var q := m / d;
      n := q.Floor + 1;
      assert q < n as real;
      DivCancel(m, d);
      MulMonotone(q, n as real, d);
    }
  }

  lemma MulMonotone(a: real, b: real, d: real)
    requires d > 0.0 && a <= b
    ensures a * d <= b * d
  {
  }

  lemma SampleTimeMonotone(j: nat, k: nat, d: real)
    requires d > 0.0 && j <= k
    ensures SampleTime(j, d) <= SampleTime(k, d)
  {
    MulMonotone(j as real, k as real, d);
  }

  lemma SampleTimeCancel(j: nat, k: nat, d: real)
    requires d > 0.0 && SampleTime(j, d) < SampleTime(k, d)
    ensures j < k
  {
    MulCancelLess(j as real, k as real, d);
  }

  lemma MulCancelLess(a: real, b: real, d: real)
    requires d > 0.0 && a * d < b * d
    ensures a < b
  {
  }
}
