/** The discretization planner `set_up` of setting.cpp: from the time step,
    the space step, the time horizon and the target region's bounding box it
    derives the stability coefficient, the number of time steps and the size
    of the grid padded with a halo of one cell per time step. */
module Planner {
  import opened Geometry
  import opened Regions

  /** `static_cast<int>` of a double: truncation toward zero. */
  function Trunc(v: real): (n: int)
    ensures 0.0 <= v ==> 0 <= n && n as real <= v < (n + 1) as real
    ensures v < 0.0 ==> n <= 0 && (n - 1) as real < v <= n as real
  {
    if v >= 0.0 then v.Floor else -((-v).Floor)
  }

  /** `std::round`: the nearest integer, halfway cases away from zero. */
  function Round(v: real): (n: int)
    ensures Abs(v - n as real) <= 0.5
    ensures Abs(v - n as real) == 0.5 ==> Abs(n as real) > Abs(v)
    ensures 0.0 <= v ==> 0 <= n
  {
    if v >= 0.0 then (v + 0.5).Floor else -((-v + 0.5).Floor)
  }

  /** Dividing by a non-zero real scales back to the dividend; a positive
      divisor keeps the sign of a non-negative dividend. */
  lemma Quotient(a: real, b: real)
    requires b != 0.0
    ensures (a / b) * b == a
    ensures a >= 0.0 && b > 0.0 ==> a / b >= 0.0
  {
  }

  /** The square of a non-zero step is positive, so the diffusion number
      `lambda` is defined. */
  lemma SquarePositive(delta: real)
    requires delta != 0.0
    ensures delta * delta > 0.0
  {
    if delta > 0.0 {
      ScaleMonotone(0.0, delta, delta);
    } else {
      ScaleMonotone(0.0, -delta, -delta);
      assert (-delta) * (-delta) == delta * delta;
    }
  }

  /** Multiplying by a positive factor keeps the order of two reals. */
  lemma ScaleMonotone(a: real, b: real, c: real)
    requires c > 0.0
    ensures a <= b ==> a * c <= b * c
    ensures a < b ==> a * c < b * c
  {
  }

  /** Scaling a bracket `a <= q < b` of the quotient `q = time / gamma`
      by the step `gamma` brackets `time`. */
  lemma StepBracket(q: real, gamma: real, time: real, a: real, b: real)
    requires gamma > 0.0 && q * gamma == time && a <= q < b
    ensures a * gamma <= time < b * gamma
  {
    ScaleMonotone(a, q, gamma);
    ScaleMonotone(q, b, gamma);
  }

  /** Truncating the number of steps never overshoots the horizon: the
      solver covers `n * gamma` of time, less than one step short of `time`. */
  lemma StepsWithinHorizon(time: real, gamma: real, n: int)
    requires gamma > 0.0 && time >= 0.0 && n == Trunc(time / gamma)
    ensures 0 <= n && n as real * gamma <= time < (n + 1) as real * gamma
  {
    var q := time / gamma;
    Quotient(time, gamma);
    StepBracket(q, gamma, time, n as real, (n + 1) as real);
  }

  /** Grid extent along one axis: the rounded number of steps spanning the
      box `[lo, hi]`, one more for the fence post, and `iterations` halo
      cells on each side. */
  function Extent(lo: real, hi: real, delta: real, iterations: int): (n: int)
    requires delta != 0.0
    ensures lo <= hi && delta > 0.0 ==> n >= 1 + 2 * iterations
  {
    Quotient(hi - lo, delta);
    Round((hi - lo) / delta) + 1 + 2 * iterations
  }

  /** `set_up`. Requires non-zero steps: setting.cpp divides by both. */
  method SetUp(target: Region, gamma: real, delta: real, time: real)
    returns (rows: int, cols: int, iterations: int, lam: real)
    requires gamma != 0.0 && delta != 0.0
    ensures lam == gamma / (delta * delta)
    ensures iterations == Trunc(time / gamma)
    ensures gamma > 0.0 && time >= 0.0 ==>
      0 <= iterations && iterations as real * gamma <= time < (iterations + 1) as real * gamma
    ensures rows == Extent(Lowest(target.Points(), X), Highest(target.Points(), X), delta, iterations)
    ensures cols == Extent(Lowest(target.Points(), Y), Highest(target.Points(), Y), delta, iterations)
    ensures |target.Points()| > 0 && delta > 0.0 ==> rows >= 1 + 2 * iterations && cols >= 1 + 2 * iterations
  {
    SquarePositive(delta);
    lam := gamma / (delta * delta);
    iterations := Trunc(time / gamma);

    var minX, minY := FindMin(target);
    var maxX, maxY := FindMax(target);
    if gamma > 0.0 && time >= 0.0 {
      StepsWithinHorizon(time, gamma, iterations);
    }
    if |target.Points()| > 0 {
      BoxOrdered(target.Points(), X);
      BoxOrdered(target.Points(), Y);
    }
    rows := Extent(minX, maxX, delta, iterations);
    cols := Extent(minY, maxY, delta, iterations);
  }
}
