/** Points of the plane that carry a temperature, and the tolerance-based
    equality used to match a sampled grid coordinate against a known point
    (class Point of setting.cpp). */
module Geometry {

  /** A coordinate pair `(x, y)` with the temperature `u` known there. */
  datatype Point = Point(x: real, y: real, u: real)

  /** Absolute tolerance of point equality, on each axis (1e-3). */
  const Tolerance: real := 0.001

  /** Absolute value of a real number.
      Open question in setting.cpp: line 19 calls an unqualified `abs` on doubles
      with only <cstdlib> included, which may select the integer overload and
      truncate the difference; this model takes the evidently intended real
      absolute value. */
  function Abs(v: real): (r: real)
    ensures r >= 0.0
    ensures r == v || r == -v
  {
    if v < 0.0 then -v else v
  }

  /** Point equality (`operator==`): both coordinates lie within the
      tolerance of each other; the temperature takes no part. */
  predicate Equal(p: Point, q: Point)
  {
    Abs(p.x - q.x) < Tolerance && Abs(p.y - q.y) < Tolerance
  }

  /** Equality holds exactly when each coordinate difference lies strictly
      inside the open interval (-1e-3, 1e-3). */
  lemma EqualIff(p: Point, q: Point)
    ensures Equal(p, q) <==>
      (-Tolerance < p.x - q.x < Tolerance && -Tolerance < p.y - q.y < Tolerance)
  {
  }

  /** The temperatures of the two points never affect equality. */
  lemma EqualIgnoresValue(p: Point, q: Point, a: real, b: real)
    ensures Equal(p, q) <==> Equal(p.(u := a), q.(u := b))
  {
  }

  /** Equality is reflexive and symmetric. */
  lemma EqualReflexiveSymmetric(p: Point, q: Point)
    ensures Equal(p, p)
    ensures Equal(p, q) <==> Equal(q, p)
  {
  }

  /** Equality is not transitive: two points 1.2e-3 apart are distinct, yet
      both equal the point half-way between them. This is why a grid spacing
      near the tolerance can make a sample match the wrong known point. */
  lemma EqualNotTransitive()
    ensures var a, b, c := Point(0.0, 0.0, 0.0), Point(0.0006, 0.0, 0.0), Point(0.0012, 0.0, 0.0);
      Equal(a, b) && Equal(b, c) && !Equal(a, c)
  {
  }
}
