/** The Region abstraction of setting.cpp: a spatial domain that supplies a
    temperature for every coordinate, either from an ordered list of known
    points (discrete) or from a membership predicate and a value function
    (continuous), together with its bounding-box extrema. */
module Regions {
  import opened Geometry

  /** `std::numeric_limits<double>::max()`, exactly: (2 - 2^-52) * 2^1023. */
  const DoubleMax: real := 179769313486231570814527423731704356798070567525844996598917476803157260780028538760589558632766878171540458953514382464234321326889464182768467546703537516986049910576551282076245490090389328944075868508455133942304583236903222948165808559332123348274797826204144723168738177180919299881250404026184124858368.0

  /** `std::numeric_limits<double>::lowest()`. */
  const DoubleLowest: real := -DoubleMax

  /** A region is either a list of known points, scanned in order, or a
      predicate with a value function. */
  datatype Region =
    | Discrete(points: seq<Point>)
    | Continuous(condition: Point -> bool, heat: Point -> real)
  {
    /** The region's point list; a continuous region never fills it. */
    function Points(): seq<Point>
    {
      if Discrete? then points else []
    }
  }

  /** No point of the list equals `p`. */
  ghost predicate NoMatch(points: seq<Point>, p: Point)
  {
    forall i :: 0 <= i < |points| ==> !Equal(p, points[i])
  }

  /** `points[k]` is the first point of the list that equals `p`. */
  ghost predicate IsFirstMatch(points: seq<Point>, p: Point, k: int)
  {
    0 <= k < |points| && Equal(p, points[k]) &&
    forall i :: 0 <= i < k ==> !Equal(p, points[i])
  }

  /** The discrete branch of `compute_U`: the temperature of the first point
      equal to `p`, or the background value 0; either way the background or
      the temperature of one of the points. */
  function Lookup(points: seq<Point>, p: Point): (v: real)
    ensures v == 0.0 || exists k :: 0 <= k < |points| && v == points[k].u
  {
    if points == [] then 0.0
    else if Equal(p, points[0]) then points[0].u
    else
      var v := Lookup(points[1..], p);
      assert v != 0.0 ==> exists k :: 0 <= k < |points| - 1 && v == points[1..][k].u;
      assert forall k :: 0 <= k < |points| - 1 ==> points[1..][k] == points[k + 1];
      v
  }

  /** `compute_U`, for either kind of region. */
  function RegionValue(r: Region, p: Point): (v: real)
    ensures r.Discrete? ==> v == 0.0 || exists k :: 0 <= k < |r.points| && v == r.points[k].u
  {
    match r
    case Discrete(points) => Lookup(points, p)
    case Continuous(condition, heat) => if condition(p) then heat(p) else 0.0
  }

  /** The first matching point decides the value. */
  lemma {:induction false} LookupFirstMatch(points: seq<Point>, p: Point, k: int)
    requires IsFirstMatch(points, p, k)
    ensures Lookup(points, p) == points[k].u
  {
    if k > 0 {
      assert !Equal(p, points[0]);
      var tail := points[1..];
      forall i | 0 <= i < k - 1
        ensures !Equal(p, tail[i])
      {
        assert tail[i] == points[i + 1];
      }
      LookupFirstMatch(tail, p, k - 1);
    }
  }

  /** A point that matches nothing reads the background value 0. */
  lemma {:induction false} LookupNoMatch(points: seq<Point>, p: Point)
    requires NoMatch(points, p)
    ensures Lookup(points, p) == 0.0
  {
    if points != [] {
      assert !Equal(p, points[0]);
      var tail := points[1..];
      forall i | 0 <= i < |tail|
        ensures !Equal(p, tail[i])
      {
        assert tail[i] == points[i + 1];
      }
      LookupNoMatch(tail, p);
    }
  }

  /** Either nothing matches `p`, or some point is its first match; a
      discrete region's value is therefore fully described by the two lemmas
      above. */
  lemma {:induction false} MatchCases(points: seq<Point>, p: Point)
    ensures NoMatch(points, p) || exists k :: IsFirstMatch(points, p, k)
  {
    if points != [] && !Equal(p, points[0]) {
      var tail := points[1..];
      MatchCases(tail, p);
      if NoMatch(tail, p) {
        forall i | 0 <= i < |points|
          ensures !Equal(p, points[i])
        {
          if i > 0 { assert points[i] == tail[i - 1]; }
        }
      } else {
        var k :| IsFirstMatch(tail, p, k);
        forall i | 0 <= i < k + 1
          ensures !Equal(p, points[i])
        {
          if i > 0 { assert points[i] == tail[i - 1]; }
        }
        assert IsFirstMatch(points, p, k + 1);
      }
    } else if points != [] {
      assert IsFirstMatch(points, p, 0);
    }
  }

  /** Points after a match are never consulted: once some point of `pre`
      matches, appending more points (duplicates included) changes nothing. */
  lemma {:induction false} LookupIgnoresLater(pre: seq<Point>, post: seq<Point>, p: Point)
    requires !NoMatch(pre, p)
    ensures Lookup(pre + post, p) == Lookup(pre, p)
  {
    assert (pre + post)[0] == pre[0];
    if !Equal(p, pre[0]) {
      var i :| 0 <= i < |pre| && Equal(p, pre[i]);
      assert pre[1..][i - 1] == pre[i];
      assert (pre + post)[1..] == pre[1..] + post;
      LookupIgnoresLater(pre[1..], post, p);
    }
  }

  /** Points before `post` that match nothing are skipped over. */
  lemma {:induction false} LookupSkipsUnmatched(pre: seq<Point>, post: seq<Point>, p: Point)
    requires NoMatch(pre, p)
    ensures Lookup(pre + post, p) == Lookup(post, p)
  {
    if pre != [] {
      assert (pre + post)[0] == pre[0];
      assert !Equal(p, pre[0]);
      assert (pre + post)[1..] == pre[1..] + post;
      forall i | 0 <= i < |pre| - 1
        ensures !Equal(p, pre[1..][i])
      {
        assert pre[1..][i] == pre[i + 1];
      }
      LookupSkipsUnmatched(pre[1..], post, p);
      assert Lookup(pre + post, p) == Lookup((pre + post)[1..], p);
    } else {
      assert pre + post == post;
    }
  }

  /** A continuous region reports its value function where its predicate
      holds and 0 elsewhere. */
  lemma ContinuousValue(condition: Point -> bool, heat: Point -> real, p: Point)
    ensures condition(p) ==> RegionValue(Continuous(condition, heat), p) == heat(p)
    ensures !condition(p) ==> RegionValue(Continuous(condition, heat), p) == 0.0
  {
  }

  /** `p` lies in the region: it equals one of its points, or satisfies its
      predicate. */
  ghost predicate Covers(r: Region, p: Point)
  {
    match r
    case Discrete(points) => !NoMatch(points, p)
    case Continuous(condition, _) => condition(p)
  }

  /** Outside the region the value is the background 0, whatever the
      region's data. */
  lemma ValueOutside(r: Region, p: Point)
    requires !Covers(r, p)
    ensures RegionValue(r, p) == 0.0
  {
    if r.Discrete? {
      LookupNoMatch(r.points, p);
    }
  }

  /** The C++ `compute_U` member: a scan of the point list with an early
      return for a discrete region, a guarded call for a continuous one. */
  method ComputeU(r: Region, p: Point) returns (u: real)
    ensures u == RegionValue(r, p)
  {
    if r.Discrete? {
      var points := r.points;
      var i := 0;
      while i < |points|
        invariant 0 <= i <= |points|
        invariant Lookup(points[i..], p) == Lookup(points, p)
      {
        if Equal(p, points[i]) {
          return points[i].u;
        }
        assert points[i..][1..] == points[i + 1..];
        i := i + 1;
      }
    } else {
      if r.condition(p) {
        return r.heat(p);
      }
    }
    return 0.0;
  }

  /** The axis a bounding-box coordinate is taken on. */
  datatype Axis = X | Y

  function Coord(p: Point, a: Axis): real
  {
    match a
    case X => p.x
    case Y => p.y
  }

  /** The minimum that `find_min` accumulates: start from `max()` and take
      each point's coordinate that is smaller, in list order. */
  function Lowest(points: seq<Point>, a: Axis): (m: real)
    ensures m <= DoubleMax
    ensures forall i :: 0 <= i < |points| ==> m <= Coord(points[i], a)
    ensures m == DoubleMax || exists i :: 0 <= i < |points| && m == Coord(points[i], a)
  {
    if points == [] then DoubleMax
    else
      var prefix := points[..|points| - 1];
      var c := Coord(points[|points| - 1], a);
      var m := Lowest(prefix, a);
      assert forall i :: 0 <= i < |prefix| ==> prefix[i] == points[i];
      if c < m then c else m
  }

  /** The maximum that `find_max` accumulates: start from `lowest()` and
      take each point's coordinate that is larger, in list order. */
  function Highest(points: seq<Point>, a: Axis): (m: real)
    ensures m >= DoubleLowest
    ensures forall i :: 0 <= i < |points| ==> m >= Coord(points[i], a)
    ensures m == DoubleLowest || exists i :: 0 <= i < |points| && m == Coord(points[i], a)
  {
    if points == [] then DoubleLowest
    else
      var prefix := points[..|points| - 1];
      var c := Coord(points[|points| - 1], a);
      var m := Highest(prefix, a);
      assert forall i :: 0 <= i < |prefix| ==> prefix[i] == points[i];
      if c > m then c else m
  }

  /** One more step of either fold: extending the prefix by point `i`
      keeps the running extremum unless that point's coordinate beats it. */
  lemma FoldStep(points: seq<Point>, i: int, a: Axis)
    requires 0 <= i < |points|
    ensures Lowest(points[..i + 1], a)
      == if Coord(points[i], a) < Lowest(points[..i], a) then Coord(points[i], a) else Lowest(points[..i], a)
    ensures Highest(points[..i + 1], a)
      == if Coord(points[i], a) > Highest(points[..i], a) then Coord(points[i], a) else Highest(points[..i], a)
  {
    assert points[..i + 1][..i] == points[..i];
  }

  /** Every coordinate of the list is one a `double` can hold. */
  ghost predicate InDoubleRange(points: seq<Point>)
  {
    forall i :: 0 <= i < |points| ==>
      DoubleLowest <= points[i].x <= DoubleMax && DoubleLowest <= points[i].y <= DoubleMax
  }

  /** On a non-empty list of representable points, both extrema are attained
      by some point: the sentinels never survive. */
  lemma ExtremaAttained(points: seq<Point>, a: Axis)
    requires |points| > 0 && InDoubleRange(points)
    ensures exists i :: 0 <= i < |points| && Lowest(points, a) == Coord(points[i], a)
    ensures exists i :: 0 <= i < |points| && Highest(points, a) == Coord(points[i], a)
  {
    assert Lowest(points, a) <= Coord(points[0], a) <= Highest(points, a);
    assert DoubleLowest <= Coord(points[0], a) <= DoubleMax;
  }

  /** The box of a non-empty list is ordered: its minimum is at most its
      maximum on either axis. */
  lemma BoxOrdered(points: seq<Point>, a: Axis)
    requires |points| > 0
    ensures Lowest(points, a) <= Highest(points, a)
  {
    assert Lowest(points, a) <= Coord(points[0], a) <= Highest(points, a);
  }

  /** `find_min`: the coordinatewise minimum of the region's points, or the
      sentinel `max()` on an axis when there are no points. */
  method FindMin(r: Region) returns (minX: real, minY: real)
    ensures minX == Lowest(r.Points(), X) && minY == Lowest(r.Points(), Y)
  {
    var points := r.Points();
    minX, minY := DoubleMax, DoubleMax;
    var i := 0;
    while i < |points|
      invariant 0 <= i <= |points|
      invariant minX == Lowest(points[..i], X) && minY == Lowest(points[..i], Y)
    {
      FoldStep(points, i, X);
      FoldStep(points, i, Y);
      if points[i].x < minX { minX := points[i].x; }
      if points[i].y < minY { minY := points[i].y; }
      i := i + 1;
    }
    assert points[..i] == points;
  }

  /** `find_max`: the coordinatewise maximum of the region's points, or the
      sentinel `lowest()` on an axis when there are no points. */
  method FindMax(r: Region) returns (maxX: real, maxY: real)
    ensures maxX == Highest(r.Points(), X) && maxY == Highest(r.Points(), Y)
  {
    var points := r.Points();
    maxX, maxY := DoubleLowest, DoubleLowest;
    var i := 0;
    while i < |points|
      invariant 0 <= i <= |points|
      invariant maxX == Highest(points[..i], X) && maxY == Highest(points[..i], Y)
    {
      FoldStep(points, i, X);
      FoldStep(points, i, Y);
      if points[i].x > maxX { maxX := points[i].x; }
      if points[i].y > maxY { maxY := points[i].y; }
      i := i + 1;
    }
    assert points[..i] == points;
  }
}
