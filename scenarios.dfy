/** The three configurations of test.cpp, worked through the model: a single
    hot point at (2, 2) carrying 100.0 as the source region and the box
    spanned by (1, 1) and (3, 3) as the target, with a one-second horizon
    and three choices of time and space step. */
module Scenarios {
  import opened Geometry
  import opened Regions
  import opened Planner
  import opened Grid

  /** The source region shared by the three configurations. */
  const HotSpot: Region := Discrete([Point(2.0, 2.0, 100.0)])

  /** The target region shared by the three configurations. */
  const Box: Region := Discrete([Point(1.0, 1.0, 0.0), Point(3.0, 3.0, 0.0)])

  /** The target's bounding box is `[1, 3] x [1, 3]`. */
  lemma BoxCorners()
    ensures Lowest(Box.Points(), X) == 1.0 && Lowest(Box.Points(), Y) == 1.0
    ensures Highest(Box.Points(), X) == 3.0 && Highest(Box.Points(), Y) == 3.0
  {
    var points := Box.Points();
    assert points[..1] == [Point(1.0, 1.0, 0.0)];
    assert points[..1][..0] == [];
  }

  /** An integer offset is within the matching tolerance only when it is
      zero. */
  lemma WholeOffsetMatches(d: int)
    ensures Abs(d as real) < Tolerance <==> d == 0
  {
    if d > 0 {
      assert d as real >= 1.0;
    } else if d < 0 {
      assert d as real <= -1.0;
    }
  }

  /** The hot spot is seen by the grid cell whose point coincides with
      (2, 2), and by no other: a cell of a one-unit grid with origin
      offset `o` matches exactly when it sits at row and column `o + 1`. */
  lemma HotSpotSampling(i: int, j: int, iterations: int)
    ensures RegionValue(HotSpot, GridPoint(i, j, iterations, 1.0, 1.0, 1.0))
      == if i == iterations + 1 && j == iterations + 1 then 100.0 else 0.0
  {
    var p := GridPoint(i, j, iterations, 1.0, 1.0, 1.0);
    assert p.x - 2.0 == (i - iterations - 1) as real;
    assert p.y - 2.0 == (j - iterations - 1) as real;
    WholeOffsetMatches(i - iterations - 1);
    WholeOffsetMatches(j - iterations - 1);
    assert Lookup(HotSpot.points, p)
      == if Equal(p, HotSpot.points[0]) then 100.0 else Lookup([], p);
  }

  /** test1 (`gamma = 0.2`, `delta = 1`): five time steps and a 13 x 13
      grid. */
  lemma FirstConfiguration()
    ensures Trunc(1.0 / 0.2) == 5
    ensures Extent(Lowest(Box.Points(), X), Highest(Box.Points(), X), 1.0, 5) == 13
    ensures Extent(Lowest(Box.Points(), Y), Highest(Box.Points(), Y), 1.0, 5) == 13
  {
    BoxCorners();
    assert Round(2.0) == 2;
  }

  /** The grid test1 initializes: its only non-zero cell is row 6,
      column 6, which holds 100. */
  lemma FirstConfigurationGrid(i: int, j: int)
    requires 0 <= i < 13 && 0 <= j < 13
    ensures Expected(HotSpot, 1.0, 1.0, 13, 13, 5, 1.0)[i * 13 + j]
      == if i == 6 && j == 6 then 100.0 else 0.0
  {
    ExpectedAt(HotSpot, 1.0, 1.0, 13, 13, 5, 1.0, i, j);
    HotSpotSampling(i, j, 5);
  }

  /** test1's step count, from its time step and horizon held in
      variables as `set_up` receives them. */
  lemma FirstConfigurationSteps(time: real, gamma: real, n: int)
    requires time == 1.0 && gamma == 0.2 && n == Trunc(time / gamma)
    ensures n == 5
  {
    assert time / gamma == 5.0;
  }

  /** test1 end to end: `set_up` sizes the grid, two fresh buffers of
      `rows * cols` doubles are allocated, and `initialize` fills them. Both
      buffers hold test1's expected grid: 100 at row 6, column 6 and 0 at
      its neighbour. */
  method RunFirstConfiguration() returns (u1: array<real>, u2: array<real>)
    ensures fresh(u1) && fresh(u2)
    ensures u1.Length == 13 * 13 && u2.Length == 13 * 13
    ensures u1[..] == Expected(HotSpot, 1.0, 1.0, 13, 13, 5, 1.0) && u2[..] == u1[..]
    ensures u1[6 * 13 + 6] == 100.0 && u2[6 * 13 + 7] == 0.0
  {
    var gamma, delta, time := 0.2, 1.0, 1.0;
    var rows, cols, iterations, lam := SetUp(Box, gamma, delta, time);
    FirstConfigurationSteps(time, gamma, iterations);
    FirstConfiguration();
    assert rows == 13 && cols == 13;
    u1 := new real[rows * cols];
    u2 := new real[rows * cols];
    Initialize(HotSpot, Box, u1, u2, rows, cols, iterations, delta);
    BoxCorners();
    assert u1[..] == u1[..CellCount(13, 13)];
    assert u2[..] == u2[..CellCount(13, 13)];
    FirstConfigurationGrid(6, 6);
    FirstConfigurationGrid(6, 7);
  }

  /** test2 (`gamma = 0.005`, `delta = 0.2`): 200 time steps and a
      411 x 411 grid. */
  lemma SecondConfiguration()
    ensures Trunc(1.0 / 0.005) == 200
    ensures Extent(Lowest(Box.Points(), X), Highest(Box.Points(), X), 0.2, 200) == 411
    ensures Extent(Lowest(Box.Points(), Y), Highest(Box.Points(), Y), 0.2, 200) == 411
  {
    BoxCorners();
    assert (3.0 - 1.0) / 0.2 == 10.0;
    assert Round(10.0) == 10;
  }

  /** test3 (`gamma = 0.00125`, `delta = 0.1`): 800 time steps and a
      1621 x 1621 grid. */
  lemma ThirdConfiguration()
    ensures Trunc(1.0 / 0.00125) == 800
    ensures Extent(Lowest(Box.Points(), X), Highest(Box.Points(), X), 0.1, 800) == 1621
    ensures Extent(Lowest(Box.Points(), Y), Highest(Box.Points(), Y), 0.1, 800) == 1621
  {
    BoxCorners();
    assert (3.0 - 1.0) / 0.1 == 20.0;
    assert Round(20.0) == 20;
  }
}
