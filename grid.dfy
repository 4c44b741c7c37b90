/** The grid initializer `initialize` of setting.cpp: it samples the source
    region at every cell of the padded grid and stores the value, row-major,
    in both buffers of the solver's double-buffer pair. */
module Grid {
  import opened Geometry
  import opened Regions
  import opened Planner

  /** The physical point sampled for cell `(i, j)`: the grid's origin is the
      target box's lower corner shifted out by `iterations` halo cells. The
      query point carries no temperature of its own (`U` defaults to 0). */
  function GridPoint(i: int, j: int, iterations: int, delta: real, minX: real, minY: real): (p: Point)
    ensures p.u == 0.0
  {
    Point((i - iterations) as real * delta + minX, (j - iterations) as real * delta + minY, 0.0)
  }

  /** Number of cells the nested loops visit: `rows * cols`, or none when
      either extent is not positive. */
  function CellCount(rows: int, cols: int): nat
  {
    if rows > 0 && cols > 0 then rows * cols else 0
  }

  /** The value due at flat offset `k`, whose row is `k / cols` and whose
      column is `k % cols`. */
  function CellValue(base: Region, minX: real, minY: real, cols: int, iterations: int, delta: real, k: int): real
    requires cols > 0
  {
    RegionValue(base, GridPoint(k / cols, k % cols, iterations, delta, minX, minY))
  }

  /** Multiplying by a non-negative integer keeps the order of two integers. */
  lemma MulMonotone(a: int, b: int, c: int)
    requires a <= b && c >= 0
    ensures a * c <= b * c
  {
    assert b * c - a * c == (b - a) * c;
  }

  /** Row-major layout: offset `i * cols + j` holds row `i`, column `j`. */
  lemma RowMajor(i: int, j: int, cols: int)
    requires cols > 0 && 0 <= j < cols
    ensures (i * cols + j) / cols == i && (i * cols + j) % cols == j
  {
    var k := i * cols + j;
    var q, r := k / cols, k % cols;
    assert k == q * cols + r && 0 <= r < cols;
    assert (q - i) * cols == j - r;
    if q > i {
      MulMonotone(1, q - i, cols);
    } else if q < i {
      MulMonotone(q - i, -1, cols);
    }
  }

  /** Finishing row `i` of a grid with `cols` columns ends on offset
      `(i + 1) * cols`, which does not pass the grid's last cell. */
  lemma RowEnd(i: int, rows: int, cols: int)
    requires 0 <= i < rows && cols > 0
    ensures i * cols + cols == (i + 1) * cols <= CellCount(rows, cols)
  {
    MulMonotone(i + 1, rows, cols);
  }

  /** The whole grid `initialize` is due to produce, in row-major order. */
  ghost function Expected(base: Region, minX: real, minY: real, rows: int, cols: int, iterations: int, delta: real): (e: seq<real>)
    ensures |e| == CellCount(rows, cols)
  {
    seq(CellCount(rows, cols), k requires 0 <= k < CellCount(rows, cols) =>
      CellValue(base, minX, minY, cols, iterations, delta, k))
  }

  /** Every cell `(i, j)` of the grid has its own offset `i * cols + j`
      below `rows * cols`, and the expected grid holds there the source
      region's value at the cell's point. */
  lemma ExpectedAt(base: Region, minX: real, minY: real, rows: int, cols: int, iterations: int, delta: real, i: int, j: int)
    requires 0 <= i < rows && 0 <= j < cols
    ensures 0 <= i * cols + j < CellCount(rows, cols)
    ensures |Expected(base, minX, minY, rows, cols, iterations, delta)| == CellCount(rows, cols)
    ensures Expected(base, minX, minY, rows, cols, iterations, delta)[i * cols + j]
      == RegionValue(base, GridPoint(i, j, iterations, delta, minX, minY))
  {
    RowMajor(i, j, cols);
    MulMonotone(i + 1, rows, cols);
    MulMonotone(0, i, cols);
    var k := i * cols + j;
    assert Expected(base, minX, minY, rows, cols, iterations, delta)[k]
      == CellValue(base, minX, minY, cols, iterations, delta, k);
  }

  /** `initialize`: the first `rows * cols` cells of both buffers hold the
      expected grid, i.e. each cell holds the source region's value at the
      cell's point; nothing past the grid is touched. The two buffers may be
      the same array. */
  method Initialize(base: Region, target: Region, u1: array<real>, u2: array<real>,
                    rows: int, cols: int, iterations: int, delta: real)
    requires CellCount(rows, cols) <= u1.Length && CellCount(rows, cols) <= u2.Length
    modifies u1, u2
    ensures u1[..CellCount(rows, cols)]
      == Expected(base, Lowest(target.Points(), X), Lowest(target.Points(), Y), rows, cols, iterations, delta)
    ensures u2[..CellCount(rows, cols)] == u1[..CellCount(rows, cols)]
    ensures u1[CellCount(rows, cols)..] == old(u1[CellCount(rows, cols)..])
    ensures u2[CellCount(rows, cols)..] == old(u2[CellCount(rows, cols)..])
  {
    var minX, minY := FindMin(target);
    ghost var expected := Expected(base, minX, minY, rows, cols, iterations, delta);
    assert |expected| == CellCount(rows, cols);
    ghost var done := 0;
    var i := 0;
    while i < rows
      invariant 0 <= i && (i <= rows || i == 0)
      invariant done == if cols > 0 then i * cols else 0
      invariant done <= CellCount(rows, cols)
      invariant forall k :: 0 <= k < done ==> u1[k] == expected[k] && u2[k] == expected[k]
      invariant forall k :: done <= k < u1.Length ==> u1[k] == old(u1[k])
      invariant forall k :: done <= k < u2.Length ==> u2[k] == old(u2[k])
    {
      var j := 0;
      while j < cols
        invariant 0 <= j && (j <= cols || j == 0)
        invariant done == if cols > 0 then i * cols + j else 0
        invariant done <= CellCount(rows, cols)
        invariant forall k :: 0 <= k < done ==> u1[k] == expected[k] && u2[k] == expected[k]
        invariant forall k :: done <= k < u1.Length ==> u1[k] == old(u1[k])
        invariant forall k :: done <= k < u2.Length ==> u2[k] == old(u2[k])
      {
        var p := GridPoint(i, j, iterations, delta, minX, minY);
        var u := ComputeU(base, p);
        ExpectedAt(base, minX, minY, rows, cols, iterations, delta, i, j);
        u1[i * cols + j] := u;
        u2[i * cols + j] := u;
        done := done + 1;
        j := j + 1;
      }
      if cols > 0 {
        RowEnd(i, rows, cols);
      }
      i := i + 1;
    }
  }

  /** The halo is exactly `iterations` cells wide below the target box: the
      rows sampled left of `minX` are those before row `iterations`, and row
      `iterations` samples `minX` itself (likewise for columns and `minY`). */
  lemma HaloBelow(i: int, j: int, iterations: int, delta: real, minX: real, minY: real)
    requires delta > 0.0
    ensures GridPoint(i, j, iterations, delta, minX, minY).x < minX <==> i < iterations
    ensures GridPoint(i, j, iterations, delta, minX, minY).x == minX <==> i == iterations
    ensures GridPoint(i, j, iterations, delta, minX, minY).y < minY <==> j < iterations
    ensures GridPoint(i, j, iterations, delta, minX, minY).y == minY <==> j == iterations
  {
    ScaleMonotone((i - iterations) as real, 0.0, delta);
    ScaleMonotone(0.0, (i - iterations) as real, delta);
    ScaleMonotone((j - iterations) as real, 0.0, delta);
    ScaleMonotone(0.0, (j - iterations) as real, delta);
  }

  /** Multiplying equal integers by the same real gives equal products. */
  lemma SameProduct(a: int, b: int, d: real)
    requires a == b
    ensures a as real * d == b as real * d
  {
  }

  /** Multiplication distributes over a difference. */
  lemma Distributes(a: real, b: real, c: real)
    ensures (a - b) * c == a * c - b * c
  {
  }

  /** An error of at most half a unit, scaled by a positive step, is at
      most half a step either way. */
  lemma HalfStep(e: real, delta: real)
    requires delta > 0.0 && -0.5 <= e <= 0.5
    ensures -(delta / 2.0) <= e * delta <= delta / 2.0
  {
    ScaleMonotone(e, 0.5, delta);
    ScaleMonotone(-0.5, e, delta);
  }

  /** A value between `-h` and `h` has absolute value at most `h`. */
  lemma WithinBound(x: real, p: real, h: real)
    requires x == p && -h <= p <= h
    ensures Abs(x) <= h
  {
  }

  /** A point `n` steps above `minX`, with `n` within half a unit of the
      box's width in steps `s`, is within half a step of the upper edge
      `maxX`. */
  lemma NearEdge(n: real, s: real, delta: real, minX: real, maxX: real)
    requires delta > 0.0 && -0.5 <= n - s <= 0.5 && s * delta == maxX - minX
    ensures Abs(n * delta + minX - maxX) <= delta / 2.0
  {
    var e := n - s;
    HalfStep(e, delta);
    Distributes(n, s, delta);
    var error, h := e * delta, delta / 2.0;
    assert -h <= error <= h;
    var x := n * delta + minX - maxX;
    assert x == error;
    WithinBound(x, error, h);
  }

  /** Along one axis sized by `set_up`, the last interior cell
      `n - 1 - iterations` is not before the first interior cell
      `iterations`, and lies within half a space step of the box's upper
      edge `hi`. */
  lemma LastCellNearEdge(n: int, iterations: int, delta: real, lo: real, hi: real)
    requires delta > 0.0 && lo <= hi
    requires n == Extent(lo, hi, delta, iterations)
    ensures iterations <= n - 1 - iterations
    ensures Abs((n - 1 - iterations - iterations) as real * delta + lo - hi) <= delta / 2.0
  {
    var s := (hi - lo) / delta;
    Quotient(hi - lo, delta);
    assert -0.5 <= Round(s) as real - s <= 0.5 by {
      assert Abs(s - Round(s) as real) <= 0.5;
    }
    NearEdge(Round(s) as real, s, delta, lo, hi);
    SameProduct(n - 1 - iterations - iterations, Round(s), delta);
    assert (n - 1 - iterations - iterations) as real * delta + lo - hi
      == Round(s) as real * delta + lo - hi;
  }

  /** With `rows` and `cols` as `set_up` sizes them, the interior that the
      output stage walks is never empty on either axis, and its last row and
      last column lie within half a space step of the box's upper edges
      `maxX` and `maxY`: the grid keeps `iterations` halo cells beyond the
      box on every side. */
  lemma InteriorSpansBox(rows: int, cols: int, iterations: int, delta: real,
                         minX: real, maxX: real, minY: real, maxY: real)
    requires delta > 0.0 && minX <= maxX && minY <= maxY
    requires rows == Extent(minX, maxX, delta, iterations)
    requires cols == Extent(minY, maxY, delta, iterations)
    ensures iterations <= rows - 1 - iterations && iterations <= cols - 1 - iterations
    ensures Abs(GridPoint(rows - 1 - iterations, cols - 1 - iterations, iterations, delta, minX, minY).x - maxX)
      <= delta / 2.0
    ensures Abs(GridPoint(rows - 1 - iterations, cols - 1 - iterations, iterations, delta, minX, minY).y - maxY)
      <= delta / 2.0
  {
    LastCellNearEdge(rows, iterations, delta, minX, maxX);
    LastCellNearEdge(cols, iterations, delta, minY, maxY);
  }
}
