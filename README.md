# Grid set-up of the Heat-equation solver, modelled in Dafny

The program solves the heat equation on a uniform grid by explicit time
stepping. This project models the part of `setting.cpp` that prepares the
solver's input. That part has four pieces:

- **Point equality.** Two points are equal when both coordinates lie within
  1e-3 of each other.
- **Regions.** A `Region` is either an ordered list of known points or a
  predicate paired with a value function. Its `compute_U` gives the
  temperature at a point: the first matching known point's value, the
  value function where the predicate holds, and 0 everywhere else.
  `find_min` and `find_max` compute its bounding box.
- **The planner `set_up`.** From the time step `gamma`, the space step
  `delta`, the horizon `time` and the target's bounding box, it derives:
  - the diffusion number `lambda = gamma / delta²`;
  - the number of time steps, `time / gamma` truncated;
  - the grid size: the box's extent in steps, plus one, plus a halo of one
    cell per time step on each side.
- **The initializer `initialize`.** It samples the source region at every
  padded grid point. It writes each value, in row-major order, into both
  buffers of the solver's double-buffer pair.

Modules:

- `Geometry` (`geometry.dfy`): `Point` and `Equal`.
- `Regions` (`regions.dfy`): the `Region` datatype and the specification
  functions:
  - `Lookup`, the first-match scan;
  - `RegionValue`, which is `compute_U`;
  - `Lowest` and `Highest`, the extrema folds.

  It also holds the methods `ComputeU`, `FindMin` and `FindMax`. Each has a
  loop and is proved against those functions.
- `Planner` (`planner.dfy`):
  - `Trunc`, which is `static_cast<int>`;
  - `Round`, which is `std::round`;
  - `Extent`, the size of one axis;
  - the method `SetUp`, with its out-parameters `rows`, `cols`,
    `iterations` and `lam` (the source's `lambda`).
- `Grid` (`grid.dfy`): the method `Initialize`. It has two nested loops that
  write two `array<real>` buffers. It is proved against the ghost sequence
  `Expected`, which holds the value due at every flat offset. `GridPoint`
  gives the physical point of a cell.
- `Scenarios` (`scenarios.dfy`): the three configurations of `test.cpp`,
  worked through the model.

Notes on the modelling choices:

- **Numbers.** Doubles are modelled as `real` and C++ `int` as `int`.
- **Casts.** `static_cast<int>` truncates toward zero, and `std::round`
  rounds halfway cases away from zero. Both are modelled for arguments of
  either sign.
- **Sentinels.** `find_min` and `find_max` start from
  `numeric_limits<double>::max()` and `lowest()` (setting.cpp:55-56 and
  65-66). These are the exact reals `±(2 − 2⁻⁵²)·2¹⁰²³`: the code uses the
  finite bounds, not infinities, and this model follows the code.

## Model

| member | source | states |
|---|---|---|
| `Geometry.Abs` | setting.cpp:19 | The absolute value taken of each coordinate difference is non-negative and equals the difference or its negation. |
| `Geometry.Equal` | setting.cpp:18-20 | Defines `operator==`: both coordinate differences have absolute value below 1e-3. Its meaning is pinned down by `EqualIff`, `EqualIgnoresValue`, `EqualReflexiveSymmetric` and `EqualNotTransitive`. |
| `Geometry.EqualIff` | setting.cpp:18-20 | Two points are equal exactly when both the x and the y difference lie strictly between -1e-3 and 1e-3. |
| `Geometry.EqualIgnoresValue` | setting.cpp:18-20 | Changing either point's temperature `U` never changes whether the points are equal. |
| `Geometry.EqualReflexiveSymmetric` | setting.cpp:18-20 | Every point equals itself, and equality is symmetric. |
| `Geometry.EqualNotTransitive` | setting.cpp:18-20 | Concrete points 6e-4 apart show equality is not transitive: a equals b and b equals c, but a does not equal c. |
| `Regions.Lookup` | setting.cpp:41-51 | Defines the discrete scan of `compute_U`. Its result is 0 or the `U` of one of the points. `LookupFirstMatch`, `LookupNoMatch` and `MatchCases` pin down which. |
| `Regions.RegionValue` | setting.cpp:39-52 | Defines `compute_U` for both kinds of region. For a discrete region the result is 0 or the `U` of one of its points. `ContinuousValue` and `ValueOutside` pin down the rest. |
| `Regions.LookupFirstMatch` | setting.cpp:41-45 | When `points[k]` is the first point equal to `p`, the discrete value at `p` is `points[k].U`. |
| `Regions.LookupNoMatch` | setting.cpp:39-51 | When no point equals `p`, the discrete value at `p` is 0. |
| `Regions.MatchCases` | setting.cpp:39-51 | Either no point matches `p` or some point is its first match, so the two lemmas above cover every query. |
| `Regions.LookupIgnoresLater` | setting.cpp:41-45 | Once a point of a prefix matches, appending any points, duplicates included, leaves the value unchanged. |
| `Regions.LookupSkipsUnmatched` | setting.cpp:41-45 | A prefix of points that match nothing is skipped: the value is that of the rest of the list. |
| `Regions.ContinuousValue` | setting.cpp:46-51 | A continuous region yields its heat function's value where its condition holds and 0 where it does not. |
| `Regions.ValueOutside` | setting.cpp:39-52 | At a point the region does not cover, for either kind of region, `compute_U` returns 0. |
| `Regions.ComputeU` | setting.cpp:39-52 | The scan with early return, or the guarded call, returns exactly the region's value `RegionValue(r, p)` at `p`. |
| `Regions.Lowest` | setting.cpp:54-62 | The minimum fold is at most the `max()` sentinel and at most every point's coordinate. It is either the sentinel or some point's coordinate. |
| `Regions.Highest` | setting.cpp:64-72 | The maximum fold is at least the `lowest()` sentinel and at least every point's coordinate. It is either the sentinel or some point's coordinate. |
| `Regions.FoldStep` | setting.cpp:58-71 | One loop step of either fold replaces the running extremum by the next point's coordinate exactly when that coordinate is strictly beyond it. |
| `Regions.ExtremaAttained` | setting.cpp:54-72 | On a non-empty list of coordinates within double range, both the minimum and the maximum are attained by some point: the sentinels never survive. |
| `Regions.BoxOrdered` | setting.cpp:54-72 | On a non-empty list the minimum is at most the maximum on each axis. |
| `Regions.FindMin` | setting.cpp:54-62 | The loop's out-parameters are the x and y minima `Lowest` of the region's points, which is the `max()` sentinel for a region with no points. |
| `Regions.FindMax` | setting.cpp:64-72 | The loop's out-parameters are the x and y maxima `Highest` of the region's points, which is the `lowest()` sentinel for a region with no points. |
| `Planner.Trunc` | setting.cpp:92 | Truncation toward zero: for `v >= 0` the result `n` is non-negative with `n <= v < n + 1`. For `v < 0` it is non-positive with `n - 1 < v <= n`. |
| `Planner.Round` | setting.cpp:98-99 | The result is within 1/2 of the argument. On a tie it is the candidate farther from zero. It is non-negative for a non-negative argument. |
| `Planner.StepsWithinHorizon` | setting.cpp:92 | For `gamma > 0` and `time >= 0`, the step count `n` is non-negative and `n * gamma <= time < (n + 1) * gamma`. |
| `Planner.Extent` | setting.cpp:98-99 | For an ordered box and a positive step, an axis has at least `1 + 2 * iterations` cells. |
| `Planner.SetUp` | setting.cpp:88-100 | The method sets `lam = gamma / (delta * delta)`, sets `iterations` to the truncated `time / gamma` and sizes both axes from the target's box by `Extent`. With a forward step and horizon, `iterations * gamma <= time < (iterations + 1) * gamma`. For a non-empty target and a positive step, `rows, cols >= 1 + 2 * iterations`. |
| `Grid.GridPoint` | setting.cpp:118-120 | Defines the point sampled for cell `(i, j)`, which carries `U = 0`. `HaloBelow`, `LastCellNearEdge` and `InteriorSpansBox` place it relative to the target box. |
| `Grid.Expected` | setting.cpp:116-123 | Defines the grid `initialize` is due to produce. It has exactly `rows * cols` entries, or none when either extent is not positive. `ExpectedAt` gives the value at each cell. |
| `Grid.RowMajor` | setting.cpp:122-123 | Flat offset `i * cols + j`, with `0 <= j < cols`, decodes back to row `i` and column `j`. |
| `Grid.ExpectedAt` | setting.cpp:116-123 | Each cell `(i, j)` of the grid has an offset `i * cols + j` inside `[0, rows * cols)`, and the expected grid holds there the base region's value at the cell's point. |
| `Grid.Initialize` | setting.cpp:112-126 | After the nested loops, the first `rows * cols` entries of `U1` are the expected grid and the same entries of `U2` equal those of `U1`. Every entry past `rows * cols` is unchanged in both buffers. |
| `Grid.HaloBelow` | setting.cpp:118-119 | For a positive step, the rows sampled left of `min_x` are exactly those before row `iterations`, and row `iterations` samples `min_x` itself. The same holds for columns and `min_y`. |
| `Grid.NearEdge` | setting.cpp:98-99 | A number of steps `n` within 1/2 of the box's width in steps, scaled by a positive `delta` and added to `min_x`, lands within `delta / 2` of `max_x`. |
| `Grid.LastCellNearEdge` | setting.cpp:98-99 | Along one axis sized as `set_up` sizes it, for an ordered box and a positive step, the last interior cell `n - 1 - iterations` is not before cell `iterations`, and it sits within `delta / 2` of the box's upper edge. |
| `Grid.InteriorSpansBox` | setting.cpp:98-99 | With `rows` and `cols` as `set_up` computes them, the interior is non-empty on both axes. The last interior cell samples an x within `delta / 2` of `max_x` and a y within `delta / 2` of `max_y` (by the point formula of lines 118-119). So `iterations` halo cells lie beyond the box on every side. |
| `Scenarios.BoxCorners` | test.cpp:5 | The target region of the scenarios spans the box `[1, 3] x [1, 3]`. |
| `Scenarios.HotSpotSampling` | test.cpp:4 | On a one-unit grid with origin offset `iterations`, the hot point (2, 2) with value 100 is seen by exactly one cell, the one at row and column `iterations + 1`. Every other cell reads 0. |
| `Scenarios.FirstConfiguration` | test.cpp:3-9 | test1 gives 5 time steps and a 13 x 13 grid. |
| `Scenarios.FirstConfigurationGrid` | test.cpp:3-9 | In test1's initial grid the only non-zero cell is row 6, column 6, which holds 100. |
| `Scenarios.FirstConfigurationSteps` | test.cpp:6-8 | With test1's `gamma = 0.2` and `time = 1` held in variables, the truncated step count is 5. |
| `Scenarios.RunFirstConfiguration` | test.cpp:3-9 | Running `set_up` on test1, allocating two fresh buffers of `rows * cols` doubles and running `initialize` leaves both buffers equal to test1's expected 13 x 13 grid, with 100 at row 6, column 6 and 0 at row 6, column 7. |
| `Scenarios.SecondConfiguration` | test.cpp:11-17 | test2 gives 200 time steps and a 411 x 411 grid. |
| `Scenarios.ThirdConfiguration` | test.cpp:19-25 | test3 gives 800 time steps and a 1621 x 1621 grid. |

## Left out

- `visualize` (setting.cpp:136-144) is left out because it only writes a file. It walks the interior rows `[iterations, rows - iterations)` and the interior columns `[iterations, cols - iterations)`. For a positive step and a non-empty target, `InteriorSpansBox` shows that neither range is empty.
- `validate` (setting.cpp:153-163) is left out. It only prints, and its early return is commented out, so it always returns true.
- `display.py` is not part of this model: it parses a file and plots it with matplotlib.
- IEEE-754 double behaviour is not modelled: there is no rounding of intermediate results, no NaN and no infinity. In particular, the scenarios' quotients `1 / 0.005` and `1 / 0.00125` are exact here. In doubles they are computed from the nearest representable steps.
- The width of C++ `int` is not modelled. Its overflow, and the undefined conversion of an out-of-range double to `int`, cannot happen with unbounded integers. Such a conversion arises when an empty target leaves its sentinels in `set_up`.
- The unqualified `abs` at setting.cpp:19 may resolve to the integer overload when only `<cstdlib>` is included. The model takes the real absolute value that is evidently intended.
- `Planner.SetUp` requires `gamma` and `delta` to be non-zero, because it divides by both. In doubles those divisions give infinities or NaN (NaN when the numerator is zero too: `time == 0` with `gamma == 0`, or a zero-width box with `delta == 0`), and the integer conversion that follows is undefined.
- `Regions.ComputeU` takes the continuous region's condition and heat function as pure Dafny functions. Side effects in the C++ callables are not modelled.
- Object identity and the input/output of the drivers that call these functions are not modelled. Repeating `Initialize` writes the same buffers, which follows from its contract in terms of `Expected`.
