# iceflow: a verified model of the explicit ice-thickness solver

The iceflow repository evolves the ice thickness `H` on a bed `B` on a 2-D
staggered grid. It uses an explicit finite-difference scheme for the shallow
ice approximation. The repository holds seven copies of one algorithm. This
project gives one shared Dafny model of it and maps each copy onto the model.
The algorithm has these parts:

- the staggered-grid averages `av`, `avx`, `avy` and the `np.diff` differences (`Staggered`);
- the diffusivity kernel `compute_D`, `D = (a1·av(H)^5 + a2·av(H)^3)·Snorm^2`, and the flow-law coefficients `a1`, `a2` (`DiffusionKernel`);
- one pass of the time loop: the surface `S = B + H`, the mass balance `M = min(β(S − ELA), c)`, the diffusivity, the fluxes `qx`, `qy`, and the update of the interior `H[1:-1, 1:-1]`, clipped at zero (`TimeStep`);
- the steady-state test `max |H − H0| < ϵ` (`Convergence`);
- the loop `for it in range(int(nt))`, with the test on every `nout`-th pass (`TimeLoop`, generic in the pass);
- the whole solver with the real pass and its error paths (`Solver`);
- the grid: spacing, `np.arange` cell centres, `np.meshgrid`, `Data`, `Physics` and `create_data` (`Grid`);
- the entry points of the copies, each with its own signature, constants and return order (`Variants`).

Values are exact reals. `Field` is a rectangular `seq<seq<real>>` that carries
its shape. Where Python raises, the model returns a `Result` holding the Python
exception:

- `ValueError` from `np.zeros` with a negative extent;
- `ZeroDivisionError` from `x / 0` or `it % 0`;
- `AttributeError` from a missing module attribute.

Facts of the code as written that the model keeps:

- **The first pass is checked.** The test runs when `it % nout == 0`, so it also runs on the very first pass (`it = 0`), not first at `it = nout`.
- **The returned `S` lags `H`.** The loop computes `S = B + H` before it updates `H`. The returned `S` is therefore bed plus the thickness of one pass earlier. If no pass ran, it is the zero array the solver allocated.
- **Axis 0 is divided by `dx`.** `np.meshgrid` lays the grid out as `len(yc) x len(xc)`, so axis 0 runs over `y`. Even so, `compute_D` and `qx` divide axis-0 differences by `dx`. The model keeps that pairing.
- **There is one centre too few.** `np.arange(-l/2 + d/2, l/2 - d/2, d)` leaves out its stop, which is the centre of the last cell. So `nx` gives `nx − 1` centres, and `create_data(256, 256)` gives a 255 x 255 grid.
- **`create_data` returns eight values.** Its docstring lists six: `B, ELA, β, c, dx, dy`. The function also returns `xc, yc`.
- **`nout` is a float.** It is `1e3`, and `it % 1e3 == 0` holds exactly at the multiples of 1000, so the model uses the integer 1000.
- **The package solver cannot run.** `iceflow/__init__.py` calls `tools.eq_line_altitude`, but `tools` defines `equilibrium_line_altitude`. The call raises `AttributeError` after `B` is built by `tools.bedrock_elevation` (python-package/src/iceflow/__init__.py:11) and before any of the solver's buffers (lines 21-30) is allocated.

## Copies

| copy | shared model |
|---|---|
| python-package/src/iceflow/tools.py `av`, `avx`, `avy`, `compute_D`, `Data`, `Physics` | `Staggered`, `DiffusionKernel.ComputeD`, `Grid.MakeData`, `Grid.MakePhysics` |
| python-package/src/iceflow_try/tools.py `create_data`, `av`, `avx`, `avy`, `compute_D` | `Grid.CreateData`, `Staggered`, `DiffusionKernel.ComputeD` |
| python-package/src/iceflow_try/solver.py `av`, `avx`, `avy`, `compute_D`, `iceflow_solver` | `Staggered`, `DiffusionKernel.ComputeD`, `Variants.HardcodedSolver` |
| python-package/src/iceflow/solver.py `solver` | `Variants.ParameterisedSolver`, `Solver.Solve` |
| python-package/src/iceflow/__init__.py `solver` | `Variants.PackageSolver` |
| materials/final_script.py `Data`, `Physics`, `av`, `avx`, `avy`, `compute_D(…, data)`, `solver` | `Grid.MakeData`, `Grid.MakePhysics`, `Staggered`, `DiffusionKernel.ComputeD` with `data.dx`, `data.dy`, `Variants.ParameterisedSolver` |
| materials/visualize_iceflow_functions_4.py `av`, `avx`, `avy`, `compute_D`, `create_data`, `iceflow_solver` | `Staggered`, `DiffusionKernel.ComputeD`, `Grid.CreateData`, `Variants.HardcodedSolver` |

Each copy of `av`, `avx`, `avy` and `compute_D` makes the same computation as
the one in python-package/src/iceflow/tools.py, so the table below cites that
file. materials/final_script.py passes `data` to `compute_D` in place of
`dx, dy` and divides by `data.dx` and `data.dy`.

## Model

| member | source | states |
|---|---|---|
| Fields.Zeros | python-package/src/iceflow/solver.py:17-26 | `np.zeros((r, c))` is an `r x c` array with every cell 0 |
| Fields.Add | python-package/src/iceflow/solver.py:31 | `B + H` of two arrays of one shape has that shape, and each cell is the sum of the two cells |
| Fields.DivBy | python-package/src/iceflow/tools.py:53-54 | `A / d` for `d ≠ 0` keeps the shape and divides every cell |
| Fields.Slice | python-package/src/iceflow/solver.py:35-36 | `A[t:rows−b, l:cols−r]` is `(rows − t − b) x (cols − l − r)`, and its cell `(i, j)` is `A[i + t][j + l]` |
| Fields.SetInterior | python-package/src/iceflow/solver.py:37-38 | `H[1:-1, 1:-1] = X` keeps every ring cell and puts `X[i][j]` at `(i + 1, j + 1)` |
| Fields.SetInteriorKeepsRing | python-package/src/iceflow/solver.py:37-38 | assigning the interior keeps a zero ring zero, and a non-negative `X` into a non-negative array leaves it non-negative |
| Staggered.Av | python-package/src/iceflow/tools.py:40-41 | `av` maps `r x c` to `(r−1) x (c−1)`, and entry `(i, j)` is a quarter of the sum of the 2 x 2 block at `(i, j)` |
| Staggered.Avx | python-package/src/iceflow/tools.py:44-45 | `avx` maps `r x c` to `(r−1) x c`, each entry the mean of rows `i` and `i+1` |
| Staggered.Avy | python-package/src/iceflow/tools.py:48-49 | `avy` maps `r x c` to `r x (c−1)`, each entry the mean of columns `j` and `j+1` |
| Staggered.Diff0 | python-package/src/iceflow/tools.py:53 | `np.diff(A, axis=0)` is `(r−1) x c`, with entry `A[i+1][j] − A[i][j]` |
| Staggered.Diff1 | python-package/src/iceflow/tools.py:54 | `np.diff(A, axis=1)` is `r x (c−1)`, with entry `A[i][j+1] − A[i][j]` |
| Staggered.AvIsComposedAverage | python-package/src/iceflow/tools.py:40-49 | `av(A) == avx(avy(A)) == avy(avx(A))`: the corner average is either order of the two edge averages |
| Staggered.AvIsAvxOfAvyAt | python-package/src/iceflow/tools.py:40-49 | cell by cell, `av(A)` equals `avx(avy(A))` |
| Staggered.AvIsAvyOfAvxAt | python-package/src/iceflow/tools.py:40-49 | cell by cell, `av(A)` equals `avy(avx(A))` |
| Staggered.AveragesKeepLowerBound | python-package/src/iceflow/tools.py:40-49 | a lower bound on every cell (0 for a non-negative field) holds for `av`, `avx` and `avy` of the field |
| Staggered.AveragesKeepUpperBound | python-package/src/iceflow/tools.py:40-49 | an upper bound on every cell holds for all three averages |
| Staggered.AveragesOfConstant | python-package/src/iceflow/tools.py:40-49 | the three averages of a constant field are that constant on the smaller shape |
| Staggered.AvOfTwoByTwo | python-package/src/iceflow/tools.py:40-41 | a 2 x 2 field averages to a 1 x 1 field holding its mean |
| Staggered.DiffsOfConstant | python-package/src/iceflow/tools.py:53-54 | a constant field has zero differences along both axes |
| DiffusionKernel.A1 | python-package/src/iceflow/solver.py:13 | `a1 = 1.9e-24·ρg³·31557600` is positive for `ρg > 0` and zero for `ρg = 0` |
| DiffusionKernel.A2 | python-package/src/iceflow/solver.py:14 | `a2 = 5.7e-20·ρg³·31557600` is positive for `ρg > 0` and exactly 30000 times `a1` |
| DiffusionKernel.FlowFactorNonNegative | python-package/src/iceflow/tools.py:56 | `a1·h^5 + a2·h^3 ≥ 0` when `a1, a2, h ≥ 0` |
| DiffusionKernel.CornerDiffusivityNonNegative | python-package/src/iceflow/tools.py:55-56 | the diffusivity at a corner is non-negative for non-negative coefficients and thickness |
| DiffusionKernel.CornerDiffusivityVanishes | python-package/src/iceflow/tools.py:55-56 | the diffusivity at a corner is zero when the corner thickness is zero or both slope components are |
| DiffusionKernel.Slope0 | python-package/src/iceflow/tools.py:53-55 | `avy(np.diff(S, axis=0) / dx)` is `(n−1) x (m−1)`, and each corner holds the mean of the two axis-0 differences beside it over `dx` |
| DiffusionKernel.Slope1 | python-package/src/iceflow/tools.py:54-55 | `avx(np.diff(S, axis=1) / dy)` is `(n−1) x (m−1)`, and each corner holds the mean of the two axis-1 differences beside it over `dy` |
| DiffusionKernel.Diffusivity | python-package/src/iceflow/tools.py:52-56 | `D` is `(n−1) x (m−1)`; each corner is `(a1·h^5 + a2·h^3)·(gx² + gy²)`, with `h`, `gx`, `gy` written out from the neighbouring cells of `H` and `S` |
| DiffusionKernel.KernelShapesAgree | python-package/src/iceflow/tools.py:53-56 | `avy(dSdx)`, `avx(dSdy)` and `av(H)` all have `D`'s shape `(n−1) x (m−1)` |
| DiffusionKernel.DiffusivityNonNegative | python-package/src/iceflow/tools.py:52-56 | `D ≥ 0` at every corner when `a1, a2 ≥ 0` and `H ≥ 0` |
| DiffusionKernel.DiffusivityVanishesWithoutIce | python-package/src/iceflow/tools.py:52-56 | `D` is zero at every corner where `av(H)` is zero, whatever the slope |
| DiffusionKernel.DiffusivityOfZeroThickness | python-package/src/iceflow/tools.py:52-56 | with `H = 0` the whole of `D` is zero |
| DiffusionKernel.DiffusivityOfFlatSurface | python-package/src/iceflow/tools.py:52-56 | on a constant surface the whole of `D` is zero, whatever the thickness |
| DiffusionKernel.ComputeD | python-package/src/iceflow/tools.py:52-56 | the call writes only into the caller's `D` and keeps its shape; the caller's `dSdx`, `dSdy`, `Snorm` are unchanged, and every corner of the new `D` is the kernel value |
| TimeStep.CellMassBalance | python-package/src/iceflow/solver.py:32-33 | the mass balance of a cell is at most the limiter `c` and at most `β(s − ela)`, and equals one of the two |
| TimeStep.MassBalance | python-package/src/iceflow/solver.py:32-33 | `M` has the shape of `S`, and each cell is the mass balance of that cell's surface and ELA |
| TimeStep.MassBalanceMonotone | python-package/src/iceflow/solver.py:32-33 | for `β ≥ 0`, a higher surface never gets a smaller mass balance |
| TimeStep.FluxX | python-package/src/iceflow/solver.py:35 | `qx` is `(n−1) x (m−2)`; each edge is the mean of the two corner diffusivities on it, times the axis-0 surface difference across it, over `dx` |
| TimeStep.FluxY | python-package/src/iceflow/solver.py:36 | `qy` is `(n−2) x (m−1)`; each edge is the mean of the two corner diffusivities on it, times the axis-1 surface difference across it, over `dy` |
| TimeStep.FluxesWithoutDiffusivity | python-package/src/iceflow/solver.py:35-36 | with `D = 0` both fluxes are zero arrays, whatever the surface |
| TimeStep.FluxXFollowsSlope | python-package/src/iceflow/solver.py:35 | with `D ≥ 0` and `dx > 0`, each `qx` has the sign of the surface difference it crosses, and is zero where that difference is |
| TimeStep.FluxYFollowsSlope | python-package/src/iceflow/solver.py:36 | with `D ≥ 0` and `dy > 0`, each `qy` has the sign of the surface difference it crosses |
| TimeStep.CellUpdate | python-package/src/iceflow/solver.py:37-38 | the new interior thickness is non-negative, at least `h + dt·rate`, and equal to either 0 or `h + dt·rate` |
| TimeStep.Update | python-package/src/iceflow/solver.py:37-38 | the ring of `H` is kept; each interior cell becomes `max(h + dt·(Δqx + Δqy + M), 0)` |
| TimeStep.UpdateKeepsInvariant | python-package/src/iceflow/solver.py:24-38 | the update keeps a zero ring zero and a non-negative `H` non-negative |
| TimeStep.Step | python-package/src/iceflow/solver.py:17-38 | one pass gives `S`, `M`, `H` of shape `n x m`, `D` of `(n−1) x (m−1)`, `qx` of `(n−1) x (m−2)` and `qy` of `(n−2) x (m−1)`, the shapes the solver allocates |
| TimeStep.StepStages | python-package/src/iceflow/solver.py:31-38 | cell by cell, one pass keeps the ring of `H`, takes each interior mass balance from that cell's own surface `b + h` and ELA, and sets each interior `H` to `max(h + dt·(Δqx + Δqy + M), 0)` |
| TimeStep.StepKeepsInvariant | python-package/src/iceflow/solver.py:24-38 | one pass keeps `H ≥ 0` everywhere and the ring at zero |
| TimeStep.BareGroundIsFixedPoint | python-package/src/iceflow/solver.py:24-38 | if bare ground has no positive mass balance inside the ring and `dt ≥ 0`, a pass from `H = 0` gives `H = 0` |
| Convergence.RowMaxIsMax | python-package/src/iceflow/solver.py:41 | the running maximum over a row prefix bounds every cell of the prefix and is attained by one of them |
| Convergence.RowsMaxIsMax | python-package/src/iceflow/solver.py:41 | the running maximum over the first rows bounds every cell of those rows and is attained by one of them |
| Convergence.MaxAbsDiffIsMax | python-package/src/iceflow/solver.py:41 | `np.max(np.abs(H − H0))` bounds every cellwise difference and is attained by one of them |
| Convergence.SettledIff | python-package/src/iceflow/solver.py:41-43 | `err < ϵ` holds exactly when every cell moved by less than `ϵ` |
| Convergence.RowMax | python-package/src/iceflow/solver.py:41 | the inner loop computes the maximum absolute difference over one row |
| Convergence.MaxAbsDiff | python-package/src/iceflow/solver.py:41 | the nested loops compute `err = max |H − H0|` |
| TimeLoop.IterationBudget | python-package/src/iceflow/solver.py:29 | `range(int(nt))` is empty for `nt < 1`; otherwise its length `n` satisfies `n ≤ nt < n + 1` |
| TimeLoop.LoopFrom | python-package/src/iceflow/solver.py:29-44 | from pass `it`, the loop makes between `it` and `int(nt)` passes; it makes all `int(nt)` when it runs out, and at least one more when it breaks |
| TimeLoop.LoopFollowsTrajectory | python-package/src/iceflow/solver.py:29-45 | started on the never-breaking trajectory, the loop returns the trajectory at the number of passes it made, with the surface of the last pass; it breaks at the first exit, and runs out only when there is none |
| TimeLoop.LoopExit | python-package/src/iceflow/solver.py:29-45 | the loop breaks exactly when some checked pass before `int(nt)` moved no cell by `ϵ`; it stops at the first such pass; otherwise it makes every pass; `S` is the initial `S` when no pass ran, and the last pass's surface otherwise |
| TimeLoop.FirstPassIsChecked | python-package/src/iceflow/solver.py:29-44 | since `0 % nout == 0`, a non-empty loop stops after one pass exactly when that pass moved no cell by `ϵ` |
| TimeLoop.TrajectoryKeeps | python-package/src/iceflow/solver.py:29-38 | a property of `H` that every pass keeps holds after any number of passes |
| TimeLoop.RunLoop | python-package/src/iceflow/solver.py:24-45 | the imperative loop from `S = H = 0` returns what `LoopFrom` defines, or `ZeroDivisionError` after the first pass when `nout = 0` |
| Solver.Thickness | python-package/src/iceflow/solver.py:24-38 | after any number of passes from `H = 0`, `H` has the grid's shape, no negative cell, and a zero ring |
| Solver.PassKeepsPhysical | python-package/src/iceflow/solver.py:37-38 | a pass maps a physical thickness to a physical thickness |
| Solver.PassSurface | python-package/src/iceflow/solver.py:31 | the surface a pass computes is `B` plus the thickness it started from |
| Solver.Run | python-package/src/iceflow/solver.py:11-45 | the solver fails exactly on a grid thinner than 2 x 2 (`ValueError`) or on `nout = 0` with a non-empty range (`ZeroDivisionError`); otherwise it makes at most `int(nt)` passes |
| Solver.RunResult | python-package/src/iceflow/solver.py:17-45 | the solver returns the thickness after the passes it made, and the surface of one pass earlier: `B` plus the thickness before the last pass, or zeros if no pass ran |
| Solver.RunStops | python-package/src/iceflow/solver.py:29-44 | the solver breaks exactly when some checked pass moved no cell by `ϵ`; it breaks at the first such pass; otherwise it runs all `int(nt)` passes |
| Solver.RunIsPhysical | python-package/src/iceflow/solver.py:17-45 | whatever the run, the returned `H` is non-negative with a zero ring, and `S` has the grid's shape |
| Solver.FirstPassDecides | python-package/src/iceflow/solver.py:29-44 | with `int(nt) ≥ 1`, the solver stops after one pass exactly when the first `H` is within `ϵ` of zero ice |
| Solver.EmptyRangeReturnsZeros | python-package/src/iceflow/solver.py:17-45 | with `int(nt) = 0` the solver returns its zero-initialised `S` and `H` |
| Solver.BareGroundStaysBare | python-package/src/iceflow/solver.py:24-38 | where bare ground accumulates nothing inside the ring and `dt ≥ 0`, `H` stays zero through every pass |
| Solver.BareGroundConverges | python-package/src/iceflow/solver.py:29-45 | in that case, with `ϵ > 0`, the solver stops after its first pass and returns `S = B`, `H = 0` |
| Solver.PassKeepsShape | python-package/src/iceflow/solver.py:24-38 | a pass maps a thickness of the grid's shape to one of the same shape |
| Solver.Solve | python-package/src/iceflow/solver.py:11-45 | allocating the buffers and running the loop gives exactly `Run` |
| Grid.Arange | python-package/src/iceflow/tools.py:11-14 | `np.arange(start, stop, step)` has `max(0, ceil((stop − start)/step))` elements, element `k` being `start + k·step` |
| Grid.ArangeStopsBeforeStop | python-package/src/iceflow/tools.py:11-14 | with a positive step every element is below `stop`, and the first value left out is not |
| Grid.ArangeStopsAboveStop | python-package/src/iceflow/tools.py:11-14 | with a negative step every element is above `stop`, and the first value left out is not |
| Grid.CentreCount | python-package/src/iceflow/tools.py:9-14 | with `d = l/n`, the centres along an axis number `n − 1` for `n ≥ 1`, and none for `n < 0` |
| Grid.CentresAreCellCentres | python-package/src/iceflow/tools.py:9-14 | on a positive axis, centre `k` is `−l/2 + d/2 + k·d`, every centre lies below the excluded stop `l/2 − d/2`, and the last one is `l/2 − 3d/2` |
| Grid.CentresAreCellCentresOf | python-package/src/iceflow/tools.py:11-14 | for any non-zero spacing `d`, centre `k` of `np.arange(−l/2 + d/2, l/2 − d/2, d)` is `−l/2 + d/2 + k·d`, and with `d > 0` it lies below the excluded stop |
| Grid.Meshgrid | python-package/src/iceflow/tools.py:15 | `np.meshgrid(xc, yc)` gives two `len(yc) x len(xc)` arrays with `Xc[i][j] = xc[j]` and `Yc[i][j] = yc[i]` |
| Grid.Sample | python-package/src/iceflow/tools.py:28-37 | an array computed elementwise from the mesh has the mesh's shape, and each cell is the formula applied to that cell's coordinates |
| Grid.SampleOnMesh | python-package/src/iceflow_try/tools.py:27-30 | `B` and `ELA` are `len(yc) x len(xc)`, and cell `(i, j)` holds the formula at `(xc[j], yc[i])` |
| Grid.MakeData | python-package/src/iceflow/tools.py:5-15 | `Data(nx, lx, ny, ly)` raises `ZeroDivisionError` exactly when a resolution is 0; otherwise `dx·nx = lx`, `dy·ny = ly`, there are `nx − 1` and `ny − 1` centres, centre `k` is `−l/2 + d/2 + k·d` and lies below the excluded stop `l/2 − d/2` for a positive spacing, and the mesh is `len(yc) x len(xc)` with `Xc[i][j] = xc[j]`, `Yc[i][j] = yc[i]` |
| Grid.MakePhysics | python-package/src/iceflow/tools.py:17-24 | `Physics` stores its four parameters, and `B` and `ELA` have the mesh's shape |
| Grid.CreateData | python-package/src/iceflow_try/tools.py:12-32 | `create_data(nx, ny)` raises `ZeroDivisionError` exactly when a resolution is 0; otherwise it returns `β = 0.01`, `c = 2.0`, `dx = 250000/nx`, `dy = 200000/ny`, the cell centres `xc`, `yc` of the 250 km x 200 km domain, and `B`, `ELA` of shape `(ny − 1) x (nx − 1)` holding the bed and ELA formulas at `(xc[j], yc[i])` |
| Grid.ResolutionTwoFiftySix | materials/final_script.py:124-125 | at resolution 256 the grid is 255 x 255, with `dx = 976.5625` and `dy = 781.25` |
| Variants.FixedConstants | python-package/src/iceflow_try/solver.py:24-33 | the fixed copies run at most 10000 passes, test passes 0, 1000, …, and have positive `a1` and `a2` |
| Variants.ConfigOf | python-package/src/iceflow/solver.py:13-14 | the pass parameters are the given ones, and `a1`, `a2` are positive for positive `ρg` |
| Variants.ParameterisedSolver | python-package/src/iceflow/solver.py:11-45 | `solver(nx, ny, …)` fails exactly on `nx < 2` or `ny < 2` (`ValueError`) or on `nout = 0` with a non-empty range (`ZeroDivisionError`); otherwise it returns `S` of shape `nx x ny` and a physical `H` |
| Variants.ParameterisedSolverReturnsSurfaceThenThickness | python-package/src/iceflow/solver.py:45 | it returns `(S, H)`: `S` is zeros or `B` plus the thickness before the last pass, and `H` is the thickness after at most `int(nt)` passes |
| Variants.HardcodedSolver | python-package/src/iceflow_try/solver.py:22-61 | `iceflow_solver` fails only on a grid thinner than 2 x 2; otherwise it returns a physical `H`, an `S` of the grid's shape, and its `B`, `xc`, `yc` unchanged |
| Variants.HardcodedSolverReturnsThicknessThenSurface | python-package/src/iceflow_try/solver.py:61 | it returns `H` first, the thickness after at most 10000 passes, then `S`, the surface of the pass before |
| Variants.PipelineWouldSucceed | python-package/src/iceflow_try/solver.py:66 | the argument expression `iceflow_solver(*create_data(256, 256))`, were it evaluated, would allocate its buffers and return; the driver raises before evaluating it (see "## Left out") |
| Variants.PackageSolver | python-package/src/iceflow/__init__.py:6-47 | the package solver raises `AttributeError` at the first missing `tools` function; with both present it fails only on a thin grid and returns `(H, S)` with a physical `H` |
| Variants.PackageSolverAlwaysRaises | python-package/src/iceflow/__init__.py:12 | against the names `tools.py` defines, it always raises `AttributeError('eq_line_altitude')` |

## Left out

- Bed and ELA values: the `exp` and `arctan` formulas of `bedrock_elevation`, `equilibrium_line_altitude` and `create_data` are not modelled. They enter as pointwise functions of the centre coordinates, so only the layout of `B` and `ELA` is modelled.
- Rendering: every `visualise` function, matplotlib, and the `S_v[H <= 0.01] = nan` masking.
- Progress output: the `print` in the loop.
- Drivers: the `__main__` blocks and `hello_world`.
  - The notebook driver calls the undefined `sia2D` (materials/visualize_iceflow_functions_4.py:141).
  - python-package/src/iceflow_try/solver.py:66 calls `tools.visualise`, which that `tools` module does not define.
  - Python evaluates the callee before its arguments, so both drivers raise (`AttributeError` on `tools.visualise`, `NameError` on `sia2D`) before `create_data` or `iceflow_solver` runs. Only the argument expression they would pass is modelled (`Variants.PipelineWouldSucceed`); materials/final_script.py:124-125 does build the 256 grid (`Grid.ResolutionTwoFiftySix`).
- Floating point: rounding, overflow, inf and NaN. `Snorm = np.sqrt(...)` squared again is modelled as the sum of squares. Stability of the time step is not modelled. Whether the loop converges in practice is not modelled either.
- Grid.Arange: in floating point the computed length can differ by one from the exact `ceil`. The model gives the exact-arithmetic length.
- Solver.Run: requires `dx ≠ 0` and `dy ≠ 0`, because numpy's inf and nan from a zero spacing have no real value. `Variants.ParameterisedSolver`, `Variants.HardcodedSolver` and `Variants.PackageSolver` require the same.
- Grid.MakeData: requires non-zero domain sizes, because a zero size makes the `np.arange` step zero, which is not modelled.
- Variants.ParameterisedSolver: requires `B` and `ELA` of shape `nx x ny`, as every caller passes `nx, ny = B.shape`. numpy broadcasting of other shapes is not modelled.
- Variants.PackageSolver: takes the arrays `tools.bedrock_elevation` and `tools.eq_line_altitude` would return as parameters, because the second function does not exist.
- TimeLoop.RunLoop: `nout` is an integer. A non-integral float `nout`, for which `it % nout == 0` is a different test, is not modelled.
- Staggered.Av: `av`, `avx`, `avy` and `np.diff` require at least one cell along each axis they shrink. numpy returns an empty array for an axis of extent 0, which the model does not cover; the solver never passes one.
- Python's `%` with a negative `nout` agrees with Dafny's on divisibility, and divisibility is the only use the loop makes of it.
