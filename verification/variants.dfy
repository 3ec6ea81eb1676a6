/**
 The entry points of the seven copies of the solver, each mapped onto the one
 shared model (`Solver.Run`):

 - `solver(nx, ny, nt, nout, ϵ, dt, physics, data)` in
   python-package/src/iceflow/solver.py and materials/final_script.py takes the
   loop parameters and returns `(S, H)`;
 - `iceflow_solver(B, ELA, β, c, dx, dy, xc, yc)` in
   python-package/src/iceflow_try/solver.py and
   materials/visualize_iceflow_functions_4.py fixes them and returns
   `(H, S, B, xc, yc)`;
 - `solver(m_balance_slope, m_balance_limiter, mean_height, data)` in
   python-package/src/iceflow/__init__.py fixes them too and returns `(H, S)`,
   but first looks up a `tools` function that does not exist.
 */
module Variants {
  import opened Fields
  import opened Errors
  import opened DiffusionKernel
  import opened TimeStep
  import opened TimeLoop
  import opened Solver
  import opened Grid

  /** `ρg = 910.0 * 9.81` (ice density times gravity) */
  const IceRhoG: real := 910.0 * 9.81
  /** `dt = 0.1` years */
  const FixedDt: real := 0.1
  /** `nt = 1e4` */
  const FixedNt: real := 10000.0
  /** `nout = 1e3`, a float that `it % nout` treats as the integer 1000 */
  const FixedNout: int := 1000
  /** `ϵ = 1e-4` */
  const FixedEps: real := 0.0001

  /** The hardcoded copies run exactly 10000 passes at most, test every 1000th from the first, and have positive flow-law coefficients. */
  lemma FixedConstants()
    ensures IterationBudget(FixedNt) == 10000
    ensures Checked(0, FixedNout) && Checked(1000, FixedNout) && !Checked(1, FixedNout)
    ensures A1(IceRhoG) > 0.0 && A2(IceRhoG) > 0.0
  {
    hide Step;
  }

  /** The scalars one pass reads, as every copy computes them from `ρg`. */
  function ConfigOf(beta: real, c: real, rhoG: real, dx: real, dy: real, dt: real): (cfg: Config)
    ensures cfg.beta == beta && cfg.limiter == c && cfg.dx == dx && cfg.dy == dy && cfg.dt == dt
    ensures rhoG > 0.0 ==> cfg.a1 > 0.0 && cfg.a2 > 0.0
  {
    Config(beta, c, A1(rhoG), A2(rhoG), dx, dy, dt)
  }

  /**
   `solver(nx, ny, nt, nout, ϵ, dt, physics, data)` returning `(S, H)`. Every
   caller passes `nx, ny = physics.B.shape`. The buffer allocation raises
   unless `nx, ny >= 2`, and a zero `nout` raises after the first pass.
   */
  function ParameterisedSolver(nx: nat, ny: nat, nt: real, nout: int, eps: real, dt: real,
                               physics: Physics, data: Data): (r: Result<(Field, Field)>)
    requires physics.B.HasShape(nx, ny) && SameShape(physics.B, physics.ELA)
    requires data.dx != 0.0 && data.dy != 0.0
    ensures r.Failure? <==> nx < 2 || ny < 2 || (nout == 0 && IterationBudget(nt) > 0)
    ensures r.Failure? ==> r.error == (if nx < 2 || ny < 2 then ValueError else ZeroDivisionError)
    ensures r.Success? ==> r.value.0.HasShape(nx, ny) && Physical(physics.B, r.value.1)
  {
    var cfg := ConfigOf(physics.mBalanceSlope, physics.mBalance, physics.rhoG, data.dx, data.dy, dt);
    RunIsPhysical(cfg, physics.B, physics.ELA, nt, nout, eps);
    var o :- Run(cfg, physics.B, physics.ELA, nt, nout, eps);
    Success((o.S, o.H))
  }

  /**
   What `solver` returns on a grid of at least 2 x 2 with `nout != 0`: first the
   surface `B + H` of the pass BEFORE the last one (zeros when no pass ran),
   then the thickness after the passes made, at most `int(nt)` of them.
   */
  lemma ParameterisedSolverReturnsSurfaceThenThickness(nx: nat, ny: nat, nt: real, nout: int, eps: real, dt: real,
                                                       physics: Physics, data: Data)
    requires physics.B.HasShape(nx, ny) && SameShape(physics.B, physics.ELA)
    requires data.dx != 0.0 && data.dy != 0.0 && nx >= 2 && ny >= 2 && nout != 0
    ensures var cfg := ConfigOf(physics.mBalanceSlope, physics.mBalance, physics.rhoG, data.dx, data.dy, dt);
      var r := ParameterisedSolver(nx, ny, nt, nout, eps, dt, physics, data);
      var k := Run(cfg, physics.B, physics.ELA, nt, nout, eps).value.iterations;
      && r.Success?
      && k <= IterationBudget(nt)
      && r.value.1 == Thickness(cfg, physics.B, physics.ELA, k)
      && r.value.0 == (if k == 0 then Zeros(nx, ny) else Add(physics.B, Thickness(cfg, physics.B, physics.ELA, k - 1)))
  {
    hide Step;
    var cfg := ConfigOf(physics.mBalanceSlope, physics.mBalance, physics.rhoG, data.dx, data.dy, dt);
    RunResult(cfg, physics.B, physics.ELA, nt, nout, eps);
  }

  /** What `iceflow_solver` returns: the thickness, the surface, and its inputs `B`, `xc`, `yc` unchanged. */
  datatype Returned = Returned(H: Field, S: Field, B: Field, xc: seq<real>, yc: seq<real>)

  /**
   `iceflow_solver(B, ELA, β, c, dx, dy, xc, yc)` with `nx, ny = B.shape` and
   the fixed `ρg`, `dt`, `nt`, `nout`, `ϵ`. Since `nout` is not zero, the
   only failure is the allocation on a grid thinner than 2 x 2.
   */
  function HardcodedSolver(b: Field, ela: Field, beta: real, c: real, dx: real, dy: real,
                           xc: seq<real>, yc: seq<real>): (r: Result<Returned>)
    requires b.Valid() && SameShape(b, ela) && dx != 0.0 && dy != 0.0
    ensures r.Failure? <==> b.rows < 2 || b.cols < 2
    ensures r.Failure? ==> r.error == ValueError
    ensures r.Success? ==> Physical(b, r.value.H) && r.value.S.HasShape(b.rows, b.cols)
    ensures r.Success? ==> r.value.B == b && r.value.xc == xc && r.value.yc == yc
  {
    var cfg := ConfigOf(beta, c, IceRhoG, dx, dy, FixedDt);
    RunIsPhysical(cfg, b, ela, FixedNt, FixedNout, FixedEps);
    var o :- Run(cfg, b, ela, FixedNt, FixedNout, FixedEps);
    Success(Returned(o.H, o.S, b, xc, yc))
  }

  /**
   On a grid of at least 2 x 2, `iceflow_solver` returns the thickness after at
   most 10000 passes first, and the surface of the pass before the last second.
   */
  lemma HardcodedSolverReturnsThicknessThenSurface(b: Field, ela: Field, beta: real, c: real, dx: real, dy: real,
                                                   xc: seq<real>, yc: seq<real>)
    requires b.Valid() && SameShape(b, ela) && dx != 0.0 && dy != 0.0 && b.rows >= 2 && b.cols >= 2
    ensures var cfg := ConfigOf(beta, c, IceRhoG, dx, dy, FixedDt);
      var r := HardcodedSolver(b, ela, beta, c, dx, dy, xc, yc);
      var k := Run(cfg, b, ela, FixedNt, FixedNout, FixedEps).value.iterations;
      && r.Success?
      && k <= 10000
      && r.value.H == Thickness(cfg, b, ela, k)
      && r.value.S == (if k == 0 then Zeros(b.rows, b.cols) else Add(b, Thickness(cfg, b, ela, k - 1)))
  {
    hide Step;
    var cfg := ConfigOf(beta, c, IceRhoG, dx, dy, FixedDt);
    FixedConstants();
    RunResult(cfg, b, ela, FixedNt, FixedNout, FixedEps);
  }

  /**
   The argument expression `iceflow_solver(*create_data(256, 256))` of the
   drivers, were it evaluated, would allocate its buffers and return. The
   drivers themselves raise on the function they call with it before they
   evaluate it.
   */
  lemma PipelineWouldSucceed(bedrock: (real, real) -> real, ela: (real, real) -> real)
    ensures var d := CreateData(256, 256, bedrock, ela);
      && d.Success?
      && HardcodedSolver(d.value.B, d.value.ELA, d.value.beta, d.value.c, d.value.dx, d.value.dy, d.value.xc, d.value.yc).Success?
  {
    hide Step;
    ResolutionTwoFiftySix(bedrock, ela);
  }

  /** The names `iceflow/tools.py` defines at module level. */
  const ToolsNames: set<string> :=
    {"np", "Data", "Physics", "bedrock_elevation", "equilibrium_line_altitude", "av", "avx", "avy", "compute_D"}

  /**
   `iceflow.solver(m_balance_slope, m_balance_limiter, mean_height, data)`:
   looks up `tools.bedrock_elevation` and then `tools.eq_line_altitude` in the
   names `tools` defines (`toolNames`), raising `AttributeError` at the first
   one missing; `bed` and `ela` are what those calls return. Then it runs the
   loop with the fixed constants and returns `(H, S)`.
   */
  function PackageSolver(mBSlope: real, mBLimiter: real, data: Data, toolNames: set<string>,
                         bed: Field, ela: Field): (r: Result<(Field, Field)>)
    requires bed.Valid() && SameShape(bed, ela) && data.dx != 0.0 && data.dy != 0.0
    ensures "bedrock_elevation" !in toolNames ==> r == Failure(AttributeError("bedrock_elevation"))
    ensures "bedrock_elevation" in toolNames && "eq_line_altitude" !in toolNames ==> r == Failure(AttributeError("eq_line_altitude"))
    ensures "bedrock_elevation" in toolNames && "eq_line_altitude" in toolNames ==>
      (r.Failure? <==> bed.rows < 2 || bed.cols < 2)
    ensures r.Success? ==> Physical(bed, r.value.0) && r.value.1.HasShape(bed.rows, bed.cols)
  {
    if "bedrock_elevation" !in toolNames then Failure(AttributeError("bedrock_elevation"))
    else if "eq_line_altitude" !in toolNames then Failure(AttributeError("eq_line_altitude"))
    else
      var cfg := ConfigOf(mBSlope, mBLimiter, IceRhoG, data.dx, data.dy, FixedDt);
      RunIsPhysical(cfg, bed, ela, FixedNt, FixedNout, FixedEps);
      var o :- Run(cfg, bed, ela, FixedNt, FixedNout, FixedEps);
      Success((o.H, o.S))
  }

  /** Against the `tools` module as written, the package's `solver` always raises `AttributeError` on `eq_line_altitude`, after it has built `B` but before any of the solver's buffers is allocated. */
  lemma PackageSolverAlwaysRaises(mBSlope: real, mBLimiter: real, data: Data, bed: Field, ela: Field)
    requires bed.Valid() && SameShape(bed, ela) && data.dx != 0.0 && data.dy != 0.0
    ensures PackageSolver(mBSlope, mBLimiter, data, ToolsNames, bed, ela) == Failure(AttributeError("eq_line_altitude"))
  {
    hide Step;
    assert "bedrock_elevation" in ToolsNames;
    assert "eq_line_altitude" !in ToolsNames by {
      assert "eq_line_altitude" != "equilibrium_line_altitude";
    }
  }
}
