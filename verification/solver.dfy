/**
 The solver's time loop with the real pass plugged in (python-package/src/iceflow/solver.py:11-45
 and its copies): the error paths of the set-up, the reference definition `Run`,
 the imperative `Solve` proved equal to it, and what the result is in terms
 of the thickness trajectory from zero ice.
 */
module Solver {
  import opened Fields
  import opened Errors
  import opened TimeStep
  import opened Convergence
  import opened TimeLoop

  /**
   One pass as the loop sees it. The loop only ever hands it thicknesses of the
   grid's shape (`Thickness`), where it is `TimeStep.Step`; the other branch
   only makes the function total.
   */
  function Advance(cfg: Config, b: Field, ela: Field, h: Field): (p: Pass)
    ensures StepInputs(cfg, b, ela, h) ==> p.S == Step(cfg, b, ela, h).S && p.H == Step(cfg, b, ela, h).H
  {
    if StepInputs(cfg, b, ela, h) then
      var st := Step(cfg, b, ela, h);
      Pass(st.S, st.H)
    else Pass(h, h)
  }

  function NextPass(cfg: Config, b: Field, ela: Field): Field -> Pass {
    h => Advance(cfg, b, ela, h)
  }

  /** A thickness the solver can hold: the grid's shape, no negative cell, zero on the ring. */
  predicate Physical(b: Field, h: Field) {
    h.HasShape(b.rows, b.cols) && NonNegative(h) && ZeroRing(h)
  }

  /** The thickness after `k` passes from `H = 0` when the loop never breaks: of the grid's shape, with no negative cell and a zero ring. */
  function Thickness(cfg: Config, b: Field, ela: Field, k: nat): (h: Field)
    requires Terrain(cfg, b, ela)
    ensures Physical(b, h)
  {
    var next := NextPass(cfg, b, ela);
    PassKeepsPhysical(cfg, b, ela);
    TrajectoryKeeps(next, h => Physical(b, h), Zeros(b.rows, b.cols), k);
    Trajectory(next, Zeros(b.rows, b.cols), k)
  }

  lemma PassKeepsPhysical(cfg: Config, b: Field, ela: Field)
    requires Terrain(cfg, b, ela)
    ensures forall h :: Physical(b, h) ==> Physical(b, NextPass(cfg, b, ela)(h).H)
  {
    hide Step;
    forall h | Physical(b, h)
      ensures Physical(b, NextPass(cfg, b, ela)(h).H)
    {
      StepKeepsInvariant(cfg, b, ela, h);
    }
  }

  /** A pass from a physical thickness computes the surface `B + H`. */
  lemma PassSurface(cfg: Config, b: Field, ela: Field, h: Field)
    requires Terrain(cfg, b, ela) && Physical(b, h)
    ensures NextPass(cfg, b, ela)(h).S == Add(b, h)
  {
    hide Step;
    StepSurface(cfg, b, ela, h);
  }

  /** The loop breaks after pass `k` of the run from zero ice. */
  predicate BreaksAt(cfg: Config, b: Field, ela: Field, nout: int, eps: real, k: nat)
    requires Terrain(cfg, b, ela)
  {
    ExitsAt(NextPass(cfg, b, ela), Zeros(b.rows, b.cols), nout, eps, k)
  }

  /**
   The whole solver on an `n x m` grid. The buffers are allocated first and
   `np.zeros((nx-2, ny-1))` and its neighbours raise unless `n, m >= 2`; a zero
   `nout` raises at the first test `it % nout`, after the first pass.
   */
  function Run(cfg: Config, b: Field, ela: Field, nt: real, nout: int, eps: real): (r: Result<Outcome>)
    requires b.Valid() && SameShape(b, ela) && cfg.dx != 0.0 && cfg.dy != 0.0
    ensures r.Failure? <==> b.rows < 2 || b.cols < 2 || (nout == 0 && IterationBudget(nt) > 0)
    ensures r.Failure? && (b.rows < 2 || b.cols < 2) ==> r.error == ValueError
    ensures r.Failure? && b.rows >= 2 && b.cols >= 2 ==> r.error == ZeroDivisionError
    ensures r.Success? ==> r.value.iterations <= IterationBudget(nt)
  {
    if b.rows < 2 || b.cols < 2 then Failure(ValueError)
    else if nout == 0 && IterationBudget(nt) > 0 then Failure(ZeroDivisionError)
    else
      var z := Zeros(b.rows, b.cols);
      Success(LoopFrom(NextPass(cfg, b, ela), z, z, 0, IterationBudget(nt), nout, eps))
  }

  /** On a grid it can allocate and with `nout != 0`, the solver is the loop from zero ice. */
  lemma RunIsLoop(cfg: Config, b: Field, ela: Field, nt: real, nout: int, eps: real)
    requires Terrain(cfg, b, ela) && nout != 0
    ensures Run(cfg, b, ela, nt, nout, eps)
      == Success(LoopFrom(NextPass(cfg, b, ela), Zeros(b.rows, b.cols), Zeros(b.rows, b.cols), 0, IterationBudget(nt), nout, eps))
  {
    hide Step;
  }

  /**
   What the solver returns: the thickness after the passes it made, and the
   surface bed-plus-thickness of one pass EARLIER (the loop computes `S` before
   it updates `H`), or the zero-initialised `S` when it made no pass.
   */
  lemma RunResult(cfg: Config, b: Field, ela: Field, nt: real, nout: int, eps: real)
    requires Terrain(cfg, b, ela) && nout != 0
    ensures Run(cfg, b, ela, nt, nout, eps).Success?
    ensures var o := Run(cfg, b, ela, nt, nout, eps).value;
      && o.H == Thickness(cfg, b, ela, o.iterations)
      && (o.iterations == 0 ==> o.S == Zeros(b.rows, b.cols))
      && (o.iterations > 0 ==> o.S == Add(b, Thickness(cfg, b, ela, o.iterations - 1)))
  {
    hide Step;
    var z := Zeros(b.rows, b.cols);
    var next := NextPass(cfg, b, ela);
    var o := LoopFrom(next, z, z, 0, IterationBudget(nt), nout, eps);
    assert Run(cfg, b, ela, nt, nout, eps) == Success(o) by {
      RunIsLoop(cfg, b, ela, nt, nout, eps);
    }
    assert o.H == Trajectory(next, z, o.iterations)
      && (o.iterations == 0 ==> o.S == z)
      && (o.iterations > 0 ==> o.S == next(Trajectory(next, z, o.iterations - 1)).S) by {
      LoopExit(next, z, z, IterationBudget(nt), nout, eps);
    }
    if o.iterations > 0 {
      var prev := Trajectory(next, z, o.iterations - 1);
      assert prev == Thickness(cfg, b, ela, o.iterations - 1);
      assert next(prev).S == Add(b, prev) by {
        PassSurface(cfg, b, ela, prev);
      }
    }
  }

  /**
   When the solver stops: at the first checked pass that moved no cell by `ϵ`,
   and after all `int(nt)` passes when there is none.
   */
  lemma RunStops(cfg: Config, b: Field, ela: Field, nt: real, nout: int, eps: real)
    requires Terrain(cfg, b, ela) && nout != 0
    ensures Run(cfg, b, ela, nt, nout, eps).Success?
    ensures var o := Run(cfg, b, ela, nt, nout, eps).value;
      && (o.status == Converged <==> exists k :: 0 <= k < IterationBudget(nt) && BreaksAt(cfg, b, ela, nout, eps, k))
      && (o.status == Converged ==> BreaksAt(cfg, b, ela, nout, eps, o.iterations - 1))
      && (forall k :: 0 <= k < o.iterations - 1 ==> !BreaksAt(cfg, b, ela, nout, eps, k))
      && (o.status == BudgetExhausted ==> o.iterations == IterationBudget(nt))
  {
    hide Step;
    var z := Zeros(b.rows, b.cols);
    var next := NextPass(cfg, b, ela);
    RunIsLoop(cfg, b, ela, nt, nout, eps);
    LoopExit(next, z, z, IterationBudget(nt), nout, eps);
    assert forall k: nat :: BreaksAt(cfg, b, ela, nout, eps, k) == ExitsAt(next, z, nout, eps, k);
  }

  /** Whatever the run, the thickness it returns has the grid's shape, no negative cell and a zero ring, and the surface has the grid's shape. */
  lemma RunIsPhysical(cfg: Config, b: Field, ela: Field, nt: real, nout: int, eps: real)
    requires b.Valid() && SameShape(b, ela) && cfg.dx != 0.0 && cfg.dy != 0.0
    ensures var r := Run(cfg, b, ela, nt, nout, eps);
      r.Success? ==> Physical(b, r.value.H) && r.value.S.HasShape(b.rows, b.cols)
  {
    hide Step;
    var r := Run(cfg, b, ela, nt, nout, eps);
    if r.Success? && nout != 0 {
      RunResult(cfg, b, ela, nt, nout, eps);
    }
  }

  /** With `int(nt) >= 1` the first pass is checked: the solver stops after one pass exactly when that pass moved no cell by `ϵ`. */
  lemma FirstPassDecides(cfg: Config, b: Field, ela: Field, nt: real, nout: int, eps: real)
    requires Terrain(cfg, b, ela) && nout != 0 && IterationBudget(nt) >= 1
    ensures Run(cfg, b, ela, nt, nout, eps).Success?
    ensures var o := Run(cfg, b, ela, nt, nout, eps).value;
      (o.status == Converged && o.iterations == 1) <==> Settled(Thickness(cfg, b, ela, 1), Zeros(b.rows, b.cols), eps)
  {
    hide Step;
    var z := Zeros(b.rows, b.cols);
    var next := NextPass(cfg, b, ela);
    RunIsLoop(cfg, b, ela, nt, nout, eps);
    FirstPassIsChecked(next, z, z, IterationBudget(nt), nout, eps);
    assert Trajectory(next, z, 0) == z;
    assert Thickness(cfg, b, ela, 1) == next(z).H;
  }

  /** With `int(nt) <= 0` the loop body never runs and the solver returns its zero-initialised `S` and `H`. */
  lemma EmptyRangeReturnsZeros(cfg: Config, b: Field, ela: Field, nt: real, nout: int, eps: real)
    requires Terrain(cfg, b, ela) && nt < 1.0
    ensures Run(cfg, b, ela, nt, nout, eps) == Success(Outcome(Zeros(b.rows, b.cols), Zeros(b.rows, b.cols), 0, BudgetExhausted))
  {
    hide Step;
  }

  /** Where bare ground accumulates nothing inside the ring and `dt >= 0`, no ice ever forms. */
  lemma BareGroundStaysBare(cfg: Config, b: Field, ela: Field, k: nat)
    requires Terrain(cfg, b, ela) && cfg.dt >= 0.0 && NoAccumulationOnBareGround(cfg, b, ela)
    ensures Thickness(cfg, b, ela, k) == Zeros(b.rows, b.cols)
  {
    hide Step;
    var z := Zeros(b.rows, b.cols);
    var next := NextPass(cfg, b, ela);
    BareGroundIsFixedPoint(cfg, b, ela);
    assert next(z).H == z;
    TrajectoryKeeps(next, h => h == z, z, k);
  }

  /** ... and with `ϵ > 0` the solver stops after its first pass with `H = 0` and `S = B`. */
  lemma BareGroundConverges(cfg: Config, b: Field, ela: Field, nt: real, nout: int, eps: real)
    requires Terrain(cfg, b, ela) && cfg.dt >= 0.0 && NoAccumulationOnBareGround(cfg, b, ela)
    requires nout != 0 && IterationBudget(nt) >= 1 && eps > 0.0
    ensures Run(cfg, b, ela, nt, nout, eps) == Success(Outcome(b, Zeros(b.rows, b.cols), 1, Converged))
  {
    hide Step;
    var z := Zeros(b.rows, b.cols);
    BareGroundStaysBare(cfg, b, ela, 1);
    assert Settled(z, z, eps) by {
      SettledIff(z, z, eps);
    }
    FirstPassDecides(cfg, b, ela, nt, nout, eps);
    RunResult(cfg, b, ela, nt, nout, eps);
    Extensionality(Add(b, z), b);
  }

  /** Every pass from a thickness of the grid's shape gives one of that shape. */
  lemma PassKeepsShape(cfg: Config, b: Field, ela: Field)
    requires Terrain(cfg, b, ela)
    ensures KeepsShape(NextPass(cfg, b, ela), b.rows, b.cols)
  {
    hide Step;
    forall h: Field | h.HasShape(b.rows, b.cols)
      ensures NextPass(cfg, b, ela)(h).H.HasShape(b.rows, b.cols)
    {
      var st := Step(cfg, b, ela, h);
    }
  }

  /**
   The solver as the source writes it: allocate the buffers (which fails on a
   grid thinner than 2 x 2), then run the time loop with the real pass.
   */
  method Solve(cfg: Config, b: Field, ela: Field, nt: real, nout: int, eps: real) returns (r: Result<Outcome>)
    requires b.Valid() && SameShape(b, ela) && cfg.dx != 0.0 && cfg.dy != 0.0
    ensures r == Run(cfg, b, ela, nt, nout, eps)
  {
    hide Step;
    if b.rows < 2 || b.cols < 2 {
      return Failure(ValueError);
    }
    PassKeepsShape(cfg, b, ela);
    r := RunLoop(NextPass(cfg, b, ela), b.rows, b.cols, IterationBudget(nt), nout, eps);
  }
}
