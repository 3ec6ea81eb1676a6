/**
 The control flow of the solver's time loop, independent of what one pass
 computes:
 each turn saves `H` as `H0`, makes one pass, and on every pass `it` with
 `it % nout == 0` measures `max |H − H0|` and leaves the loop when it is below
 `ϵ`; after at most `int(nt)` turns the loop returns the last `S` and `H`.

 The pass is a function value `next`; `Solver` supplies the real one. The
 loop is given as the recursive `LoopFrom`, and its result is described
 through `Trajectory`, the thickness after `k` passes when the loop never
 breaks.
 */
module TimeLoop {
  import opened Fields
  import opened Convergence
  import opened Errors

  /** What one pass leaves: the surface it computed and the new thickness. */
  datatype Pass = Pass(S: Field, H: Field)

  /** How the loop ended: by the `break` on `err < ϵ`, or by running out of `range(int(nt))`. */
  datatype Status = Converged | BudgetExhausted

  /** The arrays the loop leaves behind and how many passes it made. */
  datatype Outcome = Outcome(S: Field, H: Field, iterations: nat, status: Status)

  /** The length of `range(int(nt))`: `int` truncates toward zero and a non-positive range is empty. */
  function IterationBudget(nt: real): (n: nat)
    ensures nt < 1.0 ==> n == 0
    ensures nt >= 1.0 ==> n as real <= nt < n as real + 1.0
  {
    if nt < 1.0 then 0 else nt.Floor
  }

  /** `it % nout == 0`; for a non-zero integer `nout` Python and Dafny agree that this is divisibility. */
  predicate Checked(it: nat, nout: int) {
    nout != 0 && it % nout == 0
  }

  /** The thickness after `k` passes from `h0` when the loop never breaks. */
  function Trajectory(next: Field -> Pass, h0: Field, k: nat): Field {
    if k == 0 then h0 else next(Trajectory(next, h0, k - 1)).H
  }

  /** The loop breaks after pass `k` (0-based): `k` is a checked pass and it moved no cell by `ϵ` or more. */
  predicate ExitsAt(next: Field -> Pass, h0: Field, nout: int, eps: real, k: nat) {
    Checked(k, nout) && Settled(Trajectory(next, h0, k + 1), Trajectory(next, h0, k), eps)
  }

  /** The loop from pass `it` on, holding the surface `s` and thickness `h` the earlier passes left. */
  function LoopFrom(next: Field -> Pass, s: Field, h: Field, it: nat, budget: nat, nout: int, eps: real): (o: Outcome)
    requires it <= budget
    ensures it <= o.iterations <= budget
    ensures o.status == BudgetExhausted ==> o.iterations == budget
    ensures o.status == Converged ==> o.iterations > it
    decreases budget - it
  {
    if it == budget then Outcome(s, h, it, BudgetExhausted)
    else
      var p := next(h);
      if Checked(it, nout) && Settled(p.H, h, eps) then Outcome(p.S, p.H, it + 1, Converged)
      else LoopFrom(next, p.S, p.H, it + 1, budget, nout, eps)
  }

  /**
   Started on the trajectory at pass `it`, the loop ends on it: the thickness is
   the trajectory at the number of passes made, the surface is the one the last
   pass computed, the loop stopped at the first pass that exits if it converged,
   and saw no exit at all if it ran out of passes.
   */
  lemma {:induction false} LoopFollowsTrajectory(next: Field -> Pass, h0: Field, s: Field, it: nat, budget: nat, nout: int, eps: real)
    requires it <= budget
    requires it > 0 ==> s == next(Trajectory(next, h0, it - 1)).S
    ensures var o := LoopFrom(next, s, Trajectory(next, h0, it), it, budget, nout, eps);
      && o.H == Trajectory(next, h0, o.iterations)
      && (o.iterations > 0 ==> o.S == next(Trajectory(next, h0, o.iterations - 1)).S)
      && (o.iterations == it ==> o.S == s)
      && (forall k :: it <= k < o.iterations - 1 ==> !ExitsAt(next, h0, nout, eps, k))
      && (o.status == Converged ==> ExitsAt(next, h0, nout, eps, o.iterations - 1))
      && (o.status == BudgetExhausted && o.iterations > it ==> !ExitsAt(next, h0, nout, eps, o.iterations - 1))
    decreases budget - it
  {
    if it < budget {
      var h := Trajectory(next, h0, it);
      var p := next(h);
      assert p.H == Trajectory(next, h0, it + 1);
      if !(Checked(it, nout) && Settled(p.H, h, eps)) {
        LoopFollowsTrajectory(next, h0, p.S, it + 1, budget, nout, eps);
      }
    }
  }

  /** The whole loop from `h0`: it stops at the first exit before the budget runs out, and otherwise makes every pass. */
  lemma LoopExit(next: Field -> Pass, s0: Field, h0: Field, budget: nat, nout: int, eps: real)
    ensures var o := LoopFrom(next, s0, h0, 0, budget, nout, eps);
      && o.H == Trajectory(next, h0, o.iterations)
      && (o.iterations == 0 ==> o.S == s0)
      && (o.iterations > 0 ==> o.S == next(Trajectory(next, h0, o.iterations - 1)).S)
      && (o.status == Converged <==> exists k :: 0 <= k < budget && ExitsAt(next, h0, nout, eps, k))
      && (o.status == Converged ==> ExitsAt(next, h0, nout, eps, o.iterations - 1))
      && (o.status == Converged ==> forall k :: 0 <= k < o.iterations - 1 ==> !ExitsAt(next, h0, nout, eps, k))
      && (o.status == BudgetExhausted ==> o.iterations == budget && forall k :: 0 <= k < budget ==> !ExitsAt(next, h0, nout, eps, k))
  {
    LoopFollowsTrajectory(next, h0, s0, 0, budget, nout, eps);
  }

  /** The first pass is always checked (`0 % nout == 0`): with a non-empty range the loop stops after one pass exactly when that pass moved no cell by `ϵ`. */
  lemma FirstPassIsChecked(next: Field -> Pass, s0: Field, h0: Field, budget: nat, nout: int, eps: real)
    requires budget >= 1 && nout != 0
    ensures var o := LoopFrom(next, s0, h0, 0, budget, nout, eps);
      (o.status == Converged && o.iterations == 1) <==> Settled(next(h0).H, h0, eps)
  {
    LoopFollowsTrajectory(next, h0, s0, 0, budget, nout, eps);
    assert Checked(0, nout);
  }

  /** A thickness property that every pass keeps holds all along the trajectory. */
  lemma {:induction false} TrajectoryKeeps(next: Field -> Pass, inv: Field -> bool, h0: Field, k: nat)
    requires inv(h0)
    requires forall h :: inv(h) ==> inv(next(h).H)
    ensures inv(Trajectory(next, h0, k))
  {
    if k > 0 {
      TrajectoryKeeps(next, inv, h0, k - 1);
    }
  }

  /** Every pass from a `rows` x `cols` thickness gives one of that shape. */
  ghost predicate KeepsShape(next: Field -> Pass, rows: nat, cols: nat) {
    forall h: Field :: h.HasShape(rows, cols) ==> next(h).H.HasShape(rows, cols)
  }

  /**
   The loop as the source writes it, from `S = H = np.zeros((nx, ny))`: keep
   `H0`, make a pass, and on a checked pass compute `err = max |H - H0|` and
   break when `err < ϵ`. A zero `nout` raises at the first `it % nout`, after
   the first pass; otherwise the loop is `LoopFrom` from zero ice.
   */
  method RunLoop(next: Field -> Pass, rows: nat, cols: nat, budget: nat, nout: int, eps: real) returns (r: Result<Outcome>)
    requires rows >= 1 && cols >= 1 && KeepsShape(next, rows, cols)
    ensures r == if nout == 0 && budget > 0 then Failure(ZeroDivisionError)
      else Success(LoopFrom(next, Zeros(rows, cols), Zeros(rows, cols), 0, budget, nout, eps))
  {
    var s, h := Zeros(rows, cols), Zeros(rows, cols);
    ghost var final := LoopFrom(next, s, h, 0, budget, nout, eps);
    var it := 0;
    while it < budget
      invariant 0 <= it <= budget
      invariant nout == 0 ==> it == 0
      invariant h.HasShape(rows, cols)
      invariant LoopFrom(next, s, h, it, budget, nout, eps) == final
    {
      var h0 := h;
      var p := next(h0);
      s, h := p.S, p.H;
      if nout == 0 {
        return Failure(ZeroDivisionError);
      }
      if it % nout == 0 {
        var err := MaxAbsDiff(h, h0);
        if err < eps {
          return Success(Outcome(s, h, it + 1, Converged));
        }
      }
      it := it + 1;
    }
    return Success(Outcome(s, h, it, BudgetExhausted));
  }
}
