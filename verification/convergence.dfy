/**
 The steady-state test of the time loop: `err = np.max(np.abs(H - H0))` and
 `err < ϵ`. `np.max` of an empty array raises, so the error needs at least one
 cell; the solver's fields always have one.

 The maximum is defined by recursion, row by row and within a row cell by
 cell; `MaxAbsDiff` computes it with two loops, and `SettledIff` turns the
 test `err < ϵ` into a statement about every cell.
 */
module Convergence {
  import opened Fields

  predicate Comparable(a: Field, b: Field) {
    SameShape(a, b) && a.rows >= 1 && a.cols >= 1
  }

  /** `max_{j < n} |a[i][j] - b[i][j]|` */
  function RowMaxAbsDiff(a: Field, b: Field, i: nat, n: nat): real
    requires Comparable(a, b) && i < a.rows && 1 <= n <= a.cols
  {
    if n == 1 then Abs(a.At(i, 0) - b.At(i, 0))
    else Max(RowMaxAbsDiff(a, b, i, n - 1), Abs(a.At(i, n - 1) - b.At(i, n - 1)))
  }

  /** `max_{i < m, j} |a[i][j] - b[i][j]|` */
  function RowsMaxAbsDiff(a: Field, b: Field, m: nat): real
    requires Comparable(a, b) && 1 <= m <= a.rows
  {
    if m == 1 then RowMaxAbsDiff(a, b, 0, a.cols)
    else Max(RowsMaxAbsDiff(a, b, m - 1), RowMaxAbsDiff(a, b, m - 1, a.cols))
  }

  /** `np.max(np.abs(a - b))` */
  function MaxAbsDiffOf(a: Field, b: Field): real
    requires Comparable(a, b)
  {
    RowsMaxAbsDiff(a, b, a.rows)
  }

  /** The loop's test `err < ϵ`. */
  predicate Settled(a: Field, b: Field, eps: real) {
    Comparable(a, b) && MaxAbsDiffOf(a, b) < eps
  }

  /** `err` is the largest cellwise absolute difference of `a` and `b`: some cell attains it and none exceeds it. */
  predicate IsMaxAbsDiff(a: Field, b: Field, err: real)
    requires SameShape(a, b)
  {
    && (forall i, j :: 0 <= i < a.rows && 0 <= j < a.cols ==> Abs(a.At(i, j) - b.At(i, j)) <= err)
    && (exists i, j :: 0 <= i < a.rows && 0 <= j < a.cols && Abs(a.At(i, j) - b.At(i, j)) == err)
  }

  lemma {:induction false} RowMaxIsMax(a: Field, b: Field, i: nat, n: nat)
    requires Comparable(a, b) && i < a.rows && 1 <= n <= a.cols
    ensures forall j :: 0 <= j < n ==> Abs(a.At(i, j) - b.At(i, j)) <= RowMaxAbsDiff(a, b, i, n)
    ensures exists j :: 0 <= j < n && Abs(a.At(i, j) - b.At(i, j)) == RowMaxAbsDiff(a, b, i, n)
  {
    if n > 1 {
      RowMaxIsMax(a, b, i, n - 1);
    }
  }

  lemma {:induction false} RowsMaxIsMax(a: Field, b: Field, m: nat)
    requires Comparable(a, b) && 1 <= m <= a.rows
    ensures forall i, j :: 0 <= i < m && 0 <= j < a.cols ==> Abs(a.At(i, j) - b.At(i, j)) <= RowsMaxAbsDiff(a, b, m)
    ensures exists i, j :: 0 <= i < m && 0 <= j < a.cols && Abs(a.At(i, j) - b.At(i, j)) == RowsMaxAbsDiff(a, b, m)
  {
    RowMaxIsMax(a, b, m - 1, a.cols);
    if m > 1 {
      RowsMaxIsMax(a, b, m - 1);
    }
  }

  /** The recursive maximum is the maximum: no cell exceeds it and some cell attains it. */
  lemma MaxAbsDiffIsMax(a: Field, b: Field)
    requires Comparable(a, b)
    ensures IsMaxAbsDiff(a, b, MaxAbsDiffOf(a, b))
  {
    RowsMaxIsMax(a, b, a.rows);
  }

  /** The test `err < ϵ` passes exactly when every cell moved by less than `ϵ`. */
  lemma SettledIff(a: Field, b: Field, eps: real)
    requires Comparable(a, b)
    ensures Settled(a, b, eps) <==> forall i, j :: 0 <= i < a.rows && 0 <= j < a.cols ==> Abs(a.At(i, j) - b.At(i, j)) < eps
  {
    MaxAbsDiffIsMax(a, b);
    var i, j :| 0 <= i < a.rows && 0 <= j < a.cols && Abs(a.At(i, j) - b.At(i, j)) == MaxAbsDiffOf(a, b);
  }

  /** `np.max(np.abs(a[i] - b[i]))` for one row, scanning left to right. */
  method RowMax(a: Field, b: Field, i: nat) returns (m: real)
    requires Comparable(a, b) && i < a.rows
    ensures m == RowMaxAbsDiff(a, b, i, a.cols)
  {
    m := Abs(a.At(i, 0) - b.At(i, 0));
    var j := 1;
    while j < a.cols
      invariant 1 <= j <= a.cols
      invariant m == RowMaxAbsDiff(a, b, i, j)
    {
      m := Max(m, Abs(a.At(i, j) - b.At(i, j)));
      j := j + 1;
    }
  }

  /** `np.max(np.abs(H - H0))`, row by row. */
  method MaxAbsDiff(a: Field, b: Field) returns (err: real)
    requires Comparable(a, b)
    ensures err == MaxAbsDiffOf(a, b)
  {
    err := RowMax(a, b, 0);
    var i := 1;
    while i < a.rows
      invariant 1 <= i <= a.rows
      invariant err == RowsMaxAbsDiff(a, b, i)
    {
      var r := RowMax(a, b, i);
      err := Max(err, r);
      i := i + 1;
    }
  }
}
