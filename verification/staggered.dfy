/**
 The staggered-grid operators: `av`, `avx`, `avy` (python-package/src/iceflow/tools.py)
 and the `np.diff` first differences. The numpy code writes each as a sum of
 shifted slices (`A[:-1, :] + A[1:, :]`); the model builds the result cell by
 cell from the same neighbours. The lemmas relate the operators to each other
 (the corner average is the composition of the two edge averages) and state
 what they preserve: bounds, constants, the single mean of a 2 x 2 block.

 Axis 0 (rows) is the first numpy axis and axis 1 (columns) the second. The
 averages and differences need one cell along the axis they shrink; with exactly
 one cell the result is empty, as in numpy.
 */
module Staggered {
  import opened Fields

  /** `av(A) = 0.25 * (A[:-1, :-1] + A[:-1, 1:] + A[1:, :-1] + A[1:, 1:])`: cell centres to corners. */
  function Av(a: Field): (r: Field)
    requires a.Valid() && a.rows >= 1 && a.cols >= 1
    ensures r.HasShape(a.rows - 1, a.cols - 1)
    ensures forall i, j :: 0 <= i < r.rows && 0 <= j < r.cols ==>
      r.At(i, j) == (a.At(i, j) + a.At(i, j + 1) + a.At(i + 1, j) + a.At(i + 1, j + 1)) / 4.0
  {
    Field(a.rows - 1, a.cols - 1,
      seq(a.rows - 1, i requires 0 <= i < a.rows - 1 =>
        seq(a.cols - 1, j requires 0 <= j < a.cols - 1 =>
          0.25 * (a.At(i, j) + a.At(i, j + 1) + a.At(i + 1, j) + a.At(i + 1, j + 1)))))
  }

  /** `avx(A) = 0.5 * (A[:-1, :] + A[1:, :])`: mean of neighbouring rows. */
  function Avx(a: Field): (r: Field)
    requires a.Valid() && a.rows >= 1
    ensures r.HasShape(a.rows - 1, a.cols)
    ensures forall i, j :: 0 <= i < r.rows && 0 <= j < r.cols ==>
      r.At(i, j) == (a.At(i, j) + a.At(i + 1, j)) / 2.0
  {
    Field(a.rows - 1, a.cols,
      seq(a.rows - 1, i requires 0 <= i < a.rows - 1 =>
        seq(a.cols, j requires 0 <= j < a.cols => 0.5 * (a.At(i, j) + a.At(i + 1, j)))))
  }

  /** `avy(A) = 0.5 * (A[:, :-1] + A[:, 1:])`: mean of neighbouring columns. */
  function Avy(a: Field): (r: Field)
    requires a.Valid() && a.cols >= 1
    ensures r.HasShape(a.rows, a.cols - 1)
    ensures forall i, j :: 0 <= i < r.rows && 0 <= j < r.cols ==>
      r.At(i, j) == (a.At(i, j) + a.At(i, j + 1)) / 2.0
  {
    Field(a.rows, a.cols - 1,
      seq(a.rows, i requires 0 <= i < a.rows =>
        seq(a.cols - 1, j requires 0 <= j < a.cols - 1 => 0.5 * (a.At(i, j) + a.At(i, j + 1)))))
  }

  /** `np.diff(A, axis=0) = A[1:, :] - A[:-1, :]` */
  function Diff0(a: Field): (r: Field)
    requires a.Valid() && a.rows >= 1
    ensures r.HasShape(a.rows - 1, a.cols)
    ensures forall i, j :: 0 <= i < r.rows && 0 <= j < r.cols ==> r.At(i, j) == a.At(i + 1, j) - a.At(i, j)
  {
    Field(a.rows - 1, a.cols,
      seq(a.rows - 1, i requires 0 <= i < a.rows - 1 =>
        seq(a.cols, j requires 0 <= j < a.cols => a.At(i + 1, j) - a.At(i, j))))
  }

  /** `np.diff(A, axis=1) = A[:, 1:] - A[:, :-1]` */
  function Diff1(a: Field): (r: Field)
    requires a.Valid() && a.cols >= 1
    ensures r.HasShape(a.rows, a.cols - 1)
    ensures forall i, j :: 0 <= i < r.rows && 0 <= j < r.cols ==> r.At(i, j) == a.At(i, j + 1) - a.At(i, j)
  {
    Field(a.rows, a.cols - 1,
      seq(a.rows, i requires 0 <= i < a.rows =>
        seq(a.cols - 1, j requires 0 <= j < a.cols - 1 => a.At(i, j + 1) - a.At(i, j))))
  }

  /** Cell by cell, the corner average is the row average of the column average. */
  lemma AvIsAvxOfAvyAt(a: Field)
    requires a.Valid() && a.rows >= 1 && a.cols >= 1
    ensures forall i, j :: 0 <= i < a.rows - 1 && 0 <= j < a.cols - 1 ==> Av(a).At(i, j) == Avx(Avy(a)).At(i, j)
  {
    var c := Av(a);
    var y := Avy(a);
    var xy := Avx(y);
    forall i, j | 0 <= i < c.rows && 0 <= j < c.cols
      ensures c.At(i, j) == xy.At(i, j)
    {
      assert y.At(i, j) == (a.At(i, j) + a.At(i, j + 1)) / 2.0;
      assert y.At(i + 1, j) == (a.At(i + 1, j) + a.At(i + 1, j + 1)) / 2.0;
    }
  }

  /** Cell by cell, the corner average is the column average of the row average. */
  lemma AvIsAvyOfAvxAt(a: Field)
    requires a.Valid() && a.rows >= 1 && a.cols >= 1
    ensures forall i, j :: 0 <= i < a.rows - 1 && 0 <= j < a.cols - 1 ==> Av(a).At(i, j) == Avy(Avx(a)).At(i, j)
  {
    var c := Av(a);
    var x := Avx(a);
    var yx := Avy(x);
    forall i, j | 0 <= i < c.rows && 0 <= j < c.cols
      ensures c.At(i, j) == yx.At(i, j)
    {
      assert x.At(i, j) == (a.At(i, j) + a.At(i + 1, j)) / 2.0;
      assert x.At(i, j + 1) == (a.At(i, j + 1) + a.At(i + 1, j + 1)) / 2.0;
    }
  }

  /** The corner average is the row average of the column average, and the other way round. */
  lemma AvIsComposedAverage(a: Field)
    requires a.Valid() && a.rows >= 1 && a.cols >= 1
    ensures Av(a) == Avx(Avy(a))
    ensures Av(a) == Avy(Avx(a))
  {
    AvIsAvxOfAvyAt(a);
    Extensionality(Av(a), Avx(Avy(a)));
    AvIsAvyOfAvxAt(a);
    Extensionality(Av(a), Avy(Avx(a)));
  }

  /** A lower bound on every cell survives each of the three averages (so non-negative stays non-negative). */
  lemma AveragesKeepLowerBound(a: Field, lo: real)
    requires a.Valid() && a.rows >= 1 && a.cols >= 1
    requires AtLeast(a, lo)
    ensures AtLeast(Av(a), lo) && AtLeast(Avx(a), lo) && AtLeast(Avy(a), lo)
  {
    var c := Av(a);
    forall i, j | 0 <= i < c.rows && 0 <= j < c.cols
      ensures lo <= c.At(i, j)
    {
      assert lo <= a.At(i, j) && lo <= a.At(i, j + 1) && lo <= a.At(i + 1, j) && lo <= a.At(i + 1, j + 1);
    }
    var x := Avx(a);
    forall i, j | 0 <= i < x.rows && 0 <= j < x.cols
      ensures lo <= x.At(i, j)
    {
      assert lo <= a.At(i, j) && lo <= a.At(i + 1, j);
    }
    var y := Avy(a);
    forall i, j | 0 <= i < y.rows && 0 <= j < y.cols
      ensures lo <= y.At(i, j)
    {
      assert lo <= a.At(i, j) && lo <= a.At(i, j + 1);
    }
  }

  /** An upper bound on every cell survives each of the three averages. */
  lemma AveragesKeepUpperBound(a: Field, hi: real)
    requires a.Valid() && a.rows >= 1 && a.cols >= 1
    requires AtMost(a, hi)
    ensures AtMost(Av(a), hi) && AtMost(Avx(a), hi) && AtMost(Avy(a), hi)
  {
    var c := Av(a);
    forall i, j | 0 <= i < c.rows && 0 <= j < c.cols
      ensures c.At(i, j) <= hi
    {
      assert a.At(i, j) <= hi && a.At(i, j + 1) <= hi && a.At(i + 1, j) <= hi && a.At(i + 1, j + 1) <= hi;
    }
    var x := Avx(a);
    forall i, j | 0 <= i < x.rows && 0 <= j < x.cols
      ensures x.At(i, j) <= hi
    {
      assert a.At(i, j) <= hi && a.At(i + 1, j) <= hi;
    }
    var y := Avy(a);
    forall i, j | 0 <= i < y.rows && 0 <= j < y.cols
      ensures y.At(i, j) <= hi
    {
      assert a.At(i, j) <= hi && a.At(i, j + 1) <= hi;
    }
  }

  /** Averaging a constant field gives the same constant on the smaller shape. */
  lemma AveragesOfConstant(rows: nat, cols: nat, k: real)
    requires rows >= 1 && cols >= 1
    ensures Av(Const(rows, cols, k)) == Const(rows - 1, cols - 1, k)
    ensures Avx(Const(rows, cols, k)) == Const(rows - 1, cols, k)
    ensures Avy(Const(rows, cols, k)) == Const(rows, cols - 1, k)
  {
    var a := Const(rows, cols, k);
    Extensionality(Av(a), Const(rows - 1, cols - 1, k));
    Extensionality(Avx(a), Const(rows - 1, cols, k));
    Extensionality(Avy(a), Const(rows, cols - 1, k));
  }

  /** A 2 x 2 field has exactly one corner, and `av` gives its plain mean there. */
  lemma AvOfTwoByTwo(a: Field)
    requires a.HasShape(2, 2)
    ensures Av(a).HasShape(1, 1)
    ensures Av(a).At(0, 0) == (a.At(0, 0) + a.At(0, 1) + a.At(1, 0) + a.At(1, 1)) / 4.0
  {
  }

  /** A constant field has zero first differences along both axes. */
  lemma DiffsOfConstant(rows: nat, cols: nat, k: real)
    requires rows >= 1 && cols >= 1
    ensures Diff0(Const(rows, cols, k)) == Zeros(rows - 1, cols)
    ensures Diff1(Const(rows, cols, k)) == Zeros(rows, cols - 1)
  {
    var a := Const(rows, cols, k);
    Extensionality(Diff0(a), Zeros(rows - 1, cols));
    Extensionality(Diff1(a), Zeros(rows, cols - 1));
  }
}
