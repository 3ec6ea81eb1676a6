/**
 Dense two-dimensional real arrays, the value type every stage of the ice-flow
 solver works on. A `Field` plays the part of a 2-D numpy array: it carries its
 shape explicitly, so that a field with no rows still knows how many columns it
 has (numpy keeps the shape `(0, c)` too).

 The whole-array operations here are the ones the solver applies to entire
 arrays (`B + H`, `A / d`, `np.zeros`), the rectangular slices
 `A[r0:rows-r1, c0:cols-c1]` and the interior assignment `H[1:-1, 1:-1] = X`; the
 stencils of the later stages are written cell by cell where they are defined.
 */
module Fields {

  datatype Field = Field(rows: nat, cols: nat, cells: seq<seq<real>>)
  {
    /** The cells form a `rows` x `cols` rectangle. */
    predicate Valid() {
      |cells| == rows && forall i :: 0 <= i < rows ==> |cells[i]| == cols
    }

    predicate HasShape(r: nat, c: nat) {
      Valid() && rows == r && cols == c
    }

    function At(i: nat, j: nat): real
      requires Valid() && i < rows && j < cols
    {
      cells[i][j]
    }
  }

  predicate SameShape(a: Field, b: Field) {
    a.Valid() && b.HasShape(a.rows, a.cols)
  }

  /** Two fields of one shape that agree on every cell are the same value. */
  lemma Extensionality(a: Field, b: Field)
    requires SameShape(a, b)
    requires forall i, j :: 0 <= i < a.rows && 0 <= j < a.cols ==> a.At(i, j) == b.At(i, j)
    ensures a == b
  {
    forall i | 0 <= i < a.rows
      ensures a.cells[i] == b.cells[i]
    {
      assert forall j :: 0 <= j < a.cols ==> a.cells[i][j] == a.At(i, j);
    }
  }

  /** `np.full((r, c), k)`; `np.zeros((r, c))` is `Const(r, c, 0.0)`. */
  function Const(r: nat, c: nat, k: real): (z: Field)
    ensures z.HasShape(r, c)
    ensures forall i, j :: 0 <= i < r && 0 <= j < c ==> z.At(i, j) == k
  {
    Field(r, c, seq(r, _ => seq(c, _ => k)))
  }

  function Zeros(r: nat, c: nat): (z: Field)
    ensures z.HasShape(r, c)
    ensures forall i, j :: 0 <= i < r && 0 <= j < c ==> z.At(i, j) == 0.0
  {
    Const(r, c, 0.0)
  }

  /** An elementwise binary numpy operation on two arrays of one shape. */
  function Zip(a: Field, b: Field, f: (real, real) -> real): (r: Field)
    requires SameShape(a, b)
    ensures r.HasShape(a.rows, a.cols)
    ensures forall i, j :: 0 <= i < a.rows && 0 <= j < a.cols ==> r.At(i, j) == f(a.At(i, j), b.At(i, j))
  {
    Field(a.rows, a.cols,
      seq(a.rows, i requires 0 <= i < a.rows =>
        seq(a.cols, j requires 0 <= j < a.cols => f(a.At(i, j), b.At(i, j)))))
  }

  function Add(a: Field, b: Field): (r: Field)
    requires SameShape(a, b)
    ensures r.HasShape(a.rows, a.cols)
    ensures forall i, j :: 0 <= i < a.rows && 0 <= j < a.cols ==> r.At(i, j) == a.At(i, j) + b.At(i, j)
  {
    Field(a.rows, a.cols,
      seq(a.rows, i requires 0 <= i < a.rows =>
        seq(a.cols, j requires 0 <= j < a.cols => a.At(i, j) + b.At(i, j))))
  }

  /** `A / d`; numpy yields inf or nan for `d == 0`, which real arithmetic has no value for. */
  function DivBy(a: Field, d: real): (r: Field)
    requires a.Valid() && d != 0.0
    ensures r.HasShape(a.rows, a.cols)
    ensures forall i, j :: 0 <= i < a.rows && 0 <= j < a.cols ==> r.At(i, j) == a.At(i, j) / d
  {
    Field(a.rows, a.cols,
      seq(a.rows, i requires 0 <= i < a.rows =>
        seq(a.cols, j requires 0 <= j < a.cols => a.At(i, j) / d)))
  }

  function Min(x: real, y: real): real { if x <= y then x else y }

  function Max(x: real, y: real): real { if x >= y then x else y }

  function Abs(x: real): real { if x >= 0.0 then x else -x }

  /**
   The slice `A[top:rows-bottom, left:cols-right]`, so that `A[1:-1, :]` is
   `Slice(A, 1, 1, 0, 0)` and `A[:-1, 1:]` is `Slice(A, 0, 1, 1, 0)`.
   */
  function Slice(a: Field, top: nat, bottom: nat, left: nat, right: nat): (r: Field)
    requires a.Valid() && top + bottom <= a.rows && left + right <= a.cols
    ensures r.HasShape(a.rows - top - bottom, a.cols - left - right)
    ensures forall i, j :: 0 <= i < r.rows && 0 <= j < r.cols ==> r.At(i, j) == a.At(i + top, j + left)
  {
    var nr := a.rows - top - bottom;
    var nc := a.cols - left - right;
    Field(nr, nc,
      seq(nr, i requires 0 <= i < nr =>
        seq(nc, j requires 0 <= j < nc => a.At(i + top, j + left))))
  }

  /** The cell `(i, j)` lies on the outermost row or column of an `rows` x `cols` field. */
  predicate OnRing(rows: nat, cols: nat, i: nat, j: nat) {
    i == 0 || i == rows - 1 || j == 0 || j == cols - 1
  }

  /**
   `A[1:-1, 1:-1] = X`: the ring keeps its cells, the inside takes `X`.
   */
  function SetInterior(a: Field, x: Field): (r: Field)
    requires a.Valid() && a.rows >= 2 && a.cols >= 2
    requires x.HasShape(a.rows - 2, a.cols - 2)
    ensures r.HasShape(a.rows, a.cols)
    ensures forall i, j :: 0 <= i < a.rows && 0 <= j < a.cols && OnRing(a.rows, a.cols, i, j) ==>
      r.At(i, j) == a.At(i, j)
    ensures forall i, j :: 0 <= i < x.rows && 0 <= j < x.cols ==> r.At(i + 1, j + 1) == x.At(i, j)
  {
    Field(a.rows, a.cols,
      seq(a.rows, i requires 0 <= i < a.rows =>
        seq(a.cols, j requires 0 <= j < a.cols =>
          if OnRing(a.rows, a.cols, i, j) then a.At(i, j) else x.At(i - 1, j - 1))))
  }

  predicate NonNegative(a: Field)
    requires a.Valid()
  {
    forall i, j :: 0 <= i < a.rows && 0 <= j < a.cols ==> a.At(i, j) >= 0.0
  }

  /** Every cell of the outermost ring is zero (the Dirichlet boundary of the ice thickness). */
  predicate ZeroRing(a: Field)
    requires a.Valid()
  {
    forall i, j :: 0 <= i < a.rows && 0 <= j < a.cols && OnRing(a.rows, a.cols, i, j) ==> a.At(i, j) == 0.0
  }

  predicate AtLeast(a: Field, lo: real)
    requires a.Valid()
  {
    forall i, j :: 0 <= i < a.rows && 0 <= j < a.cols ==> lo <= a.At(i, j)
  }

  predicate AtMost(a: Field, hi: real)
    requires a.Valid()
  {
    forall i, j :: 0 <= i < a.rows && 0 <= j < a.cols ==> a.At(i, j) <= hi
  }

  /** `H[1:-1, 1:-1] = X` leaves the ring alone, so a zero ring stays zero and only `X` can make a cell negative. */
  lemma SetInteriorKeepsRing(a: Field, x: Field)
    requires a.Valid() && a.rows >= 2 && a.cols >= 2
    requires x.HasShape(a.rows - 2, a.cols - 2)
    ensures ZeroRing(a) ==> ZeroRing(SetInterior(a, x))
    ensures NonNegative(a) && NonNegative(x) ==> NonNegative(SetInterior(a, x))
  {
    var r := SetInterior(a, x);
    if NonNegative(a) && NonNegative(x) {
      forall i, j | 0 <= i < a.rows && 0 <= j < a.cols
        ensures r.At(i, j) >= 0.0
      {
        if !OnRing(a.rows, a.cols, i, j) {
          assert r.At((i - 1) + 1, (j - 1) + 1) == x.At(i - 1, j - 1);
        }
      }
    }
  }
}
