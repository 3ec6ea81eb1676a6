/**
 The diffusivity kernel `compute_D` (python-package/src/iceflow/tools.py) and the
 Glen's-flow-law coefficients `a1`, `a2` the solvers derive from `ρg`.

 At each cell corner the kernel combines the corner-averaged thickness `h` and
 the squared surface slope:
     D = (a1 * h^5 + a2 * h^3) * (gx^2 + gy^2)
 where `gx` is the axis-0 slope (differences divided by `dx`) averaged across
 columns and `gy` the axis-1 slope (differences divided by `dy`) averaged across
 rows. The source takes `sqrt` of the sum of squares and squares it again; over
 the reals that is the sum of squares itself, so the model keeps the sum.
 */
module DiffusionKernel {
  import opened Fields
  import opened Staggered

  /** Seconds in a Julian year, the unit conversion inside `a1` and `a2`. */
  const SecondsPerYear: real := 31557600.0

  /** `a1 = 1.9e-24 * pow(ρg, 3) * 31557600` */
  function A1(rhoG: real): (a: real)
    ensures rhoG > 0.0 ==> a > 0.0
    ensures rhoG == 0.0 ==> a == 0.0
  {
    CubeSign(rhoG);
    1.9e-24 * (rhoG * rhoG * rhoG) * SecondsPerYear
  }

  /** `a2 = 5.7e-20 * pow(ρg, 3) * 31557600`, which is exactly 30000 times `a1`. */
  function A2(rhoG: real): (a: real)
    ensures rhoG > 0.0 ==> a > 0.0
    ensures a == 30000.0 * A1(rhoG)
  {
    CubeSign(rhoG);
    5.7e-20 * (rhoG * rhoG * rhoG) * SecondsPerYear
  }

  lemma CubeSign(x: real)
    ensures x >= 0.0 ==> x * x * x >= 0.0
    ensures x > 0.0 ==> x * x * x > 0.0
  {
    if x >= 0.0 {
      assert x * x >= 0.0;
    }
  }

  lemma FifthNonNegative(x: real)
    requires x >= 0.0
    ensures x * x * x * x * x >= 0.0
  {
    CubeSign(x);
    assert x * x >= 0.0;
    assert (x * x * x) * (x * x) >= 0.0;
  }

  /** The flow-law factor `a1 * h**5 + a2 * h**3` of a corner thickness. */
  function FlowFactor(a1: real, a2: real, h: real): real {
    a1 * (h * h * h * h * h) + a2 * (h * h * h)
  }

  lemma FlowFactorNonNegative(a1: real, a2: real, h: real)
    requires a1 >= 0.0 && a2 >= 0.0 && h >= 0.0
    ensures FlowFactor(a1, a2, h) >= 0.0
  {
    CubeSign(h);
    FifthNonNegative(h);
    assert a1 * (h * h * h * h * h) >= 0.0;
    assert a2 * (h * h * h) >= 0.0;
  }

  /** `Snorm**2` where `Snorm = np.sqrt(gx**2 + gy**2)`. */
  function SquaredNorm(gx: real, gy: real): real {
    gx * gx + gy * gy
  }

  /** The diffusivity at one corner from its thickness `h` and slope components `gx`, `gy`. */
  function CornerDiffusivity(a1: real, a2: real, h: real, gx: real, gy: real): real {
    FlowFactor(a1, a2, h) * SquaredNorm(gx, gy)
  }

  lemma CornerDiffusivityNonNegative(a1: real, a2: real, h: real, gx: real, gy: real)
    requires a1 >= 0.0 && a2 >= 0.0 && h >= 0.0
    ensures CornerDiffusivity(a1, a2, h, gx, gy) >= 0.0
  {
    FlowFactorNonNegative(a1, a2, h);
    assert SquaredNorm(gx, gy) >= 0.0;
  }

  lemma CornerDiffusivityVanishes(a1: real, a2: real, h: real, gx: real, gy: real)
    requires h == 0.0 || (gx == 0.0 && gy == 0.0)
    ensures CornerDiffusivity(a1, a2, h, gx, gy) == 0.0
  {
    if h == 0.0 {
      assert FlowFactor(a1, a2, h) == 0.0;
    } else {
      assert SquaredNorm(gx, gy) == 0.0;
    }
  }

  /** Thickness at corner `(i, j)`: the mean of the four surrounding cells. */
  function CornerThickness(h: Field, i: nat, j: nat): real
    requires h.Valid() && i + 1 < h.rows && j + 1 < h.cols
  {
    (h.At(i, j) + h.At(i, j + 1) + h.At(i + 1, j) + h.At(i + 1, j + 1)) / 4.0
  }

  /** Axis-0 surface slope at corner `(i, j)`: the two axis-0 differences beside it, each over `dx`, averaged. */
  function CornerSlope0(s: Field, dx: real, i: nat, j: nat): real
    requires s.Valid() && i + 1 < s.rows && j + 1 < s.cols && dx != 0.0
  {
    ((s.At(i + 1, j) - s.At(i, j)) / dx + (s.At(i + 1, j + 1) - s.At(i, j + 1)) / dx) / 2.0
  }

  /** Axis-1 surface slope at corner `(i, j)`: the two axis-1 differences beside it, each over `dy`, averaged. */
  function CornerSlope1(s: Field, dy: real, i: nat, j: nat): real
    requires s.Valid() && i + 1 < s.rows && j + 1 < s.cols && dy != 0.0
  {
    ((s.At(i, j + 1) - s.At(i, j)) / dy + (s.At(i + 1, j + 1) - s.At(i + 1, j)) / dy) / 2.0
  }

  predicate KernelInputs(h: Field, s: Field, dx: real, dy: real) {
    SameShape(h, s) && h.rows >= 1 && h.cols >= 1 && dx != 0.0 && dy != 0.0
  }

  /** `avy(dSdx)` for `dSdx = np.diff(S, axis=0) / dx`: the axis-0 slope at every corner. */
  function Slope0(s: Field, dx: real): (g: Field)
    requires s.Valid() && s.rows >= 1 && s.cols >= 1 && dx != 0.0
    ensures g.HasShape(s.rows - 1, s.cols - 1)
    ensures forall i, j :: 0 <= i < g.rows && 0 <= j < g.cols ==> g.At(i, j) == CornerSlope0(s, dx, i, j)
  {
    var q := DivBy(Diff0(s), dx);
    Slope0Stencil(s, dx, q);
    Avy(q)
  }

  lemma Slope0Stencil(s: Field, dx: real, q: Field)
    requires s.Valid() && s.rows >= 1 && s.cols >= 1 && dx != 0.0
    requires q == DivBy(Diff0(s), dx)
    ensures forall i, j :: 0 <= i < s.rows - 1 && 0 <= j < s.cols - 1 ==> Avy(q).At(i, j) == CornerSlope0(s, dx, i, j)
  {
    var g := Avy(q);
    forall i, j | 0 <= i < g.rows && 0 <= j < g.cols
      ensures g.At(i, j) == CornerSlope0(s, dx, i, j)
    {
      assert q.At(i, j) == (s.At(i + 1, j) - s.At(i, j)) / dx;
      assert q.At(i, j + 1) == (s.At(i + 1, j + 1) - s.At(i, j + 1)) / dx;
    }
  }

  /** `avx(dSdy)` for `dSdy = np.diff(S, axis=1) / dy`: the axis-1 slope at every corner. */
  function Slope1(s: Field, dy: real): (g: Field)
    requires s.Valid() && s.rows >= 1 && s.cols >= 1 && dy != 0.0
    ensures g.HasShape(s.rows - 1, s.cols - 1)
    ensures forall i, j :: 0 <= i < g.rows && 0 <= j < g.cols ==> g.At(i, j) == CornerSlope1(s, dy, i, j)
  {
    var q := DivBy(Diff1(s), dy);
    Slope1Stencil(s, dy, q);
    Avx(q)
  }

  lemma Slope1Stencil(s: Field, dy: real, q: Field)
    requires s.Valid() && s.rows >= 1 && s.cols >= 1 && dy != 0.0
    requires q == DivBy(Diff1(s), dy)
    ensures forall i, j :: 0 <= i < s.rows - 1 && 0 <= j < s.cols - 1 ==> Avx(q).At(i, j) == CornerSlope1(s, dy, i, j)
  {
    var g := Avx(q);
    forall i, j | 0 <= i < g.rows && 0 <= j < g.cols
      ensures g.At(i, j) == CornerSlope1(s, dy, i, j)
    {
      assert q.At(i, j) == (s.At(i, j + 1) - s.At(i, j)) / dy;
      assert q.At(i + 1, j) == (s.At(i + 1, j + 1) - s.At(i + 1, j)) / dy;
    }
  }

  /**
   The diffusivity field `D = ((a1 * av(H)**5) + (a2 * av(H)**3)) * Snorm**2`, with
   `Snorm**2 = avy(dSdx)**2 + avx(dSdy)**2`, built corner by corner from `av(H)`,
   `Slope0` and `Slope1`. The contract states each corner in closed form from the
   neighbouring cells of `H` and `S`.
   */
  function Diffusivity(h: Field, s: Field, a1: real, a2: real, dx: real, dy: real): (d: Field)
    requires KernelInputs(h, s, dx, dy)
    ensures d.HasShape(h.rows - 1, h.cols - 1)
    ensures forall i, j :: 0 <= i < d.rows && 0 <= j < d.cols ==>
      d.At(i, j) == CornerDiffusivity(a1, a2, CornerThickness(h, i, j), CornerSlope0(s, dx, i, j), CornerSlope1(s, dy, i, j))
  {
    var hc := Av(h);
    var gx := Slope0(s, dx);
    var gy := Slope1(s, dy);
    Field(hc.rows, hc.cols,
      seq(hc.rows, i requires 0 <= i < hc.rows =>
        seq(hc.cols, j requires 0 <= j < hc.cols => CornerDiffusivity(a1, a2, hc.At(i, j), gx.At(i, j), gy.At(i, j)))))
  }

  /** The three intermediate arrays of `compute_D` all land on the `(n-1) x (m-1)` corners, the shape of `D`. */
  lemma KernelShapesAgree(h: Field, s: Field, dx: real, dy: real)
    requires KernelInputs(h, s, dx, dy)
    ensures Avy(DivBy(Diff0(s), dx)).HasShape(s.rows - 1, s.cols - 1)
    ensures Avx(DivBy(Diff1(s), dy)).HasShape(s.rows - 1, s.cols - 1)
    ensures Av(h).HasShape(s.rows - 1, s.cols - 1)
  {
  }

  /** With non-negative coefficients and thickness the diffusivity is non-negative at every corner. */
  lemma DiffusivityNonNegative(h: Field, s: Field, a1: real, a2: real, dx: real, dy: real)
    requires KernelInputs(h, s, dx, dy)
    requires a1 >= 0.0 && a2 >= 0.0 && NonNegative(h)
    ensures NonNegative(Diffusivity(h, s, a1, a2, dx, dy))
  {
    var d := Diffusivity(h, s, a1, a2, dx, dy);
    forall i, j | 0 <= i < d.rows && 0 <= j < d.cols
      ensures d.At(i, j) >= 0.0
    {
      assert h.At(i, j) >= 0.0 && h.At(i, j + 1) >= 0.0 && h.At(i + 1, j) >= 0.0 && h.At(i + 1, j + 1) >= 0.0;
      CornerDiffusivityNonNegative(a1, a2, CornerThickness(h, i, j), CornerSlope0(s, dx, i, j), CornerSlope1(s, dy, i, j));
    }
  }

  /** Wherever the corner-averaged thickness `av(H)` is zero, the diffusivity is zero, whatever the slope. */
  lemma DiffusivityVanishesWithoutIce(h: Field, s: Field, a1: real, a2: real, dx: real, dy: real)
    requires KernelInputs(h, s, dx, dy)
    ensures forall i, j :: 0 <= i < h.rows - 1 && 0 <= j < h.cols - 1 && Av(h).At(i, j) == 0.0 ==>
      Diffusivity(h, s, a1, a2, dx, dy).At(i, j) == 0.0
  {
    var d := Diffusivity(h, s, a1, a2, dx, dy);
    forall i, j | 0 <= i < h.rows - 1 && 0 <= j < h.cols - 1 && Av(h).At(i, j) == 0.0
      ensures d.At(i, j) == 0.0
    {
      CornerDiffusivityVanishes(a1, a2, CornerThickness(h, i, j), CornerSlope0(s, dx, i, j), CornerSlope1(s, dy, i, j));
    }
  }

  /** Ice-free terrain has zero diffusivity everywhere. */
  lemma DiffusivityOfZeroThickness(s: Field, a1: real, a2: real, dx: real, dy: real)
    requires s.Valid() && s.rows >= 1 && s.cols >= 1 && dx != 0.0 && dy != 0.0
    ensures Diffusivity(Zeros(s.rows, s.cols), s, a1, a2, dx, dy) == Zeros(s.rows - 1, s.cols - 1)
  {
    var h := Zeros(s.rows, s.cols);
    var d := Diffusivity(h, s, a1, a2, dx, dy);
    forall i, j | 0 <= i < d.rows && 0 <= j < d.cols
      ensures d.At(i, j) == 0.0
    {
      assert CornerThickness(h, i, j) == 0.0;
      CornerDiffusivityVanishes(a1, a2, 0.0, CornerSlope0(s, dx, i, j), CornerSlope1(s, dy, i, j));
    }
    Extensionality(d, Zeros(s.rows - 1, s.cols - 1));
  }

  lemma FlatCornerSlopes(s: Field, k: real, dx: real, dy: real, i: nat, j: nat)
    requires s.Valid() && i + 1 < s.rows && j + 1 < s.cols && dx != 0.0 && dy != 0.0
    requires s.At(i, j) == k && s.At(i, j + 1) == k && s.At(i + 1, j) == k && s.At(i + 1, j + 1) == k
    ensures CornerSlope0(s, dx, i, j) == 0.0 && CornerSlope1(s, dy, i, j) == 0.0
  {
  }

  /** A flat surface has zero slope, so zero diffusivity, whatever the thickness. */
  lemma DiffusivityOfFlatSurface(h: Field, k: real, a1: real, a2: real, dx: real, dy: real)
    requires h.Valid() && h.rows >= 1 && h.cols >= 1 && dx != 0.0 && dy != 0.0
    ensures Diffusivity(h, Const(h.rows, h.cols, k), a1, a2, dx, dy) == Zeros(h.rows - 1, h.cols - 1)
  {
    var s := Const(h.rows, h.cols, k);
    var d := Diffusivity(h, s, a1, a2, dx, dy);
    forall i, j | 0 <= i < d.rows && 0 <= j < d.cols
      ensures d.At(i, j) == 0.0
    {
      FlatCornerSlopes(s, k, dx, dy, i, j);
      CornerDiffusivityVanishes(a1, a2, CornerThickness(h, i, j), 0.0, 0.0);
    }
    Extensionality(d, Zeros(h.rows - 1, h.cols - 1));
  }

  /** The caller's buffers around a `compute_D(D, H, S, dSdx, dSdy, Snorm, ...)` call. */
  datatype KernelBuffers = KernelBuffers(D: Field, dSdx: Field, dSdy: Field, Snorm: Field)

  /**
   The call `compute_D(D, H, S, dSdx, dSdy, Snorm, a1, a2, dx, dy)` seen from its caller:
   `D[:] = ...` writes into the caller's `D`, keeping its shape; `dSdx`, `dSdy` and
   `Snorm` are only rebound to fresh arrays inside the function, so the caller's
   arrays are left as they were. `H` and `S` are only read.
   */
  function ComputeD(buffers: KernelBuffers, h: Field, s: Field, a1: real, a2: real, dx: real, dy: real): (after: KernelBuffers)
    requires KernelInputs(h, s, dx, dy)
    requires buffers.D.HasShape(h.rows - 1, h.cols - 1)
    ensures after.dSdx == buffers.dSdx && after.dSdy == buffers.dSdy && after.Snorm == buffers.Snorm
    ensures after.D.HasShape(buffers.D.rows, buffers.D.cols)
    ensures forall i, j :: 0 <= i < after.D.rows && 0 <= j < after.D.cols ==>
      after.D.At(i, j) == CornerDiffusivity(a1, a2, CornerThickness(h, i, j), CornerSlope0(s, dx, i, j), CornerSlope1(s, dy, i, j))
  {
    buffers.(D := Diffusivity(h, s, a1, a2, dx, dy))
  }
}
