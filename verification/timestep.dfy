/**
 One pass of the explicit time loop shared by every copy of the solver
 (python-package/src/iceflow/solver.py:30-38 and its duplicates):
 the surface `S = B + H`; the mass balance `M = min(β(S − ELA), c)`; the
 diffusivity `D` from the kernel; the edge fluxes `qx`, `qy` from `D` and the
 surface differences; and the interior of `H` advanced by
 `dt·(Δqx + Δqy + M)` and clipped at zero.

 Every array keeps the shape the solver allocates for it: `S`, `M`, `H` are
 `n x m`, `D` is `(n-1) x (m-1)`, `qx` is `(n-1) x (m-2)`, `qy` is `(n-2) x (m-1)`.
 The ring of `H` is never written, which is the zero-thickness boundary.
 */
module TimeStep {
  import opened Fields
  import opened Staggered
  import opened DiffusionKernel

  /** The scalars one step reads: mass-balance slope and limiter, flow-law coefficients, spacings, time step. */
  datatype Config = Config(beta: real, limiter: real, a1: real, a2: real, dx: real, dy: real, dt: real)

  /** Bed `B` and equilibrium-line altitude `ELA` on an `n x m` grid that the solver can allocate (`n, m >= 2`). */
  predicate Terrain(cfg: Config, b: Field, ela: Field) {
    b.Valid() && SameShape(b, ela) && b.rows >= 2 && b.cols >= 2 && cfg.dx != 0.0 && cfg.dy != 0.0
  }

  predicate StepInputs(cfg: Config, b: Field, ela: Field, h: Field) {
    Terrain(cfg, b, ela) && SameShape(b, h)
  }

  /** Mass balance of one cell: `min(β * (s - ela), c)`. */
  function CellMassBalance(beta: real, c: real, s: real, ela: real): (m: real)
    ensures m <= c && m <= beta * (s - ela)
    ensures m == c || m == beta * (s - ela)
  {
    Min(beta * (s - ela), c)
  }

  /** `M = np.minimum(β * (S - ELA), c)` */
  function MassBalance(s: Field, ela: Field, beta: real, c: real): (m: Field)
    requires SameShape(s, ela)
    ensures m.HasShape(s.rows, s.cols)
    ensures forall i, j :: 0 <= i < s.rows && 0 <= j < s.cols ==> m.At(i, j) == CellMassBalance(beta, c, s.At(i, j), ela.At(i, j))
  {
    Field(s.rows, s.cols,
      seq(s.rows, i requires 0 <= i < s.rows =>
        seq(s.cols, j requires 0 <= j < s.cols => CellMassBalance(beta, c, s.At(i, j), ela.At(i, j)))))
  }

  /** With a non-negative slope β, a higher surface never gets a smaller mass balance. */
  lemma MassBalanceMonotone(beta: real, c: real, s1: real, s2: real, ela: real)
    requires beta >= 0.0 && s1 <= s2
    ensures CellMassBalance(beta, c, s1, ela) <= CellMassBalance(beta, c, s2, ela)
  {
    assert beta * (s2 - ela) - beta * (s1 - ela) == beta * (s2 - s1);
    ProductNonNegative(beta, s2 - s1);
  }

  /** The flux across one edge: the edge-averaged diffusivity times the surface difference, over the spacing. */
  function EdgeFlux(dMean: real, ds: real, spacing: real): real
    requires spacing != 0.0
  {
    dMean * ds / spacing
  }

  /** `qx = avy(D) * np.diff(S[:, 1:-1], axis=0) / dx`, of shape `(n-1) x (m-2)`. */
  function FluxX(d: Field, s: Field, dx: real): (q: Field)
    requires s.Valid() && s.rows >= 2 && s.cols >= 2 && dx != 0.0
    requires d.HasShape(s.rows - 1, s.cols - 1)
    ensures q.HasShape(s.rows - 1, s.cols - 2)
    ensures forall i, j :: 0 <= i < q.rows && 0 <= j < q.cols ==>
      q.At(i, j) == EdgeFlux((d.At(i, j) + d.At(i, j + 1)) / 2.0, s.At(i + 1, j + 1) - s.At(i, j + 1), dx)
  {
    var dm := Avy(d);
    var ds := Diff0(Slice(s, 0, 0, 1, 1));
    Field(dm.rows, dm.cols,
      seq(dm.rows, i requires 0 <= i < dm.rows =>
        seq(dm.cols, j requires 0 <= j < dm.cols => EdgeFlux(dm.At(i, j), ds.At(i, j), dx))))
  }

  /** `qy = avx(D) * np.diff(S[1:-1, :], axis=1) / dy`, of shape `(n-2) x (m-1)`. */
  function FluxY(d: Field, s: Field, dy: real): (q: Field)
    requires s.Valid() && s.rows >= 2 && s.cols >= 2 && dy != 0.0
    requires d.HasShape(s.rows - 1, s.cols - 1)
    ensures q.HasShape(s.rows - 2, s.cols - 1)
    ensures forall i, j :: 0 <= i < q.rows && 0 <= j < q.cols ==>
      q.At(i, j) == EdgeFlux((d.At(i, j) + d.At(i + 1, j)) / 2.0, s.At(i + 1, j + 1) - s.At(i + 1, j), dy)
  {
    var dm := Avx(d);
    var ds := Diff1(Slice(s, 1, 1, 0, 0));
    Field(dm.rows, dm.cols,
      seq(dm.rows, i requires 0 <= i < dm.rows =>
        seq(dm.cols, j requires 0 <= j < dm.cols => EdgeFlux(dm.At(i, j), ds.At(i, j), dy))))
  }

  /** With zero diffusivity at every corner both fluxes vanish, whatever the surface. */
  lemma FluxesWithoutDiffusivity(s: Field, dx: real, dy: real)
    requires s.Valid() && s.rows >= 2 && s.cols >= 2 && dx != 0.0 && dy != 0.0
    ensures FluxX(Zeros(s.rows - 1, s.cols - 1), s, dx) == Zeros(s.rows - 1, s.cols - 2)
    ensures FluxY(Zeros(s.rows - 1, s.cols - 1), s, dy) == Zeros(s.rows - 2, s.cols - 1)
  {
    FluxXWithoutDiffusivity(s, dx);
    FluxYWithoutDiffusivity(s, dy);
  }

  lemma FluxXWithoutDiffusivity(s: Field, dx: real)
    requires s.Valid() && s.rows >= 2 && s.cols >= 2 && dx != 0.0
    ensures FluxX(Zeros(s.rows - 1, s.cols - 1), s, dx) == Zeros(s.rows - 1, s.cols - 2)
  {
    hide FluxX;
    var z := Zeros(s.rows - 1, s.cols - 1);
    var qx := FluxX(z, s, dx);
    forall i, j | 0 <= i < qx.rows && 0 <= j < qx.cols
      ensures qx.At(i, j) == 0.0
    {
      assert z.At(i, j) == 0.0 && z.At(i, j + 1) == 0.0;
      EdgeFluxOfZero(s.At(i + 1, j + 1) - s.At(i, j + 1), dx);
    }
    Extensionality(qx, Zeros(s.rows - 1, s.cols - 2));
  }

  lemma FluxYWithoutDiffusivity(s: Field, dy: real)
    requires s.Valid() && s.rows >= 2 && s.cols >= 2 && dy != 0.0
    ensures FluxY(Zeros(s.rows - 1, s.cols - 1), s, dy) == Zeros(s.rows - 2, s.cols - 1)
  {
    hide FluxY;
    var z := Zeros(s.rows - 1, s.cols - 1);
    var qy := FluxY(z, s, dy);
    forall i, j | 0 <= i < qy.rows && 0 <= j < qy.cols
      ensures qy.At(i, j) == 0.0
    {
      assert z.At(i, j) == 0.0 && z.At(i + 1, j) == 0.0;
      EdgeFluxOfZero(s.At(i + 1, j + 1) - s.At(i + 1, j), dy);
    }
    Extensionality(qy, Zeros(s.rows - 2, s.cols - 1));
  }

  lemma EdgeFluxOfZero(ds: real, spacing: real)
    requires spacing != 0.0
    ensures EdgeFlux((0.0 + 0.0) / 2.0, ds, spacing) == 0.0
  {
  }

  /** With a non-negative diffusivity and `dx > 0`, each axis-0 flux has the sign of the surface difference it is taken across. */
  lemma FluxXFollowsSlope(d: Field, s: Field, dx: real)
    requires s.Valid() && s.rows >= 2 && s.cols >= 2 && dx > 0.0
    requires d.HasShape(s.rows - 1, s.cols - 1) && NonNegative(d)
    ensures forall i, j :: 0 <= i < s.rows - 1 && 0 <= j < s.cols - 2 ==>
      SameSign(FluxX(d, s, dx).At(i, j), s.At(i + 1, j + 1) - s.At(i, j + 1))
  {
    var qx := FluxX(d, s, dx);
    forall i, j | 0 <= i < qx.rows && 0 <= j < qx.cols
      ensures SameSign(qx.At(i, j), s.At(i + 1, j + 1) - s.At(i, j + 1))
    {
      var dm := (d.At(i, j) + d.At(i, j + 1)) / 2.0;
      assert dm >= 0.0;
      EdgeFluxFollowsSlope(dm, s.At(i + 1, j + 1) - s.At(i, j + 1), dx);
    }
  }

  /** With a non-negative diffusivity and `dy > 0`, each axis-1 flux has the sign of the surface difference it is taken across. */
  lemma FluxYFollowsSlope(d: Field, s: Field, dy: real)
    requires s.Valid() && s.rows >= 2 && s.cols >= 2 && dy > 0.0
    requires d.HasShape(s.rows - 1, s.cols - 1) && NonNegative(d)
    ensures forall i, j :: 0 <= i < s.rows - 2 && 0 <= j < s.cols - 1 ==>
      SameSign(FluxY(d, s, dy).At(i, j), s.At(i + 1, j + 1) - s.At(i + 1, j))
  {
    var qy := FluxY(d, s, dy);
    forall i, j | 0 <= i < qy.rows && 0 <= j < qy.cols
      ensures SameSign(qy.At(i, j), s.At(i + 1, j + 1) - s.At(i + 1, j))
    {
      var dm := (d.At(i, j) + d.At(i + 1, j)) / 2.0;
      assert dm >= 0.0;
      EdgeFluxFollowsSlope(dm, s.At(i + 1, j + 1) - s.At(i + 1, j), dy);
    }
  }

  /** `q` is zero where `ds` is, and otherwise zero or of the sign of `ds`. */
  predicate SameSign(q: real, ds: real) {
    (ds >= 0.0 ==> q >= 0.0) && (ds <= 0.0 ==> q <= 0.0)
  }

  lemma EdgeFluxFollowsSlope(dMean: real, ds: real, spacing: real)
    requires dMean >= 0.0 && spacing > 0.0
    ensures SameSign(EdgeFlux(dMean, ds, spacing), ds)
  {
    if ds >= 0.0 {
      assert dMean * ds >= 0.0;
    } else {
      assert dMean * ds <= 0.0;
    }
  }

  lemma ProductNonNegative(x: real, y: real)
    requires x >= 0.0 && y >= 0.0
    ensures x * y >= 0.0
  {
  }

  /**
   Net rate of change at interior cell `(i + 1, j + 1)`: the flux differences
   `np.diff(qx, axis=0)` and `np.diff(qy, axis=1)` plus the mass balance there.
   */
  function NetRate(qx: Field, qy: Field, m: Field, i: nat, j: nat): real
    requires qx.Valid() && qy.Valid() && m.Valid()
    requires i + 1 < qx.rows && j < qx.cols && i < qy.rows && j + 1 < qy.cols && i + 1 < m.rows && j + 1 < m.cols
  {
    (qx.At(i + 1, j) - qx.At(i, j)) + (qy.At(i, j + 1) - qy.At(i, j)) + m.At(i + 1, j + 1)
  }

  /** The new thickness of one interior cell: `max(h + dt * rate, 0)`. */
  function CellUpdate(h: real, dt: real, rate: real): (r: real)
    ensures r >= 0.0
    ensures r >= h + dt * rate
    ensures r == 0.0 || r == h + dt * rate
  {
    Max(h + dt * rate, 0.0)
  }

  predicate UpdateInputs(h: Field, qx: Field, qy: Field, m: Field) {
    h.Valid() && h.rows >= 2 && h.cols >= 2
    && qx.HasShape(h.rows - 1, h.cols - 2) && qy.HasShape(h.rows - 2, h.cols - 1) && m.HasShape(h.rows, h.cols)
  }

  /** `H[1:-1, 1:-1] = np.maximum(H[1:-1, 1:-1] + dt * (...), 0.0)`: the inside is advanced and clipped at zero, the ring is kept. */
  function Update(h: Field, qx: Field, qy: Field, m: Field, dt: real): (r: Field)
    requires UpdateInputs(h, qx, qy, m)
    ensures r.HasShape(h.rows, h.cols)
    ensures forall i, j :: 0 <= i < h.rows && 0 <= j < h.cols && OnRing(h.rows, h.cols, i, j) ==> r.At(i, j) == h.At(i, j)
    ensures forall i, j :: 0 <= i < h.rows - 2 && 0 <= j < h.cols - 2 ==>
      r.At(i + 1, j + 1) == CellUpdate(h.At(i + 1, j + 1), dt, NetRate(qx, qy, m, i, j))
  {
    var x := Field(h.rows - 2, h.cols - 2,
      seq(h.rows - 2, i requires 0 <= i < h.rows - 2 =>
        seq(h.cols - 2, j requires 0 <= j < h.cols - 2 => CellUpdate(h.At(i + 1, j + 1), dt, NetRate(qx, qy, m, i, j)))));
    SetInterior(h, x)
  }

  /** The update never writes the ring, and leaves no interior cell negative: a non-negative field with a zero ring stays so. */
  lemma UpdateKeepsInvariant(h: Field, qx: Field, qy: Field, m: Field, dt: real)
    requires UpdateInputs(h, qx, qy, m)
    ensures ZeroRing(h) ==> ZeroRing(Update(h, qx, qy, m, dt))
    ensures NonNegative(h) ==> NonNegative(Update(h, qx, qy, m, dt))
  {
    var r := Update(h, qx, qy, m, dt);
    if NonNegative(h) {
      forall i, j | 0 <= i < h.rows && 0 <= j < h.cols
        ensures r.At(i, j) >= 0.0
      {
        if !OnRing(h.rows, h.cols, i, j) {
          assert r.At((i - 1) + 1, (j - 1) + 1) == CellUpdate(h.At(i, j), dt, NetRate(qx, qy, m, i - 1, j - 1));
        }
      }
    }
  }

  /** Every array the time loop holds after one pass. */
  datatype StepState = StepState(S: Field, M: Field, D: Field, qx: Field, qy: Field, H: Field)

  /** One pass of the time loop from thickness `h`. */
  function Step(cfg: Config, b: Field, ela: Field, h: Field): (st: StepState)
    requires StepInputs(cfg, b, ela, h)
    ensures st.S.HasShape(h.rows, h.cols) && st.M.HasShape(h.rows, h.cols) && st.H.HasShape(h.rows, h.cols)
    ensures st.D.HasShape(h.rows - 1, h.cols - 1)
    ensures st.qx.HasShape(h.rows - 1, h.cols - 2) && st.qy.HasShape(h.rows - 2, h.cols - 1)
  {
    var s := Add(b, h);
    var m := MassBalance(s, ela, cfg.beta, cfg.limiter);
    var d := Diffusivity(h, s, cfg.a1, cfg.a2, cfg.dx, cfg.dy);
    var qx := FluxX(d, s, cfg.dx);
    var qy := FluxY(d, s, cfg.dy);
    StepState(s, m, d, qx, qy, Update(h, qx, qy, m, cfg.dt))
  }

  /** The surface a pass computes is bed plus ice. */
  lemma StepSurface(cfg: Config, b: Field, ela: Field, h: Field)
    requires StepInputs(cfg, b, ela, h)
    ensures Step(cfg, b, ela, h).S == Add(b, h)
  {
  }

  /**
   One pass cell by cell, in terms of its inputs: the ring of `H` is kept, and
   each interior cell is advanced by the flux differences plus the mass
   balance of its own surface `b + h` and clipped at zero.
   */
  lemma StepStages(cfg: Config, b: Field, ela: Field, h: Field)
    requires StepInputs(cfg, b, ela, h)
    ensures var st := Step(cfg, b, ela, h);
      && (forall i, j :: 0 <= i < h.rows && 0 <= j < h.cols && OnRing(h.rows, h.cols, i, j) ==> st.H.At(i, j) == h.At(i, j))
      && (forall i, j :: 0 <= i < h.rows - 2 && 0 <= j < h.cols - 2 ==>
            && st.M.At(i + 1, j + 1) == CellMassBalance(cfg.beta, cfg.limiter, b.At(i + 1, j + 1) + h.At(i + 1, j + 1), ela.At(i + 1, j + 1))
            && st.H.At(i + 1, j + 1) == CellUpdate(h.At(i + 1, j + 1), cfg.dt, NetRate(st.qx, st.qy, st.M, i, j)))
  {
    var st := Step(cfg, b, ela, h);
    var s := Add(b, h);
    var m := MassBalance(s, ela, cfg.beta, cfg.limiter);
    var d := Diffusivity(h, s, cfg.a1, cfg.a2, cfg.dx, cfg.dy);
    var qx := FluxX(d, s, cfg.dx);
    var qy := FluxY(d, s, cfg.dy);
    assert st == StepState(s, m, d, qx, qy, Update(h, qx, qy, m, cfg.dt));
    hide Step, Diffusivity, FluxX, FluxY;
    forall i, j | 0 <= i < h.rows && 0 <= j < h.cols
      ensures st.M.At(i, j) == CellMassBalance(cfg.beta, cfg.limiter, b.At(i, j) + h.At(i, j), ela.At(i, j))
    {
      assert s.At(i, j) == b.At(i, j) + h.At(i, j);
    }
  }

  /** One pass keeps a thickness non-negative and its ring at zero. */
  lemma StepKeepsInvariant(cfg: Config, b: Field, ela: Field, h: Field)
    requires StepInputs(cfg, b, ela, h)
    ensures NonNegative(h) ==> NonNegative(Step(cfg, b, ela, h).H)
    ensures ZeroRing(h) ==> ZeroRing(Step(cfg, b, ela, h).H)
  {
    var st := Step(cfg, b, ela, h);
    UpdateKeepsInvariant(h, st.qx, st.qy, st.M, cfg.dt);
  }

  /** Where the mass balance of bare ground is nowhere positive inside the ring, bare ground stays bare. */
  predicate NoAccumulationOnBareGround(cfg: Config, b: Field, ela: Field)
    requires Terrain(cfg, b, ela)
  {
    forall i, j :: 0 < i < b.rows - 1 && 0 < j < b.cols - 1 ==> CellMassBalance(cfg.beta, cfg.limiter, b.At(i, j), ela.At(i, j)) <= 0.0
  }

  /** Zero thickness is a fixed point of a pass when bare ground accumulates nothing and `dt >= 0`. */
  lemma BareGroundIsFixedPoint(cfg: Config, b: Field, ela: Field)
    requires Terrain(cfg, b, ela) && cfg.dt >= 0.0
    requires NoAccumulationOnBareGround(cfg, b, ela)
    ensures Step(cfg, b, ela, Zeros(b.rows, b.cols)).H == Zeros(b.rows, b.cols)
  {
    var h := Zeros(b.rows, b.cols);
    var st := Step(cfg, b, ela, h);
    StepStages(cfg, b, ela, h);
    var s := st.S;
    assert s.rows == b.rows && s.cols == b.cols;
    DiffusivityOfZeroThickness(s, cfg.a1, cfg.a2, cfg.dx, cfg.dy);
    assert st.D == Zeros(b.rows - 1, b.cols - 1);
    FluxesWithoutDiffusivity(s, cfg.dx, cfg.dy);
    assert st.qx == Zeros(b.rows - 1, b.cols - 2);
    assert st.qy == Zeros(b.rows - 2, b.cols - 1);
    BareSurfaceMassBalance(cfg, b, ela, s);
    UpdateWithoutFlux(h, st.M, cfg.dt);
  }

  /** With no ice the surface is the bed, so the mass balance inside the ring is at most zero. */
  lemma BareSurfaceMassBalance(cfg: Config, b: Field, ela: Field, s: Field)
    requires Terrain(cfg, b, ela) && NoAccumulationOnBareGround(cfg, b, ela)
    requires s == Add(b, Zeros(b.rows, b.cols))
    ensures forall i, j :: 0 < i < b.rows - 1 && 0 < j < b.cols - 1 ==> MassBalance(s, ela, cfg.beta, cfg.limiter).At(i, j) <= 0.0
  {
    var z := Zeros(b.rows, b.cols);
    forall i, j | 0 < i < b.rows - 1 && 0 < j < b.cols - 1
      ensures MassBalance(s, ela, cfg.beta, cfg.limiter).At(i, j) <= 0.0
    {
      assert s.At(i, j) == b.At(i, j) + z.At(i, j);
    }
  }

  /** Zero thickness under zero fluxes stays zero where the mass balance is at most zero and `dt >= 0`. */
  lemma UpdateWithoutFlux(h: Field, m: Field, dt: real)
    requires h.rows >= 2 && h.cols >= 2 && h == Zeros(h.rows, h.cols) && m.HasShape(h.rows, h.cols) && dt >= 0.0
    requires forall i, j :: 0 < i < h.rows - 1 && 0 < j < h.cols - 1 ==> m.At(i, j) <= 0.0
    ensures Update(h, Zeros(h.rows - 1, h.cols - 2), Zeros(h.rows - 2, h.cols - 1), m, dt) == h
  {
    var qx := Zeros(h.rows - 1, h.cols - 2);
    var qy := Zeros(h.rows - 2, h.cols - 1);
    var r := Update(h, qx, qy, m, dt);
    forall i, j | 0 <= i < h.rows && 0 <= j < h.cols
      ensures r.At(i, j) == h.At(i, j)
    {
      if !OnRing(h.rows, h.cols, i, j) {
        var rate := NetRate(qx, qy, m, i - 1, j - 1);
        assert rate == m.At(i, j);
        NonPositiveGrowth(dt, rate);
        assert r.At((i - 1) + 1, (j - 1) + 1) == CellUpdate(0.0, dt, rate);
      }
    }
    Extensionality(r, h);
  }

  lemma NonPositiveGrowth(dt: real, rate: real)
    requires dt >= 0.0 && rate <= 0.0
    ensures CellUpdate(0.0, dt, rate) == 0.0
  {
    assert dt * rate <= 0.0;
  }
}
