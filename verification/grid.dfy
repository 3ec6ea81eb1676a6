/**
 The grid the solver runs on: the spacing `dx = lx / nx`, the cell centres from
 `np.arange` (whose stop is EXCLUDED), and the `np.meshgrid` of the centres on
 which the bed and the equilibrium-line altitude are sampled
 (python-package/src/iceflow/tools.py:5-24, python-package/src/iceflow_try/tools.py:12-32
 and their copies in materials/).

 The bed and ELA formulas (`exp`, `arctan`) are not modelled: they enter as
 pointwise functions of the centre coordinates, so that only the layout of the
 sampled arrays matters.
 */
module Grid {
  import opened Fields
  import opened Errors

  /** The least integer not below `x`. */
  function Ceil(x: real): (n: int)
    ensures x <= n as real < x + 1.0
  {
    -((-x).Floor)
  }

  /** `len(np.arange(start, stop, step))`: `ceil((stop - start) / step)`, and 0 when that is not positive. */
  function ArangeLength(start: real, stop: real, step: real): nat
    requires step != 0.0
  {
    var q := (stop - start) / step;
    if q <= 0.0 then 0 else Ceil(q)
  }

  /** `np.arange(start, stop, step)`: `start, start + step, ...` up to `stop` exclusive. */
  function Arange(start: real, stop: real, step: real): (r: seq<real>)
    requires step != 0.0
    ensures |r| == ArangeLength(start, stop, step)
    ensures forall k :: 0 <= k < |r| ==> r[k] == start + k as real * step
  {
    seq(ArangeLength(start, stop, step), k => start + k as real * step)
  }

  /**
   With a positive step, every element of the range lies strictly below `stop`
   and the first value left out does not: the range is the longest run of
   steps from `start` that stays short of `stop`.
   */
  lemma ArangeStopsBeforeStop(start: real, stop: real, step: real)
    requires step > 0.0
    ensures forall k :: 0 <= k < |Arange(start, stop, step)| ==> Arange(start, stop, step)[k] < stop
    ensures start + |Arange(start, stop, step)| as real * step >= stop
  {
    var r := Arange(start, stop, step);
    var q := (stop - start) / step;
    assert q * step == stop - start;
    forall k | 0 <= k < |r|
      ensures r[k] < stop
    {
      assert (k as real) < q;
      assert (k as real) * step < q * step;
    }
    if q > 0.0 {
      var n := |r| as real;
      assert n >= q;
      assert n * step >= q * step;
    }
  }

  /** With a negative step the range runs downward, every element strictly above `stop`, and the first value left out is not. */
  lemma ArangeStopsAboveStop(start: real, stop: real, step: real)
    requires step < 0.0
    ensures forall k :: 0 <= k < |Arange(start, stop, step)| ==> Arange(start, stop, step)[k] > stop
    ensures start + |Arange(start, stop, step)| as real * step <= stop
  {
    var r := Arange(start, stop, step);
    var q := (stop - start) / step;
    assert q * step == stop - start;
    forall k | 0 <= k < |r|
      ensures r[k] > stop
    {
      assert (k as real) < q;
      assert (k as real) * step > q * step;
    }
    if q > 0.0 {
      var n := |r| as real;
      assert n >= q;
      assert n * step <= q * step;
    }
  }

  /** The centres `np.arange(-l/2 + d/2, l/2 - d/2, d)` along one axis of length `l` with spacing `d`. */
  function Centres(l: real, d: real): (c: seq<real>)
    requires d != 0.0
  {
    Arange(-l / 2.0 + d / 2.0, l / 2.0 - d / 2.0, d)
  }

  /**
   With `d = l / n`, the axis gets `n - 1` centres, not `n`: the stop
   `l/2 - d/2` is the centre of the last cell, and `arange` leaves it out.
   With `n <= 1` there is no centre at all.
   */
  lemma CentreCount(l: real, n: int)
    requires l != 0.0 && n != 0
    ensures |Centres(l, l / n as real)| == if n >= 1 then n - 1 else 0
  {
    var d := l / n as real;
    var q := ((l / 2.0 - d / 2.0) - (-l / 2.0 + d / 2.0)) / d;
    assert l == n as real * d;
    assert q == (l - d) / d;
    assert q * d == (n - 1) as real * d;
    assert q == (n - 1) as real;
  }

  /** On a positive axis, the centres are the first `n - 1` of the `n` cell centres `-l/2 + d/2 + k*d`; the largest is `l/2 - 3d/2`. */
  lemma CentresAreCellCentres(l: real, n: int)
    requires l > 0.0 && n >= 2
    ensures var d := l / n as real; var c := Centres(l, d);
      && |c| == n - 1
      && (forall k :: 0 <= k < |c| ==> c[k] == -l / 2.0 + d / 2.0 + k as real * d && c[k] < l / 2.0 - d / 2.0)
      && c[|c| - 1] == l / 2.0 - 3.0 * d / 2.0
  {
    var d := l / n as real;
    assert d > 0.0;
    CentreCount(l, n);
    ArangeStopsBeforeStop(-l / 2.0 + d / 2.0, l / 2.0 - d / 2.0, d);
    assert l == n as real * d;
    assert (n - 2) as real * d == n as real * d - 2.0 * d;
  }

  /**
   `c` lists cell centres of an axis of length `l` with spacing `d`: element
   `k` is `-l/2 + d/2 + k*d`, and with a positive spacing every one lies below
   the excluded stop `l/2 - d/2`.
   */
  predicate CellCentres(c: seq<real>, l: real, d: real) {
    forall k :: 0 <= k < |c| ==> c[k] == -l / 2.0 + d / 2.0 + k as real * d && (d > 0.0 ==> c[k] < l / 2.0 - d / 2.0)
  }

  lemma CentresAreCellCentresOf(l: real, d: real)
    requires d != 0.0
    ensures CellCentres(Centres(l, d), l, d)
  {
    if d > 0.0 {
      ArangeStopsBeforeStop(-l / 2.0 + d / 2.0, l / 2.0 - d / 2.0, d);
    }
  }

  /** The pair `Xc, Yc = np.meshgrid(xc, yc)`. */
  datatype Mesh = Mesh(Xc: Field, Yc: Field)

  /**
   `np.meshgrid(xc, yc)` in its default 'xy' layout: both arrays are
   `len(yc) x len(xc)`; `Xc` repeats `xc` along every row and `Yc` repeats
   `yc` down every column.
   */
  function Meshgrid(xc: seq<real>, yc: seq<real>): (g: Mesh)
    ensures g.Xc.HasShape(|yc|, |xc|) && g.Yc.HasShape(|yc|, |xc|)
    ensures forall i, j :: 0 <= i < |yc| && 0 <= j < |xc| ==> g.Xc.At(i, j) == xc[j] && g.Yc.At(i, j) == yc[i]
  {
    Mesh(Field(|yc|, |xc|, seq(|yc|, _ => xc)),
         Field(|yc|, |xc|, seq(|yc|, i requires 0 <= i < |yc| => seq(|xc|, _ => yc[i]))))
  }

  /** An array computed elementwise from the mesh, like `B` and `ELA`. */
  function Sample(g: Mesh, f: (real, real) -> real): (a: Field)
    requires SameShape(g.Xc, g.Yc)
    ensures a.HasShape(g.Xc.rows, g.Xc.cols)
    ensures forall i, j :: 0 <= i < a.rows && 0 <= j < a.cols ==> a.At(i, j) == f(g.Xc.At(i, j), g.Yc.At(i, j))
  {
    Zip(g.Xc, g.Yc, f)
  }

  /** A field sampled on the mesh of `xc` and `yc` takes the value of `f` at `(xc[j], yc[i])` in cell `(i, j)`. */
  lemma SampleOnMesh(xc: seq<real>, yc: seq<real>, f: (real, real) -> real)
    ensures var a := Sample(Meshgrid(xc, yc), f);
      && a.HasShape(|yc|, |xc|)
      && forall i, j :: 0 <= i < |yc| && 0 <= j < |xc| ==> a.At(i, j) == f(xc[j], yc[i])
  {
    var g := Meshgrid(xc, yc);
    var a := Sample(g, f);
    forall i, j | 0 <= i < |yc| && 0 <= j < |xc|
      ensures a.At(i, j) == f(xc[j], yc[i])
    {
      assert g.Xc.At(i, j) == xc[j] && g.Yc.At(i, j) == yc[i];
    }
  }

  /** The `Data` object: domain sizes, spacings, centres and their mesh. */
  datatype Data = Data(lx: real, ly: real, dx: real, dy: real, xc: seq<real>, yc: seq<real>, mesh: Mesh)

  /**
   `Data(nx, lx, ny, ly)`: `lx / nx` raises for a zero resolution; otherwise
   there are `nx - 1` cell centres along x (none for `nx <= 1`), `ny - 1` along
   y, and the mesh is `(ny - 1) x (nx - 1)`: rows run over y, and cell
   `(i, j)` holds the coordinates `(xc[j], yc[i])`.
   */
  function MakeData(nx: int, lx: real, ny: int, ly: real): (r: Result<Data>)
    requires lx != 0.0 && ly != 0.0
    ensures r.Failure? <==> nx == 0 || ny == 0
    ensures r.Failure? ==> r.error == ZeroDivisionError
    ensures r.Success? ==> var d := r.value;
      && d.lx == lx && d.ly == ly && d.dx * nx as real == lx && d.dy * ny as real == ly
      && |d.xc| == (if nx >= 1 then nx - 1 else 0) && |d.yc| == (if ny >= 1 then ny - 1 else 0)
      && d.mesh.Xc.HasShape(|d.yc|, |d.xc|) && d.mesh.Yc.HasShape(|d.yc|, |d.xc|)
      && CellCentres(d.xc, lx, d.dx) && CellCentres(d.yc, ly, d.dy)
      && (forall i, j :: 0 <= i < |d.yc| && 0 <= j < |d.xc| ==> d.mesh.Xc.At(i, j) == d.xc[j] && d.mesh.Yc.At(i, j) == d.yc[i])
  {
    if nx == 0 || ny == 0 then Failure(ZeroDivisionError)
    else
      var dx := lx / nx as real;
      var dy := ly / ny as real;
      CentreCount(lx, nx);
      CentreCount(ly, ny);
      CentresAreCellCentresOf(lx, dx);
      CentresAreCellCentresOf(ly, dy);
      var xc := Centres(lx, dx);
      var yc := Centres(ly, dy);
      Success(Data(lx, ly, dx, dy, xc, yc, Meshgrid(xc, yc)))
  }

  /**
   The `Physics` object: the mass-balance and flow parameters, and the bed and
   ELA sampled on the data's mesh (`bedrock_elevation` and
   `equilibrium_line_altitude` as pointwise functions of the centre coordinates).
   */
  datatype Physics = Physics(meanHeight: real, mBalanceSlope: real, mBalance: real, rhoG: real, B: Field, ELA: Field)

  function MakePhysics(mH: real, mBSlope: real, mB: real, rhoG: real, data: Data,
                       bedrock: (real, real) -> real, ela: (real, real) -> real): (p: Physics)
    requires SameShape(data.mesh.Xc, data.mesh.Yc)
    ensures p.meanHeight == mH && p.mBalanceSlope == mBSlope && p.mBalance == mB && p.rhoG == rhoG
    ensures p.B.HasShape(data.mesh.Xc.rows, data.mesh.Xc.cols) && SameShape(p.B, p.ELA)
  {
    Physics(mH, mBSlope, mB, rhoG, Sample(data.mesh, bedrock), Sample(data.mesh, ela))
  }

  /** What `create_data` returns: `B, ELA, β, c, dx, dy, xc, yc`. */
  datatype Dataset = Dataset(B: Field, ELA: Field, beta: real, c: real, dx: real, dy: real, xc: seq<real>, yc: seq<real>)

  const DomainX: real := 250000.0
  const DomainY: real := 200000.0
  const MassBalanceSlope: real := 0.01
  const MassBalanceLimiter: real := 2.0

  /**
   `create_data(nx, ny)`: the domain is 250 km x 200 km, the mass balance has
   slope 0.01 and limiter 2.0; `xc`, `yc` are the cell centres, and `B` and
   `ELA` are `(ny - 1) x (nx - 1)`, sampled at `(xc[j], yc[i])` in cell `(i, j)`.
   */
  function CreateData(nx: int, ny: int, bedrock: (real, real) -> real, ela: (real, real) -> real): (r: Result<Dataset>)
    ensures r.Failure? <==> nx == 0 || ny == 0
    ensures r.Failure? ==> r.error == ZeroDivisionError
    ensures r.Success? ==> var d := r.value;
      && d.beta == 0.01 && d.c == 2.0
      && d.dx * nx as real == 250000.0 && d.dy * ny as real == 200000.0
      && d.B.HasShape(|d.yc|, |d.xc|) && SameShape(d.B, d.ELA)
      && |d.xc| == (if nx >= 1 then nx - 1 else 0) && |d.yc| == (if ny >= 1 then ny - 1 else 0)
      && CellCentres(d.xc, DomainX, d.dx) && CellCentres(d.yc, DomainY, d.dy)
      && (forall i, j :: 0 <= i < |d.yc| && 0 <= j < |d.xc| ==> d.B.At(i, j) == bedrock(d.xc[j], d.yc[i]) && d.ELA.At(i, j) == ela(d.xc[j], d.yc[i]))
  {
    var data :- MakeData(nx, DomainX, ny, DomainY);
    var mesh := data.mesh;
    Success(Dataset(Sample(mesh, bedrock), Sample(mesh, ela), MassBalanceSlope, MassBalanceLimiter,
                    data.dx, data.dy, data.xc, data.yc))
  }

  /** At the scripts' resolution 256 the grid has 255 x 255 cells, 976.5625 m by 781.25 m apart. */
  lemma ResolutionTwoFiftySix(bedrock: (real, real) -> real, ela: (real, real) -> real)
    ensures var r := CreateData(256, 256, bedrock, ela);
      && r.Success? && r.value.B.HasShape(255, 255) && r.value.dx == 976.5625 && r.value.dy == 781.25
    ensures var r := MakeData(256, DomainX, 256, DomainY);
      && r.Success? && r.value.mesh.Xc.HasShape(255, 255) && r.value.dx == 976.5625 && r.value.dy == 781.25
  {
  }
}
