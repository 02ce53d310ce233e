/**
 * The random-blast problem (src/RandomBlast/blast.cpp): supernovae drawn
 * each coarse step deposit energy (and optionally ejecta) into the cells
 * around them through a smoothing kernel, with nearest-image distances on
 * a periodic domain; reflecting or periodic walls are chosen per
 * component; cells are tagged for refinement by the relative density
 * gradient; and the number of explosions is accumulated.
 *
 * The Poisson draw, the uniform draws, the kernel quadrature and sqrt are
 * parameters of the model.
 */
module RandomBlast {
  import opened Numerics

  // ---------------------------------------------------------------------
  // Boundary conditions
  // ---------------------------------------------------------------------

  // The conserved components in the order HydroSystem stores them.
  const DensityIndex: int := 0
  const X1MomentumIndex: int := 1
  const X2MomentumIndex: int := 2
  const X3MomentumIndex: int := 3
  const EnergyIndex: int := 4
  const InternalEnergyIndex: int := 5
  const Scalar0Index: int := 6

  const SpaceDim: int := 3

  /** The AMReX boundary types the problem uses. */
  datatype BCType = IntDir | ReflectOdd | ReflectEven

  /** isNormalComp: component n is the momentum normal to the walls of direction dim. */
  function IsNormalComp(n: int, dim: int): (r: bool)
    ensures r <==> 0 <= dim < SpaceDim && n == X1MomentumIndex + dim
  {
    if n == X1MomentumIndex && dim == 0 then true
    else if n == X2MomentumIndex && dim == 1 then true
    else if n == X3MomentumIndex && dim == 2 then true
    else false
  }

  /** Walls of each direction have exactly one normal component, and it is never a density, energy or scalar. */
  lemma NormalCompUnique(n: int, m: int, dim: int)
    ensures IsNormalComp(n, dim) && IsNormalComp(m, dim) ==> n == m
    ensures 0 <= dim < SpaceDim ==> IsNormalComp(X1MomentumIndex + dim, dim)
    ensures n in {DensityIndex, EnergyIndex, InternalEnergyIndex, Scalar0Index} ==> !IsNormalComp(n, dim)
  {
  }

  /**
   * The boundary-condition loop of problem_main: with periodic boundaries
   * every component is interior on both sides of every direction;
   * otherwise the normal momentum is reflected with a sign change and
   * everything else is mirrored.
   */
  method SelectBoundaryConditions(nvars: nat, usePeriodicBc: int) returns (lo: array2<BCType>, hi: array2<BCType>)
    ensures lo.Length0 == nvars && lo.Length1 == SpaceDim
    ensures hi.Length0 == nvars && hi.Length1 == SpaceDim
    ensures forall n, d :: 0 <= n < nvars && 0 <= d < SpaceDim ==> lo[n, d] == hi[n, d]
    ensures usePeriodicBc == 1 ==> forall n, d :: 0 <= n < nvars && 0 <= d < SpaceDim ==> lo[n, d] == IntDir
    ensures usePeriodicBc != 1 ==> forall n, d :: 0 <= n < nvars && 0 <= d < SpaceDim ==>
      (lo[n, d] == ReflectOdd <==> IsNormalComp(n, d)) && (lo[n, d] == ReflectEven <==> !IsNormalComp(n, d))
  {
    lo := new BCType[nvars, SpaceDim]((n, d) => IntDir);
    hi := new BCType[nvars, SpaceDim]((n, d) => IntDir);
    var n := 0;
    while n < nvars
      invariant 0 <= n <= nvars
      invariant forall m, d :: 0 <= m < n && 0 <= d < SpaceDim ==> lo[m, d] == hi[m, d] == Selected(usePeriodicBc, m, d)
    {
      var idim := 0;
      while idim < SpaceDim
        invariant 0 <= idim <= SpaceDim
        invariant forall m, d :: 0 <= m < n && 0 <= d < SpaceDim ==> lo[m, d] == hi[m, d] == Selected(usePeriodicBc, m, d)
        invariant forall d :: 0 <= d < idim ==> lo[n, d] == hi[n, d] == Selected(usePeriodicBc, n, d)
      {
        if usePeriodicBc == 1 {
          lo[n, idim] := IntDir;
          hi[n, idim] := IntDir;
        } else if IsNormalComp(n, idim) {
          lo[n, idim] := ReflectOdd;
          hi[n, idim] := ReflectOdd;
        } else {
          lo[n, idim] := ReflectEven;
          hi[n, idim] := ReflectEven;
        }
        idim := idim + 1;
      }
      n := n + 1;
    }
  }

  /** The type the loop gives component n in direction d. */
  function Selected(usePeriodicBc: int, n: int, d: int): BCType
  {
    if usePeriodicBc == 1 then IntDir else if IsNormalComp(n, d) then ReflectOdd else ReflectEven
  }

  // ---------------------------------------------------------------------
  // Distance to a blast: nearest periodic image
  // ---------------------------------------------------------------------

  /** The integer nearest q, ties to even, as std::remainder rounds the quotient. */
  function NearestInteger(q: real): (n: int)
    ensures -0.5 <= q - n as real <= 0.5
    ensures q - n as real == 0.5 || q - n as real == -0.5 ==> n % 2 == 0
  {
    var f := q.Floor;
    var frac := q - f as real;
    if frac < 0.5 then f
    else if frac > 0.5 then f + 1
    else if f % 2 == 0 then f else f + 1
  }

  /** std::remainder(x, period): x less the nearest whole number of periods. */
  function Remainder(x: real, period: real): (r: real)
    requires period > 0.0
    ensures -period / 2.0 <= r <= period / 2.0
  {
    RemainderScaled(x, period, NearestInteger(x / period));
    x - NearestInteger(x / period) as real * period
  }

  lemma RemainderScaled(x: real, period: real, m: int)
    requires period > 0.0 && -0.5 <= x / period - m as real <= 0.5
    ensures -period / 2.0 <= x - m as real * period <= period / 2.0
  {
    ScaledOffset(x, period, m);
    HalfBound(period, x / period - m as real);
  }

  lemma HalfBound(p: real, u: real)
    requires p > 0.0 && -0.5 <= u <= 0.5
    ensures -p / 2.0 <= p * u <= p / 2.0
  {
    MulLeft(p, -0.5, u);
    MulLeft(p, u, 0.5);
  }

  /** x less m periods is the period times the offset of the quotient from m. */
  lemma ScaledOffset(x: real, period: real, m: int)
    requires period > 0.0
    ensures x - m as real * period == period * (x / period - m as real)
  {
    assert period * (x / period) == x;
  }

  /** m whole periods. */
  function Periods(m: int, period: real): real
  {
    m as real * period
  }

  /** No integer is nearer to q than NearestInteger(q). */
  lemma NearestIntegerIsNearest(q: real, k: int)
    ensures Abs(q - NearestInteger(q) as real) <= Abs(q - k as real)
  {
    var n := NearestInteger(q);
    if k < n {
      assert k as real <= n as real - 1.0;
    } else if k > n {
      assert k as real >= n as real + 1.0;
    }
  }

  /**
   * The remainder is an image of x (it differs by a whole number of
   * periods) and no image is nearer to the origin.
   */
  lemma NearestImage(x: real, period: real, k: int)
    requires period > 0.0
    ensures exists m: int {:trigger Periods(m, period)} :: x - Remainder(x, period) == Periods(m, period)
    ensures Abs(Remainder(x, period)) <= Abs(x - k as real * period)
  {
    RemainderIsImage(x, period);
    NearestIntegerIsNearest(x / period, k);
    ImageOrder(x, period, x / period, NearestInteger(x / period), k, Remainder(x, period));
  }

  /** With q = x / p, an integer n nearer to q gives an image r = x - n p nearer to the origin. */
  lemma ImageOrder(x: real, p: real, q: real, n: int, k: int, r: real)
    requires p > 0.0 && q == x / p && Abs(q - n as real) <= Abs(q - k as real)
    requires x - r == Periods(n, p)
    ensures Abs(r) <= Abs(x - k as real * p)
  {
    assert r == x - n as real * p;
    assert p * q == x;
    var u := q - n as real;
    var v := q - k as real;
    assert x - n as real * p == p * u;
    assert x - k as real * p == p * v;
    ScaledAbsOrder(p, u, v);
  }

  lemma RemainderIsImage(x: real, period: real)
    requires period > 0.0
    ensures x - Remainder(x, period) == Periods(NearestInteger(x / period), period)
  {
  }

  /** Scaling by a positive factor keeps the order of magnitudes. */
  lemma ScaledAbsOrder(p: real, u: real, v: real)
    requires p > 0.0 && Abs(u) <= Abs(v)
    ensures Abs(p * u) <= Abs(p * v)
  {
    AbsScale(p, u);
    AbsScale(p, v);
    MulLeft(p, Abs(u), Abs(v));
  }

  lemma AbsScale(k: real, u: real)
    requires k > 0.0
    ensures Abs(k * u) == k * Abs(u)
  {
    if u < 0.0 {
      MulLeftStrict(k, u, 0.0);
    } else {
      MulNonNeg(k, u);
    }
  }

  /** The offset of a cell from a blast along one axis: the nearest image on a periodic domain. */
  function Offset(usePeriodicBc: int, d: real, period: real): (r: real)
    requires usePeriodicBc == 1 ==> period > 0.0
    ensures usePeriodicBc == 1 ==> Abs(r) <= period / 2.0
    ensures usePeriodicBc != 1 ==> r == d
  {
    if usePeriodicBc == 1 then Remainder(d, period) else d
  }

  // ---------------------------------------------------------------------
  // Energy injection
  // ---------------------------------------------------------------------

  /** The state of a cell the injection touches, by HydroSystem component. */
  datatype BlastCell = BlastCell(density: real, x1Mom: real, x2Mom: real, x3Mom: real, energy: real, internalEnergy: real, scalar0: real)

  /**
   * Deposit the given mass and energy densities: density and scalar0 gain
   * the same amount, total and internal energy gain the same amount, and
   * the momenta are not touched.
   */
  function Deposit(c: BlastCell, mass: real, energy: real): (r: BlastCell)
    ensures r.x1Mom == c.x1Mom && r.x2Mom == c.x2Mom && r.x3Mom == c.x3Mom
    ensures r.density - c.density == r.scalar0 - c.scalar0 == mass
    ensures r.energy - c.energy == r.internalEnergy - c.internalEnergy == energy
    ensures r.energy - r.internalEnergy == c.energy - c.internalEnergy
  {
    c.(density := c.density + mass, scalar0 := c.scalar0 + mass,
       energy := c.energy + energy, internalEnergy := c.internalEnergy + energy)
  }

  /** Two deposits are one deposit of the sums. */
  lemma DepositCompose(c: BlastCell, m1: real, e1: real, m2: real, e2: real)
    ensures Deposit(Deposit(c, m1, e1), m2, e2) == Deposit(c, m1 + m2, e1 + e2)
  {
  }

  /** The lower corner of cell (i, j, k), where the kernel integration starts. */
  function Corner(probLo: Vec3, dx: Vec3, i: int, j: int, k: int): Vec3
  {
    Vec3(probLo.x + i as real * dx.x, probLo.y + j as real * dx.y, probLo.z + k as real * dx.z)
  }

  /** The domain may be periodic only when it has a positive extent in every direction. */
  predicate ExtentOk(usePeriodicBc: int, extent: Vec3)
  {
    usePeriodicBc == 1 ==> extent.x > 0.0 && extent.y > 0.0 && extent.z > 0.0
  }

  /**
   * The weight of one blast in one cell: the kernel integrated over the
   * cell (kernel stands for quad_3d of the Wendland kernel over
   * [x0, x0 + dx] x [y0, y0 + dy] x [z0, z0 + dz]), times normfac.
   */
  function Weight(kernel: (real, real, real) -> real, normfac: real, usePeriodicBc: int, extent: Vec3, corner: Vec3, blast: Vec3): real
    requires ExtentOk(usePeriodicBc, extent)
  {
    normfac * kernel(Offset(usePeriodicBc, corner.x - blast.x, extent.x),
                     Offset(usePeriodicBc, corner.y - blast.y, extent.y),
                     Offset(usePeriodicBc, corner.z - blast.z, extent.z))
  }

  /** The weights of every blast in one cell. */
  function Weights(kernel: (real, real, real) -> real, normfac: real, usePeriodicBc: int, extent: Vec3, corner: Vec3, blasts: seq<Vec3>): (w: seq<real>)
    requires ExtentOk(usePeriodicBc, extent)
    ensures |w| == |blasts|
    ensures forall n :: 0 <= n < |blasts| ==> w[n] == Weight(kernel, normfac, usePeriodicBc, extent, corner, blasts[n])
  {
    seq(|blasts|, n requires 0 <= n < |blasts| => Weight(kernel, normfac, usePeriodicBc, extent, corner, blasts[n]))
  }

  /** What injectEnergy leaves in a cell: the deposits of every blast. */
  function Injected(c: BlastCell, w: seq<real>, rhoEjecta: real, rhoEintBlast: real): BlastCell
  {
    Deposit(c, Sum(w) * rhoEjecta, Sum(w) * rhoEintBlast)
  }

  /** The weights of every blast in one cell: the kernel at the cell's nearest-image offsets. */
  function InjectedCell(c: BlastCell, corner: Vec3, blasts: seq<Vec3>, kernel: (real, real, real) -> real, normfac: real,
                        usePeriodicBc: int, extent: Vec3, rhoEjecta: real, rhoEintBlast: real): BlastCell
    requires ExtentOk(usePeriodicBc, extent)
  {
    Injected(c, Weights(kernel, normfac, usePeriodicBc, extent, corner, blasts), rhoEjecta, rhoEintBlast)
  }

  /** The loop over the blasts of injectEnergy in one cell: one deposit per blast. */
  method InjectIntoCell(cell: BlastCell, corner: Vec3, blasts: seq<Vec3>, kernel: (real, real, real) -> real, normfac: real,
                        usePeriodicBc: int, extent: Vec3, rhoEjecta: real, rhoEintBlast: real) returns (r: BlastCell)
    requires ExtentOk(usePeriodicBc, extent)
    ensures r == InjectedCell(cell, corner, blasts, kernel, normfac, usePeriodicBc, extent, rhoEjecta, rhoEintBlast)
  {
    ghost var w := Weights(kernel, normfac, usePeriodicBc, extent, corner, blasts);
    r := cell;
    var n := 0;
    while n < |blasts|
      invariant 0 <= n <= |blasts|
      invariant r == Injected(cell, w[..n], rhoEjecta, rhoEintBlast)
    {
      var weight := Weight(kernel, normfac, usePeriodicBc, extent, corner, blasts[n]);
      InjectedSnoc(cell, w, n, rhoEjecta, rhoEintBlast);
      r := Deposit(r, weight * rhoEjecta, weight * rhoEintBlast);
      n := n + 1;
    }
    assert w[..|blasts|] == w;
  }

  /** The domain lengths. */
  function Extent(probLo: Vec3, probHi: Vec3): Vec3
  {
    Vec3(probHi.x - probLo.x, probHi.y - probLo.y, probHi.z - probLo.z)
  }

  /**
   * injectEnergy over the cells of a box (cells[c] is cell index[c]). The
   * per-cell densities are E_blast and M_ejecta over the cell volume.
   */
  method InjectEnergy(cells: array<BlastCell>, index: seq<(int, int, int)>, probLo: Vec3, probHi: Vec3, dx: Vec3,
                      blasts: seq<Vec3>, eBlast: real, mEjecta: real, usePeriodicBc: int,
                      kernel: (real, real, real) -> real)
    requires |index| == cells.Length
    requires dx.x > 0.0 && dx.y > 0.0 && dx.z > 0.0
    requires ExtentOk(usePeriodicBc, Extent(probLo, probHi))
    modifies cells
    ensures forall c :: 0 <= c < cells.Length ==>
      cells[c] == InjectedCell(old(cells[c]), Corner(probLo, dx, index[c].0, index[c].1, index[c].2), blasts, kernel, NormFactor(dx),
                               usePeriodicBc, Extent(probLo, probHi), mEjecta / CellVolume(dx), eBlast / CellVolume(dx))
  {
    ProductPositive(dx.x, dx.y, dx.z);
    var rhoEintBlast := eBlast / CellVolume(dx);
    var rhoEjecta := mEjecta / CellVolume(dx);
    var extent := Extent(probLo, probHi);
    var normfac := NormFactor(dx);
    var c := 0;
    while c < cells.Length
      invariant 0 <= c <= cells.Length
      invariant forall e :: 0 <= e < c ==>
        cells[e] == InjectedCell(old(cells[e]), Corner(probLo, dx, index[e].0, index[e].1, index[e].2), blasts, kernel, normfac,
                                 usePeriodicBc, extent, rhoEjecta, rhoEintBlast)
      invariant forall e :: c <= e < cells.Length ==> cells[e] == old(cells[e])
    {
      var corner := Corner(probLo, dx, index[c].0, index[c].1, index[c].2);
      cells[c] := InjectIntoCell(cells[c], corner, blasts, kernel, normfac, usePeriodicBc, extent, rhoEjecta, rhoEintBlast);
      c := c + 1;
    }
  }

  lemma ProductPositive(a: real, b: real, c: real)
    requires a > 0.0 && b > 0.0 && c > 0.0
    ensures a * b * c > 0.0
  {
    MulPos(a, b);
    MulPos(a * b, c);
  }

  /** 1 / r_scale^3 with r_scale eight cell widths. */
  function NormFactor(dx: Vec3): real
    requires dx.x > 0.0
  {
    ProductPositive(8.0 * dx.x, 8.0 * dx.x, 8.0 * dx.x);
    1.0 / ((8.0 * dx.x) * (8.0 * dx.x) * (8.0 * dx.x))
  }

  /** One more blast's deposit extends the injection by that blast's weight. */
  lemma InjectedSnoc(c: BlastCell, w: seq<real>, n: nat, a: real, b: real)
    requires n < |w|
    ensures Deposit(Injected(c, w[..n], a, b), w[n] * a, w[n] * b) == Injected(c, w[..n + 1], a, b)
  {
    SumSnoc(w, n);
    DepositStep(c, Sum(w[..n]), w[n], a, b);
  }

  lemma DepositStep(c: BlastCell, s: real, w: real, a: real, b: real)
    ensures Deposit(Deposit(c, s * a, s * b), w * a, w * b) == Deposit(c, (s + w) * a, (s + w) * b)
  {
    assert (s + w) * a == s * a + w * a;
    assert (s + w) * b == s * b + w * b;
    DepositCompose(c, s * a, s * b, w * a, w * b);
  }

  /**
   * With a non-negative kernel and blast energy, injection only heats:
   * total and internal energy grow by the same amount, the momenta and the
   * difference between total and internal energy are kept, and density and
   * scalar0 grow together; without ejecta the density is unchanged.
   */
  lemma {:induction false} InjectionHeats(c: BlastCell, w: seq<real>, rhoEjecta: real, rhoEintBlast: real)
    requires forall n :: 0 <= n < |w| ==> w[n] >= 0.0
    requires rhoEintBlast >= 0.0
    ensures Injected(c, w, rhoEjecta, rhoEintBlast).energy >= c.energy
    ensures Injected(c, w, rhoEjecta, rhoEintBlast).internalEnergy >= c.internalEnergy
    ensures rhoEjecta == 0.0 ==> Injected(c, w, rhoEjecta, rhoEintBlast).density == c.density
  {
    SumNonNegative(w);
    MulNonNeg(Sum(w), rhoEintBlast);
  }

  /** A kernel that is never negative, like the Wendland C2 kernel. */
  ghost predicate NonNegativeKernel(kernel: (real, real, real) -> real)
  {
    forall x: real, y: real, z: real :: kernel(x, y, z) >= 0.0
  }

  /** Every weight of a non-negative kernel is non-negative. */
  lemma WeightsNonNegative(kernel: (real, real, real) -> real, dx: Vec3, usePeriodicBc: int, extent: Vec3, corner: Vec3, blasts: seq<Vec3>)
    requires NonNegativeKernel(kernel) && dx.x > 0.0 && ExtentOk(usePeriodicBc, extent)
    ensures forall n :: 0 <= n < |blasts| ==> Weights(kernel, NormFactor(dx), usePeriodicBc, extent, corner, blasts)[n] >= 0.0
  {
    var normfac := NormFactor(dx);
    DivCompare(1.0, (8.0 * dx.x) * (8.0 * dx.x) * (8.0 * dx.x), 0.0);
    forall n | 0 <= n < |blasts|
      ensures Weights(kernel, normfac, usePeriodicBc, extent, corner, blasts)[n] >= 0.0
    {
      var b := blasts[n];
      var k := kernel(Offset(usePeriodicBc, corner.x - b.x, extent.x),
                      Offset(usePeriodicBc, corner.y - b.y, extent.y),
                      Offset(usePeriodicBc, corner.z - b.z, extent.z));
      MulNonNeg(normfac, k);
    }
  }

  // ---------------------------------------------------------------------
  // Mass conservation (computeAfterTimestep)
  // ---------------------------------------------------------------------

  const MassTolerance: real := 0.0000000001

  /** The densities of a set of cells. */
  function Densities(cells: seq<BlastCell>): (d: seq<real>)
    ensures |d| == |cells|
    ensures forall c :: 0 <= c < |cells| ==> d[c] == cells[c].density
  {
    seq(|cells|, c requires 0 <= c < |cells| => cells[c].density)
  }

  /** cvol as written: the sum of the cell widths. */
  function CellVolumeAsWritten(dx: Vec3): real
  {
    dx.x + dx.y + dx.z
  }

  /** The cell volume the mass needs: the product of the cell widths, positive for positive widths. */
  function CellVolume(dx: Vec3): (v: real)
    ensures dx.x > 0.0 && dx.y > 0.0 && dx.z > 0.0 ==> v > 0.0
  {
    if dx.x > 0.0 && dx.y > 0.0 && dx.z > 0.0 then
      MulPos(dx.x, dx.y);
      MulPos(dx.x * dx.y, dx.z);
      dx.x * dx.y * dx.z
    else dx.x * dx.y * dx.z
  }

  /** On unit cells the written cvol is three times the cell volume. */
  lemma CellVolumeCounterexample()
    ensures CellVolumeAsWritten(Vec3(1.0, 1.0, 1.0)) == 3.0
    ensures CellVolume(Vec3(1.0, 1.0, 1.0)) == 1.0
  {
  }

  /**
   * The check of computeAfterTimestep on the masses cvol times the summed
   * densities: the run goes on when the relative mass change is within
   * 1e-10, and aborts (None) otherwise.
   */
  function MassCheck(mass: real, initialMass: real): (ok: Option<real>)
    requires initialMass != 0.0
    ensures ok.Some? <==> Abs(RelativeChange(mass, initialMass)) <= MassTolerance
    ensures ok.Some? ==> ok.value == RelativeChange(mass, initialMass)
  {
    var consErr := RelativeChange(mass, initialMass);
    if Abs(consErr) > MassTolerance then None else Some(consErr)
  }

  /** cons_err: the change of the mass relative to the initial mass. */
  function RelativeChange(mass: real, initialMass: real): real
    requires initialMass != 0.0
  {
    (mass - initialMass) / initialMass
  }

  /** The relative error does not depend on the factor the masses share, so the written cvol gives the same verdict. */
  lemma RelativeErrorScaleFree(v: real, m: real, m0: real)
    requires v != 0.0 && m0 != 0.0
    ensures v * m0 != 0.0
    ensures RelativeChange(v * m, v * m0) == RelativeChange(m, m0)
  {
    MulNonZero(v, m0);
    assert v * m - v * m0 == v * (m - m0);
    DivMulDiv(v, v, m - m0, m0);
    assert v / v == 1.0;
  }

  /**
   * With no ejecta the injection keeps every density, so the mass check
   * passes (with zero relative error) whichever cell-volume factor it uses.
   */
  lemma NoEjectaPassesMassCheck(before: seq<BlastCell>, after: seq<BlastCell>, w: seq<seq<real>>, rhoEintBlast: real, cvol: real)
    requires |after| == |before| && |w| == |before|
    requires forall c :: 0 <= c < |before| ==> after[c] == Injected(before[c], w[c], 0.0, rhoEintBlast)
    requires cvol * Sum(Densities(before)) != 0.0
    ensures MassCheck(cvol * Sum(Densities(after)), cvol * Sum(Densities(before))) == Some(0.0)
  {
    var m := cvol * Sum(Densities(before));
    assert Densities(after) == Densities(before);
    assert cvol * Sum(Densities(after)) == m;
    RelativeChangeSelf(m);
    assert MassCheck(m, m) == Some(0.0);
  }

  lemma RelativeChangeSelf(m: real)
    requires m != 0.0
    ensures RelativeChange(m, m) == 0.0
  {
  }

  // ---------------------------------------------------------------------
  // Refinement
  // ---------------------------------------------------------------------

  /** The relative density gradient: the length of the central differences over the density. */
  function GradientIndicator(sqrt: real -> real, s: Stencil): real
    requires s.centre != 0.0
  {
    sqrt(SquaredDifferences(s)) / s.centre
  }

  /** del_x^2 + del_y^2 + del_z^2 with the half central differences del. */
  function SquaredDifferences(s: Stencil): (r: real)
    ensures r >= 0.0
  {
    SquareNonNeg(0.5 * (s.xPlus - s.xMinus));
    SquareNonNeg(0.5 * (s.yPlus - s.yMinus));
    SquareNonNeg(0.5 * (s.zPlus - s.zMinus));
    (0.5 * (s.xPlus - s.xMinus)) * (0.5 * (s.xPlus - s.xMinus)) + (0.5 * (s.yPlus - s.yMinus)) * (0.5 * (s.yPlus - s.yMinus))
      + (0.5 * (s.zPlus - s.zMinus)) * (0.5 * (s.zPlus - s.zMinus))
  }

  /** The tag rule of ErrorEst: a steep relative gradient in gas that is not near the density floor. */
  predicate Tagged(sqrt: real -> real, s: Stencil, etaThreshold: real, qMin: real)
    requires qMin >= 0.0
  {
    s.centre > qMin && GradientIndicator(sqrt, s) > etaThreshold
  }

  /**
   * With a true square root and a non-negative threshold the rule needs no
   * root: a cell is tagged exactly when it is above the floor and the
   * squared half-differences exceed (eta q)^2.
   */
  lemma TaggedWithoutRoot(sqrt: real -> real, s: Stencil, etaThreshold: real, qMin: real)
    requires SqrtLaw(sqrt) && qMin >= 0.0 && etaThreshold >= 0.0
    ensures Tagged(sqrt, s, etaThreshold, qMin) <==>
      s.centre > qMin && SquaredDifferences(s) > (etaThreshold * s.centre) * (etaThreshold * s.centre)
  {
    if s.centre > qMin {
      DivCompare(sqrt(SquaredDifferences(s)), s.centre, etaThreshold);
      MulNonNeg(etaThreshold, s.centre);
      SqrtAtMost(sqrt, SquaredDifferences(s), etaThreshold * s.centre);
    }
  }

  /** A uniform neighbourhood is never tagged when the threshold is non-negative. */
  lemma UniformNotTagged(sqrt: real -> real, q: real, etaThreshold: real, qMin: real)
    requires SqrtLaw(sqrt) && qMin >= 0.0 && etaThreshold >= 0.0
    ensures !Tagged(sqrt, Stencil(q, q, q, q, q, q, q), etaThreshold, qMin)
  {
    var s := Stencil(q, q, q, q, q, q, q);
    TaggedWithoutRoot(sqrt, s, etaThreshold, qMin);
    assert SquaredDifferences(s) == 0.0;
    SquareNonNeg(etaThreshold * q);
  }

  /** ErrorEst over the cells of a box: set the tag of every cell the rule selects, leaving the others. */
  method ErrorEst(sqrt: real -> real, stencils: seq<Stencil>, etaThreshold: real, qMin: real, tags: array<bool>)
    requires tags.Length == |stencils| && qMin >= 0.0
    modifies tags
    ensures forall c :: 0 <= c < tags.Length ==> tags[c] == (old(tags[c]) || Tagged(sqrt, stencils[c], etaThreshold, qMin))
  {
    var c := 0;
    while c < tags.Length
      invariant 0 <= c <= tags.Length
      invariant forall e :: 0 <= e < c ==> tags[e] == (old(tags[e]) || Tagged(sqrt, stencils[e], etaThreshold, qMin))
      invariant forall e :: c <= e < tags.Length ==> tags[e] == old(tags[e])
    {
      if Tagged(sqrt, stencils[c], etaThreshold, qMin) {
        tags[c] := true;
      }
      c := c + 1;
    }
  }

  // ---------------------------------------------------------------------
  // The supernova counter (SimulationData and computeBeforeTimestep)
  // ---------------------------------------------------------------------

  /** The sum of a sequence of counts. */
  function Total(counts: seq<nat>): nat
  {
    if |counts| == 0 then 0 else Total(counts[..|counts| - 1]) + counts[|counts| - 1]
  }

  /** The user data of the problem that computeBeforeTimestep updates. */
  class BlastData {
    var nblast: int
    var snCounterCumulative: int
    var blastX: array<real>
    var blastY: array<real>
    var blastZ: array<real>
    /** The count drawn at every coarse step so far. */
    ghost var counts: seq<nat>

    /** The counter is the total of all counts, and the tables hold nblast positions. */
    ghost predicate Valid()
      reads this
    {
      snCounterCumulative == Total(counts) &&
      blastX.Length == nblast && blastY.Length == nblast && blastZ.Length == nblast
    }

    constructor ()
      ensures Valid() && nblast == 0 && snCounterCumulative == 0 && counts == []
    {
      nblast := 0;
      snCounterCumulative := 0;
      blastX := new real[0];
      blastY := new real[0];
      blastZ := new real[0];
      counts := [];
    }

    /**
     * computeBeforeTimestep, given the Poisson count and the uniform draws:
     * new position tables of count entries, the blasts placed at the draws
     * scaled by the domain lengths, and the counter advanced by count.
     */
    method ComputeBeforeTimestep(count: nat, probLength: Vec3, uniforms: seq<Vec3>)
      requires Valid() && |uniforms| == count
      modifies this
      ensures Valid()
      ensures nblast == count && snCounterCumulative == old(snCounterCumulative) + count
      ensures counts == old(counts) + [count]
      ensures fresh(blastX) && fresh(blastY) && fresh(blastZ)
      ensures forall i :: 0 <= i < count ==>
        blastX[i] == probLength.x * uniforms[i].x && blastY[i] == probLength.y * uniforms[i].y && blastZ[i] == probLength.z * uniforms[i].z
    {
      var px := new real[count];
      var py := new real[count];
      var pz := new real[count];
      var i := 0;
      while i < count
        modifies px, py, pz
        invariant 0 <= i <= count
        invariant forall j :: 0 <= j < i ==>
          px[j] == probLength.x * uniforms[j].x && py[j] == probLength.y * uniforms[j].y && pz[j] == probLength.z * uniforms[j].z
      {
        px[i] := probLength.x * uniforms[i].x;
        py[i] := probLength.y * uniforms[i].y;
        pz[i] := probLength.z * uniforms[i].z;
        i := i + 1;
      }
      blastX, blastY, blastZ := px, py, pz;
      nblast := count;
      snCounterCumulative := snCounterCumulative + count;
      counts := counts + [count];
      assert counts[..|counts| - 1] == old(counts);
    }
  }

  /** Uniform draws in [0, 1) on a domain of positive length place every blast inside [0, L). */
  lemma BlastInsideDomain(length: real, u: real)
    requires length > 0.0 && 0.0 <= u < 1.0
    ensures 0.0 <= length * u < length
  {
    MulNonNeg(length, u);
    MulLeftStrict(length, u, 1.0);
  }

  /** The cumulative injected energy printed at the end: the counter times E_blast, the sum over steps. */
  lemma {:induction false} CumulativeEnergy(counts: seq<nat>, eBlast: real)
    ensures Total(counts) as real * eBlast == Sum(seq(|counts|, i requires 0 <= i < |counts| => counts[i] as real * eBlast))
  {
    var s := seq(|counts|, i requires 0 <= i < |counts| => counts[i] as real * eBlast);
    if |counts| > 0 {
      var front := counts[..|counts| - 1];
      CumulativeEnergy(front, eBlast);
      SumLast(s);
      var t := seq(|front|, i requires 0 <= i < |front| => front[i] as real * eBlast);
      assert forall i :: 0 <= i < |front| ==> front[i] == counts[i];
      assert forall i :: 0 <= i < |t| ==> s[..|s| - 1][i] == t[i];
      assert s[..|s| - 1] == t;
      assert Total(counts) as real == Total(front) as real + counts[|counts| - 1] as real;
      assert Total(counts) as real * eBlast == Total(front) as real * eBlast + counts[|counts| - 1] as real * eBlast;
    }
  }
}
