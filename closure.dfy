/**
 * The M1 (Levermore) closure of the radiation moment equations: the
 * Eddington factor as a function of the reduced flux, the Eddington tensor
 * built from it, and the face-normal radiation pressure flux with its
 * signal-speed estimate.
 */
module Closure {
  import opened Numerics

  /** A 3x3 matrix as three rows of three entries. */
  type Mat3 = m: seq<seq<real>> | |m| == 3 && forall i :: 0 <= i < 3 ==> |m[i]| == 3
    witness [[0.0, 0.0, 0.0], [0.0, 0.0, 0.0], [0.0, 0.0, 0.0]]

  /** Numerator and denominator of the Levermore closure for a clamped f. */
  function LevermoreDenominator(sqrt: real -> real, f: real): real
  {
    5.0 + 2.0 * sqrt(4.0 - 3.0 * (f * f))
  }

  /** For f in [0, 1], the root in the closure lies in [1, 2]. */
  lemma LevermoreRootBounds(sqrt: real -> real, f: real)
    requires SqrtLaw(sqrt) && 0.0 <= f <= 1.0
    ensures 1.0 <= sqrt(4.0 - 3.0 * (f * f)) <= 2.0
  {
    SquareUnit(f);
    var x := 4.0 - 3.0 * (f * f);
    assert 1.0 <= x <= 4.0;
    assert 2.0 * 2.0 == 4.0 && 1.0 * 1.0 == 1.0;
    SqrtAtMost(sqrt, x, 2.0);
    SqrtAtLeast(sqrt, x, 1.0);
  }

  lemma LevermoreQuotientBounds(n: real, d: real)
    requires 3.0 <= n <= 7.0 <= d <= 9.0
    ensures 1.0 / 3.0 <= n / d <= 1.0
  {
    DivCompare(n, d, 1.0);
    DivCompare(n, d, 1.0 / 3.0);
  }

  /**
   * The Levermore (1984) Eddington factor chi(f) = (3 + 4 f^2) / (5 + 2 sqrt(4 - 3 f^2)),
   * with the reduced flux f first clamped to [0, 1]. It always lies between the
   * isotropic value 1/3 and the free-streaming value 1.
   */
  function EddingtonFactor(sqrt: real -> real, fIn: real): (chi: real)
    requires SqrtLaw(sqrt)
    ensures 1.0 / 3.0 <= chi <= 1.0
  {
    var f := Clamp(fIn, 0.0, 1.0);
    LevermoreRootBounds(sqrt, f);
    SquareUnit(f);
    LevermoreQuotientBounds(3.0 + 4.0 * (f * f), LevermoreDenominator(sqrt, f));
    (3.0 + 4.0 * (f * f)) / LevermoreDenominator(sqrt, f)
  }

  /** The closure reproduces the isotropic and free-streaming limits exactly. */
  lemma EddingtonFactorLimits(sqrt: real -> real, fIn: real)
    requires SqrtLaw(sqrt)
    ensures fIn <= 0.0 ==> EddingtonFactor(sqrt, fIn) == 1.0 / 3.0
    ensures fIn >= 1.0 ==> EddingtonFactor(sqrt, fIn) == 1.0
  {
    SqrtOfSquare(sqrt, 2.0);
    SqrtOfSquare(sqrt, 1.0);
    assert 2.0 * 2.0 == 4.0 && 1.0 * 1.0 == 1.0;
  }

  /** The root in the closure decreases as the clamped reduced flux grows. */
  lemma LevermoreRootMonotone(sqrt: real -> real, a: real, b: real)
    requires SqrtLaw(sqrt) && 0.0 <= a <= b <= 1.0
    ensures sqrt(4.0 - 3.0 * (b * b)) <= sqrt(4.0 - 3.0 * (a * a))
    ensures LevermoreDenominator(sqrt, b) <= LevermoreDenominator(sqrt, a)
  {
    SquareLe(a, b);
    SquareUnit(b);
    SqrtMonotone(sqrt, 4.0 - 3.0 * (b * b), 4.0 - 3.0 * (a * a));
  }

  /** The Eddington factor grows with the reduced flux. */
  lemma EddingtonFactorMonotone(sqrt: real -> real, f: real, g: real)
    requires SqrtLaw(sqrt) && f <= g
    ensures EddingtonFactor(sqrt, f) <= EddingtonFactor(sqrt, g)
  {
    var cf, cg := Clamp(f, 0.0, 1.0), Clamp(g, 0.0, 1.0);
    SquareLe(cf, cg);
    SquareUnit(cf);
    SquareUnit(cg);
    LevermoreRootMonotone(sqrt, cf, cg);
    LevermoreRootBounds(sqrt, cf);
    LevermoreRootBounds(sqrt, cg);
    QuotientMonotone(3.0 + 4.0 * (cf * cf), LevermoreDenominator(sqrt, cf),
                     3.0 + 4.0 * (cg * cg), LevermoreDenominator(sqrt, cg));
    assert EddingtonFactor(sqrt, f) == (3.0 + 4.0 * (cf * cf)) / LevermoreDenominator(sqrt, cf);
    assert EddingtonFactor(sqrt, g) == (3.0 + 4.0 * (cg * cg)) / LevermoreDenominator(sqrt, cg);
  }

  /** Unit direction of the reduced flux, or zero when the flux vanishes. */
  function FluxDirection(sqrt: real -> real, fx: real, fy: real, fz: real): (n: Vec3)
  {
    var f := sqrt(fx * fx + fy * fy + fz * fz);
    if f > 0.0 then Vec3(fx / f, fy / f, fz / f) else Vec3(0.0, 0.0, 0.0)
  }

  /** Dividing a vector by its length gives a unit vector whose squared components are at most 1. */
  lemma NormalizedComponents(fx: real, fy: real, fz: real, f: real)
    requires f > 0.0 && f * f == fx * fx + fy * fy + fz * fz
    ensures (fx / f) * (fx / f) + (fy / f) * (fy / f) + (fz / f) * (fz / f) == 1.0
    ensures 0.0 <= (fx / f) * (fx / f) <= 1.0
    ensures 0.0 <= (fy / f) * (fy / f) <= 1.0
    ensures 0.0 <= (fz / f) * (fz / f) <= 1.0
  {
    DivMulDiv(fx, f, fx, f);
    DivMulDiv(fy, f, fy, f);
    DivMulDiv(fz, f, fz, f);
    DivAdd3(fx * fx, fy * fy, fz * fz, f, f);
    DivSelf(f, f);
    SquareNonNeg(fx);
    SquareNonNeg(fy);
    SquareNonNeg(fz);
    UnitQuotient(fx, fx, f, f);
    UnitQuotient(fy, fy, f, f);
    UnitQuotient(fz, fz, f, f);
  }

  /**
   * The flux direction is a unit vector when the flux is non-zero and the
   * zero vector otherwise; either way each squared component is in [0, 1].
   */
  lemma FluxDirectionUnit(sqrt: real -> real, fx: real, fy: real, fz: real)
    requires SqrtLaw(sqrt)
    ensures var f := sqrt(fx * fx + fy * fy + fz * fz);
            var n := FluxDirection(sqrt, fx, fy, fz);
            f >= 0.0
            && (f > 0.0 ==> Norm2(n) == 1.0)
            && (f == 0.0 ==> n == Vec3(0.0, 0.0, 0.0))
            && SquaresInUnit(n)
  {
    SumOfSquaresNonNeg(fx, fy, fz);
    SqrtFact(sqrt, fx * fx + fy * fy + fz * fz);
    var f := sqrt(fx * fx + fy * fy + fz * fz);
    if f > 0.0 {
      FluxDirectionOf(sqrt, fx, fy, fz);
      NormalizedComponents(fx, fy, fz, f);
    }
  }

  /** For a non-zero flux, the direction and its squared length written out. */
  lemma FluxDirectionOf(sqrt: real -> real, fx: real, fy: real, fz: real)
    requires sqrt(fx * fx + fy * fy + fz * fz) > 0.0
    ensures var f := sqrt(fx * fx + fy * fy + fz * fz);
            var n := FluxDirection(sqrt, fx, fy, fz);
            n.x == fx / f && n.y == fy / f && n.z == fz / f
            && n.x * n.x == (fx / f) * (fx / f) && n.y * n.y == (fy / f) * (fy / f) && n.z * n.z == (fz / f) * (fz / f)
            && Norm2(n) == (fx / f) * (fx / f) + (fy / f) * (fy / f) + (fz / f) * (fz / f)
  {
  }

  /** The isotropic (diagonal) coefficient of the Eddington tensor. */
  function DiagonalTerm(chi: real): real
  {
    (1.0 - chi) / 2.0
  }

  /** The coefficient of the part along the flux direction. */
  function AnisotropicTerm(chi: real): real
  {
    (3.0 * chi - 1.0) / 2.0
  }

  /** One entry Tdiag delta_ij + Tf n_i n_j of the Eddington tensor. */
  function TensorEntry(tdiag: real, tf: real, n: Vec3, i: Dir, j: Dir): real
  {
    tdiag * (if i == j then 1.0 else 0.0) + tf * (Component(n, i) * Component(n, j))
  }

  /**
   * The Eddington tensor T_ij = Tdiag delta_ij + Tf n_i n_j, where chi is the
   * Eddington factor of the reduced-flux magnitude |f| and n the direction of f.
   */
  function EddingtonTensor(sqrt: real -> real, fx: real, fy: real, fz: real): (t: Mat3)
    requires SqrtLaw(sqrt)
  {
    var chi := EddingtonFactor(sqrt, sqrt(fx * fx + fy * fy + fz * fz));
    var n := FluxDirection(sqrt, fx, fy, fz);
    seq(3, i requires 0 <= i < 3 =>
      seq(3, j requires 0 <= j < 3 => TensorEntry(DiagonalTerm(chi), AnisotropicTerm(chi), n, i, j)))
  }

  function Trace(t: Mat3): real
  {
    t[0][0] + t[1][1] + t[2][2]
  }

  /** The entries of the tensor, written out. */
  lemma EddingtonTensorEntries(sqrt: real -> real, fx: real, fy: real, fz: real)
    requires SqrtLaw(sqrt)
    ensures var t := EddingtonTensor(sqrt, fx, fy, fz);
            var chi := EddingtonFactor(sqrt, sqrt(fx * fx + fy * fy + fz * fz));
            var n := FluxDirection(sqrt, fx, fy, fz);
            forall i: Dir, j: Dir :: t[i][j] == TensorEntry(DiagonalTerm(chi), AnisotropicTerm(chi), n, i, j)
  {
  }

  lemma TensorEntrySymmetric(tdiag: real, tf: real, n: Vec3, i: Dir, j: Dir)
    ensures TensorEntry(tdiag, tf, n, i, j) == TensorEntry(tdiag, tf, n, j, i)
  {
    assert Component(n, i) * Component(n, j) == Component(n, j) * Component(n, i);
  }

  lemma TensorTrace(tdiag: real, tf: real, n: Vec3)
    ensures TensorEntry(tdiag, tf, n, 0, 0) + TensorEntry(tdiag, tf, n, 1, 1) + TensorEntry(tdiag, tf, n, 2, 2)
            == 3.0 * tdiag + tf * Norm2(n)
  {
  }

  /** Unit trace: 3 Tdiag + Tf |n|^2 = 1 for a unit n, and also for n = 0 when chi = 1/3. */
  lemma UnitTrace(chi: real, tdiag: real, tf: real, norm2: real)
    requires tdiag == DiagonalTerm(chi) && tf == AnisotropicTerm(chi)
    requires norm2 == 1.0 || (norm2 == 0.0 && chi == 1.0 / 3.0)
    ensures 3.0 * tdiag + tf * norm2 == 1.0
  {
  }

  /** A diagonal entry Tdiag + Tf n_i n_i with n_i n_i in [0, 1] lies between 0 and chi. */
  lemma DiagonalEntryBounds(chi: real, n: Vec3, i: Dir)
    requires 1.0 / 3.0 <= chi <= 1.0 && 0.0 <= Component(n, i) * Component(n, i) <= 1.0
    ensures 0.0 <= TensorEntry(DiagonalTerm(chi), AnisotropicTerm(chi), n, i, i) <= chi
  {
    var tdiag, tf, c := DiagonalTerm(chi), AnisotropicTerm(chi), Component(n, i);
    ScaledUnit(tf, c, c);
    TensorDiagonalEntry(tdiag, tf, n, i, c);
  }

  lemma TensorDiagonalEntry(tdiag: real, tf: real, n: Vec3, i: Dir, c: real)
    requires c == Component(n, i)
    ensures TensorEntry(tdiag, tf, n, i, i) == tdiag + tf * (c * c)
  {
  }

  lemma ScaledUnit(k: real, a: real, b: real)
    requires k >= 0.0 && 0.0 <= a * b <= 1.0
    ensures 0.0 <= k * (a * b) <= k
  {
    MulLeft(k, a * b, 1.0);
    MulNonNeg(k, a * b);
  }

  /** The Eddington tensor is symmetric. */
  lemma EddingtonTensorSymmetric(sqrt: real -> real, fx: real, fy: real, fz: real)
    requires SqrtLaw(sqrt)
    ensures var t := EddingtonTensor(sqrt, fx, fy, fz);
            forall i: Dir, j: Dir :: t[i][j] == t[j][i]
  {
    var chi := EddingtonFactor(sqrt, sqrt(fx * fx + fy * fy + fz * fz));
    var n := FluxDirection(sqrt, fx, fy, fz);
    EddingtonTensorEntries(sqrt, fx, fy, fz);
    forall i: Dir, j: Dir
      ensures TensorEntry(DiagonalTerm(chi), AnisotropicTerm(chi), n, i, j)
           == TensorEntry(DiagonalTerm(chi), AnisotropicTerm(chi), n, j, i)
    {
      TensorEntrySymmetric(DiagonalTerm(chi), AnisotropicTerm(chi), n, i, j);
    }
  }

  /** The trace written out: 3 Tdiag + Tf |n|^2. */
  lemma EddingtonTraceFormula(sqrt: real -> real, fx: real, fy: real, fz: real, tdiag: real, tf: real, norm2: real)
    requires SqrtLaw(sqrt)
    requires var chi := EddingtonFactor(sqrt, sqrt(fx * fx + fy * fy + fz * fz));
             tdiag == DiagonalTerm(chi) && tf == AnisotropicTerm(chi)
    requires norm2 == Norm2(FluxDirection(sqrt, fx, fy, fz))
    ensures Trace(EddingtonTensor(sqrt, fx, fy, fz)) == 3.0 * tdiag + tf * norm2
  {
    EddingtonTensorEntries(sqrt, fx, fy, fz);
    TensorTrace(tdiag, tf, FluxDirection(sqrt, fx, fy, fz));
  }

  /** The Eddington tensor has unit trace, so the pressure tensor has trace E_r. */
  lemma EddingtonTensorTrace(sqrt: real -> real, fx: real, fy: real, fz: real)
    requires SqrtLaw(sqrt)
    ensures Trace(EddingtonTensor(sqrt, fx, fy, fz)) == 1.0
  {
    var f := sqrt(fx * fx + fy * fy + fz * fz);
    var chi := EddingtonFactor(sqrt, f);
    var n := FluxDirection(sqrt, fx, fy, fz);
    var tdiag, tf, norm2 := DiagonalTerm(chi), AnisotropicTerm(chi), Norm2(n);
    EddingtonTraceFormula(sqrt, fx, fy, fz, tdiag, tf, norm2);
    FluxDirectionUnit(sqrt, fx, fy, fz);
    if f == 0.0 {
      EddingtonFactorLimits(sqrt, f);
    }
    UnitTrace(chi, tdiag, tf, norm2);
  }

  /** Each diagonal entry of the Eddington tensor lies in [0, chi], so in [0, 1]. */
  lemma EddingtonTensorDiagonal(sqrt: real -> real, fx: real, fy: real, fz: real, i: Dir)
    requires SqrtLaw(sqrt)
    ensures var chi := EddingtonFactor(sqrt, sqrt(fx * fx + fy * fy + fz * fz));
            0.0 <= EddingtonTensor(sqrt, fx, fy, fz)[i][i] <= chi <= 1.0
  {
    var chi := EddingtonFactor(sqrt, sqrt(fx * fx + fy * fy + fz * fz));
    var n := FluxDirection(sqrt, fx, fy, fz);
    EddingtonTensorEntry(sqrt, fx, fy, fz, i, i);
    FluxDirectionUnit(sqrt, fx, fy, fz);
    ComponentSquareUnit(n, i);
    DiagonalEntryBounds(chi, n, i);
  }

  lemma EddingtonTensorNormal(sqrt: real -> real, fx: real, fy: real, fz: real, i: Dir)
    requires SqrtLaw(sqrt)
    ensures 0.0 <= EddingtonTensor(sqrt, fx, fy, fz)[i][i] <= 1.0
  {
    EddingtonTensorDiagonal(sqrt, fx, fy, fz, i);
  }

  /** One entry of the tensor, written out. */
  lemma EddingtonTensorEntry(sqrt: real -> real, fx: real, fy: real, fz: real, i: Dir, j: Dir)
    requires SqrtLaw(sqrt)
    ensures EddingtonTensor(sqrt, fx, fy, fz)[i][j]
         == TensorEntry(DiagonalTerm(EddingtonFactor(sqrt, sqrt(fx * fx + fy * fy + fz * fz))),
                        AnisotropicTerm(EddingtonFactor(sqrt, sqrt(fx * fx + fy * fy + fz * fz))),
                        FluxDirection(sqrt, fx, fy, fz), i, j)
  {
  }

  /** Every squared component of n lies in [0, 1]. */
  predicate SquaresInUnit(n: Vec3)
  {
    0.0 <= n.x * n.x <= 1.0 && 0.0 <= n.y * n.y <= 1.0 && 0.0 <= n.z * n.z <= 1.0
  }

  lemma ComponentSquareUnit(n: Vec3, i: Dir)
    requires SquaresInUnit(n)
    ensures 0.0 <= Component(n, i) * Component(n, i) <= 1.0
  {
  }

  /** With no flux the tensor is isotropic: one third of the identity. */
  lemma EddingtonTensorIsotropic(sqrt: real -> real)
    requires SqrtLaw(sqrt)
    ensures var t := EddingtonTensor(sqrt, 0.0, 0.0, 0.0);
            forall i: Dir, j: Dir :: t[i][j] == (if i == j then 1.0 / 3.0 else 0.0)
  {
    SqrtOfSquare(sqrt, 0.0);
    EddingtonFactorLimits(sqrt, 0.0);
    EddingtonTensorEntries(sqrt, 0.0, 0.0, 0.0);
  }

  /** The face-normal direction of a flux computation: X1, X2 or X3. */
  type Dir = d: nat | d < 3

  /** The pressure flux through a face and the signal-speed estimate S. */
  datatype RadPressureResult = RadPressureResult(f: seq<real>, s: real)

  /**
   * Face-normal radiation flux {F_n, T_n. E_r} and the wave speed
   * max(0.1, sqrt(T_nn)) (in units of c), following the frozen-Eddington-tensor
   * approximation. The normal pressure T_nn E_r lies between 0 and E_r, and
   * the signal speed never exceeds the speed of light.
   */
  function ComputeRadPressure(sqrt: real -> real, dir: Dir, erad: real, flux: Vec3, fx: real, fy: real, fz: real)
    : (r: RadPressureResult)
    requires SqrtLaw(sqrt)
    requires erad > 0.0
    ensures var t := EddingtonTensor(sqrt, fx, fy, fz);
            r.f == [Component(flux, dir), t[dir][0] * erad, t[dir][1] * erad, t[dir][2] * erad]
    ensures 0.0 <= r.f[1 + dir] <= erad
    ensures 0.1 <= r.s <= 1.0
  {
    EddingtonTensorNormal(sqrt, fx, fy, fz, dir);
    PressureFromTensor(sqrt, dir, erad, flux, EddingtonTensor(sqrt, fx, fy, fz))
  }

  /** The pressure flux and signal speed for a given Eddington tensor t with 0 <= T_nn <= 1. */
  function PressureFromTensor(sqrt: real -> real, dir: Dir, erad: real, flux: Vec3, t: Mat3): (r: RadPressureResult)
    requires SqrtLaw(sqrt) && erad > 0.0 && 0.0 <= t[dir][dir] <= 1.0
    ensures r.f == [Component(flux, dir), t[dir][0] * erad, t[dir][1] * erad, t[dir][2] * erad]
    ensures 0.0 <= r.f[1 + dir] <= erad
    ensures 0.1 <= r.s <= 1.0
  {
    var f := [Component(flux, dir), t[dir][0] * erad, t[dir][1] * erad, t[dir][2] * erad];
    NormalEntry(f, t[dir], erad, dir);
    RadPressureResult(f, SignalFactor(sqrt, t[dir][dir]))
  }

  /** The entry of the flux row along the face normal is T_nn E_r. */
  lemma NormalEntry(f: seq<real>, trow: seq<real>, erad: real, dir: Dir)
    requires |trow| == 3 && |f| == 4
    requires f[1] == trow[0] * erad && f[2] == trow[1] * erad && f[3] == trow[2] * erad
    requires 0.0 <= trow[dir] <= 1.0 && erad > 0.0
    ensures 0.0 <= f[1 + dir] <= erad
  {
    if dir == 0 {
      NormalPressureBounds(trow[0], erad);
    } else if dir == 1 {
      NormalPressureBounds(trow[1], erad);
    } else {
      NormalPressureBounds(trow[2], erad);
    }
  }

  /** The wave-speed factor max(0.1, sqrt(T_nn)), in units of c. */
  function SignalFactor(sqrt: real -> real, tnn: real): (s: real)
    requires SqrtLaw(sqrt) && 0.0 <= tnn <= 1.0
    ensures 0.1 <= s <= 1.0
  {
    SqrtAtMost(sqrt, tnn, 1.0);
    Max(0.1, sqrt(tnn))
  }

  lemma NormalPressureBounds(tnn: real, erad: real)
    requires 0.0 <= tnn <= 1.0 && erad > 0.0
    ensures 0.0 <= tnn * erad <= erad
  {
    MulNonNeg(tnn, erad);
    MulLeft(erad, tnn, 1.0);
    assert erad * tnn == tnn * erad;
  }
}
