/**
 * The checks of the grey radiation-pulse test
 * (src/RadhydroPulseGrey/test_radhydro_pulse_grey.cpp): the initial
 * temperature profile, the cyclic shift that moves the advected pulse back
 * onto the static one, the L1 error and symmetry norms, and the exit
 * status. The two simulations that produce the profiles are parameters.
 */
module RadhydroPulseGrey {
  import opened Numerics

  const T0: real := 10000000.0   // K
  const T1: real := 20000000.0   // K
  const Width: real := 24.0      // cm
  const ErrorTolerance: real := 0.001
  const SymmetryTolerance: real := 0.001

  /**
   * compute_initial_Tgas: a Gaussian bump of height T1 - T0 and width
   * Width over the floor T0; exp is the exponential.
   */
  function InitialTgas(exp: real -> real, x: real): real
  {
    var sigma := Width;
    T0 + (T1 - T0) * exp(-x * x / (2.0 * sigma * sigma))
  }

  /** The profile is even in x, peaks at T1 at the centre, and stays within [T0, T1] when exp maps into (0, 1]. */
  lemma InitialTgasShape(exp: real -> real, x: real)
    ensures InitialTgas(exp, -x) == InitialTgas(exp, x)
    ensures exp(0.0) == 1.0 ==> InitialTgas(exp, 0.0) == T1
    ensures 0.0 < exp(-x * x / (2.0 * Width * Width)) <= 1.0 ==> T0 < InitialTgas(exp, x) <= T1
  {
    assert -x * -x == x * x;
    assert -0.0 * 0.0 / (2.0 * Width * Width) == 0.0;
  }

  /** n_p: the number of whole pixels the pulse moved, the float-to-int cast truncating toward zero. */
  function PixelCount(move: real, dx: real): (n: int)
    requires dx > 0.0
  {
    var q := move / dx;
    if q >= 0.0 then q.Floor else -((-q).Floor)
  }

  /** drift: what the pulse moved beyond its whole pixels, in [0, dx) when it moved forward. */
  lemma DriftBelowPixel(move: real, dx: real)
    requires dx > 0.0 && move >= 0.0
    ensures PixelCount(move, dx) >= 0
    ensures 0.0 <= move - PixelCount(move, dx) as real * dx < dx
  {
    var n := PixelCount(move, dx);
    DivCompare(move, dx, 0.0);
    DivCompare(move, dx, n as real);
    DivCompare(move, dx, n as real + 1.0);
  }

  /** half: nx / 2.0 cast to int, which is the floor of the half for a non-negative nx. */
  function Half(nx: int): int
    requires nx > 0
  {
    nx / 2
  }

  /** shift: n_p brought into [-half, nx - half) by the source's truncating division. */
  function Shift(np: int, nx: int): (shift: int)
    requires nx > 0
    ensures np >= 0 ==> -nx < shift < nx
  {
    if np >= 0 then
      ShiftRange(np, nx);
      np - TruncatedQuotient(np + Half(nx), nx) * nx
    else np - TruncatedQuotient(np + Half(nx), nx) * nx
  }

  /** For a forward move the shift lies in [-half, nx - half), and so strictly between -nx and nx. */
  lemma ShiftRange(np: int, nx: int)
    requires nx > 0 && np >= 0
    ensures -Half(nx) <= np - TruncatedQuotient(np + Half(nx), nx) * nx < nx - Half(nx)
    ensures -nx < np - TruncatedQuotient(np + Half(nx), nx) * nx < nx
  {
    var a := np + Half(nx);
    assert a == (a / nx) * nx + a % nx;
  }

  /** The shift differs from n_p by a multiple of nx. */
  lemma ShiftCongruent(np: int, nx: int)
    requires nx > 0
    ensures (np - Shift(np, nx)) % nx == 0
  {
    MultipleRemainder(TruncatedQuotient(np + Half(nx), nx), nx);
  }

  /** index_: where cell i of the advected profile is stored, by the source's two sign branches. */
  function RemapIndex(i: int, shift: int, nx: int): (k: int)
    ensures -nx < shift < nx && 0 <= i < nx ==> 0 <= k < nx
  {
    if shift >= 0 then
      if i < shift then nx - shift + i else i - shift
    else
      if i <= nx - 1 + shift then i - shift else i - (nx + shift)
  }

  /** The cell stored at slot k: the inverse of RemapIndex. */
  function SourceIndex(k: int, shift: int, nx: int): (i: int)
    ensures -nx < shift < nx && 0 <= k < nx ==> 0 <= i < nx
  {
    if shift >= 0 then
      if k >= nx - shift then k - nx + shift else k + shift
    else
      if k >= -shift then k + shift else k + nx + shift
  }

  /** For a shift strictly between -nx and nx, RemapIndex and SourceIndex are inverse bijections of [0, nx). */
  lemma RemapBijection(i: int, k: int, shift: int, nx: int)
    requires -nx < shift < nx
    ensures 0 <= i < nx ==> 0 <= RemapIndex(i, shift, nx) < nx && SourceIndex(RemapIndex(i, shift, nx), shift, nx) == i
    ensures 0 <= k < nx ==> 0 <= SourceIndex(k, shift, nx) < nx && RemapIndex(SourceIndex(k, shift, nx), shift, nx) == k
  {
  }

  /** Two cells are never stored in the same slot. */
  lemma RemapInjective(i: int, j: int, shift: int, nx: int)
    requires -nx < shift < nx
    requires 0 <= i < nx && 0 <= j < nx
    requires RemapIndex(i, shift, nx) == RemapIndex(j, shift, nx)
    ensures i == j
  {
    RemapBijection(i, 0, shift, nx);
    RemapBijection(j, 0, shift, nx);
  }

  /** x == r + k * m with r in [0, m) makes r the remainder. */
  lemma RemainderUnique(x: int, r: int, k: int, m: int)
    requires m > 0 && 0 <= r < m && x == r + k * m
    ensures x % m == r
  {
    var q := x / m;
    assert x == q * m + x % m;
    assert (k - q) * m == x % m - r;
    if k - q >= 1 {
      assert false;
    } else if k - q <= -1 {
      assert false;
    }
  }

  /** For a shift strictly between -nx and nx, each cell is stored at (i - shift) mod nx. */
  lemma RemapIsModulo(i: int, shift: int, nx: int)
    requires -nx < shift < nx && 0 <= i < nx
    ensures RemapIndex(i, shift, nx) == (i - shift) % nx
  {
    var r := RemapIndex(i, shift, nx);
    if r == i - shift {
      RemainderUnique(i - shift, r, 0, nx);
    } else if r == nx - shift + i {
      RemainderUnique(i - shift, r, -1, nx);
    } else {
      RemainderUnique(i - shift, r, 1, nx);
    }
  }

  /** Taking away a multiple of m leaves the remainder unchanged. */
  lemma RemainderAfterMultiple(x: int, c: int, m: int)
    requires m > 0
    ensures (x - c * m) % m == x % m
  {
    var q := x / m;
    assert x == q * m + x % m;
    assert x - c * m == x % m + (q - c) * m;
    RemainderUnique(x - c * m, x % m, q - c, m);
  }

  /** With the source's shift, cell i is stored at (i - n_p) mod nx: the pulse moved back by n_p pixels. */
  lemma RemapIsCyclicShift(i: int, np: int, nx: int)
    requires nx > 0 && np >= 0 && 0 <= i < nx
    ensures RemapIndex(i, Shift(np, nx), nx) == (i - np) % nx
  {
    var shift := Shift(np, nx);
    var c := TruncatedQuotient(np + Half(nx), nx);
    assert shift == np - c * nx;
    RemapIsModulo(i, shift, nx);
    RemainderPlusMultiple(i - np, c, nx, i - shift);
  }

  /** Adding a multiple of m leaves the remainder unchanged. */
  lemma RemainderPlusMultiple(x: int, c: int, m: int, y: int)
    requires m > 0 && y == x + c * m
    ensures y % m == x % m
  {
    RemainderAfterMultiple(x, -c, m);
    assert x - (-c) * m == y;
  }

  /**
   * The loop that stores the advected profile (rhogas2, Trad2, Tgas2 and
   * Vgas2 alike): cell i goes to slot index_. Every slot is written once,
   * so slot k ends up with cell SourceIndex(k).
   */
  method RemapProfile(values: seq<real>, np: int) returns (remapped: seq<real>)
    requires |values| > 0 && np >= 0
    ensures |remapped| == |values|
    ensures forall i :: 0 <= i < |values| ==> remapped[RemapIndex(i, Shift(np, |values|), |values|)] == values[i]
    ensures forall k :: 0 <= k < |values| ==> remapped[k] == values[SourceIndex(k, Shift(np, |values|), |values|)]
  {
    var nx := |values|;
    var half := nx / 2;
    var shift := np - TruncatedQuotient(np + half, nx) * nx;
    assert shift == Shift(np, nx);
    var out := new real[nx](_ => 0.0);
    var i := 0;
    while i < nx
      invariant 0 <= i <= nx
      invariant forall j :: 0 <= j < i ==> out[RemapIndex(j, shift, nx)] == values[j]
    {
      var index := 0;
      if shift >= 0 {
        if i < shift {
          index := nx - shift + i;
        } else {
          index := i - shift;
        }
      } else {
        if i <= nx - 1 + shift {
          index := i - shift;
        } else {
          index := i - (nx + shift);
        }
      }
      RemapBijection(i, 0, shift, nx);
      forall j | 0 <= j < i
        ensures RemapIndex(j, shift, nx) != index
      {
        if RemapIndex(j, shift, nx) == index {
          RemapInjective(i, j, shift, nx);
        }
      }
      out[index] := values[i];
      i := i + 1;
    }
    remapped := out[..];
    forall k | 0 <= k < nx
      ensures remapped[k] == values[SourceIndex(k, shift, nx)]
    {
      RemapBijection(0, k, shift, nx);
    }
  }

  /** The per-cell contributions to err_norm: the gaps of Tgas, Trad2 and Tgas2 from Trad. */
  function ErrorTerms(tgas: seq<real>, trad: seq<real>, trad2: seq<real>, tgas2: seq<real>): (e: seq<real>)
    requires |tgas| == |trad| == |trad2| == |tgas2|
    ensures |e| == |trad|
    ensures forall i :: 0 <= i < |e| ==> e[i] >= 0.0
  {
    seq(|trad|, i requires 0 <= i < |trad| => Abs(tgas[i] - trad[i]) + Abs(trad2[i] - trad[i]) + Abs(tgas2[i] - trad[i]))
  }

  /** The per-cell contributions to err_norm's normalisation: three times |Trad|. */
  function SolutionTerms(trad: seq<real>): seq<real>
  {
    seq(|trad|, i requires 0 <= i < |trad| => Abs(trad[i]) * 3.0)
  }

  /** The per-cell contributions to symm_err: the gap between cell i and its mirror nx - 1 - i. */
  function SymmetryTerms(t: seq<real>): (e: seq<real>)
    ensures |e| == |t|
    ensures forall i :: 0 <= i < |e| ==> e[i] >= 0.0
  {
    seq(|t|, i requires 0 <= i < |t| => Abs(t[i] - t[|t| - 1 - i]))
  }

  /** The per-cell contributions to symm_norm. */
  function MagnitudeTerms(t: seq<real>): seq<real>
  {
    seq(|t|, i requires 0 <= i < |t| => Abs(t[i]))
  }

  /** The error-norm loop: err_norm and sol_norm accumulated cell by cell. */
  method ErrorNorms(tgas: seq<real>, trad: seq<real>, trad2: seq<real>, tgas2: seq<real>) returns (errNorm: real, solNorm: real)
    requires |tgas| == |trad| == |trad2| == |tgas2|
    ensures errNorm == Sum(ErrorTerms(tgas, trad, trad2, tgas2))
    ensures solNorm == Sum(SolutionTerms(trad))
  {
    ghost var e := ErrorTerms(tgas, trad, trad2, tgas2);
    ghost var s := SolutionTerms(trad);
    errNorm, solNorm := 0.0, 0.0;
    var i := 0;
    while i < |tgas2|
      invariant 0 <= i <= |tgas2|
      invariant errNorm == Sum(e[..i]) && solNorm == Sum(s[..i])
    {
      SumSnoc(e, i);
      SumSnoc(s, i);
      errNorm := errNorm + Abs(tgas[i] - trad[i]);
      errNorm := errNorm + Abs(trad2[i] - trad[i]);
      errNorm := errNorm + Abs(tgas2[i] - trad[i]);
      solNorm := solNorm + Abs(trad[i]) * 3.0;
      i := i + 1;
    }
    assert e[..i] == e && s[..i] == s;
  }

  /** The symmetry loop: symm_err and symm_norm accumulated cell by cell. */
  method SymmetryNorms(tgas2: seq<real>) returns (symmErr: real, symmNorm: real)
    ensures symmErr == Sum(SymmetryTerms(tgas2))
    ensures symmNorm == Sum(MagnitudeTerms(tgas2))
  {
    ghost var e := SymmetryTerms(tgas2);
    ghost var m := MagnitudeTerms(tgas2);
    symmErr, symmNorm := 0.0, 0.0;
    var i := 0;
    while i < |tgas2|
      invariant 0 <= i <= |tgas2|
      invariant symmErr == Sum(e[..i]) && symmNorm == Sum(m[..i])
    {
      SumSnoc(e, i);
      SumSnoc(m, i);
      symmErr := symmErr + Abs(tgas2[i] - tgas2[|tgas2| - 1 - i]);
      symmNorm := symmNorm + Abs(tgas2[i]);
      i := i + 1;
    }
    assert e[..i] == e && m[..i] == m;
  }

  /** The error norm is zero exactly when both advected profiles and the gas temperature match the radiation temperature. */
  lemma ErrorNormZeroIff(tgas: seq<real>, trad: seq<real>, trad2: seq<real>, tgas2: seq<real>)
    requires |tgas| == |trad| == |trad2| == |tgas2|
    ensures Sum(ErrorTerms(tgas, trad, trad2, tgas2)) >= 0.0
    ensures Sum(ErrorTerms(tgas, trad, trad2, tgas2)) == 0.0 <==> tgas == trad && trad2 == trad && tgas2 == trad
  {
    var e := ErrorTerms(tgas, trad, trad2, tgas2);
    SumNonNegative(e);
    if Sum(e) == 0.0 {
      SumZeroOnlyIfZeros(e);
      assert forall i :: 0 <= i < |trad| ==> tgas[i] == trad[i] && trad2[i] == trad[i] && tgas2[i] == trad[i] by {
        forall i | 0 <= i < |trad|
          ensures tgas[i] == trad[i] && trad2[i] == trad[i] && tgas2[i] == trad[i]
        {
          assert e[i] == 0.0;
        }
      }
    }
    if tgas == trad && trad2 == trad && tgas2 == trad {
      SumZero(e);
    }
  }

  /** The symmetry error is zero exactly when the profile reads the same from both ends. */
  lemma SymmetryErrorZeroIff(t: seq<real>)
    ensures Sum(SymmetryTerms(t)) >= 0.0
    ensures Sum(SymmetryTerms(t)) == 0.0 <==> forall i :: 0 <= i < |t| ==> t[i] == t[|t| - 1 - i]
  {
    var e := SymmetryTerms(t);
    SumNonNegative(e);
    if Sum(e) == 0.0 {
      SumZeroOnlyIfZeros(e);
      forall i | 0 <= i < |t|
        ensures t[i] == t[|t| - 1 - i]
      {
        assert e[i] == 0.0;
      }
    }
    if forall i :: 0 <= i < |t| ==> t[i] == t[|t| - 1 - i] {
      assert forall i :: 0 <= i < |t| ==> e[i] == 0.0 by {
        forall i | 0 <= i < |t|
          ensures e[i] == 0.0
        {
          assert t[i] == t[|t| - 1 - i];
        }
      }
      SumZero(e);
    }
  }

  /** A relative error: undefined (NaN, or infinite) when the norm is zero. */
  function RelativeError(err: real, norm: real): Option<real>
  {
    if norm == 0.0 then None else Some(err / norm)
  }

  /** A relative error fails its tolerance when it exceeds it or is not a finite number. */
  predicate FailsTolerance(rel: Option<real>, tolerance: real)
  {
    rel.None? || rel.value > tolerance
  }

  /** The test's exit status: 1 when either relative error fails its tolerance, 0 otherwise. */
  function Status(errNorm: real, solNorm: real, symmErr: real, symmNorm: real): int
  {
    if FailsTolerance(RelativeError(errNorm, solNorm), ErrorTolerance)
       || FailsTolerance(RelativeError(symmErr, symmNorm), SymmetryTolerance)
    then 1 else 0
  }

  /**
   * With positive norms the test passes exactly when each error is within
   * its tolerance times its norm; a zero norm always fails.
   */
  lemma StatusZeroIff(errNorm: real, solNorm: real, symmErr: real, symmNorm: real)
    ensures Status(errNorm, solNorm, symmErr, symmNorm) == 0 || Status(errNorm, solNorm, symmErr, symmNorm) == 1
    ensures solNorm == 0.0 || symmNorm == 0.0 ==> Status(errNorm, solNorm, symmErr, symmNorm) == 1
    ensures solNorm > 0.0 && symmNorm > 0.0 ==>
      (Status(errNorm, solNorm, symmErr, symmNorm) == 0 <==>
         errNorm <= ErrorTolerance * solNorm && symmErr <= SymmetryTolerance * symmNorm)
  {
    if solNorm > 0.0 && symmNorm > 0.0 {
      DivCompare(errNorm, solNorm, ErrorTolerance);
      DivCompare(symmErr, symmNorm, SymmetryTolerance);
    }
  }
}
