/**
 * Admissibility of the radiation state of one cell, the repair of an
 * inadmissible state, and the conversion from conserved to primitive
 * radiation variables (src/radiation_system.hpp).
 *
 * A cell's radiation block holds four numbers per photon group, in the
 * order E_r, F_x, F_y, F_z: group g occupies offsets 4g .. 4g+3. A group
 * is admissible when its energy density is positive and its flux is causal,
 * |F| <= c E_r.
 */
module RadState {
  import opened Numerics

  /** One photon group of a radiation block: energy density and flux. */
  datatype RadGroup = RadGroup(e: real, f: Vec3)

  /** The view of group g of a radiation block. */
  function GroupAt(s: seq<real>, g: nat): RadGroup
    requires 4 * g + 3 < |s|
  {
    RadGroup(s[4 * g], Vec3(s[4 * g + 1], s[4 * g + 2], s[4 * g + 3]))
  }

  /** Component k (0: energy, 1..3: flux) of a group. */
  function GroupEntry(r: RadGroup, k: nat): real
    requires k < 4
  {
    if k == 0 then r.e else Component(r.f, k - 1)
  }

  /** Every entry of a block of n groups is an entry of its group. */
  lemma GroupEntryAt(s: seq<real>, n: nat, k: nat)
    requires |s| == 4 * n && k < |s|
    ensures k / 4 < n && GroupEntry(GroupAt(s, k / 4), k % 4) == s[k]
  {
  }

  /** Two blocks of n groups with the same groups are the same block. */
  lemma BlocksEqualByGroups(s: seq<real>, t: seq<real>, n: nat)
    requires |s| == 4 * n && |t| == 4 * n
    requires forall g :: 0 <= g < n ==> GroupAt(s, g) == GroupAt(t, g)
    ensures s == t
  {
    forall k | 0 <= k < |s|
      ensures s[k] == t[k]
    {
      GroupEntryAt(s, n, k);
      GroupEntryAt(t, n, k);
    }
  }

  /** A group is admissible: E_r > 0 and |F| <= c E_r. */
  predicate GroupValid(sqrt: real -> real, c: real, r: RadGroup)
  {
    r.e > 0.0 && sqrt(Norm2(r.f)) <= c * r.e
  }

  /** Every group of a block of n groups is admissible. */
  predicate StateValid(sqrt: real -> real, c: real, s: seq<real>, n: nat)
    requires |s| == 4 * n
  {
    forall g :: 0 <= g < n ==> GroupValid(sqrt, c, GroupAt(s, g))
  }

  /** Admissibility without the square root: E_r > 0 and |F|^2 <= (c E_r)^2. */
  lemma GroupValidSquared(sqrt: real -> real, c: real, r: RadGroup)
    requires SqrtLaw(sqrt) && c > 0.0
    ensures GroupValid(sqrt, c, r) <==> r.e > 0.0 && Norm2(r.f) <= c * c * r.e * r.e
  {
    var ce := c * r.e;
    SumOfSquaresNonNeg(r.f.x, r.f.y, r.f.z);
    assert Norm2(r.f) == r.f.x * r.f.x + r.f.y * r.f.y + r.f.z * r.f.z;
    if r.e > 0.0 {
      MulPos(c, r.e);
      SqrtAtMost(sqrt, Norm2(r.f), ce);
      SquareOfProduct(c, r.e);
    }
  }

  lemma SquareOfProduct(c: real, e: real)
    ensures c * c * e * e == (c * e) * (c * e)
  {
  }

  /**
   * The source's causality test f = |F| / (c E_r) <= 1, where at E_r = 0
   * the IEEE quotient is +inf or NaN and the comparison fails. Together
   * with E_r > 0 it is exactly admissibility.
   */
  lemma GroupTest(sqrt: real -> real, c: real, eR: real, fx: real, fy: real, fz: real, fnorm: real)
    requires SqrtLaw(sqrt) && c > 0.0 && fnorm == sqrt(fx * fx + fy * fy + fz * fz)
    requires eR != 0.0
    ensures c * eR != 0.0
    ensures (eR > 0.0 && fnorm / (c * eR) <= 1.0) <==> GroupValid(sqrt, c, RadGroup(eR, Vec3(fx, fy, fz)))
  {
    MulNonZero(c, eR);
    assert Norm2(Vec3(fx, fy, fz)) == fx * fx + fy * fy + fz * fz;
    if eR > 0.0 {
      MulPos(c, eR);
      DivCompare(fnorm, c * eR, 1.0);
    }
  }

  /** isStateValid: whether every group of the block is admissible. */
  method IsStateValid(sqrt: real -> real, c: real, cons: array<real>, n: nat) returns (isValid: bool)
    requires SqrtLaw(sqrt) && c > 0.0 && cons.Length == 4 * n
    ensures isValid <==> StateValid(sqrt, c, cons[..], n)
  {
    isValid := true;
    var g := 0;
    while g < n
      invariant 0 <= g <= n
      invariant isValid <==> forall h :: 0 <= h < g ==> GroupValid(sqrt, c, GroupAt(cons[..], h))
    {
      var eR := cons[4 * g];
      var fx, fy, fz := cons[4 * g + 1], cons[4 * g + 2], cons[4 * g + 3];
      var fnorm := sqrt(fx * fx + fy * fy + fz * fz);
      var isNonNegative := eR > 0.0;
      var isFluxCausal := false;
      if eR != 0.0 {
        GroupTest(sqrt, c, eR, fx, fy, fz, fnorm);
        isFluxCausal := fnorm / (c * eR) <= 1.0;
      }
      assert GroupAt(cons[..], g) == RadGroup(eR, Vec3(fx, fy, fz));
      isValid := isValid && isNonNegative && isFluxCausal;
      g := g + 1;
    }
  }

  /** The energy density after flooring. */
  function FlooredEnergy(floor: real, e: real): real
  {
    if e < floor then floor else e
  }

  /** The acausality test of amendRadState: |F|^2 > c^2 E_r^2. */
  predicate Acausal(c: real, e: real, f: Vec3)
  {
    Norm2(f) > c * c * e * e
  }

  /** The flux carried onto the sphere |F| = c E_r, computed as F / |F| * c * E_r. */
  function RescaledFlux(f: Vec3, fnorm: real, c: real, e: real): Vec3
    requires fnorm != 0.0
  {
    Vec3(f.x / fnorm * c * e, f.y / fnorm * c * e, f.z / fnorm * c * e)
  }

  /**
   * amendRadState for one group: raise E_r to the floor, then, if the flux
   * is acausal, rescale it onto the sphere |F| = c E_r keeping its direction.
   */
  function AmendGroup(sqrt: real -> real, c: real, floor: real, r: RadGroup): (a: RadGroup)
    requires SqrtLaw(sqrt)
  {
    var e := FlooredEnergy(floor, r.e);
    if Acausal(c, e, r.f) then
      AcausalNorm(sqrt, c, e, r.f);
      RadGroup(e, RescaledFlux(r.f, sqrt(Norm2(r.f)), c, e))
    else
      RadGroup(e, r.f)
  }

  /** An acausal flux is non-zero, so its length can divide. */
  lemma AcausalNorm(sqrt: real -> real, c: real, e: real, f: Vec3)
    requires SqrtLaw(sqrt) && Acausal(c, e, f)
    ensures sqrt(Norm2(f)) > 0.0
  {
    SquareNonNeg(c * e);
    SquareOfProduct(c, e);
    SqrtPositive(sqrt, Norm2(f));
  }

  /** After amendment E_r is at least the floor, and it only ever grows. */
  lemma AmendFloor(sqrt: real -> real, c: real, floor: real, r: RadGroup)
    requires SqrtLaw(sqrt)
    ensures var a := AmendGroup(sqrt, c, floor, r);
            a.e == FlooredEnergy(floor, r.e)
            && a.e >= floor && a.e >= r.e && (a.e == r.e || a.e == floor)
  {
  }

  /** A vector divided by its length and scaled by k has squared length k^2. */
  lemma RescaledLength(fx: real, fy: real, fz: real, fnorm: real, c: real, e: real)
    requires fnorm > 0.0 && fnorm * fnorm == fx * fx + fy * fy + fz * fz
    ensures var v := Vec3(fx / fnorm * c * e, fy / fnorm * c * e, fz / fnorm * c * e);
            Norm2(v) == (c * e) * (c * e)
  {
    var k := c * e;
    var ux, uy, uz := fx / fnorm, fy / fnorm, fz / fnorm;
    UnitComponents(fx, fy, fz, fnorm);
    assert ux * c * e == k * ux && uy * c * e == k * uy && uz * c * e == k * uz;
    ScaledSquares(k, ux, uy, uz);
  }

  lemma UnitComponents(fx: real, fy: real, fz: real, f: real)
    requires f > 0.0 && f * f == fx * fx + fy * fy + fz * fz
    ensures (fx / f) * (fx / f) + (fy / f) * (fy / f) + (fz / f) * (fz / f) == 1.0
  {
    DivMulDiv(fx, f, fx, f);
    DivMulDiv(fy, f, fy, f);
    DivMulDiv(fz, f, fz, f);
    DivAdd3(fx * fx, fy * fy, fz * fz, f, f);
    DivSelf(f, f);
  }

  lemma ScaledSquares(k: real, x: real, y: real, z: real)
    requires x * x + y * y + z * z == 1.0
    ensures (k * x) * (k * x) + (k * y) * (k * y) + (k * z) * (k * z) == k * k
  {
    assert (k * x) * (k * x) + (k * y) * (k * y) + (k * z) * (k * z) == (k * k) * (x * x + y * y + z * z);
  }

  /**
   * An amended group is causal in the squared form used by the source:
   * |F|^2 <= c^2 E_r^2, with equality when the flux was rescaled.
   */
  lemma AmendCausal(sqrt: real -> real, c: real, floor: real, r: RadGroup)
    requires SqrtLaw(sqrt)
    ensures var a := AmendGroup(sqrt, c, floor, r);
            Norm2(a.f) <= c * c * a.e * a.e
  {
    var e := FlooredEnergy(floor, r.e);
    if Acausal(c, e, r.f) {
      AcausalNorm(sqrt, c, e, r.f);
      SumOfSquaresNonNeg(r.f.x, r.f.y, r.f.z);
      SqrtFact(sqrt, Norm2(r.f));
      var fnorm := sqrt(Norm2(r.f));
      RescaledLength(r.f.x, r.f.y, r.f.z, fnorm, c, e);
      SquareOfProduct(c, e);
    }
  }

  /**
   * A rescaled flux is the old flux times c E_r / |F|, a positive multiple
   * whenever the amended energy is positive, and it lies on the causal sphere.
   */
  lemma AmendRescales(sqrt: real -> real, c: real, floor: real, r: RadGroup)
    requires SqrtLaw(sqrt) && c > 0.0
    requires Acausal(c, FlooredEnergy(floor, r.e), r.f)
    ensures sqrt(Norm2(r.f)) > 0.0
    ensures var a := AmendGroup(sqrt, c, floor, r);
            var k := c * a.e / sqrt(Norm2(r.f));
            a.f == Scale(k, r.f) && (a.e > 0.0 ==> k > 0.0)
            && Norm2(a.f) == c * c * a.e * a.e
  {
    var e := FlooredEnergy(floor, r.e);
    AcausalNorm(sqrt, c, e, r.f);
    var fnorm := sqrt(Norm2(r.f));
    var k := c * e / fnorm;
    ScaleByQuotient(r.f.x, fnorm, c, e);
    ScaleByQuotient(r.f.y, fnorm, c, e);
    ScaleByQuotient(r.f.z, fnorm, c, e);
    if e > 0.0 {
      MulPos(c, e);
    }
    AmendCausalAt(sqrt, c, e, r.f, fnorm);
  }

  lemma ScaleByQuotient(x: real, fnorm: real, c: real, e: real)
    requires fnorm != 0.0
    ensures x / fnorm * c * e == (c * e / fnorm) * x
  {
  }

  lemma AmendCausalAt(sqrt: real -> real, c: real, e: real, f: Vec3, fnorm: real)
    requires SqrtLaw(sqrt) && fnorm == sqrt(Norm2(f)) && fnorm > 0.0
    ensures Norm2(RescaledFlux(f, fnorm, c, e)) == c * c * e * e
  {
    SumOfSquaresNonNeg(f.x, f.y, f.z);
    SqrtFact(sqrt, Norm2(f));
    RescaledLength(f.x, f.y, f.z, fnorm, c, e);
    SquareOfProduct(c, e);
  }

  /**
   * Amendment leaves a group alone exactly when it is at or above the floor
   * and causal; in particular an admissible group above the floor is unchanged.
   */
  lemma AmendUnchanged(sqrt: real -> real, c: real, floor: real, r: RadGroup)
    requires SqrtLaw(sqrt) && c > 0.0
    ensures AmendGroup(sqrt, c, floor, r) == r <==> r.e >= floor && Norm2(r.f) <= c * c * r.e * r.e
    ensures r.e >= floor && GroupValid(sqrt, c, r) ==> AmendGroup(sqrt, c, floor, r) == r
  {
    GroupValidSquared(sqrt, c, r);
    var e := FlooredEnergy(floor, r.e);
    if Acausal(c, e, r.f) {
      AmendRescales(sqrt, c, floor, r);
    }
  }

  /** With a positive floor every amended group is admissible. */
  lemma AmendValid(sqrt: real -> real, c: real, floor: real, r: RadGroup)
    requires SqrtLaw(sqrt) && c > 0.0 && floor > 0.0
    ensures GroupValid(sqrt, c, AmendGroup(sqrt, c, floor, r))
  {
    var a := AmendGroup(sqrt, c, floor, r);
    AmendFloor(sqrt, c, floor, r);
    AmendCausal(sqrt, c, floor, r);
    GroupValidSquared(sqrt, c, a);
  }

  /** Amending twice is amending once. */
  lemma AmendIdempotent(sqrt: real -> real, c: real, floor: real, r: RadGroup)
    requires SqrtLaw(sqrt) && c > 0.0
    ensures var a := AmendGroup(sqrt, c, floor, r);
            AmendGroup(sqrt, c, floor, a) == a
  {
    var a := AmendGroup(sqrt, c, floor, r);
    AmendFloor(sqrt, c, floor, r);
    AmendCausal(sqrt, c, floor, r);
    AmendUnchanged(sqrt, c, floor, a);
  }

  /** A whole block amended group by group. */
  function AmendState(sqrt: real -> real, c: real, floor: real, s: seq<real>, n: nat): (t: seq<real>)
    requires SqrtLaw(sqrt) && |s| == 4 * n
    ensures |t| == 4 * n
  {
    seq(4 * n, k requires 0 <= k < 4 * n => GroupEntry(AmendGroup(sqrt, c, floor, GroupAt(s, k / 4)), k % 4))
  }

  /** Group g of an amended block is group g amended. */
  lemma AmendStateGroup(sqrt: real -> real, c: real, floor: real, s: seq<real>, n: nat, g: nat)
    requires SqrtLaw(sqrt) && |s| == 4 * n && g < n
    ensures GroupAt(AmendState(sqrt, c, floor, s, n), g) == AmendGroup(sqrt, c, floor, GroupAt(s, g))
  {
    var t := AmendState(sqrt, c, floor, s, n);
    var a := AmendGroup(sqrt, c, floor, GroupAt(s, g));
    assert (4 * g) / 4 == g && (4 * g + 1) / 4 == g && (4 * g + 2) / 4 == g && (4 * g + 3) / 4 == g;
    assert (4 * g) % 4 == 0 && (4 * g + 1) % 4 == 1 && (4 * g + 2) % 4 == 2 && (4 * g + 3) % 4 == 3;
    GroupFromEntries(t, g, a);
  }

  /** A group is determined by its four entries. */
  lemma GroupFromEntries(t: seq<real>, g: nat, a: RadGroup)
    requires 4 * g + 3 < |t|
    requires forall k :: 0 <= k < 4 ==> t[4 * g + k] == GroupEntry(a, k)
    ensures GroupAt(t, g) == a
  {
    assert t[4 * g + 0] == GroupEntry(a, 0);
    assert t[4 * g + 1] == GroupEntry(a, 1);
    assert t[4 * g + 2] == GroupEntry(a, 2);
    assert t[4 * g + 3] == GroupEntry(a, 3);
  }

  /** With a positive floor an amended block is admissible. */
  lemma AmendStateValid(sqrt: real -> real, c: real, floor: real, s: seq<real>, n: nat)
    requires SqrtLaw(sqrt) && c > 0.0 && floor > 0.0 && |s| == 4 * n
    ensures StateValid(sqrt, c, AmendState(sqrt, c, floor, s, n), n)
  {
    forall g | 0 <= g < n
      ensures GroupValid(sqrt, c, GroupAt(AmendState(sqrt, c, floor, s, n), g))
    {
      AmendStateGroup(sqrt, c, floor, s, n, g);
      AmendValid(sqrt, c, floor, GroupAt(s, g));
    }
  }

  /** An admissible block whose energies are all at or above the floor is left alone. */
  lemma AmendStateUnchanged(sqrt: real -> real, c: real, floor: real, s: seq<real>, n: nat)
    requires SqrtLaw(sqrt) && c > 0.0 && |s| == 4 * n && StateValid(sqrt, c, s, n)
    requires forall g :: 0 <= g < n ==> GroupAt(s, g).e >= floor
    ensures AmendState(sqrt, c, floor, s, n) == s
  {
    var t := AmendState(sqrt, c, floor, s, n);
    forall g | 0 <= g < n
      ensures GroupAt(t, g) == GroupAt(s, g)
    {
      AmendStateGroup(sqrt, c, floor, s, n, g);
      AmendUnchanged(sqrt, c, floor, GroupAt(s, g));
    }
    BlocksEqualByGroups(t, s, n);
  }

  /**
   * With a zero floor amendment does not always produce an admissible
   * state: a negative energy is raised only to 0, which fails E_r > 0.
   */
  lemma AmendZeroFloorNotValid(sqrt: real -> real, c: real)
    requires SqrtLaw(sqrt) && c > 0.0
    ensures !GroupValid(sqrt, c, AmendGroup(sqrt, c, 0.0, RadGroup(-1.0, Vec3(0.0, 0.0, 0.0))))
  {
    AmendFloor(sqrt, c, 0.0, RadGroup(-1.0, Vec3(0.0, 0.0, 0.0)));
  }

  /** amendRadState: amends every group of the block in place. */
  method AmendRadState(sqrt: real -> real, c: real, floor: real, cons: array<real>, n: nat)
    requires SqrtLaw(sqrt) && cons.Length == 4 * n
    modifies cons
    ensures cons[..] == AmendState(sqrt, c, floor, old(cons[..]), n)
  {
    ghost var s := cons[..];
    var g := 0;
    while g < n
      invariant 0 <= g <= n
      invariant forall h :: 0 <= h < g ==> GroupAt(cons[..], h) == AmendGroup(sqrt, c, floor, GroupAt(s, h))
      invariant forall k :: 4 * g <= k < 4 * n ==> cons[k] == s[k]
    {
      ghost var before := cons[..];
      assert GroupAt(before, g) == GroupAt(s, g);
      AmendGroupInPlace(sqrt, c, floor, cons, g);
      forall h | 0 <= h < g
        ensures GroupAt(cons[..], h) == GroupAt(before, h)
      {
        assert 4 * h + 3 < 4 * g;
      }
      g := g + 1;
    }
    forall h | 0 <= h < n
      ensures GroupAt(cons[..], h) == GroupAt(AmendState(sqrt, c, floor, s, n), h)
    {
      AmendStateGroup(sqrt, c, floor, s, n, h);
    }
    BlocksEqualByGroups(cons[..], AmendState(sqrt, c, floor, s, n), n);
  }

  /** The body of the group loop of amendRadState: amends group g and nothing else. */
  method AmendGroupInPlace(sqrt: real -> real, c: real, floor: real, cons: array<real>, g: nat)
    requires SqrtLaw(sqrt) && 4 * g + 3 < cons.Length
    modifies cons
    ensures GroupAt(cons[..], g) == AmendGroup(sqrt, c, floor, GroupAt(old(cons[..]), g))
    ensures forall k :: 0 <= k < cons.Length && (k < 4 * g || 4 * g + 3 < k) ==> cons[k] == old(cons[k])
  {
    ghost var r := GroupAt(cons[..], g);
    var eR := cons[4 * g];
    if eR < floor {
      eR := floor;
      cons[4 * g] := floor;
    }
    var fx, fy, fz := cons[4 * g + 1], cons[4 * g + 2], cons[4 * g + 3];
    assert Vec3(fx, fy, fz) == r.f && eR == FlooredEnergy(floor, r.e);
    if Acausal(c, eR, Vec3(fx, fy, fz)) {
      AcausalNorm(sqrt, c, eR, r.f);
      var fnorm := sqrt(Norm2(Vec3(fx, fy, fz)));
      var rescaled := RescaledFlux(Vec3(fx, fy, fz), fnorm, c, eR);
      cons[4 * g + 1] := rescaled.x;
      cons[4 * g + 2] := rescaled.y;
      cons[4 * g + 3] := rescaled.z;
    }
  }

  /** Primitive variables of a group: E_r and the reduced flux F / (c E_r). */
  function ToPrimitive(c: real, r: RadGroup): RadGroup
    requires c > 0.0 && r.e > 0.0
  {
    MulPos(c, r.e);
    RadGroup(r.e, Vec3(r.f.x / (c * r.e), r.f.y / (c * r.e), r.f.z / (c * r.e)))
  }

  /** The inverse map: F = c E_r f. */
  function ToConserved(c: real, p: RadGroup): RadGroup
  {
    RadGroup(p.e, Vec3(p.f.x * (c * p.e), p.f.y * (c * p.e), p.f.z * (c * p.e)))
  }

  lemma QuotientTimes(x: real, c: real, e: real)
    requires c * e != 0.0
    ensures x / (c * e) * (c * e) == x && x * (c * e) / (c * e) == x
  {
  }

  /** Converting to primitive variables and back gives the conserved group. */
  lemma PrimitiveRoundTrip(c: real, r: RadGroup)
    requires c > 0.0 && r.e > 0.0
    ensures ToConserved(c, ToPrimitive(c, r)) == r
  {
    MulPos(c, r.e);
    QuotientTimes(r.f.x, c, r.e);
    QuotientTimes(r.f.y, c, r.e);
    QuotientTimes(r.f.z, c, r.e);
  }

  /** Converting primitive variables to conserved ones and back gives them back. */
  lemma ConservedRoundTrip(c: real, p: RadGroup)
    requires c > 0.0 && p.e > 0.0
    ensures ToPrimitive(c, ToConserved(c, p)) == p
  {
    MulPos(c, p.e);
    QuotientTimes(p.f.x, c, p.e);
    QuotientTimes(p.f.y, c, p.e);
    QuotientTimes(p.f.z, c, p.e);
  }

  /** A group with E_r > 0 is admissible exactly when its reduced flux has length at most 1. */
  lemma ReducedFluxCausal(sqrt: real -> real, c: real, r: RadGroup)
    requires SqrtLaw(sqrt) && c > 0.0 && r.e > 0.0
    ensures GroupValid(sqrt, c, r) <==> Norm2(ToPrimitive(c, r).f) <= 1.0
  {
    var x, y, z, e := r.f.x, r.f.y, r.f.z, r.e;
    MulPos(c, e);
    var p := ToPrimitive(c, r);
    assert Norm2(p.f) == (x / (c * e)) * (x / (c * e)) + (y / (c * e)) * (y / (c * e)) + (z / (c * e)) * (z / (c * e));
    QuotientProduct(x, c, e, x, c, e);
    QuotientProduct(y, c, e, y, c, e);
    QuotientProduct(z, c, e, z, c, e);
    QuotientSquares(x, y, z, c, e, c, e);
    assert Norm2(r.f) == x * x + y * y + z * z;
    DivCompareProducts(Norm2(r.f), c, e, c, e, 1.0);
    SumOfSquaresNonNeg(x, y, z);
    SqrtAtMostProduct(sqrt, Norm2(r.f), c, e);
  }

  /** Row i of a cell-by-variable array. */
  function Row(a: array2<real>, i: nat): (r: seq<real>)
    reads a
    requires i < a.Length0
    ensures |r| == a.Length1 && forall v :: 0 <= v < a.Length1 ==> r[v] == a[i, v]
  {
    seq(a.Length1, v requires 0 <= v < a.Length1 reads a => a[i, v])
  }

  /** The rows of a cell-by-variable array. */
  function Rows(a: array2<real>): (r: seq<seq<real>>)
    reads a
    ensures |r| == a.Length0 && forall i :: 0 <= i < a.Length0 ==> r[i] == Row(a, i)
  {
    seq(a.Length0, i requires 0 <= i < a.Length0 reads a => Row(a, i))
  }

  /** Group g of row i of a two-dimensional cell-by-variable array. */
  function RowGroup(a: array2<real>, i: nat, g: nat): RadGroup
    reads a
    requires i < a.Length0 && 4 * g + 3 < a.Length1
  {
    RadGroup(a[i, 4 * g], Vec3(a[i, 4 * g + 1], a[i, 4 * g + 2], a[i, 4 * g + 3]))
  }

  /**
   * ConservedToPrimitive over a row of cells: keeps E_r and replaces each
   * flux by the reduced flux. The source asserts E_r > 0 in every group.
   */
  method ConservedToPrimitive(c: real, cons: array2<real>, prim: array2<real>, n: nat)
    requires c > 0.0 && cons != prim
    requires cons.Length1 == 4 * n && prim.Length0 == cons.Length0 && prim.Length1 == 4 * n
    requires forall i, g :: 0 <= i < cons.Length0 && 0 <= g < n ==> RowGroup(cons, i, g).e > 0.0
    modifies prim
    ensures forall i, g :: 0 <= i < cons.Length0 && 0 <= g < n ==>
              RowGroup(prim, i, g) == ToPrimitive(c, RowGroup(cons, i, g))
  {
    var i := 0;
    while i < cons.Length0
      invariant 0 <= i <= cons.Length0
      invariant forall i', g :: 0 <= i' < i && 0 <= g < n ==>
                  RowGroup(prim, i', g) == ToPrimitive(c, RowGroup(cons, i', g))
    {
      var g := 0;
      while g < n
        invariant 0 <= g <= n
        invariant forall i', h :: 0 <= i' < i && 0 <= h < n ==>
                    RowGroup(prim, i', h) == ToPrimitive(c, RowGroup(cons, i', h))
        invariant forall h :: 0 <= h < g ==> RowGroup(prim, i, h) == ToPrimitive(c, RowGroup(cons, i, h))
      {
        StorePrimitiveGroup(c, cons, prim, i, g);
        g := g + 1;
      }
      i := i + 1;
    }
  }

  /** The body of the group loop of ConservedToPrimitive: writes group g of cell i and nothing else. */
  method StorePrimitiveGroup(c: real, cons: array2<real>, prim: array2<real>, i: nat, g: nat)
    requires c > 0.0 && cons != prim
    requires i < cons.Length0 && i < prim.Length0 && 4 * g + 3 < cons.Length1 && 4 * g + 3 < prim.Length1
    requires RowGroup(cons, i, g).e > 0.0
    modifies prim
    ensures RowGroup(prim, i, g) == ToPrimitive(c, RowGroup(cons, i, g))
    ensures forall i', h :: 0 <= i' < prim.Length0 && 0 <= h && 4 * h + 3 < prim.Length1 && (i' != i || h != g) ==>
              RowGroup(prim, i', h) == old(RowGroup(prim, i', h))
  {
    var eR := cons[i, 4 * g];
    var fx, fy, fz := cons[i, 4 * g + 1], cons[i, 4 * g + 2], cons[i, 4 * g + 3];
    MulPos(c, eR);
    prim[i, 4 * g] := eR;
    prim[i, 4 * g + 1] := fx / (c * eR);
    prim[i, 4 * g + 2] := fy / (c * eR);
    prim[i, 4 * g + 3] := fz / (c * eR);
  }
}
