/**
 * Conversion between the gas total energy density and the internal energy
 * density: ComputeEintFromEgas and ComputeEgasFromEint of RadSystem. Both
 * subtract or add the kinetic energy p^2 / (2 rho), where p is the momentum
 * density (X1GasMom, X2GasMom, X3GasMom).
 */
module GasEnergy {
  import opened Numerics

  /** p^2 with the three squares written out, as the source does. */
  function MomentumSquared(x1: real, x2: real, x3: real): (r: real)
    ensures r >= 0.0
    ensures x1 == 0.0 && x2 == 0.0 && x3 == 0.0 ==> r == 0.0
  {
    SquaresNonNegative(x1, x2, x3);
    x1 * x1 + x2 * x2 + x3 * x3
  }

  lemma SquaresNonNegative(x1: real, x2: real, x3: real)
    ensures x1 * x1 >= 0.0 && x2 * x2 >= 0.0 && x3 * x3 >= 0.0
  {
    SquarePositive(x1);
    SquarePositive(x2);
    SquarePositive(x3);
  }

  lemma SquarePositive(x: real)
    ensures x * x >= 0.0
  {
    if x > 0.0 {
      MulPos(x, x);
    } else if x < 0.0 {
      MulPos(-x, -x);
      assert (-x) * (-x) == x * x;
    }
  }

  /**
   * Ekin = p^2 / (2 rho). None when rho == 0, where the source divides by
   * zero.
   */
  function KineticEnergy(density: real, x1: real, x2: real, x3: real): (r: Option<real>)
    ensures r.Some? <==> density != 0.0
    ensures r.Some? ==> r.value * (2.0 * density) == MomentumSquared(x1, x2, x3)
    ensures r.Some? && density > 0.0 ==> r.value >= 0.0
  {
    if density == 0.0 then None
    else
      var ekin := MomentumSquared(x1, x2, x3) / (2.0 * density);
      NonNegativeQuotient(MomentumSquared(x1, x2, x3), 2.0 * density);
      Some(ekin)
  }

  lemma NonNegativeQuotient(n: real, d: real)
    requires d != 0.0
    ensures n / d * d == n
    ensures n >= 0.0 && d > 0.0 ==> n / d >= 0.0
  {
    var q := n / d;
    assert q * d == n;
  }

  /**
   * ComputeEintFromEgas: Eint = Etot - Ekin. None when rho == 0, and when
   * the source's assertion Eint > 0 fails.
   */
  function EintFromEgas(density: real, x1: real, x2: real, x3: real, etot: real): (r: Option<real>)
    ensures r.Some? <==> KineticEnergy(density, x1, x2, x3).Some? && etot - KineticEnergy(density, x1, x2, x3).value > 0.0
    ensures r.Some? ==> r.value > 0.0 && r.value + KineticEnergy(density, x1, x2, x3).value == etot
  {
    var ekin := KineticEnergy(density, x1, x2, x3);
    if ekin.None? then None
    else
      var eint := etot - ekin.value;
      if eint > 0.0 then Some(eint) else None
  }

  /** ComputeEgasFromEint: Etot = Eint + Ekin. None when rho == 0. */
  function EgasFromEint(density: real, x1: real, x2: real, x3: real, eint: real): (r: Option<real>)
    ensures r.Some? <==> density != 0.0
    ensures r.Some? ==> r.value - KineticEnergy(density, x1, x2, x3).value == eint
  {
    var ekin := KineticEnergy(density, x1, x2, x3);
    if ekin.None? then None else Some(eint + ekin.value)
  }

  /** Adding the kinetic energy back to the internal energy gives the total energy. */
  lemma EgasOfEint(density: real, x1: real, x2: real, x3: real, etot: real)
    requires EintFromEgas(density, x1, x2, x3, etot).Some?
    ensures EgasFromEint(density, x1, x2, x3, EintFromEgas(density, x1, x2, x3, etot).value) == Some(etot)
  {
  }

  /** A positive internal energy survives the round trip through the total energy. */
  lemma EintOfEgas(density: real, x1: real, x2: real, x3: real, eint: real)
    requires density != 0.0 && eint > 0.0
    ensures EintFromEgas(density, x1, x2, x3, EgasFromEint(density, x1, x2, x3, eint).value) == Some(eint)
  {
  }

  /** With rho > 0 the internal energy never exceeds the total energy, and equals it for a gas at rest. */
  lemma EintAtMostEgas(density: real, x1: real, x2: real, x3: real, etot: real)
    requires density > 0.0 && EintFromEgas(density, x1, x2, x3, etot).Some?
    ensures EintFromEgas(density, x1, x2, x3, etot).value <= etot
    ensures x1 == 0.0 && x2 == 0.0 && x3 == 0.0 ==> EintFromEgas(density, x1, x2, x3, etot).value == etot
  {
    var k := KineticEnergy(density, x1, x2, x3).value;
    if x1 == 0.0 && x2 == 0.0 && x3 == 0.0 {
      assert k * (2.0 * density) == 0.0;
      ZeroProduct(k, 2.0 * density);
    }
  }

  lemma ZeroProduct(a: real, b: real)
    requires a * b == 0.0 && b != 0.0
    ensures a == 0.0
  {
    assert a == a * b / b;
  }
}
