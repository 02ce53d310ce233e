/**
 * The ideal gamma-law equation of state of quokka::EOS (src/EOS.hpp). Each
 * problem supplies its traits: the adiabatic index gamma, the mean molecular
 * weight mu and Boltzmann's constant k_B. All three functions use the
 * specific heat c_v = k_B / (mu (gamma - 1)). When gamma == 1 the source
 * returns NaN, and the model returns None. The model also returns None when
 * mu == 0, where c_v divides by zero.
 */
module EquationOfState {
  import opened Numerics

  /** boltzmann_constant_cgs and hydrogen_mass_cgs. */
  const BoltzmannConstantCgs: real := 1.380658e-16
  const HydrogenMassCgs: real := 1.6726231e-24

  datatype EosTraits = EosTraits(gamma: real, meanMolecularWeight: real, boltzmannConstant: real)

  /** The default traits: gamma = 5/3 and the cgs Boltzmann constant; mu is set per problem. */
  function DefaultTraits(meanMolecularWeight: real): (t: EosTraits)
    ensures t.gamma == 5.0 / 3.0 && t.boltzmannConstant == BoltzmannConstantCgs
    ensures t.meanMolecularWeight == meanMolecularWeight
  {
    EosTraits(5.0 / 3.0, meanMolecularWeight, BoltzmannConstantCgs)
  }

  /** c_v = k_B / (mu (gamma - 1)); None for gamma == 1 (NaN in the source) or mu == 0. */
  function SpecificHeat(t: EosTraits): (r: Option<real>)
    ensures r.Some? <==> t.gamma != 1.0 && t.meanMolecularWeight != 0.0
    ensures r.Some? ==> r.value * (t.meanMolecularWeight * (t.gamma - 1.0)) == t.boltzmannConstant
  {
    if t.gamma == 1.0 || t.meanMolecularWeight == 0.0 then None
    else
      NonZeroProduct(t.meanMolecularWeight, t.gamma - 1.0);
      var d := t.meanMolecularWeight * (t.gamma - 1.0);
      QuotientTimesDivisor(t.boltzmannConstant, d);
      Some(t.boltzmannConstant / d)
  }

  lemma NonZeroProduct(a: real, b: real)
    requires a != 0.0 && b != 0.0
    ensures a * b != 0.0
  {
  }

  lemma QuotientTimesDivisor(n: real, d: real)
    requires d != 0.0
    ensures n / d * d == n
  {
  }

  /**
   * ComputeTgasFromEint: T = Eint / (rho c_v). None where c_v is, and when
   * rho c_v == 0 (a division by zero).
   */
  function TgasFromEint(t: EosTraits, rho: real, eint: real): (r: Option<real>)
    ensures r.Some? <==> SpecificHeat(t).Some? && rho * SpecificHeat(t).value != 0.0
    ensures r.Some? ==> r.value * (rho * SpecificHeat(t).value) == eint
  {
    var cv := SpecificHeat(t);
    if cv.None? || rho * cv.value == 0.0 then None
    else
      QuotientTimesDivisor(eint, rho * cv.value);
      Some(eint / (rho * cv.value))
  }

  /** ComputeEintFromTgas: Eint = rho c_v T. None where c_v is. */
  function EintFromTgas(t: EosTraits, rho: real, tgas: real): (r: Option<real>)
    ensures r.Some? <==> SpecificHeat(t).Some?
  {
    var cv := SpecificHeat(t);
    if cv.None? then None else Some(rho * cv.value * tgas)
  }

  /** ComputeEintTempDerivative: dEint/dT = rho c_v, whatever the temperature. None where c_v is. */
  function EintTempDerivative(t: EosTraits, rho: real): (r: Option<real>)
    ensures r.Some? <==> SpecificHeat(t).Some?
  {
    var cv := SpecificHeat(t);
    if cv.None? then None else Some(rho * cv.value)
  }

  /** All three functions are defined together: exactly when c_v is (TgasFromEint also needs rho c_v != 0). */
  lemma DefinedTogether(t: EosTraits, rho: real, eint: real, tgas: real)
    ensures EintFromTgas(t, rho, tgas).Some? <==> t.gamma != 1.0 && t.meanMolecularWeight != 0.0
    ensures EintTempDerivative(t, rho).Some? <==> t.gamma != 1.0 && t.meanMolecularWeight != 0.0
    ensures TgasFromEint(t, rho, eint).Some? ==> t.gamma != 1.0 && t.meanMolecularWeight != 0.0
    ensures t.gamma == 1.0 ==> TgasFromEint(t, rho, eint).None? && EintFromTgas(t, rho, tgas).None?
                               && EintTempDerivative(t, rho).None?
  {
  }

  /** Energy to temperature and back gives the energy again. */
  lemma EintRoundTrip(t: EosTraits, rho: real, eint: real)
    requires TgasFromEint(t, rho, eint).Some?
    ensures EintFromTgas(t, rho, TgasFromEint(t, rho, eint).value) == Some(eint)
  {
    var cv := SpecificHeat(t).value;
    var tg := TgasFromEint(t, rho, eint).value;
    assert tg * (rho * cv) == eint;
    assert rho * cv * tg == tg * (rho * cv);
    assert SpecificHeat(t).Some?;
    assert EintFromTgas(t, rho, tg).Some?;
    assert EintFromTgas(t, rho, tg).value == rho * cv * tg;
  }

  /** Temperature to energy and back gives the temperature again, when rho c_v != 0. */
  lemma TgasRoundTrip(t: EosTraits, rho: real, tgas: real)
    requires SpecificHeat(t).Some? && rho * SpecificHeat(t).value != 0.0
    ensures TgasFromEint(t, rho, EintFromTgas(t, rho, tgas).value) == Some(tgas)
  {
    var cv := SpecificHeat(t).value;
    var e := EintFromTgas(t, rho, tgas).value;
    var tg := TgasFromEint(t, rho, e).value;
    assert tg * (rho * cv) == rho * cv * tgas;
    CancelFactor(tg, tgas, rho * cv);
  }

  lemma CancelFactor(a: real, b: real, k: real)
    requires k != 0.0 && a * k == k * b
    ensures a == b
  {
    assert a == a * k / k;
    assert b == k * b / k;
  }

  /**
   * The energy is linear in the temperature with slope the derivative:
   * Eint(T) = (dEint/dT) T, so Eint(T) / T is the derivative for T != 0.
   */
  lemma DerivativeIsSlope(t: EosTraits, rho: real, tgas: real)
    requires SpecificHeat(t).Some?
    ensures EintFromTgas(t, rho, tgas).value == EintTempDerivative(t, rho).value * tgas
    ensures tgas != 0.0 ==> EintFromTgas(t, rho, tgas).value / tgas == EintTempDerivative(t, rho).value
  {
    var d := EintTempDerivative(t, rho).value;
    if tgas != 0.0 {
      assert d * tgas / tgas == d;
    }
  }

  /** With gamma > 1, mu > 0 and k_B > 0 the specific heat is positive. */
  lemma SpecificHeatPositive(t: EosTraits)
    requires t.gamma > 1.0 && t.meanMolecularWeight > 0.0 && t.boltzmannConstant > 0.0
    ensures SpecificHeat(t).Some? && SpecificHeat(t).value > 0.0
  {
    var d := t.meanMolecularWeight * (t.gamma - 1.0);
    MulPos(t.meanMolecularWeight, t.gamma - 1.0);
    var cv := SpecificHeat(t).value;
    assert cv * d == t.boltzmannConstant;
    if cv <= 0.0 {
      MulNonPosPos(cv, d);
    }
  }

  lemma MulNonPosPos(a: real, b: real)
    requires a <= 0.0 && b > 0.0
    ensures a * b <= 0.0
  {
    if a < 0.0 {
      MulPos(-a, b);
      assert (-a) * b == -(a * b);
    }
  }

  /** Positive energy, density and specific heat give a positive temperature. */
  lemma TemperaturePositive(t: EosTraits, rho: real, eint: real)
    requires SpecificHeat(t).Some? && SpecificHeat(t).value > 0.0 && rho > 0.0 && eint > 0.0
    ensures TgasFromEint(t, rho, eint).Some? && TgasFromEint(t, rho, eint).value > 0.0
  {
    var cv := SpecificHeat(t).value;
    MulPos(rho, cv);
    var tg := TgasFromEint(t, rho, eint).value;
    assert tg * (rho * cv) == eint;
    if tg <= 0.0 {
      MulNonPosPos(tg, rho * cv);
    }
  }
}
