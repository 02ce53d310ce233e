/**
 * Per-group utilities of the radiation subsystem (src/radiation_system.hpp):
 * the slope limiters minmod and MC, the Planck energy fractions and the
 * thermal radiation they distribute, its temperature derivative, the
 * power-law exponents of a group quantity and the group-mean opacity.
 *
 * Transcendental functions (sqrt, log, pow and the Planck integral) are
 * function parameters. A division by zero, which the C++ turns into inf or
 * NaN, and a failed AMREX_ASSERT on a computed value both give None.
 */
module GroupUtilities {
  import opened Numerics

  /** The source's `inf`: std::numeric_limits<double>::max(), a finite number. */
  const Inf: real := 1.7976931348623157e308

  // ---------------------------------------------------------------------
  // Slope limiters
  // ---------------------------------------------------------------------

  /** minmod_func: 0.5 (sgn a + sgn b) min(|a|, |b|). */
  function Minmod(a: real, b: real): (r: real)
    ensures a <= 0.0 <= b || b <= 0.0 <= a ==> r == 0.0
    ensures a > 0.0 && b > 0.0 ==> r == Min(a, b)
    ensures a < 0.0 && b < 0.0 ==> r == Max(a, b)
  {
    0.5 * (Sgn(a) + Sgn(b)) * Min(Abs(a), Abs(b))
  }

  /** MC: 0.5 (sgn a + sgn b) min(0.5 |a + b|, min(2 |a|, 2 |b|)). */
  function MC(a: real, b: real): (r: real)
    ensures a <= 0.0 <= b || b <= 0.0 <= a ==> r == 0.0
    ensures a > 0.0 && b > 0.0 ==> r == Min(0.5 * (a + b), Min(2.0 * a, 2.0 * b))
    ensures a < 0.0 && b < 0.0 ==> r == -Min(-0.5 * (a + b), Min(-2.0 * a, -2.0 * b))
  {
    0.5 * (Sgn(a) + Sgn(b)) * Min(0.5 * Abs(a + b), Min(2.0 * Abs(a), 2.0 * Abs(b)))
  }

  /** minmod never exceeds either slope in size and keeps their common sign. */
  lemma MinmodBounds(a: real, b: real)
    ensures Abs(Minmod(a, b)) <= Min(Abs(a), Abs(b))
    ensures Minmod(a, b) == Minmod(b, a)
    ensures Minmod(a, b) != 0.0 ==> Sgn(Minmod(a, b)) == Sgn(a) == Sgn(b)
  {
  }

  /**
   * MC is the less diffusive limiter: it is never smaller in size than
   * minmod, never more than twice either slope, and has the same sign.
   */
  lemma MinmodWithinMC(a: real, b: real)
    ensures Abs(Minmod(a, b)) <= Abs(MC(a, b)) <= 2.0 * Min(Abs(a), Abs(b))
    ensures MC(a, b) == MC(b, a)
    ensures Minmod(a, b) * MC(a, b) >= 0.0
  {
    if a > 0.0 && b > 0.0 {
      MulPos(Minmod(a, b), MC(a, b));
    } else if a < 0.0 && b < 0.0 {
      MulPos(-Minmod(a, b), -MC(a, b));
    }
  }

  // ---------------------------------------------------------------------
  // Planck energy fractions and thermal radiation
  // ---------------------------------------------------------------------

  /** integrate_planck_from_0_to_x at x = boundary * energy_unit_over_kT. */
  function PlanckAt(planck: real -> real, boundary: real, u: real): real
  {
    planck(boundary * u)
  }

  /** The Planck integral at every group boundary. */
  function PlanckValues(planck: real -> real, boundaries: seq<real>, u: real): (v: seq<real>)
    ensures |v| == |boundaries|
  {
    seq(|boundaries|, g requires 0 <= g < |boundaries| => PlanckAt(planck, boundaries[g], u))
  }

  /** Differences of neighbouring entries: d[g] = v[g+1] - v[g]. */
  function Differences(v: seq<real>): (d: seq<real>)
    requires |v| >= 1
    ensures |d| == |v| - 1
  {
    seq(|v| - 1, g requires 0 <= g < |v| - 1 => v[g + 1] - v[g])
  }

  /** The unnormalised fractions P(b[g+1] u) - P(b[g] u) of the Planck integral P. */
  function RawFractions(planck: real -> real, boundaries: seq<real>, u: real): (raw: seq<real>)
    requires |boundaries| >= 1
    ensures |raw| == |boundaries| - 1
  {
    Differences(PlanckValues(planck, boundaries, u))
  }

  /** The fractions divided by their total. */
  function Normalise(raw: seq<real>, tote: real): (f: seq<real>)
    requires tote != 0.0
    ensures |f| == |raw|
  {
    seq(|raw|, g requires 0 <= g < |raw| => raw[g] / tote)
  }

  /**
   * The result of ComputePlanckEnergyFractions: [1.0] for one group;
   * otherwise the Planck integral's increments over the groups at
   * x = boundary * energyUnit / (k_B T), divided by their total. None when
   * k_B T or the total is zero (the C++ divides by it).
   */
  function PlanckEnergyFractions(planck: real -> real, boundaries: seq<real>, energyUnit: real, boltzmann: real,
                                 temperature: real): Option<seq<real>>
    requires |boundaries| >= 2
  {
    if |boundaries| == 2 then Some([1.0])
    else if boltzmann * temperature == 0.0 then None
    else
      var raw := RawFractions(planck, boundaries, energyUnit / (boltzmann * temperature));
      if Sum(raw) == 0.0 then None else Some(Normalise(raw, Sum(raw)))
  }

  /**
   * ComputePlanckEnergyFractions: accumulates the group increments in a local
   * array, one group at a time, then divides the array by its sum.
   */
  method ComputePlanckEnergyFractions(planck: real -> real, boundaries: seq<real>, energyUnit: real,
                                      boltzmann: real, temperature: real) returns (r: Option<seq<real>>)
    requires |boundaries| >= 2
    ensures r == PlanckEnergyFractions(planck, boundaries, energyUnit, boltzmann, temperature)
  {
    var nGroups := |boundaries| - 1;
    if nGroups == 1 {
      return Some([1.0]);
    }
    if boltzmann * temperature == 0.0 {
      return None;
    }
    var u := energyUnit / (boltzmann * temperature);
    ghost var values := PlanckValues(planck, boundaries, u);
    ghost var raw := RawFractions(planck, boundaries, u);
    var fractions := new real[nGroups];
    var previous := PlanckAt(planck, boundaries[0], u);
    var g := 0;
    while g < nGroups
      invariant 0 <= g <= nGroups
      invariant previous == values[g]
      invariant fractions[..g] == raw[..g]
    {
      var y := PlanckAt(planck, boundaries[g + 1], u);
      fractions[g] := y - previous;
      previous := y;
      g := g + 1;
      assert fractions[..g] == fractions[..g - 1] + [fractions[g - 1]];
    }
    assert fractions[..] == raw;
    var tote := Sum(fractions[..]);
    if tote == 0.0 {
      return None;
    }
    g := 0;
    while g < nGroups
      invariant 0 <= g <= nGroups
      invariant forall k :: 0 <= k < g ==> fractions[k] == raw[k] / tote
      invariant forall k :: g <= k < nGroups ==> fractions[k] == raw[k]
    {
      fractions[g] := fractions[g] / tote;
      g := g + 1;
    }
    r := Some(fractions[..]);
    assert fractions[..] == Normalise(raw, tote);
  }

  /** The increments telescope: their total is P(b[n] u) - P(b[0] u). */
  lemma RawFractionsTelescope(planck: real -> real, boundaries: seq<real>, u: real)
    requires |boundaries| >= 1
    ensures Sum(RawFractions(planck, boundaries, u))
            == PlanckAt(planck, boundaries[|boundaries| - 1], u) - PlanckAt(planck, boundaries[0], u)
  {
    DifferencesTelescope(PlanckValues(planck, boundaries, u));
  }

  lemma {:induction false} DifferencesTelescope(v: seq<real>)
    requires |v| >= 1
    ensures Sum(Differences(v)) == v[|v| - 1] - v[0]
  {
    if |v| > 1 {
      var n := |v| - 1;
      DifferencesTelescope(v[..n]);
      SumLast(Differences(v));
      assert Differences(v)[..n - 1] == Differences(v[..n]);
    }
  }

  /** When the fractions are defined they sum to 1. */
  lemma FractionsSumToOne(planck: real -> real, boundaries: seq<real>, energyUnit: real, boltzmann: real,
                          temperature: real)
    requires |boundaries| >= 2
    requires PlanckEnergyFractions(planck, boundaries, energyUnit, boltzmann, temperature).Some?
    ensures Sum(PlanckEnergyFractions(planck, boundaries, energyUnit, boltzmann, temperature).value) == 1.0
  {
    if |boundaries| > 2 {
      var raw := RawFractions(planck, boundaries, energyUnit / (boltzmann * temperature));
      var tote := Sum(raw);
      var f := Normalise(raw, tote);
      SumScale(raw, 1.0 / tote, f);
      DivSelf(tote, 1.0);
    }
  }

  /** The Planck integral does not decrease. */
  ghost predicate NonDecreasing(planck: real -> real)
  {
    forall x, y {:trigger planck(x), planck(y)} :: x <= y ==> planck(x) <= planck(y)
  }

  predicate Sorted(boundaries: seq<real>)
  {
    forall i, j :: 0 <= i < j < |boundaries| ==> boundaries[i] <= boundaries[j]
  }

  /**
   * With a non-decreasing Planck integral, sorted boundaries and a positive
   * temperature, every fraction lies in [0, 1].
   */
  lemma FractionsInUnit(planck: real -> real, boundaries: seq<real>, energyUnit: real, boltzmann: real,
                        temperature: real, g: nat)
    requires |boundaries| >= 2 && g < |boundaries| - 1
    requires NonDecreasing(planck) && Sorted(boundaries)
    requires energyUnit > 0.0 && boltzmann > 0.0 && temperature > 0.0
    requires PlanckEnergyFractions(planck, boundaries, energyUnit, boltzmann, temperature).Some?
    ensures 0.0 <= PlanckEnergyFractions(planck, boundaries, energyUnit, boltzmann, temperature).value[g] <= 1.0
  {
    if |boundaries| > 2 {
      MulPos(boltzmann, temperature);
      var u := energyUnit / (boltzmann * temperature);
      RawFractionsNonNegative(planck, boundaries, u);
      NormalisedInUnit(RawFractions(planck, boundaries, u), g);
    }
  }

  /** With u > 0 the increments of a non-decreasing Planck integral over sorted boundaries are non-negative. */
  lemma RawFractionsNonNegative(planck: real -> real, boundaries: seq<real>, u: real)
    requires |boundaries| >= 1 && NonDecreasing(planck) && Sorted(boundaries) && u > 0.0
    ensures forall k :: 0 <= k < |boundaries| - 1 ==> RawFractions(planck, boundaries, u)[k] >= 0.0
  {
    var raw := RawFractions(planck, boundaries, u);
    forall k | 0 <= k < |raw| ensures raw[k] >= 0.0 {
      MulLeft(u, boundaries[k], boundaries[k + 1]);
      assert u * boundaries[k] == boundaries[k] * u && u * boundaries[k + 1] == boundaries[k + 1] * u;
    }
  }

  /** Dividing non-negative entries by their non-zero sum gives entries in [0, 1]. */
  lemma NormalisedInUnit(raw: seq<real>, g: nat)
    requires g < |raw| && (forall k :: 0 <= k < |raw| ==> raw[k] >= 0.0) && Sum(raw) != 0.0
    ensures 0.0 <= Normalise(raw, Sum(raw))[g] <= 1.0
  {
    var t := Sum(raw);
    PartLeTotal(raw, g);
    UnitQuotient(raw[g], t);
    assert Normalise(raw, t)[g] == raw[g] / t;
  }

  lemma UnitQuotient(n: real, d: real)
    requires 0.0 <= n <= d && d != 0.0
    ensures 0.0 <= n / d <= 1.0
  {
    var q := n / d;
    assert q * d == n;
    assert (q - 1.0) * d == n - d;
  }

  /** A non-negative entry of a non-negative vector is at most its sum, which is then positive if non-zero. */
  lemma {:induction false} PartLeTotal(s: seq<real>, g: nat)
    requires g < |s| && forall k :: 0 <= k < |s| ==> s[k] >= 0.0
    ensures 0.0 <= s[g] <= Sum(s)
  {
    var n := |s| - 1;
    SumNonNegative(s[..n]);
    SumLast(s);
    if g < n {
      PartLeTotal(s[..n], g);
    }
  }

  /** The power a_r T^4 of ComputeThermalRadiation (std::pow(T, 4) written out). */
  function Power(radiationConstant: real, temperature: real): real
  {
    radiationConstant * (temperature * temperature * temperature * temperature)
  }

  /** A group's share power * fraction of the thermal radiation. */
  function Share(power: real, fraction: real): real
  {
    power * fraction
  }

  /** A share raised to the floor when it falls short. */
  function FlooredShare(power: real, fraction: real, floor: real): real
  {
    if Share(power, fraction) < floor then floor else Share(power, fraction)
  }

  /** Each group's share of a_r T^4, raised to the floor where it falls short. */
  function FlooredShares(power: real, fractions: seq<real>, floor: real): (e: seq<real>)
    ensures |e| == |fractions|
  {
    seq(|fractions|, g requires 0 <= g < |fractions| => FlooredShare(power, fractions[g], floor))
  }

  /**
   * The result of ComputeThermalRadiation: one entry per group, each at
   * least the floor, or None when the Planck fractions are undefined.
   */
  function ThermalRadiation(radiationConstant: real, floor: real, planck: real -> real, boundaries: seq<real>,
                            energyUnit: real, boltzmann: real, temperature: real): (r: Option<seq<real>>)
    requires |boundaries| >= 2
    ensures r.Some? <==> PlanckEnergyFractions(planck, boundaries, energyUnit, boltzmann, temperature).Some?
    ensures r.Some? ==> |r.value| == |boundaries| - 1 && forall g :: 0 <= g < |r.value| ==> r.value[g] >= floor
  {
    var f := PlanckEnergyFractions(planck, boundaries, energyUnit, boltzmann, temperature);
    if f.None? then None
    else
      FractionsLength(planck, boundaries, energyUnit, boltzmann, temperature);
      Some(FlooredShares(Power(radiationConstant, temperature), f.value, floor))
  }

  lemma FractionsLength(planck: real -> real, boundaries: seq<real>, energyUnit: real, boltzmann: real, temperature: real)
    requires |boundaries| >= 2
    requires PlanckEnergyFractions(planck, boundaries, energyUnit, boltzmann, temperature).Some?
    ensures |PlanckEnergyFractions(planck, boundaries, energyUnit, boltzmann, temperature).value| == |boundaries| - 1
  {
  }

  /**
   * ComputeThermalRadiation: a_r T^4 times the Planck fractions, then each
   * group raised to Erad_floor_ in place. None when the fractions are.
   */
  method ComputeThermalRadiation(radiationConstant: real, floor: real, planck: real -> real, boundaries: seq<real>,
                                 energyUnit: real, boltzmann: real, temperature: real) returns (r: Option<seq<real>>)
    requires |boundaries| >= 2
    ensures r == ThermalRadiation(radiationConstant, floor, planck, boundaries, energyUnit, boltzmann, temperature)
  {
    var fractions := ComputePlanckEnergyFractions(planck, boundaries, energyUnit, boltzmann, temperature);
    if fractions.None? {
      return None;
    }
    var erad := ScaleAndFloor(Power(radiationConstant, temperature), fractions.value, floor);
    r := Some(erad);
  }

  /** Erad_g = power * radEnergyFractions, then the floor loop over the groups. */
  method ScaleAndFloor(power: real, fractions: seq<real>, floor: real) returns (e: seq<real>)
    ensures e == FlooredShares(power, fractions, floor)
  {
    var erad := new real[|fractions|];
    var g := 0;
    while g < erad.Length
      invariant 0 <= g <= erad.Length
      invariant forall k :: 0 <= k < g ==> erad[k] == Share(power, fractions[k])
    {
      erad[g] := Share(power, fractions[g]);
      g := g + 1;
    }
    g := 0;
    while g < erad.Length
      invariant 0 <= g <= erad.Length
      invariant forall k :: 0 <= k < g ==> erad[k] == FlooredShare(power, fractions[k], floor)
      invariant forall k :: g <= k < erad.Length ==> erad[k] == Share(power, fractions[k])
    {
      if erad[g] < floor {
        erad[g] := floor;
      }
      g := g + 1;
    }
    e := erad[..];
    assert e == FlooredShares(power, fractions, floor);
  }

  /** Every group of the thermal radiation is at least the floor, and is its share of a_r T^4 when that is. */
  lemma ThermalRadiationFloored(power: real, fractions: seq<real>, floor: real, g: nat)
    requires g < |fractions|
    ensures FlooredShares(power, fractions, floor)[g] >= floor
    ensures Share(power, fractions[g]) >= floor ==> FlooredShares(power, fractions, floor)[g] == Share(power, fractions[g])
    ensures FlooredShares(power, fractions, floor)[g] == Max(Share(power, fractions[g]), floor)
  {
  }

  /**
   * When the floor bites nowhere, the groups split a_r T^4 exactly: the
   * total thermal radiation is a_r T^4.
   */
  lemma ThermalRadiationTotal(radiationConstant: real, floor: real, planck: real -> real, boundaries: seq<real>,
                              energyUnit: real, boltzmann: real, temperature: real)
    requires |boundaries| >= 2
    requires PlanckEnergyFractions(planck, boundaries, energyUnit, boltzmann, temperature).Some?
    requires var f := PlanckEnergyFractions(planck, boundaries, energyUnit, boltzmann, temperature).value;
             forall g :: 0 <= g < |f| ==> Share(Power(radiationConstant, temperature), f[g]) >= floor
    ensures var f := PlanckEnergyFractions(planck, boundaries, energyUnit, boltzmann, temperature).value;
            Sum(FlooredShares(Power(radiationConstant, temperature), f, floor)) == Power(radiationConstant, temperature)
  {
    FractionsSumToOne(planck, boundaries, energyUnit, boltzmann, temperature);
    SharesTotal(Power(radiationConstant, temperature),
                PlanckEnergyFractions(planck, boundaries, energyUnit, boltzmann, temperature).value, floor);
  }

  /** Fractions summing to 1, none of whose shares is floored, split the power exactly. */
  lemma SharesTotal(power: real, f: seq<real>, floor: real)
    requires Sum(f) == 1.0 && forall g :: 0 <= g < |f| ==> Share(power, f[g]) >= floor
    ensures Sum(FlooredShares(power, f, floor)) == power
  {
    SumScale(f, power, FlooredShares(power, f, floor));
  }

  /**
   * ComputeThermalRadiationTempDerivative: 4 erad / T, entry by entry.
   * None when T == 0.
   */
  function ThermalRadiationTempDerivative(erad: seq<real>, temperature: real): (r: Option<seq<real>>)
    ensures r.Some? <==> temperature != 0.0
    ensures r.Some? ==> |r.value| == |erad|
                        && forall g :: 0 <= g < |erad| ==> r.value[g] * temperature == 4.0 * erad[g]
  {
    if temperature == 0.0 then None
    else
      var d := seq(|erad|, g requires 0 <= g < |erad| => 4.0 * erad[g] / temperature);
      assert forall g :: 0 <= g < |erad| ==> d[g] * temperature == 4.0 * erad[g] by {
        forall g | 0 <= g < |erad| ensures d[g] * temperature == 4.0 * erad[g] {
          ScaledQuotientOf(4.0 * erad[g], temperature);
        }
      }
      Some(d)
  }

  lemma ScaledQuotientOf(q: real, p: real)
    requires p != 0.0
    ensures (q / p) * p == q
  {
  }

  /**
   * Where the floor does not bite, 4 erad / T is the exact temperature
   * derivative 4 a_r T^3 f_g of the group's share a_r T^4 f_g.
   */
  lemma TempDerivativeIsExact(radiationConstant: real, temperature: real, f: real, erad: real)
    requires temperature != 0.0 && erad == Power(radiationConstant, temperature) * f
    ensures 4.0 * erad / temperature
            == 4.0 * radiationConstant * (temperature * temperature * temperature) * f
  {
    var t3 := temperature * temperature * temperature;
    assert erad == (radiationConstant * t3 * f) * temperature;
    QuotientOfMultiple(4.0 * radiationConstant * t3 * f, temperature);
  }

  lemma QuotientOfMultiple(k: real, t: real)
    requires t != 0.0
    ensures (k * t) / t == k
  {
  }

  // ---------------------------------------------------------------------
  // Power-law exponents of a group quantity
  // ---------------------------------------------------------------------

  /** The width b[g+1] - b[g] of group g. */
  function Width(boundaries: seq<real>, g: nat): real
    requires g + 1 < |boundaries|
  {
    boundaries[g + 1] - boundaries[g]
  }

  /** No group has zero width, so quant_mean[g] = quant[g] / (b[g+1] - b[g]) is defined. */
  predicate WidthsNonZero(boundaries: seq<real>)
  {
    forall g :: 0 <= g < |boundaries| - 1 ==> Width(boundaries, g) != 0.0
  }

  /** bin_center[g] = sqrt(b[g] b[g+1]). */
  function Center(sqrt: real -> real, boundaries: seq<real>, g: nat): real
    requires g + 1 < |boundaries|
  {
    sqrt(boundaries[g] * boundaries[g + 1])
  }

  /** quant_mean[g] = quant[g] / (b[g+1] - b[g]). */
  function Mean(quant: seq<real>, boundaries: seq<real>, g: nat): real
    requires g < |quant| && g + 1 < |boundaries| && Width(boundaries, g) != 0.0
  {
    quant[g] / Width(boundaries, g)
  }

  function BinCenters(sqrt: real -> real, boundaries: seq<real>): (c: seq<real>)
    requires |boundaries| >= 1
    ensures |c| == |boundaries| - 1
  {
    seq(|boundaries| - 1, g requires 0 <= g < |boundaries| - 1 => Center(sqrt, boundaries, g))
  }

  function QuantMeans(quant: seq<real>, boundaries: seq<real>): (m: seq<real>)
    requires |boundaries| == |quant| + 1 && WidthsNonZero(boundaries)
    ensures |m| == |quant|
  {
    seq(|quant|, g requires 0 <= g < |quant| => Mean(quant, boundaries, g))
  }

  /**
   * logslopes[g-1] from the means and centres of groups g-1 and g: None when
   * the assertion bin_center[g] > bin_center[g-1] fails or the logarithmic
   * slope divides by zero; 0 when both means vanish; +-inf when the means
   * change sign; otherwise log|m_g / m_{g-1}| / log(c_g / c_{g-1}).
   */
  function LogSlope(log: real -> real, previousMean: real, mean: real, previousCenter: real, center: real)
    : Option<real>
  {
    if !(center > previousCenter) then None
    else if mean == 0.0 && previousMean == 0.0 then Some(0.0)
    else if previousMean * mean <= 0.0 then Some(if mean > previousMean then Inf else -Inf)
    else if previousCenter == 0.0 || log(center / previousCenter) == 0.0 then None
    else Some(log(Abs(mean / previousMean)) / log(center / previousCenter))
  }

  predicate SlopesDefined(log: real -> real, means: seq<real>, centers: seq<real>)
    requires |centers| == |means|
  {
    forall g :: 1 <= g < |means| ==> LogSlope(log, means[g - 1], means[g], centers[g - 1], centers[g]).Some?
  }

  /** The n - 1 log-slopes between neighbouring groups. */
  function LogSlopes(log: real -> real, means: seq<real>, centers: seq<real>): (s: seq<real>)
    requires |means| >= 1 && |centers| == |means| && SlopesDefined(log, means, centers)
    ensures |s| == |means| - 1
  {
    seq(|means| - 1, k requires 0 <= k < |means| - 1 => LogSlope(log, means[k], means[k + 1], centers[k], centers[k + 1]).value)
  }

  /** exponents[g]: 0 at the first and last group, minmod of the neighbouring slopes elsewhere. */
  function ExponentsOf(slopes: seq<real>): (e: seq<real>)
    ensures |e| == |slopes| + 1
  {
    seq(|slopes| + 1, g requires 0 <= g < |slopes| + 1 =>
      if g == 0 || g == |slopes| then 0.0 else Minmod(slopes[g - 1], slopes[g]))
  }

  predicate ExponentsBounded(e: seq<real>)
  {
    forall g :: 0 <= g < |e| ==> Abs(e[g]) < 100.0
  }

  /**
   * The result of ComputeRadQuantityExponents: None when a division is
   * by zero or an assertion fails (increasing bin centres, |exponent| < 100).
   */
  function RadQuantityExponents(sqrt: real -> real, log: real -> real, quant: seq<real>, boundaries: seq<real>)
    : Option<seq<real>>
    requires |quant| >= 1 && |boundaries| == |quant| + 1
  {
    var s := SlopesOf(sqrt, log, quant, boundaries);
    if s.None? then None else LimitedExponents(s.value)
  }

  /** The log-slopes when every width is non-zero and every slope defined, else None. */
  function SlopesOf(sqrt: real -> real, log: real -> real, quant: seq<real>, boundaries: seq<real>)
    : Option<seq<real>>
    requires |quant| >= 1 && |boundaries| == |quant| + 1
  {
    if !WidthsNonZero(boundaries) then None
    else
      var means, centers := QuantMeans(quant, boundaries), BinCenters(sqrt, boundaries);
      if !SlopesDefined(log, means, centers) then None else Some(LogSlopes(log, means, centers))
  }

  /**
   * ComputeRadQuantityExponents: the first loop fills bin_center, quant_mean
   * and logslopes, the second the exponents.
   */
  method ComputeRadQuantityExponents(sqrt: real -> real, log: real -> real, quant: seq<real>, boundaries: seq<real>)
    returns (r: Option<seq<real>>)
    requires |quant| >= 1 && |boundaries| == |quant| + 1
    ensures r == RadQuantityExponents(sqrt, log, quant, boundaries)
  {
    var slopes := ComputeLogSlopes(sqrt, log, quant, boundaries);
    if slopes.None? {
      return None;
    }
    r := ComputeLimitedExponents(slopes.value);
  }

  /**
   * The first loop of ComputeRadQuantityExponents: bin centres, group means
   * and log-slopes, each scratch buffer growing by one entry per group.
   */
  method ComputeLogSlopes(sqrt: real -> real, log: real -> real, quant: seq<real>, boundaries: seq<real>)
    returns (r: Option<seq<real>>)
    requires |quant| >= 1 && |boundaries| == |quant| + 1
    ensures r == SlopesOf(sqrt, log, quant, boundaries)
  {
    var nGroups := |quant|;
    var binCenter: seq<real> := [];
    var quantMean: seq<real> := [];
    var logslopes: seq<real> := [];
    var g := 0;
    while g < nGroups
      invariant 0 <= g <= nGroups
      invariant |binCenter| == g && |quantMean| == g && |logslopes| == if g == 0 then 0 else g - 1
      invariant forall k :: 0 <= k < g ==> Width(boundaries, k) != 0.0
      invariant forall k :: 0 <= k < g ==> binCenter[k] == Center(sqrt, boundaries, k)
      invariant forall k :: 0 <= k < g ==> quantMean[k] == Mean(quant, boundaries, k)
      invariant forall k :: 1 <= k < g ==>
                  LogSlope(log, Mean(quant, boundaries, k - 1), Mean(quant, boundaries, k),
                           Center(sqrt, boundaries, k - 1), Center(sqrt, boundaries, k)) == Some(logslopes[k - 1])
    {
      binCenter := binCenter + [Center(sqrt, boundaries, g)];
      if Width(boundaries, g) == 0.0 {
        return None;
      }
      quantMean := quantMean + [Mean(quant, boundaries, g)];
      if g > 0 {
        var slope := LogSlope(log, quantMean[g - 1], quantMean[g], binCenter[g - 1], binCenter[g]);
        if slope.None? {
          SlopeUndefined(sqrt, log, quant, boundaries, g);
          return None;
        }
        logslopes := logslopes + [slope.value];
      }
      g := g + 1;
    }
    SlopesComplete(sqrt, log, quant, boundaries, logslopes);
    r := Some(logslopes);
  }

  /** Slopes that the loop found defined at every group are the log-slopes of the whole grid. */
  lemma SlopesComplete(sqrt: real -> real, log: real -> real, quant: seq<real>, boundaries: seq<real>,
                       logslopes: seq<real>)
    requires |quant| >= 1 && |boundaries| == |quant| + 1 && |logslopes| == |quant| - 1
    requires forall k :: 0 <= k < |quant| ==> Width(boundaries, k) != 0.0
    requires forall k :: 1 <= k < |quant| ==>
               LogSlope(log, Mean(quant, boundaries, k - 1), Mean(quant, boundaries, k),
                        Center(sqrt, boundaries, k - 1), Center(sqrt, boundaries, k)) == Some(logslopes[k - 1])
    ensures SlopesOf(sqrt, log, quant, boundaries) == Some(logslopes)
  {
    assert WidthsNonZero(boundaries);
    var means, centers := QuantMeans(quant, boundaries), BinCenters(sqrt, boundaries);
    forall k | 1 <= k < |quant|
      ensures LogSlope(log, means[k - 1], means[k], centers[k - 1], centers[k]) == Some(logslopes[k - 1])
    {
      assert means[k - 1] == Mean(quant, boundaries, k - 1) && means[k] == Mean(quant, boundaries, k);
      assert centers[k - 1] == Center(sqrt, boundaries, k - 1) && centers[k] == Center(sqrt, boundaries, k);
    }
    assert SlopesDefined(log, means, centers);
    assert logslopes == LogSlopes(log, means, centers);
  }

  /** The exponents of given slopes when all are below 100 in size, else None. */
  function LimitedExponents(slopes: seq<real>): Option<seq<real>>
  {
    var e := ExponentsOf(slopes);
    if ExponentsBounded(e) then Some(e) else None
  }

  /** The second loop of ComputeRadQuantityExponents: minmod of neighbouring slopes, 0 at the ends. */
  method ComputeLimitedExponents(slopes: seq<real>) returns (r: Option<seq<real>>)
    ensures r == LimitedExponents(slopes)
  {
    var nGroups := |slopes| + 1;
    var exponents := new real[nGroups];
    var g := 0;
    while g < nGroups
      invariant 0 <= g <= nGroups
      invariant forall k :: 0 <= k < g ==> exponents[k] == ExponentsOf(slopes)[k]
      invariant forall k :: 0 <= k < g ==> Abs(exponents[k]) < 100.0
    {
      if g == 0 || g == nGroups - 1 {
        exponents[g] := 0.0;
      } else {
        exponents[g] := Minmod(slopes[g - 1], slopes[g]);
      }
      if !(Abs(exponents[g]) < 100.0) {
        assert ExponentsOf(slopes)[g] == exponents[g];
        return None;
      }
      g := g + 1;
    }
    assert exponents[..] == ExponentsOf(slopes);
    r := Some(exponents[..]);
  }

  /** One undefined log-slope makes the whole computation fail. */
  lemma SlopeUndefined(sqrt: real -> real, log: real -> real, quant: seq<real>, boundaries: seq<real>, g: nat)
    requires |quant| >= 1 && |boundaries| == |quant| + 1 && 1 <= g < |quant|
    requires Width(boundaries, g - 1) != 0.0 && Width(boundaries, g) != 0.0
    requires LogSlope(log, Mean(quant, boundaries, g - 1), Mean(quant, boundaries, g),
                      Center(sqrt, boundaries, g - 1), Center(sqrt, boundaries, g)).None?
    ensures SlopesOf(sqrt, log, quant, boundaries).None? && RadQuantityExponents(sqrt, log, quant, boundaries).None?
  {
    if WidthsNonZero(boundaries) {
      var means, centers := QuantMeans(quant, boundaries), BinCenters(sqrt, boundaries);
      assert means[g - 1] == Mean(quant, boundaries, g - 1) && means[g] == Mean(quant, boundaries, g);
      assert centers[g - 1] == Center(sqrt, boundaries, g - 1) && centers[g] == Center(sqrt, boundaries, g);
      assert !SlopesDefined(log, means, centers);
    }
  }

  /**
   * e limits the slopes s: 0 at both ends, and at each inner group the
   * minmod of its two slopes, so no larger in size than either and 0 where
   * they differ in sign.
   */
  predicate LimitedBy(e: seq<real>, s: seq<real>)
  {
    |e| == |s| + 1 && e[0] == 0.0 && e[|s|] == 0.0
    && forall g :: 0 < g < |s| ==>
         e[g] == Minmod(s[g - 1], s[g])
         && Abs(e[g]) <= Min(Abs(s[g - 1]), Abs(s[g]))
         && (s[g - 1] * s[g] <= 0.0 ==> e[g] == 0.0)
  }

  /** The exponents of any slopes limit them. */
  lemma ExponentsLimited(slopes: seq<real>)
    ensures LimitedBy(ExponentsOf(slopes), slopes)
  {
    var e := ExponentsOf(slopes);
    forall g | 0 < g < |slopes|
      ensures e[g] == Minmod(slopes[g - 1], slopes[g])
      ensures Abs(e[g]) <= Min(Abs(slopes[g - 1]), Abs(slopes[g]))
      ensures slopes[g - 1] * slopes[g] <= 0.0 ==> e[g] == 0.0
    {
      MinmodLaws(slopes[g - 1], slopes[g]);
    }
  }

  lemma MinmodLaws(a: real, b: real)
    ensures Abs(Minmod(a, b)) <= Min(Abs(a), Abs(b))
    ensures a * b <= 0.0 ==> Minmod(a, b) == 0.0
    ensures a > 0.0 && b > 0.0 ==> Minmod(a, b) == Min(a, b)
    ensures a < 0.0 && b < 0.0 ==> Minmod(a, b) == Max(a, b)
  {
    MinmodBounds(a, b);
    SignsOfProduct(a, b);
  }

  /** A product is positive only when both factors are non-zero and agree in sign. */
  lemma SignsOfProduct(a: real, b: real)
    ensures a * b <= 0.0 ==> a <= 0.0 <= b || b <= 0.0 <= a
  {
    if a > 0.0 && b > 0.0 {
      MulPos(a, b);
    } else if a < 0.0 && b < 0.0 {
      MulPos(-a, -b);
      assert (-a) * (-b) == a * b;
    }
  }

  /**
   * A successful result limits the log-slopes (LimitedBy) and every
   * exponent has size below 100.
   */
  lemma ExponentsAreLimitedSlopes(sqrt: real -> real, log: real -> real, quant: seq<real>, boundaries: seq<real>)
    requires |quant| >= 1 && |boundaries| == |quant| + 1
    requires RadQuantityExponents(sqrt, log, quant, boundaries).Some?
    ensures SlopesOf(sqrt, log, quant, boundaries).Some?
    ensures var e := RadQuantityExponents(sqrt, log, quant, boundaries).value;
            |e| == |quant| && LimitedBy(e, SlopesOf(sqrt, log, quant, boundaries).value) && ExponentsBounded(e)
  {
    var s := SlopesOf(sqrt, log, quant, boundaries).value;
    assert RadQuantityExponents(sqrt, log, quant, boundaries) == LimitedExponents(s);
    LimitedExponentsLaws(s);
  }

  /** The exponents of any slopes that pass the |exponent| < 100 test limit them. */
  lemma LimitedExponentsLaws(s: seq<real>)
    requires LimitedExponents(s).Some?
    ensures LimitedBy(LimitedExponents(s).value, s) && ExponentsBounded(LimitedExponents(s).value)
  {
    ExponentsLimited(s);
  }

  /**
   * Where the group means change sign on one side the slope there is +-inf,
   * so minmod returns the other side's slope when that has the same sign,
   * and 0 at a local extremum of the means.
   */
  lemma SignChangeExponent(a: real, b: real)
    ensures 0.0 < b < Inf ==> Minmod(Inf, b) == b && Minmod(b, Inf) == b
    ensures -Inf < b < 0.0 ==> Minmod(-Inf, b) == b && Minmod(b, -Inf) == b
    ensures a > 0.0 && b < 0.0 ==> Minmod(a, b) == 0.0
  {
  }

  // ---------------------------------------------------------------------
  // Group-mean opacity
  // ---------------------------------------------------------------------

  /**
   * The integral of x^(alpha-1) from 1 to r as the source writes it:
   * log r when |alpha| < 1e-8, else (r^alpha - 1) / alpha.
   */
  function PowerLawIntegral(pow: (real, real) -> real, log: real -> real, ratio: real, alpha: real): real
  {
    if Abs(alpha) < 1e-8 then log(ratio) else (pow(ratio, alpha) - 1.0) / alpha
  }

  /**
   * kappa[g] = kappa_lower[g] / part1 * part2 with part1 the integral of the
   * quantity's power law over the group and part2 that of the quantity
   * times the opacity's. None when part1 is zero.
   */
  function GroupMeanOpacityAt(pow: (real, real) -> real, log: real -> real, alphaKappa: real, kappaLower: real,
                              ratio: real, alphaQuant: real): Option<real>
  {
    var part1 := PowerLawIntegral(pow, log, ratio, alphaQuant + 1.0);
    var part2 := PowerLawIntegral(pow, log, ratio, alphaQuant + alphaKappa + 1.0);
    if part1 == 0.0 then None else Some(MeanOpacity(kappaLower, part1, part2))
  }

  /** kappa_lower / part1 * part2, evaluated left to right as the source does. */
  function MeanOpacity(kappaLower: real, part1: real, part2: real): real
    requires part1 != 0.0
  {
    kappaLower / part1 * part2
  }

  predicate OpacitiesDefined(pow: (real, real) -> real, log: real -> real, alphaKappa: seq<real>, kappaLower: seq<real>,
                             ratios: seq<real>, alphaQuant: seq<real>)
    requires |kappaLower| == |alphaKappa| && |ratios| == |alphaKappa| && |alphaQuant| == |alphaKappa|
  {
    forall g :: 0 <= g < |alphaKappa| ==>
      GroupMeanOpacityAt(pow, log, alphaKappa[g], kappaLower[g], ratios[g], alphaQuant[g]).Some?
  }

  /** The result of ComputeGroupMeanOpacity: every group's mean opacity, or None. */
  function GroupMeanOpacity(pow: (real, real) -> real, log: real -> real, alphaKappa: seq<real>, kappaLower: seq<real>,
                            ratios: seq<real>, alphaQuant: seq<real>): Option<seq<real>>
    requires |kappaLower| == |alphaKappa| && |ratios| == |alphaKappa| && |alphaQuant| == |alphaKappa|
  {
    if !OpacitiesDefined(pow, log, alphaKappa, kappaLower, ratios, alphaQuant) then None
    else Some(seq(|alphaKappa|, g requires 0 <= g < |alphaKappa| =>
                GroupMeanOpacityAt(pow, log, alphaKappa[g], kappaLower[g], ratios[g], alphaQuant[g]).value))
  }

  /** ComputeGroupMeanOpacity: one group per iteration into a local array. */
  method ComputeGroupMeanOpacity(pow: (real, real) -> real, log: real -> real, alphaKappa: seq<real>,
                                 kappaLower: seq<real>, ratios: seq<real>, alphaQuant: seq<real>)
    returns (r: Option<seq<real>>)
    requires |kappaLower| == |alphaKappa| && |ratios| == |alphaKappa| && |alphaQuant| == |alphaKappa|
    ensures r == GroupMeanOpacity(pow, log, alphaKappa, kappaLower, ratios, alphaQuant)
  {
    var kappa := new real[|alphaKappa|];
    var g := 0;
    while g < kappa.Length
      invariant 0 <= g <= kappa.Length
      invariant forall k :: 0 <= k < g ==>
                  GroupMeanOpacityAt(pow, log, alphaKappa[k], kappaLower[k], ratios[k], alphaQuant[k]) == Some(kappa[k])
    {
      var alpha := alphaQuant[g] + 1.0;
      var part1 := 0.0;
      if Abs(alpha) < 1e-8 {
        part1 := log(ratios[g]);
      } else {
        part1 := (pow(ratios[g], alpha) - 1.0) / alpha;
      }
      assert part1 == PowerLawIntegral(pow, log, ratios[g], alphaQuant[g] + 1.0);
      alpha := alphaQuant[g] + alphaKappa[g] + 1.0;
      var part2 := 0.0;
      if Abs(alpha) < 1e-8 {
        part2 := log(ratios[g]);
      } else {
        part2 := (pow(ratios[g], alpha) - 1.0) / alpha;
      }
      assert part2 == PowerLawIntegral(pow, log, ratios[g], alphaQuant[g] + alphaKappa[g] + 1.0);
      if part1 == 0.0 {
        assert GroupMeanOpacityAt(pow, log, alphaKappa[g], kappaLower[g], ratios[g], alphaQuant[g]).None?;
        return None;
      }
      kappa[g] := MeanOpacity(kappaLower[g], part1, part2);
      assert GroupMeanOpacityAt(pow, log, alphaKappa[g], kappaLower[g], ratios[g], alphaQuant[g]) == Some(kappa[g]);
      g := g + 1;
    }
    r := Some(kappa[..]);
    assert OpacitiesDefined(pow, log, alphaKappa, kappaLower, ratios, alphaQuant);
    assert kappa[..] == GroupMeanOpacity(pow, log, alphaKappa, kappaLower, ratios, alphaQuant).value;
  }

  /** A group whose opacity exponent is zero has group-mean opacity kappa_lower. */
  lemma FlatOpacityMean(pow: (real, real) -> real, log: real -> real, kappaLower: real, ratio: real, alphaQuant: real)
    requires GroupMeanOpacityAt(pow, log, 0.0, kappaLower, ratio, alphaQuant).Some?
    ensures GroupMeanOpacityAt(pow, log, 0.0, kappaLower, ratio, alphaQuant) == Some(kappaLower)
  {
    var part := PowerLawIntegral(pow, log, ratio, alphaQuant + 1.0);
    assert alphaQuant + 0.0 + 1.0 == alphaQuant + 1.0;
    QuotientOfMultiple(kappaLower, part);
    assert kappaLower / part * part == kappaLower;
  }

  /** The log branch is the alpha -> 0 limit: it applies exactly for |alpha| < 1e-8. */
  lemma PowerLawIntegralBranches(pow: (real, real) -> real, log: real -> real, ratio: real, alpha: real)
    ensures Abs(alpha) < 1e-8 ==> PowerLawIntegral(pow, log, ratio, alpha) == log(ratio)
    ensures Abs(alpha) >= 1e-8 ==> PowerLawIntegral(pow, log, ratio, alpha) * alpha == pow(ratio, alpha) - 1.0
  {
    if Abs(alpha) >= 1e-8 {
      ScaledQuotientOf(pow(ratio, alpha) - 1.0, alpha);
    }
  }
}
