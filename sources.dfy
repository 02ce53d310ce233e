/**
 * The matter-radiation exchange of RadSystem::AddSourceTerms for one cell:
 * the Newton-Raphson solve of the coupled gas-energy and radiation-energy
 * equations (Howell and Greenough's base variables Egas and D_g = R_g / tau0_g),
 * the implicit radiation-flux update, which transfers momentum to the gas, and
 * the outer iteration that lags the work term v.F until it settles.
 *
 * The configuration modelled is the one the core code runs by default: a
 * user-defined opacity (three callbacks kappa(rho, T, g)), beta_order = 1 (all
 * Lorentz factors are 1), the work term included in the source, D used as the
 * base variable and gamma != 1. Every division the source would perform by
 * zero, every NaN its debug assertions would catch, and its fatal assertions
 * are error values.
 */
module SourceTerms {
  import opened Numerics
  import opened LinearSolvers
  import opened GroupUtilities
  import opened EquationOfState
  import opened GasEnergy
  import opened Closure
  import opened Iteration
  import Hyperbolic

  const ResidualTolerance: real := 1.0e-11
  const MaxNewtonIterations: nat := 400
  const LagTolerance: real := 1.0e-13
  const MaxOuterIterations: nat := 5

  /** Opacity callback: kappa(rho, T, g) for group g. */
  type Opacity = (real, real, nat) -> real

  /** The problem's constants and callbacks that AddSourceTerms reads. */
  datatype Physics = Physics(
    c: real, chat: real, eradFloor: real, radiationConstant: real,
    planck: real -> real, boundaries: seq<real>, energyUnit: real, boltzmann: real,
    sqrt: real -> real, kappaP: Opacity, kappaE: Opacity, kappaF: Opacity, eos: EosTraits)

  /** Physics for n groups: n + 1 group boundaries, positive light speeds, a lawful square root. */
  ghost predicate PhysicsFits(p: Physics, n: nat)
  {
    n >= 1 && |p.boundaries| == n + 1 && p.c > 0.0 && p.chat > 0.0 && SqrtLaw(p.sqrt)
  }

  datatype SourceError =
    | NotANumber          // a division by zero: the source computes inf or NaN
    | NegativeTemperature // AMREX_ASSERT(T_gas >= 0.)
    | NewtonDiverged      // "Newton-Raphson iteration failed to converge!"
    | NotPositive         // Egas_guess > 0 or min(EradVec_guess) >= 0 fails after a Newton solve, or
                          // min(Erad0) > 0, min(Src) >= 0 or Eint > 0 fails on entry
    | IterationDiverged   // "AddSourceTerms iteration failed to converge!"

  /** The opacity of every group at (rho, T). */
  function Opacities(kappa: Opacity, rho: real, temperature: real, n: nat): (k: seq<real>)
    ensures |k| == n
  {
    seq(n, g requires 0 <= g < n => kappa(rho, temperature, g))
  }

  /** kappaPoverE for one group: kappa_P / kappa_E, or 1 where kappa_E <= 0. */
  function KappaRatio(kappaP: real, kappaE: real): (r: real)
  {
    if kappaE > 0.0 then kappaP / kappaE else 1.0
  }

  function KappaRatios(kappaP: seq<real>, kappaE: seq<real>): (r: seq<real>)
    requires |kappaE| == |kappaP|
    ensures |r| == |kappaP|
  {
    seq(|kappaP|, g requires 0 <= g < |kappaP| => KappaRatio(kappaP[g], kappaE[g]))
  }

  /** The gas temperature of internal energy eint; None where ComputeTgasFromEint divides by zero. */
  function Temperature(p: Physics, rho: real, eint: real): Option<real>
  {
    TgasFromEint(p.eos, rho, eint)
  }

  /** fourPiBoverC at temperature T; None where the Planck fractions are undefined. */
  function Thermal(p: Physics, temperature: real): (r: Option<seq<real>>)
    requires |p.boundaries| >= 2
    ensures r.Some? ==> |r.value| == |p.boundaries| - 1
  {
    ThermalRadiation(p.radiationConstant, p.eradFloor, p.planck, p.boundaries, p.energyUnit, p.boltzmann, temperature)
  }

  /**
   * What the Newton iteration holds fixed: the density, the time step, the
   * initial gas and total energies, the initial radiation energies, the
   * sources dt chat S_g, the floored optical depths tau0 and the lagged work.
   */
  datatype NewtonContext = NewtonContext(
    rho: real, dt: real, egas0: real, etot0: real,
    erad0: seq<real>, src: seq<real>, tau0: seq<real>, work: seq<real>)

  predicate ContextFits(ctx: NewtonContext, n: nat)
  {
    |ctx.erad0| == n && |ctx.src| == n && |ctx.tau0| == n && |ctx.work| == n && ctx.etot0 != 0.0
  }

  /** The Newton unknowns: Egas_guess, D, and EradVec_guess (which keeps its value in groups with tau <= 0). */
  datatype NewtonState = NewtonState(egas: real, d: seq<real>, erad: seq<real>)

  predicate StateFits(s: NewtonState, n: nat)
  {
    |s.d| == n && |s.erad| == n
  }

  /** Everything one Newton iteration computes from its state before the convergence test. */
  datatype Evaluation = Evaluation(
    tgas: real, thermal: seq<real>, ratio: seq<real>, tau: seq<real>, rvec: seq<real>,
    erad: seq<real>, fG: real, fD: seq<real>, fDAbsSum: real)

  predicate EvaluationFits(ev: Evaluation, n: nat)
  {
    |ev.thermal| == n && |ev.ratio| == n && |ev.tau| == n && |ev.rvec| == n && |ev.erad| == n && |ev.fD| == n
  }

  /** The groups with tau > 0: the only ones that enter the residual sums and the Jacobian. */
  function Active(tau: seq<real>): (m: seq<bool>)
    ensures |m| == |tau|
  {
    seq(|tau|, g requires 0 <= g < |tau| => tau[g] > 0.0)
  }

  /**
   * The radiation energy guess of group g. Where tau > 0 it is the energy E
   * at which the exchange term tau (B - E / kappaPoverE) + work equals R_g;
   * where tau <= 0 the old guess is kept.
   */
  function EnergyGuess(ratio: real, thermal: real, rvec: real, work: real, tau: real, previous: real): (e: real)
  {
    if tau > 0.0 then ratio * (thermal - (rvec - work) / tau) else previous
  }

  function Elementwise(rho: real, dt: real, chat: real, kappa: seq<real>): (tau: seq<real>)
    ensures |tau| == |kappa|
  {
    seq(|kappa|, g requires 0 <= g < |kappa| => dt * rho * kappa[g] * chat)
  }

  function EnergyGuesses(ratio: seq<real>, thermal: seq<real>, rvec: seq<real>, work: seq<real>, tau: seq<real>,
                         previous: seq<real>): (e: seq<real>)
    requires |thermal| == |ratio| && |rvec| == |ratio| && |work| == |ratio| && |tau| == |ratio| && |previous| == |ratio|
    ensures |e| == |ratio|
  {
    seq(|ratio|, g requires 0 <= g < |ratio| => EnergyGuess(ratio[g], thermal[g], rvec[g], work[g], tau[g], previous[g]))
  }

  /** F_D = E - E0 - (R + Src), group by group. */
  function RadiationResiduals(erad: seq<real>, erad0: seq<real>, rvec: seq<real>, src: seq<real>): (f: seq<real>)
    requires |erad0| == |erad| && |rvec| == |erad| && |src| == |erad|
    ensures |f| == |erad|
  {
    seq(|erad|, g requires 0 <= g < |erad| => erad[g] - erad0[g] - (rvec[g] + src[g]))
  }

  function Scaled(k: real, v: seq<real>): (r: seq<real>)
    ensures |r| == |v|
  {
    seq(|v|, g requires 0 <= g < |v| => k * v[g])
  }

  function Magnitudes(v: seq<real>): (r: seq<real>)
    ensures |r| == |v|
  {
    seq(|v|, g requires 0 <= g < |v| => Abs(v[g]))
  }

  /** The residual evaluation of one Newton iteration at state s. */
  function Evaluate(p: Physics, ctx: NewtonContext, s: NewtonState): (r: Result<Evaluation, SourceError>)
    requires PhysicsFits(p, |ctx.erad0|) && ContextFits(ctx, |ctx.erad0|) && StateFits(s, |ctx.erad0|)
    ensures r.Ok? ==> EvaluationFits(r.value, |ctx.erad0|) && r.value.tgas >= 0.0
  {
    var t := Temperature(p, ctx.rho, s.egas);
    if t.None? then Err(NotANumber)
    else if t.value < 0.0 then Err(NegativeTemperature)
    else
      var thermal := Thermal(p, t.value);
      if thermal.None? then Err(NotANumber)
      else Ok(Assemble(p, ctx, s, t.value, thermal.value))
  }

  /** The evaluation at state s once its temperature and thermal radiation are known. */
  function Assemble(p: Physics, ctx: NewtonContext, s: NewtonState, tgas: real, thermal: seq<real>): (ev: Evaluation)
    requires PhysicsFits(p, |ctx.erad0|) && ContextFits(ctx, |ctx.erad0|) && StateFits(s, |ctx.erad0|)
    requires |thermal| == |ctx.erad0|
    ensures EvaluationFits(ev, |ctx.erad0|) && ev.tgas == tgas && ev.thermal == thermal
  {
    var n := |ctx.erad0|;
    var kP := Opacities(p.kappaP, ctx.rho, tgas, n);
    var kE := Opacities(p.kappaE, ctx.rho, tgas, n);
    var ratio := KappaRatios(kP, kE);
    var tau := Elementwise(ctx.rho, ctx.dt, p.chat, kE);
    var rvec := Times(ctx.tau0, s.d);
    var erad := EnergyGuesses(ratio, thermal, rvec, ctx.work, tau, s.erad);
    var fD := RadiationResiduals(erad, ctx.erad0, rvec, ctx.src);
    var mask := Active(tau);
    var fG := s.egas - ctx.egas0 + MaskedSum(Scaled(p.c / p.chat, rvec), mask);
    var fDAbsSum := MaskedSum(Magnitudes(fD), mask);
    Evaluation(tgas, thermal, ratio, tau, rvec, erad, fG, fD, fDAbsSum)
  }

  /** A successful evaluation is the assembly at the temperature of Egas_guess. */
  lemma EvaluateAssembles(p: Physics, ctx: NewtonContext, s: NewtonState)
    requires PhysicsFits(p, |ctx.erad0|) && ContextFits(ctx, |ctx.erad0|) && StateFits(s, |ctx.erad0|)
    requires Evaluate(p, ctx, s).Ok?
    ensures var ev := Evaluate(p, ctx, s).value;
            Temperature(p, ctx.rho, s.egas) == Some(ev.tgas) && ev == Assemble(p, ctx, s, ev.tgas, ev.thermal)
  {
  }

  /**
   * ev is what Evaluate gives for state s, spelled out: the temperature of
   * Egas_guess, non-negative, its thermal radiation, and the assembly at
   * both.
   */
  ghost predicate Evaluates(p: Physics, ctx: NewtonContext, s: NewtonState, ev: Evaluation)
    requires PhysicsFits(p, |ctx.erad0|) && ContextFits(ctx, |ctx.erad0|) && StateFits(s, |ctx.erad0|)
  {
    Temperature(p, ctx.rho, s.egas) == Some(ev.tgas) && ev.tgas >= 0.0
    && Thermal(p, ev.tgas) == Some(ev.thermal) && |ev.thermal| == |ctx.erad0|
    && ev == Assemble(p, ctx, s, ev.tgas, ev.thermal)
  }

  /** Evaluate succeeds with ev exactly when ev is the spelled-out evaluation of s. */
  lemma EvaluatesWhenOk(p: Physics, ctx: NewtonContext, s: NewtonState)
    requires PhysicsFits(p, |ctx.erad0|) && ContextFits(ctx, |ctx.erad0|) && StateFits(s, |ctx.erad0|)
    ensures Evaluate(p, ctx, s).Ok? ==> Evaluates(p, ctx, s, Evaluate(p, ctx, s).value)
    ensures forall ev :: Evaluates(p, ctx, s, ev) ==> Evaluate(p, ctx, s) == Ok(ev)
  {
  }

  /** The relative convergence test on both residuals. */
  predicate Converged(p: Physics, ctx: NewtonContext, ev: Evaluation)
    requires ctx.etot0 != 0.0 && p.chat != 0.0
  {
    Abs(ev.fG / ctx.etot0) < ResidualTolerance && (p.c / p.chat) * ev.fDAbsSum / ctx.etot0 < ResidualTolerance
  }

  /**
   * The arrowhead Jacobian system of one Newton step with the right-hand side
   * (-F_G, -F_D). Where tau <= 0 the source sets dF_D/dD to -infinity; in
   * IEEE arithmetic that row then contributes nothing to the solve and its
   * correction is 0, which this system states by the row
   * 0 * dEgas + 1 * dD_g == 0.
   */
  datatype ArrowSystem = ArrowSystem(a00: real, a0i: seq<real>, ai0: seq<real>, aii: seq<real>, y0: real, yi: seq<real>)

  predicate SystemFits(j: ArrowSystem, n: nat)
  {
    |j.a0i| == n && |j.ai0| == n && |j.aii| == n && |j.yi| == n
  }

  function Jacobian(p: Physics, ctx: NewtonContext, ev: Evaluation, cv: real, dB: seq<real>): (j: ArrowSystem)
    requires PhysicsFits(p, |ctx.erad0|) && ContextFits(ctx, |ctx.erad0|) && EvaluationFits(ev, |ctx.erad0|)
    requires |dB| == |ctx.erad0| && cv != 0.0
    ensures SystemFits(j, |ctx.erad0|) && j.a00 == 1.0 && j.y0 == -ev.fG
    ensures forall g :: 0 <= g < |ctx.erad0| ==> j.a0i[g] == (p.c / p.chat) * ctx.tau0[g]
    ensures forall g :: 0 <= g < |ctx.erad0| && ev.tau[g] <= 0.0 ==> j.ai0[g] == 0.0 && j.aii[g] == 1.0 && j.yi[g] == 0.0
    ensures forall g :: 0 <= g < |ctx.erad0| && ev.tau[g] > 0.0 ==> j.yi[g] == -1.0 * ev.fD[g]
  {
    var n := |ctx.erad0|;
    ArrowSystem(
      1.0,
      seq(n, g requires 0 <= g < n => (p.c / p.chat) * ctx.tau0[g]),
      seq(n, g requires 0 <= g < n => if ev.tau[g] <= 0.0 then 0.0 else 1.0 / cv * ev.ratio[g] * (dB[g] / p.chat)),
      seq(n, g requires 0 <= g < n =>
            if ev.tau[g] <= 0.0 then 1.0 else -1.0 * (1.0 / ev.tau[g] * ev.ratio[g] + 1.0) * ctx.tau0[g]),
      -ev.fG,
      seq(n, g requires 0 <= g < n => if ev.tau[g] <= 0.0 then 0.0 else -1.0 * ev.fD[g]))
  }

  /** The Jacobian system at evaluation ev; None where c_v is undefined or zero or dB/dT is undefined (T == 0). */
  function NewtonSystem(p: Physics, ctx: NewtonContext, ev: Evaluation): (j: Option<ArrowSystem>)
    requires PhysicsFits(p, |ctx.erad0|) && ContextFits(ctx, |ctx.erad0|) && EvaluationFits(ev, |ctx.erad0|)
    ensures j.Some? ==> SystemFits(j.value, |ctx.erad0|)
  {
    var n := |ctx.erad0|;
    var cv := EintTempDerivative(p.eos, ctx.rho);
    var dB := ThermalRadiationTempDerivative(ev.thermal, ev.tgas);
    if cv.None? || cv.value == 0.0 || dB.None? then None
    else Some(Jacobian(p, ctx, ev, cv.value, seq(n, g requires 0 <= g < n => p.chat * dB.value[g])))
  }

  /** One Newton update: solve the Jacobian system and add the corrections to Egas and D. */
  function Step(p: Physics, ctx: NewtonContext, s: NewtonState, ev: Evaluation): (r: Result<NewtonState, SourceError>)
    requires PhysicsFits(p, |ctx.erad0|) && ContextFits(ctx, |ctx.erad0|) && StateFits(s, |ctx.erad0|)
    requires EvaluationFits(ev, |ctx.erad0|)
    ensures r.Ok? ==> StateFits(r.value, |ctx.erad0|) && r.value.erad == ev.erad
  {
    var n := |ctx.erad0|;
    var j := NewtonSystem(p, ctx, ev);
    if j.None? then Err(NotANumber)
    else
      var sol := SolveLinearEqs(j.value.a00, j.value.a0i, j.value.ai0, j.value.aii, j.value.y0, j.value.yi);
      if sol.None? then Err(NotANumber)
      else Ok(NewtonState(s.egas + sol.value.x0, seq(n, g requires 0 <= g < n => s.d[g] + sol.value.xi[g]), ev.erad))
  }

  datatype NewtonExit = NewtonExit(iterations: nat, state: NewtonState, eval: Evaluation)

  type NewtonOutcome = Outcome<NewtonState, NewtonExit, SourceError>

  /** Iteration k of the Newton loop at state s: evaluate, test convergence, otherwise take a step. */
  function NewtonIteration(p: Physics, ctx: NewtonContext, s: NewtonState, k: nat): (o: NewtonOutcome)
    requires PhysicsFits(p, |ctx.erad0|) && ContextFits(ctx, |ctx.erad0|) && StateFits(s, |ctx.erad0|)
    ensures o.Next? ==> StateFits(o.state, |ctx.erad0|)
  {
    var ev := Evaluate(p, ctx, s);
    if ev.Err? then Failed(ev.error)
    else if Converged(p, ctx, ev.value) then Done(NewtonExit(k, s, ev.value))
    else
      var next := Step(p, ctx, s, ev.value);
      if next.Err? then Failed(next.error) else Next(next.value)
  }

  /** NewtonIteration as a function of the state and the iteration number (states of the wrong size fail). */
  function NewtonIterationAt(p: Physics, ctx: NewtonContext): (f: (NewtonState, nat) -> NewtonOutcome)
    requires PhysicsFits(p, |ctx.erad0|) && ContextFits(ctx, |ctx.erad0|)
  {
    (s: NewtonState, k: nat) => if StateFits(s, |ctx.erad0|) then NewtonIteration(p, ctx, s, k) else Failed(NotANumber)
  }

  /** The Newton-Raphson loop of AddSourceTerms from state s on: at most MaxNewtonIterations iterations. */
  function NewtonLoop(p: Physics, ctx: NewtonContext, s: NewtonState): Result<NewtonExit, SourceError>
    requires PhysicsFits(p, |ctx.erad0|) && ContextFits(ctx, |ctx.erad0|)
  {
    Drive(NewtonIterationAt(p, ctx), s, 0, MaxNewtonIterations, NewtonDiverged)
  }

  /** The source's Newton loop: iterate from s0 until both residuals are within tolerance. */
  method NewtonSolve(p: Physics, ctx: NewtonContext, s0: NewtonState) returns (r: Result<NewtonExit, SourceError>)
    requires PhysicsFits(p, |ctx.erad0|) && ContextFits(ctx, |ctx.erad0|)
    ensures r == NewtonLoop(p, ctx, s0)
  {
    r := Run(NewtonIterationAt(p, ctx), s0, MaxNewtonIterations, NewtonDiverged);
  }

  /**
   * A Newton iteration that is done has evaluated its state, found both
   * residuals within tolerance, and reports that state and its iteration number.
   */
  lemma NewtonDoneIsConverged(p: Physics, ctx: NewtonContext, s: NewtonState, k: nat)
    requires PhysicsFits(p, |ctx.erad0|) && ContextFits(ctx, |ctx.erad0|)
    requires NewtonIterationAt(p, ctx)(s, k).Done?
    ensures var x := NewtonIterationAt(p, ctx)(s, k).exit;
            x.iterations == k && x.state == s && StateFits(s, |ctx.erad0|)
            && Evaluate(p, ctx, s) == Ok(x.eval) && Converged(p, ctx, x.eval)
  {
  }

  /** A Newton iteration that moves on has an unconverged evaluation and a defined step. */
  lemma NewtonNextIsStep(p: Physics, ctx: NewtonContext, s: NewtonState, k: nat)
    requires PhysicsFits(p, |ctx.erad0|) && ContextFits(ctx, |ctx.erad0|)
    requires NewtonIterationAt(p, ctx)(s, k).Next?
    ensures StateFits(s, |ctx.erad0|) && Evaluate(p, ctx, s).Ok? && !Converged(p, ctx, Evaluate(p, ctx, s).value)
            && Step(p, ctx, s, Evaluate(p, ctx, s).value) == Ok(NewtonIterationAt(p, ctx)(s, k).state)
  {
  }

  /**
   * When the Newton loop succeeds, it returns an iterate reached by fewer
   * than MaxNewtonIterations Newton steps whose residuals are within tolerance.
   */
  lemma NewtonExitConverged(p: Physics, ctx: NewtonContext, s: NewtonState)
    requires PhysicsFits(p, |ctx.erad0|) && ContextFits(ctx, |ctx.erad0|)
    requires NewtonLoop(p, ctx, s).Ok?
    ensures var x := NewtonLoop(p, ctx, s).value;
            x.iterations < MaxNewtonIterations && Iterate(NewtonIterationAt(p, ctx), s, 0, x.iterations) == Some(x.state)
            && StateFits(x.state, |ctx.erad0|) && EvaluationFits(x.eval, |ctx.erad0|)
            && Evaluate(p, ctx, x.state) == Ok(x.eval) && Converged(p, ctx, x.eval)
  {
    var f := NewtonIterationAt(p, ctx);
    var x := NewtonLoop(p, ctx, s).value;
    StopsAtFirstDone(f, s, 0, MaxNewtonIterations, NewtonDiverged);
    var n := Moves(f, s, 0, MaxNewtonIterations);
    var t := Iterate(f, s, 0, n);
    NewtonDoneIsConverged(p, ctx, t.value, n);
    assert x.iterations == n && Some(x.state) == t;
  }

  /** Evaluations and steps fail only with NotANumber or NegativeTemperature, never with the loop's give-up error. */
  lemma NewtonIterationOwnErrors(p: Physics, ctx: NewtonContext, e: SourceError)
    requires PhysicsFits(p, |ctx.erad0|) && ContextFits(ctx, |ctx.erad0|)
    requires e != NotANumber && e != NegativeTemperature
    ensures OwnErrors(NewtonIterationAt(p, ctx), e)
  {
    var f := NewtonIterationAt(p, ctx);
    forall t: NewtonState, j: nat
      ensures f(t, j) != Failed(e)
    {
      if StateFits(t, |ctx.erad0|) {
        var ev := Evaluate(p, ctx, t);
        assert ev.Err? ==> ev.error == NotANumber || ev.error == NegativeTemperature;
        if ev.Ok? && !Converged(p, ctx, ev.value) {
          assert Step(p, ctx, t, ev.value).Err? ==> Step(p, ctx, t, ev.value).error == NotANumber;
        }
      }
    }
  }

  /** The Newton loop fails only with NotANumber, NegativeTemperature or NewtonDiverged. */
  lemma NewtonLoopErrors(p: Physics, ctx: NewtonContext, s: NewtonState)
    requires PhysicsFits(p, |ctx.erad0|) && ContextFits(ctx, |ctx.erad0|)
    ensures NewtonLoop(p, ctx, s) != Err(NotPositive) && NewtonLoop(p, ctx, s) != Err(IterationDiverged)
  {
    NewtonIterationOwnErrors(p, ctx, NotPositive);
    ErrorsFromIterations(NewtonIterationAt(p, ctx), s, 0, MaxNewtonIterations, NewtonDiverged, NotPositive);
    NewtonIterationOwnErrors(p, ctx, IterationDiverged);
    ErrorsFromIterations(NewtonIterationAt(p, ctx), s, 0, MaxNewtonIterations, NewtonDiverged, IterationDiverged);
  }

  /**
   * The Newton loop gives up, which the source's always-on assertion turns
   * into a fatal error, exactly when each of its MaxNewtonIterations
   * iterations evaluates without error, is not converged, and takes a defined step.
   */
  lemma NewtonDivergesIffNeverConverged(p: Physics, ctx: NewtonContext, s: NewtonState)
    requires PhysicsFits(p, |ctx.erad0|) && ContextFits(ctx, |ctx.erad0|)
    ensures NewtonLoop(p, ctx, s) == Err(NewtonDiverged) <==> MovesOn(NewtonIterationAt(p, ctx), s, 0, MaxNewtonIterations)
  {
    NewtonIterationOwnErrors(p, ctx, NewtonDiverged);
    GivesUpIffAlwaysMovesOn(NewtonIterationAt(p, ctx), s, 0, MaxNewtonIterations, NewtonDiverged);
  }

  /** kappaPoverE is the ratio kappa_P / kappa_E where kappa_E > 0, and 1 elsewhere. */
  lemma KappaRatioLaw(kappaP: real, kappaE: real)
    ensures kappaE > 0.0 ==> KappaRatio(kappaP, kappaE) * kappaE == kappaP
    ensures kappaE <= 0.0 ==> KappaRatio(kappaP, kappaE) == 1.0
  {
    if kappaE > 0.0 {
      DivCancel(kappaP, kappaE);
    }
  }

  /**
   * Where tau > 0 the energy guess is the radiation energy E at which the
   * exchange term tau (B - E / kappaPoverE) plus the work equals R; where
   * tau <= 0 the previous guess is kept.
   */
  lemma EnergyGuessBalances(ratio: real, thermal: real, rvec: real, work: real, tau: real, previous: real)
    ensures var e := EnergyGuess(ratio, thermal, rvec, work, tau, previous);
            (tau > 0.0 && ratio != 0.0 ==> tau * (thermal - e / ratio) + work == rvec)
            && (tau <= 0.0 ==> e == previous)
  {
    if tau > 0.0 && ratio != 0.0 {
      var q := (rvec - work) / tau;
      var e := ratio * (thermal - q);
      assert e / ratio == thermal - q by {
        DivCancel(e, ratio);
        assert ratio * (e / ratio) == ratio * (thermal - q);
        CancelLeft(ratio, e / ratio, thermal - q);
      }
      DivCancel(rvec - work, tau);
    }
  }

  lemma CancelLeft(k: real, a: real, b: real)
    requires k != 0.0 && k * a == k * b
    ensures a == b
  {
    assert a == (k * a) / k;
    assert b == (k * b) / k;
  }

  /**
   * An evaluation is consistent with its state: R = tau0 D, each active
   * group's energy guess balances its exchange equation, and the inactive
   * groups keep their energy.
   */
  lemma AssemblyBalances(p: Physics, ctx: NewtonContext, s: NewtonState, tgas: real, thermal: seq<real>)
    requires PhysicsFits(p, |ctx.erad0|) && ContextFits(ctx, |ctx.erad0|) && StateFits(s, |ctx.erad0|)
    requires |thermal| == |ctx.erad0|
    ensures var ev := Assemble(p, ctx, s, tgas, thermal);
            (forall g :: 0 <= g < |ctx.erad0| ==> ev.rvec[g] == ctx.tau0[g] * s.d[g])
            && (forall g :: 0 <= g < |ctx.erad0| && ev.tau[g] > 0.0 && ev.ratio[g] != 0.0 ==>
                  ev.tau[g] * (ev.thermal[g] - ev.erad[g] / ev.ratio[g]) + ctx.work[g] == ev.rvec[g])
            && (forall g :: 0 <= g < |ctx.erad0| && ev.tau[g] <= 0.0 ==> ev.erad[g] == s.erad[g])
  {
    var ev := Assemble(p, ctx, s, tgas, thermal);
    AssembledGuesses(p, ctx, s, tgas, thermal);
    GuessesBalance(ev.ratio, ev.thermal, ev.rvec, ctx.work, ev.tau, s.erad, ev.erad);
  }

  /** The assembly's R and energy guesses, by name. */
  lemma AssembledGuesses(p: Physics, ctx: NewtonContext, s: NewtonState, tgas: real, thermal: seq<real>)
    requires PhysicsFits(p, |ctx.erad0|) && ContextFits(ctx, |ctx.erad0|) && StateFits(s, |ctx.erad0|)
    requires |thermal| == |ctx.erad0|
    ensures var ev := Assemble(p, ctx, s, tgas, thermal);
            ev.rvec == Times(ctx.tau0, s.d)
            && ev.erad == EnergyGuesses(ev.ratio, ev.thermal, ev.rvec, ctx.work, ev.tau, s.erad)
  {
  }

  /** Every group's energy guess balances its exchange equation, or keeps the previous energy. */
  lemma GuessesBalance(ratio: seq<real>, thermal: seq<real>, rvec: seq<real>, work: seq<real>, tau: seq<real>,
                       previous: seq<real>, e: seq<real>)
    requires |thermal| == |ratio| && |rvec| == |ratio| && |work| == |ratio| && |tau| == |ratio| && |previous| == |ratio|
    requires e == EnergyGuesses(ratio, thermal, rvec, work, tau, previous)
    ensures forall g :: 0 <= g < |ratio| && tau[g] > 0.0 && ratio[g] != 0.0 ==>
              tau[g] * (thermal[g] - e[g] / ratio[g]) + work[g] == rvec[g]
    ensures forall g :: 0 <= g < |ratio| && tau[g] <= 0.0 ==> e[g] == previous[g]
  {
    forall g | 0 <= g < |ratio|
      ensures tau[g] > 0.0 && ratio[g] != 0.0 ==> tau[g] * (thermal[g] - e[g] / ratio[g]) + work[g] == rvec[g]
      ensures tau[g] <= 0.0 ==> e[g] == previous[g]
    {
      EnergyGuessBalances(ratio[g], thermal[g], rvec[g], work[g], tau[g], previous[g]);
    }
  }

  /**
   * A Newton step solves the Jacobian system for its corrections (dEgas, dD),
   * and leaves D unchanged in every group with tau <= 0.
   */
  lemma StepSolvesJacobian(p: Physics, ctx: NewtonContext, s: NewtonState, ev: Evaluation)
    requires PhysicsFits(p, |ctx.erad0|) && ContextFits(ctx, |ctx.erad0|) && StateFits(s, |ctx.erad0|)
    requires EvaluationFits(ev, |ctx.erad0|)
    requires Step(p, ctx, s, ev).Ok?
    ensures NewtonSystem(p, ctx, ev).Some?
    ensures var j := NewtonSystem(p, ctx, ev).value;
            var t := Step(p, ctx, s, ev).value;
            ArrowSolves(j.a00, j.a0i, j.ai0, j.aii, j.y0, j.yi, t.egas - s.egas, Difference(t.d, s.d))
    ensures var t := Step(p, ctx, s, ev).value;
            forall g :: 0 <= g < |ctx.erad0| && ev.tau[g] <= 0.0 ==> t.d[g] == s.d[g]
  {
    var j := NewtonSystem(p, ctx, ev).value;
    var sol := SolveLinearEqs(j.a00, j.a0i, j.ai0, j.aii, j.y0, j.yi).value;
    StepAddsSolution(p, ctx, s, ev);
    InactiveRowsFixed(j.ai0, j.aii, j.yi, sol.x0, sol.xi, ev.tau);
    var t := Step(p, ctx, s, ev).value;
    forall g | 0 <= g < |ctx.erad0| && ev.tau[g] <= 0.0
      ensures t.d[g] == s.d[g]
    {
      assert Difference(t.d, s.d)[g] == sol.xi[g];
    }
  }

  /** A successful step adds the solution of the Jacobian system to Egas and D. */
  lemma StepAddsSolution(p: Physics, ctx: NewtonContext, s: NewtonState, ev: Evaluation)
    requires PhysicsFits(p, |ctx.erad0|) && ContextFits(ctx, |ctx.erad0|) && StateFits(s, |ctx.erad0|)
    requires EvaluationFits(ev, |ctx.erad0|)
    requires Step(p, ctx, s, ev).Ok?
    ensures NewtonSystem(p, ctx, ev).Some?
    ensures var j := NewtonSystem(p, ctx, ev).value;
            var t := Step(p, ctx, s, ev).value;
            SolveLinearEqs(j.a00, j.a0i, j.ai0, j.aii, j.y0, j.yi).Some?
            && var sol := SolveLinearEqs(j.a00, j.a0i, j.ai0, j.aii, j.y0, j.yi).value;
               t.egas - s.egas == sol.x0 && Difference(t.d, s.d) == sol.xi
  {
    var j := NewtonSystem(p, ctx, ev).value;
    var sol := SolveLinearEqs(j.a00, j.a0i, j.ai0, j.aii, j.y0, j.yi).value;
    var t := Step(p, ctx, s, ev).value;
    assert Difference(t.d, s.d) == sol.xi;
  }

  /** Rows 0 x0 + 1 xi = 0 of a solved system leave xi at zero. */
  lemma InactiveRowsFixed(ai0: seq<real>, aii: seq<real>, yi: seq<real>, x0: real, xi: seq<real>, tau: seq<real>)
    requires |aii| == |ai0| && |yi| == |ai0| && |xi| == |ai0| && |tau| == |ai0|
    requires DiagonalRows(ai0, aii, yi, x0, xi)
    requires forall g :: 0 <= g < |ai0| && tau[g] <= 0.0 ==> ai0[g] == 0.0 && aii[g] == 1.0 && yi[g] == 0.0
    ensures forall g :: 0 <= g < |ai0| && tau[g] <= 0.0 ==> xi[g] == 0.0
  {
    forall g | 0 <= g < |ai0| && tau[g] <= 0.0
      ensures xi[g] == 0.0
    {
      assert ai0[g] * x0 + aii[g] * xi[g] == yi[g];
    }
  }

  /** Etot0 = Egas0 + (c / chat)(sum E0 + sum Src): the total energy the update conserves. */
  predicate TotalEnergy(p: Physics, ctx: NewtonContext)
    requires |ctx.src| == |ctx.erad0| && p.chat != 0.0
  {
    ctx.etot0 == ctx.egas0 + (p.c / p.chat) * (Sum(ctx.erad0) + Sum(ctx.src))
  }

  /**
   * Egas + (c / chat) sum E lies within twice the residual tolerance of
   * the total energy Etot0.
   */
  predicate EnergyHeld(p: Physics, egas: real, erad: seq<real>, etot0: real)
    requires p.chat != 0.0
  {
    Abs(egas + (p.c / p.chat) * Sum(erad) - etot0) < 2.0 * ResidualTolerance * etot0
  }

  predicate AllActive(tau: seq<real>)
  {
    forall g :: 0 <= g < |tau| ==> tau[g] > 0.0
  }

  /**
   * With every group active, the residuals measure the energy error: F_G
   * plus (c / chat) times the sum of F_D is Egas + (c / chat) sum E - Etot0.
   */
  lemma ResidualsMeasureEnergy(p: Physics, ctx: NewtonContext, s: NewtonState, tgas: real, thermal: seq<real>)
    requires PhysicsFits(p, |ctx.erad0|) && ContextFits(ctx, |ctx.erad0|) && StateFits(s, |ctx.erad0|)
    requires |thermal| == |ctx.erad0| && TotalEnergy(p, ctx) && AllActive(Assemble(p, ctx, s, tgas, thermal).tau)
    ensures ResidualsMeasure(p, ctx, s, Assemble(p, ctx, s, tgas, thermal))
  {
    var ev := Assemble(p, ctx, s, tgas, thermal);
    var k := p.c / p.chat;
    AssembledResiduals(p, ctx, s, tgas, thermal);
    ActiveScaledSum(k, ev.rvec, ev.tau);
    ResidualSums(ev.rvec, ev.erad, ctx.erad0, ctx.src);
    PartsMeasure(p, ctx, s, ev, MaskedSum(Scaled(k, ev.rvec), Active(ev.tau)));
  }

  /**
   * F_G + (c / chat) sum F_D = Egas + (c / chat) sum E - Etot0: the
   * residuals of ev measure the energy error of state s.
   */
  predicate ResidualsMeasure(p: Physics, ctx: NewtonContext, s: NewtonState, ev: Evaluation)
    requires p.chat != 0.0
  {
    ev.fG + (p.c / p.chat) * Sum(ev.fD) == s.egas + (p.c / p.chat) * Sum(ev.erad) - ctx.etot0
  }

  /** The residual fields of an assembly, as the assembly defines them. */
  lemma AssembledResiduals(p: Physics, ctx: NewtonContext, s: NewtonState, tgas: real, thermal: seq<real>)
    requires PhysicsFits(p, |ctx.erad0|) && ContextFits(ctx, |ctx.erad0|) && StateFits(s, |ctx.erad0|)
    requires |thermal| == |ctx.erad0|
    ensures var ev := Assemble(p, ctx, s, tgas, thermal);
            ev.fD == RadiationResiduals(ev.erad, ctx.erad0, ev.rvec, ctx.src)
            && ev.fG == s.egas - ctx.egas0 + MaskedSum(Scaled(p.c / p.chat, ev.rvec), Active(ev.tau))
  {
  }

  /** The energy measure from the sums of the residual fields. */
  lemma PartsMeasure(p: Physics, ctx: NewtonContext, s: NewtonState, ev: Evaluation, masked: real)
    requires p.chat != 0.0 && ctx.etot0 == ctx.egas0 + (p.c / p.chat) * (Sum(ctx.erad0) + Sum(ctx.src))
    requires Sum(ev.erad) == Sum(ev.fD) + Sum(ctx.erad0) + Sum(ev.rvec) + Sum(ctx.src)
    requires ev.fG == s.egas - ctx.egas0 + masked && masked == (p.c / p.chat) * Sum(ev.rvec)
    ensures ResidualsMeasure(p, ctx, s, ev)
  {
    EnergyAlgebra(p.c / p.chat, Sum(ev.fD), Sum(ctx.erad0), Sum(ev.rvec), Sum(ctx.src), Sum(ev.erad), s.egas, ctx.egas0, ev.fG,
                  masked, ctx.etot0);
  }

  /** With every group active, the masked sum of k R is k times the sum of R. */
  lemma ActiveScaledSum(k: real, rvec: seq<real>, tau: seq<real>)
    requires |tau| == |rvec| && AllActive(tau)
    ensures MaskedSum(Scaled(k, rvec), Active(tau)) == k * Sum(rvec)
  {
    MaskedSumAll(Scaled(k, rvec), Active(tau));
    ScaledSum(k, rvec);
  }

  lemma ScaledSum(k: real, v: seq<real>)
    ensures Sum(Scaled(k, v)) == k * Sum(v)
  {
    SumScale(v, k, Scaled(k, v));
  }

  /** Summing F_D = E - E0 - (R + Src) over the groups. */
  lemma ResidualSums(rvec: seq<real>, erad: seq<real>, erad0: seq<real>, src: seq<real>)
    requires |rvec| == |erad| && |erad0| == |erad| && |src| == |erad|
    ensures Sum(erad) == Sum(RadiationResiduals(erad, erad0, rvec, src)) + Sum(erad0) + Sum(rvec) + Sum(src)
  {
    var n := |erad|;
    var fD := RadiationResiduals(erad, erad0, rvec, src);
    var u1 := seq(n, g requires 0 <= g < n => rvec[g] + src[g]);
    var u2 := seq(n, g requires 0 <= g < n => erad0[g] + u1[g]);
    SumAdd(rvec, src, u1);
    SumAdd(erad0, u1, u2);
    SumAdd(fD, u2, erad);
  }

  lemma Distribute(k: real, a: real, b: real, c: real, d: real)
    ensures k * (a + (b + (c + d))) == k * a + k * b + k * c + k * d
    ensures k * (b + d) == k * b + k * d
  {
  }

  lemma EnergyAlgebra(k: real, a: real, b: real, c: real, d: real, e: real, egas: real, egas0: real, fG: real,
                      masked: real, etot0: real)
    requires e == a + b + c + d && fG == egas - egas0 + masked && masked == k * c && etot0 == egas0 + k * (b + d)
    ensures fG + k * a == egas + k * e - etot0
  {
    Distribute(k, a, b, c, d);
    assert a + b + c + d == a + (b + (c + d));
  }

  /**
   * The residuals of ev measure the energy error of state s: F_G plus
   * (c / chat) sum F_D is Egas + (c / chat) sum E - Etot0, and |sum F_D| is
   * at most the sum of |F_D| that the convergence test uses.
   */
  ghost predicate MeasuresEnergy(p: Physics, ctx: NewtonContext, s: NewtonState, ev: Evaluation)
    requires p.chat != 0.0
  {
    ResidualsMeasure(p, ctx, s, ev) && Abs(Sum(ev.fD)) <= ev.fDAbsSum
  }

  /** With every group active, an evaluation's residuals measure the energy error. */
  lemma AssemblyMeasuresEnergy(p: Physics, ctx: NewtonContext, s: NewtonState, tgas: real, thermal: seq<real>)
    requires PhysicsFits(p, |ctx.erad0|) && ContextFits(ctx, |ctx.erad0|) && StateFits(s, |ctx.erad0|)
    requires |thermal| == |ctx.erad0| && TotalEnergy(p, ctx) && AllActive(Assemble(p, ctx, s, tgas, thermal).tau)
    ensures MeasuresEnergy(p, ctx, s, Assemble(p, ctx, s, tgas, thermal))
  {
    ResidualsMeasureEnergy(p, ctx, s, tgas, thermal);
    AbsResidualSum(p, ctx, s, tgas, thermal);
  }

  /**
   * A converged evaluation whose residuals measure the energy error holds
   * the total energy to within twice the residual tolerance:
   * |Egas + (c / chat) sum E - Etot0| < 2 tol Etot0.
   */
  lemma ConvergedConservesEnergy(p: Physics, ctx: NewtonContext, s: NewtonState, ev: Evaluation)
    requires PhysicsFits(p, |ctx.erad0|) && ctx.etot0 > 0.0
    requires MeasuresEnergy(p, ctx, s, ev) && Converged(p, ctx, ev)
    ensures EnergyHeld(p, s.egas, ev.erad, ctx.etot0)
  {
    QuotientPositive(p.c, p.chat);
    EnergyErrorBound(p.c / p.chat, ev.fG, Sum(ev.fD), ev.fDAbsSum, ctx.etot0, s.egas, Sum(ev.erad));
  }

  /**
   * The state a converged Newton loop exits with conserves energy: Etot0
   * being the initial total energy, and every group being active (a
   * positive density, time step and kappa_E), Egas + (c / chat) sum E lies
   * within twice the residual tolerance of Etot0.
   */
  lemma ExitConservesEnergy(p: Physics, ctx: NewtonContext, x: NewtonExit)
    requires PhysicsFits(p, |ctx.erad0|) && ContextFits(ctx, |ctx.erad0|) && StateFits(x.state, |ctx.erad0|)
    requires Evaluates(p, ctx, x.state, x.eval) && Converged(p, ctx, x.eval)
    requires TotalEnergy(p, ctx) && ctx.etot0 > 0.0 && AllActive(x.eval.tau)
    ensures EnergyHeld(p, x.state.egas, x.eval.erad, ctx.etot0)
  {
    AssemblyConservesEnergy(p, ctx, x.state, x.eval.tgas, x.eval.thermal, x.eval);
  }

  /** With a positive density, time step and kappa_E, every group of an evaluation is active. */
  lemma EvaluationActive(p: Physics, ctx: NewtonContext, s: NewtonState, ev: Evaluation)
    requires PhysicsFits(p, |ctx.erad0|) && ContextFits(ctx, |ctx.erad0|) && StateFits(s, |ctx.erad0|)
    requires Evaluates(p, ctx, s, ev) && ctx.rho > 0.0 && ctx.dt > 0.0
    requires forall t: real, g: nat :: g < |ctx.erad0| ==> p.kappaE(ctx.rho, t, g) > 0.0
    ensures AllActive(ev.tau)
  {
    AssemblyActive(p, ctx, s, ev.tgas, ev.thermal);
  }

  /** With a positive density, time step and kappa_E, every group of an assembly is active. */
  lemma AssemblyActive(p: Physics, ctx: NewtonContext, s: NewtonState, tgas: real, thermal: seq<real>)
    requires PhysicsFits(p, |ctx.erad0|) && ContextFits(ctx, |ctx.erad0|) && StateFits(s, |ctx.erad0|)
    requires |thermal| == |ctx.erad0| && ctx.rho > 0.0 && ctx.dt > 0.0
    requires forall t: real, g: nat :: g < |ctx.erad0| ==> p.kappaE(ctx.rho, t, g) > 0.0
    ensures AllActive(Assemble(p, ctx, s, tgas, thermal).tau)
  {
    var kE := Opacities(p.kappaE, ctx.rho, tgas, |ctx.erad0|);
    var tau := Elementwise(ctx.rho, ctx.dt, p.chat, kE);
    AssemblyDepths(p, ctx, s, tgas, thermal);
    forall g | 0 <= g < |kE|
      ensures tau[g] > 0.0
    {
      MulPos(ctx.dt, ctx.rho);
      MulPos(ctx.dt * ctx.rho, kE[g]);
      MulPos(ctx.dt * ctx.rho * kE[g], p.chat);
    }
  }

  /** The optical depths of the Newton loop's final evaluation are dt rho kappa_E chat at its temperature. */
  lemma NewtonExitDepths(p: Physics, ctx: NewtonContext, s: NewtonState)
    requires PhysicsFits(p, |ctx.erad0|) && ContextFits(ctx, |ctx.erad0|) && NewtonLoop(p, ctx, s).Ok?
    ensures var x := NewtonLoop(p, ctx, s).value;
            x.eval.tau == Elementwise(ctx.rho, ctx.dt, p.chat, Opacities(p.kappaE, ctx.rho, x.eval.tgas, |ctx.erad0|))
  {
    var x := NewtonLoop(p, ctx, s).value;
    NewtonExitConverged(p, ctx, s);
    EvaluateAssembles(p, ctx, x.state);
    AssemblyDepths(p, ctx, x.state, x.eval.tgas, x.eval.thermal);
  }

  /** The same for one converged evaluation of state s at temperature tgas. */
  lemma AssemblyConservesEnergy(p: Physics, ctx: NewtonContext, s: NewtonState, tgas: real, thermal: seq<real>,
                                 ev: Evaluation)
    requires PhysicsFits(p, |ctx.erad0|) && ContextFits(ctx, |ctx.erad0|) && StateFits(s, |ctx.erad0|)
    requires |thermal| == |ctx.erad0| && TotalEnergy(p, ctx) && ctx.etot0 > 0.0
    requires ev == Assemble(p, ctx, s, tgas, thermal) && Converged(p, ctx, ev) && AllActive(ev.tau)
    ensures EnergyHeld(p, s.egas, ev.erad, ctx.etot0)
  {
    AssemblyMeasuresEnergy(p, ctx, s, tgas, thermal);
    ConvergedConservesEnergy(p, ctx, s, ev);
  }

  /** The optical depths of an evaluation are dt rho kappa_E chat at its temperature. */
  lemma AssemblyDepths(p: Physics, ctx: NewtonContext, s: NewtonState, tgas: real, thermal: seq<real>)
    requires PhysicsFits(p, |ctx.erad0|) && ContextFits(ctx, |ctx.erad0|) && StateFits(s, |ctx.erad0|)
    requires |thermal| == |ctx.erad0|
    ensures Assemble(p, ctx, s, tgas, thermal).tau
            == Elementwise(ctx.rho, ctx.dt, p.chat, Opacities(p.kappaE, ctx.rho, tgas, |ctx.erad0|))
  {
  }

  /** With every group active, |sum F_D| is at most the masked sum of |F_D| that the convergence test uses. */
  lemma AbsResidualSum(p: Physics, ctx: NewtonContext, s: NewtonState, tgas: real, thermal: seq<real>)
    requires PhysicsFits(p, |ctx.erad0|) && ContextFits(ctx, |ctx.erad0|) && StateFits(s, |ctx.erad0|)
    requires |thermal| == |ctx.erad0| && AllActive(Assemble(p, ctx, s, tgas, thermal).tau)
    ensures var ev := Assemble(p, ctx, s, tgas, thermal);
            Abs(Sum(ev.fD)) <= ev.fDAbsSum
  {
    var ev := Assemble(p, ctx, s, tgas, thermal);
    var mask := Active(ev.tau);
    MaskedSumAbs(ev.fD, Magnitudes(ev.fD), mask);
    MaskedSumAll(ev.fD, mask);
  }

  lemma EnergyErrorBound(k: real, fG: real, sumFD: real, absSum: real, etot0: real, egas: real, sumE: real)
    requires k > 0.0 && etot0 > 0.0 && Abs(sumFD) <= absSum && fG + k * sumFD == egas + k * sumE - etot0
    requires Abs(fG / etot0) < ResidualTolerance && k * absSum / etot0 < ResidualTolerance
    ensures Abs(egas + k * sumE - etot0) < 2.0 * ResidualTolerance * etot0
  {
    assert Abs(fG / etot0) == Abs(fG) / etot0;
    BelowTolerance(Abs(fG), etot0);
    BelowTolerance(k * absSum, etot0);
    ScaledAbs(k, sumFD, absSum);
  }

  lemma BelowTolerance(x: real, e: real)
    requires e > 0.0 && x / e < ResidualTolerance
    ensures x < ResidualTolerance * e
  {
    assert x == (x / e) * e;
  }

  lemma ScaledAbs(k: real, x: real, bound: real)
    requires k > 0.0 && Abs(x) <= bound
    ensures Abs(k * x) <= k * bound
  {
    if x >= 0.0 {
      assert k * x <= k * bound;
    } else {
      assert k * (-x) <= k * bound;
    }
  }

  // ---------------------------------------------------------------------
  // The outer iteration: Newton solve, flux update, work term.
  // ---------------------------------------------------------------------

  /** One cell of the conserved state: density, gas momentum, gas total and internal energy, and per group E_r and F. */
  datatype Cell = Cell(rho: real, mom: Vec3, egas: real, eint: real, erad: seq<real>, flux: seq<Vec3>)

  predicate CellFits(cell: Cell, n: nat)
  {
    |cell.erad| == n && |cell.flux| == n
  }

  /**
   * What the cell update fixes before iterating: the time step of the stage,
   * the sources dt chat S_g, the initial internal energy Egas0, the total
   * energy Etot0 = Egas0 + (c / chat)(sum E_r + sum Src), and the fraction
   * of the update given to the gas.
   */
  datatype Setup = Setup(dt: real, src: seq<real>, egas0: real, etot0: real, factor: real)

  /** The time step of an IMEX stage: the whole radiation step in stage 1, (1 - a32) of it in stage 2. */
  function StageStep(dtRadiation: real, stage: int): (dt: real)
    ensures stage == 2 ==> dt == 0.5 * dtRadiation
    ensures stage != 2 ==> dt == dtRadiation
  {
    if stage == 2 then (1.0 - Hyperbolic.IMEX_a32) * dtRadiation else dtRadiation
  }

  /** The energy sources of the step, Src_g = dt (chat S_g). */
  function Sources(p: Physics, source: seq<real>, dt: real): (src: seq<real>)
    ensures |src| == |source|
  {
    seq(|source|, g requires 0 <= g < |source| => dt * (p.chat * source[g]))
  }

  /** The share of the momentum and energy change the gas receives: a32 in stage 1, all of it otherwise. */
  function GasUpdateFactor(stage: int): (f: real)
    ensures f == if stage == 1 then 0.5 else 1.0
  {
    if stage == 1 then Hyperbolic.IMEX_a32 else 1.0
  }

  function Prepare(p: Physics, cell: Cell, source: seq<real>, dtRadiation: real, stage: int): (su: Setup)
    requires |source| == |cell.erad| && p.chat != 0.0
    requires EintFromEgas(cell.rho, cell.mom.x, cell.mom.y, cell.mom.z, cell.egas).Some?
    ensures |su.src| == |cell.erad|
  {
    var dt := StageStep(dtRadiation, stage);
    var src := Sources(p, source, dt);
    var egas0 := EintFromEgas(cell.rho, cell.mom.x, cell.mom.y, cell.mom.z, cell.egas).value;
    Setup(dt, src, egas0, egas0 + (p.c / p.chat) * (Sum(cell.erad) + Sum(src)), GasUpdateFactor(stage))
  }

  /** Etot0 = Eint0 + (c / chat)(sum E0 + sum Src): the total energy of the setup. */
  predicate SetupTotal(p: Physics, cell: Cell, su: Setup)
    requires p.chat != 0.0 && |su.src| == |cell.erad|
  {
    su.etot0 == su.egas0 + (p.c / p.chat) * (Sum(cell.erad) + Sum(su.src))
  }

  /**
   * The setup's Etot0 is the initial total energy, its Src the stage's
   * sources, and its time step positive with the radiation step.
   */
  lemma PrepareTotal(p: Physics, cell: Cell, source: seq<real>, dtRadiation: real, stage: int)
    requires |source| == |cell.erad| && p.chat != 0.0
    requires EintFromEgas(cell.rho, cell.mom.x, cell.mom.y, cell.mom.z, cell.egas).Some?
    ensures var su := Prepare(p, cell, source, dtRadiation, stage);
            SetupTotal(p, cell, su) && su.src == Sources(p, source, StageStep(dtRadiation, stage))
            && su.dt == StageStep(dtRadiation, stage) && (dtRadiation > 0.0 ==> su.dt > 0.0)
  {
    if dtRadiation > 0.0 {
      MulPos(1.0 - Hyperbolic.IMEX_a32, dtRadiation);
    }
  }

  /** The conditions the outer iteration relies on: sizes, a non-zero density and a non-zero Etot0. */
  ghost predicate SetupFits(p: Physics, cell: Cell, su: Setup)
  {
    PhysicsFits(p, |cell.erad|) && CellFits(cell, |cell.erad|) && |su.src| == |cell.erad|
    && cell.rho != 0.0 && su.etot0 != 0.0
  }

  predicate AllPositive(v: seq<real>)
  {
    forall g :: 0 <= g < |v| ==> v[g] > 0.0
  }

  /**
   * The source's assertions min(Erad0) > 0, min(Src) >= 0 and Egas0 > 0 make
   * the total energy Etot0 positive, and the setup fit the iteration.
   */
  lemma {:induction false} SetupPositive(p: Physics, cell: Cell, source: seq<real>, dtRadiation: real, stage: int)
    requires PhysicsFits(p, |cell.erad|) && CellFits(cell, |cell.erad|) && |source| == |cell.erad|
    requires EintFromEgas(cell.rho, cell.mom.x, cell.mom.y, cell.mom.z, cell.egas).Some?
    requires AllPositive(cell.erad) && AllNonNegative(Sources(p, source, StageStep(dtRadiation, stage)))
    ensures Prepare(p, cell, source, dtRadiation, stage).etot0 > 0.0
    ensures SetupFits(p, cell, Prepare(p, cell, source, dtRadiation, stage))
  {
    var su := Prepare(p, cell, source, dtRadiation, stage);
    SumPositive(cell.erad);
    SumNonNegative(su.src);
    QuotientPositive(p.c, p.chat);
    MulPos(p.c / p.chat, Sum(cell.erad) + Sum(su.src));
  }

  /** A non-empty sum of positive entries is positive. */
  lemma {:induction false} SumPositive(v: seq<real>)
    requires |v| > 0 && AllPositive(v)
    ensures Sum(v) > 0.0
  {
    SumLast(v);
    if |v| > 1 {
      SumPositive(v[..|v| - 1]);
    } else {
      assert Sum(v[..0]) == 0.0;
    }
  }

  /** tau0 floored at 1: it only scales the base variable D. */
  function FloorOne(x: real): (r: real)
    ensures r >= 1.0 && (x > 1.0 ==> r == x)
  {
    if x <= 1.0 then 1.0 else x
  }

  function Floored(v: seq<real>): (r: seq<real>)
    ensures |r| == |v|
  {
    seq(|v|, g requires 0 <= g < |v| => FloorOne(v[g]))
  }

  predicate AllNonZero(v: seq<real>)
  {
    forall g :: 0 <= g < |v| ==> v[g] != 0.0
  }

  predicate AllNonNegative(v: seq<real>)
  {
    forall g :: 0 <= g < |v| ==> v[g] >= 0.0
  }

  /** The work term v.F (2 kappa_E - kappa_F) chat / c^2 dt of the old state, computed in the first outer iteration. */
  function InitialWork(p: Physics, mom: Vec3, flux: seq<Vec3>, kE: seq<real>, kF: seq<real>, dt: real): (w: seq<real>)
    requires |kE| == |flux| && |kF| == |flux| && p.c != 0.0
    ensures |w| == |flux|
  {
    seq(|flux|, g requires 0 <= g < |flux| => Dot(mom, flux[g]) * (2.0 * kE[g] - kF[g]) * (p.chat / (p.c * p.c) * dt))
  }

  /** The explicit source estimate R_g = (B_g - E0_g / kappaPoverE_g) tau0_g + work_g. */
  function InitialSource(thermal: seq<real>, erad0: seq<real>, ratio: seq<real>, tau0: seq<real>, work: seq<real>): (r: seq<real>)
    requires |erad0| == |thermal| && |ratio| == |thermal| && |tau0| == |thermal| && |work| == |thermal|
    requires AllNonZero(ratio)
    ensures |r| == |thermal|
  {
    seq(|thermal|, g requires 0 <= g < |thermal| => (thermal[g] - erad0[g] / ratio[g]) * tau0[g] + work[g])
  }

  /** The Newton iteration's starting point: its context, D = R / tau0, and the explicit estimate R. */
  datatype NewtonStart = NewtonStart(ctx: NewtonContext, d0: seq<real>, rvec0: seq<real>)

  /** The first part of outer iteration ite: opacities at Egas0, the work term, tau0, R and D. */
  function PassStart(p: Physics, cell: Cell, su: Setup, work: seq<real>, ite: nat): (r: Result<NewtonStart, SourceError>)
    requires SetupFits(p, cell, su) && |work| == |cell.erad|
    ensures r.Ok? ==> ContextFits(r.value.ctx, |cell.erad|) && |r.value.d0| == |cell.erad| && |r.value.rvec0| == |cell.erad|
                      && r.value.ctx.erad0 == cell.erad && r.value.ctx.etot0 == su.etot0
                      && r.value.ctx.egas0 == su.egas0 && r.value.ctx.src == su.src
                      && r.value.ctx.rho == cell.rho && r.value.ctx.dt == su.dt
  {
    var n := |cell.erad|;
    var t := Temperature(p, cell.rho, su.egas0);
    if t.None? then Err(NotANumber)
    else if t.value < 0.0 then Err(NegativeTemperature)
    else
      var thermal := Thermal(p, t.value);
      if thermal.None? then Err(NotANumber)
      else
        var kP := Opacities(p.kappaP, cell.rho, t.value, n);
        var kE := Opacities(p.kappaE, cell.rho, t.value, n);
        var kF := Opacities(p.kappaF, cell.rho, t.value, n);
        var ratio := KappaRatios(kP, kE);
        var w := if ite == 0 then InitialWork(p, cell.mom, cell.flux, kE, kF, su.dt) else work;
        if !AllNonZero(ratio) then Err(NotANumber)
        else Ok(Launch(cell, su, thermal.value, ratio, Elementwise(cell.rho, su.dt, p.chat, kP), w))
  }

  /** The Newton start from the explicit estimate R with the raw optical depths tauRaw = dt rho kappa_P chat. */
  function Launch(cell: Cell, su: Setup, thermal: seq<real>, ratio: seq<real>, tauRaw: seq<real>, work: seq<real>)
    : (st: NewtonStart)
    requires |thermal| == |cell.erad| && |ratio| == |cell.erad| && |tauRaw| == |cell.erad| && |work| == |cell.erad|
    requires |su.src| == |cell.erad| && su.etot0 != 0.0 && AllNonZero(ratio)
    ensures ContextFits(st.ctx, |cell.erad|) && |st.d0| == |cell.erad| && |st.rvec0| == |cell.erad|
    ensures st.ctx.erad0 == cell.erad && st.ctx.etot0 == su.etot0 && st.ctx.egas0 == su.egas0 && st.ctx.src == su.src
    ensures st.ctx.rho == cell.rho && st.ctx.dt == su.dt
  {
    var n := |cell.erad|;
    var rvec := InitialSource(thermal, cell.erad, ratio, tauRaw, work);
    var tau0 := Floored(tauRaw);
    var d := seq(n, g requires 0 <= g < n => rvec[g] / FloorOne(tauRaw[g]));
    NewtonStart(NewtonContext(cell.rho, su.dt, su.egas0, su.etot0, cell.erad, su.src, tau0, work), d, rvec)
  }

  /**
   * The thermal, kappa_F - kappa_E and radiation-pressure parts of the
   * velocity-dependent term for flux component n.
   */
  function VelocityTerm(p: Physics, dt: real, mom: Vec3, tensor: Mat3, erad: real,
                        kP: real, kE: real, kF: real, thermal: real, n: nat): real
    requires n < 3
  {
    var emission := kP * thermal + (if kF != kE then (kF - kE) * erad else 0.0);
    var pressure := Component(mom, 0) * tensor[n][0] * erad + Component(mom, 1) * tensor[n][1] * erad
                    + Component(mom, 2) * tensor[n][2] * erad;
    emission * (p.chat * dt * Component(mom, n)) + pressure * (p.chat * dt * kF)
  }

  /** F_coeff = chat rho kappa_F dt, the optical depth of the flux over the step. */
  function FluxCoefficient(p: Physics, rho: real, kF: real, dt: real): real
  {
    p.chat * rho * kF * dt
  }

  /** The Eddington tensor of the reduced flux F0 / (c E). */
  function FluxTensor(p: Physics, f0: Vec3, erad: real): Mat3
    requires SqrtLaw(p.sqrt) && p.c * erad != 0.0
  {
    EddingtonTensor(p.sqrt, f0.x / (p.c * erad), f0.y / (p.c * erad), f0.z / (p.c * erad))
  }

  /** The three velocity terms. */
  function VelocityTerms(p: Physics, dt: real, mom: Vec3, tensor: Mat3, erad: real,
                         kP: real, kE: real, kF: real, thermal: real): (v: Vec3)
  {
    Vec3(VelocityTerm(p, dt, mom, tensor, erad, kP, kE, kF, thermal, 0),
         VelocityTerm(p, dt, mom, tensor, erad, kP, kE, kF, thermal, 1),
         VelocityTerm(p, dt, mom, tensor, erad, kP, kE, kF, thermal, 2))
  }

  /** The backward-Euler update (F0 + v) / denom. */
  function Implicit(f0: Vec3, v: Vec3, denom: real): (f1: Vec3)
    requires denom != 0.0
    ensures forall n :: 0 <= n < 3 ==> denom * Component(f1, n) == Component(f0, n) + Component(v, n)
  {
    DivCancel(f0.x + v.x, denom);
    DivCancel(f0.y + v.y, denom);
    DivCancel(f0.z + v.z, denom);
    Vec3((f0.x + v.x) / denom, (f0.y + v.y) / denom, (f0.z + v.z) / denom)
  }

  /**
   * The implicit flux update of one group: F1 = (F0 + v_term) / (1 + F_coeff),
   * with the Eddington tensor of the reduced flux F0 / (c E). None where the
   * source divides by zero.
   */
  function FluxUpdate(p: Physics, rho: real, dt: real, mom: Vec3, f0: Vec3, erad: real,
                      kP: real, kE: real, kF: real, thermal: real): (r: Option<Vec3>)
    requires SqrtLaw(p.sqrt)
    ensures r.Some? <==> p.c * erad != 0.0 && 1.0 + FluxCoefficient(p, rho, kF, dt) != 0.0
  {
    if p.c * erad == 0.0 then None
    else
      var denom := 1.0 + FluxCoefficient(p, rho, kF, dt);
      if denom == 0.0 then None
      else Some(Implicit(f0, VelocityTerms(p, dt, mom, FluxTensor(p, f0, erad), erad, kP, kE, kF, thermal), denom))
  }

  /** The flux update of every group; None if any group's is undefined. */
  function FluxUpdates(p: Physics, rho: real, dt: real, mom: Vec3, flux: seq<Vec3>, erad: seq<real>,
                       kP: seq<real>, kE: seq<real>, kF: seq<real>, thermal: seq<real>): (r: Option<seq<Vec3>>)
    requires SqrtLaw(p.sqrt)
    requires |erad| == |flux| && |kP| == |flux| && |kE| == |flux| && |kF| == |flux| && |thermal| == |flux|
    ensures r.Some? ==> |r.value| == |flux|
  {
    if forall g :: 0 <= g < |flux| ==> FluxUpdate(p, rho, dt, mom, flux[g], erad[g], kP[g], kE[g], kF[g], thermal[g]).Some?
    then Some(seq(|flux|, g requires 0 <= g < |flux| =>
                     FluxUpdate(p, rho, dt, mom, flux[g], erad[g], kP[g], kE[g], kF[g], thermal[g]).value))
    else None
  }

  /** The per-group contributions -(F1 - F0) / (c chat) to component d of the gas momentum. */
  function Drag(p: Physics, flux0: seq<Vec3>, flux1: seq<Vec3>, d: nat): (r: seq<real>)
    requires |flux1| == |flux0| && d < 3 && p.c * p.chat != 0.0
    ensures |r| == |flux0|
  {
    seq(|flux0|, g requires 0 <= g < |flux0| => -(Component(flux1[g], d) - Component(flux0[g], d)) / (p.c * p.chat))
  }

  /** dMomentum: the gas momentum change the flux update implies, summed over groups. */
  function MomentumChange(p: Physics, flux0: seq<Vec3>, flux1: seq<Vec3>): Vec3
    requires |flux1| == |flux0| && p.c * p.chat != 0.0
  {
    Vec3(Sum(Drag(p, flux0, flux1, 0)), Sum(Drag(p, flux0, flux1, 1)), Sum(Drag(p, flux0, flux1, 2)))
  }

  /** The lagged work term of the updated state: v1.F1 chat / c^2 (2 kappa_E - kappa_F) dt. */
  function UpdatedWork(p: Physics, mom: Vec3, flux: seq<Vec3>, kE: seq<real>, kF: seq<real>, dt: real): (w: seq<real>)
    requires |kE| == |flux| && |kF| == |flux| && p.c != 0.0
    ensures |w| == |flux|
  {
    seq(|flux|, g requires 0 <= g < |flux| => Dot(mom, flux[g]) * p.chat / (p.c * p.c) * (2.0 * kE[g] - kF[g]) * dt)
  }

  function Difference(a: seq<real>, b: seq<real>): (r: seq<real>)
    requires |b| == |a|
    ensures |r| == |a|
  {
    seq(|a|, g requires 0 <= g < |a| => a[g] - b[g])
  }

  /** The convergence test of the lagged work term. */
  predicate WorkSettled(p: Physics, etot0: real, work: seq<real>, workPrev: seq<real>, rvec: seq<real>)
    requires |workPrev| == |work| && etot0 != 0.0 && p.chat != 0.0
  {
    var change := Sum(Magnitudes(Difference(work, workPrev)));
    Sum(Magnitudes(work)) == 0.0 || (p.c / p.chat) * change / etot0 < LagTolerance || change <= LagTolerance * Sum(rvec)
  }

  /** Everything one outer iteration produces. */
  datatype Pass = Pass(ctx: NewtonContext, newton: NewtonExit, egas: real, erad: seq<real>, flux: seq<Vec3>,
                       dMom: Vec3, mom: Vec3, work: seq<real>, settled: bool)

  predicate PassFits(x: Pass, n: nat)
  {
    |x.erad| == n && |x.flux| == n && |x.work| == n
  }

  /** The kinetic energy |p|^2 / (2 rho) of momentum m. */
  function Kinetic(rho: real, m: Vec3): real
    requires rho != 0.0
  {
    KineticEnergy(rho, m.x, m.y, m.z).value
  }

  /**
   * The rest of outer iteration ite after the Newton solve: the source's
   * always-on positivity assertions, the flux update at the new temperature,
   * the momentum update, the removal of the kinetic-energy change from the
   * internal energy, and the new work term with its convergence test.
   */
  function PassFinish(p: Physics, cell: Cell, su: Setup, ctx: NewtonContext, x: NewtonExit): (r: Result<Pass, SourceError>)
    requires SetupFits(p, cell, su) && ContextFits(ctx, |cell.erad|) && StateFits(x.state, |cell.erad|)
    requires EvaluationFits(x.eval, |cell.erad|)
    ensures r.Ok? ==> PassFits(r.value, |cell.erad|) && x.state.egas > 0.0 && AllNonNegative(x.eval.erad)
    ensures r.Ok? ==> r.value.ctx == ctx && r.value.newton == x && r.value.erad == x.eval.erad
    ensures r == Err(NotPositive) <==> !(x.state.egas > 0.0 && AllNonNegative(x.eval.erad))
    ensures r.Ok? ==> PassLaws(p, cell, su, r.value)
  {
    var n := |cell.erad|;
    var egas := x.state.egas;
    if !(egas > 0.0) || !AllNonNegative(x.eval.erad) then Err(NotPositive)
    else
      var t := Temperature(p, cell.rho, egas);
      if t.None? then Err(NotANumber)
      else
        var thermal := Thermal(p, t.value);
        if thermal.None? then Err(NotANumber)
        else
          var kP := Opacities(p.kappaP, cell.rho, t.value, n);
          var kE := Opacities(p.kappaE, cell.rho, t.value, n);
          var kF := Opacities(p.kappaF, cell.rho, t.value, n);
          var flux := FluxUpdates(p, cell.rho, su.dt, cell.mom, cell.flux, x.eval.erad, kP, kE, kF, thermal.value);
          if flux.None? then Err(NotANumber)
          else
            ConcludeLaws(p, cell, su, ctx, x, flux.value, kE, kF);
            Ok(Conclude(p, cell, su, ctx, x, flux.value, kE, kF))
  }

  /**
   * The end of an outer iteration once the new fluxes are known: the
   * momentum update, the removal of the kinetic-energy change from the
   * internal energy, and the new work term with its convergence test.
   */
  function Conclude(p: Physics, cell: Cell, su: Setup, ctx: NewtonContext, x: NewtonExit,
                    flux: seq<Vec3>, kE: seq<real>, kF: seq<real>): (pass: Pass)
    requires SetupFits(p, cell, su) && ContextFits(ctx, |cell.erad|) && StateFits(x.state, |cell.erad|)
    requires EvaluationFits(x.eval, |cell.erad|) && |flux| == |cell.erad| && |kE| == |cell.erad| && |kF| == |cell.erad|
    ensures PassFits(pass, |cell.erad|) && pass.ctx == ctx && pass.newton == x && pass.erad == x.eval.erad
    ensures pass.flux == flux
  {
    LightSpeedProducts(p);
    var egas := x.state.egas;
    var dMom := MomentumChange(p, cell.flux, flux);
    var mom := Add(cell.mom, dMom);
    var ekin0 := cell.egas - su.egas0;
    var ekin1 := EgasFromEint(cell.rho, mom.x, mom.y, mom.z, egas).value - egas;
    var work := UpdatedWork(p, mom, flux, kE, kF, su.dt);
    Pass(ctx, x, egas - (ekin1 - ekin0), x.eval.erad, flux, dMom, mom, work,
         WorkSettled(p, su.etot0, work, ctx.work, x.eval.rvec))
  }

  /**
   * What an outer iteration hands on: the gas momentum is the old one plus
   * the change that conserves the total momentum, and the internal energy
   * gives up exactly the kinetic energy the gas gains, so the gas total
   * energy at the new momentum is Egas_guess plus the old kinetic energy
   * Ekin0 = Egastot0 - Egas0.
   */
  lemma ConcludeLaws(p: Physics, cell: Cell, su: Setup, ctx: NewtonContext, x: NewtonExit,
                     flux: seq<Vec3>, kE: seq<real>, kF: seq<real>)
    requires SetupFits(p, cell, su) && ContextFits(ctx, |cell.erad|) && StateFits(x.state, |cell.erad|)
    requires EvaluationFits(x.eval, |cell.erad|) && |flux| == |cell.erad| && |kE| == |cell.erad| && |kF| == |cell.erad|
    ensures var pass := Conclude(p, cell, su, ctx, x, flux, kE, kF);
            PassLaws(p, cell, su, pass) && pass.work == UpdatedWork(p, pass.mom, flux, kE, kF, su.dt)
  {
    LightSpeedProducts(p);
    MomentumConserved(p, cell.mom, cell.flux, flux);
  }

  /**
   * The momentum and energy bookkeeping of a pass: the gas momentum changes
   * by dMom, gas plus radiation momentum is unchanged, and the gas total
   * energy at the new momentum is Egas_guess plus Ekin0.
   */
  ghost predicate PassLaws(p: Physics, cell: Cell, su: Setup, pass: Pass)
  {
    PhysicsFits(p, |cell.erad|) && p.c * p.chat != 0.0 && cell.rho != 0.0 && |pass.flux| == |cell.flux|
    && pass.mom == Add(cell.mom, pass.dMom)
    && MomentumKept(p, cell.mom, cell.flux, pass.mom, pass.flux)
    && pass.egas + Kinetic(cell.rho, pass.mom) == pass.newton.state.egas + (cell.egas - su.egas0)
  }

  lemma LightSpeedProducts(p: Physics)
    requires p.c > 0.0 && p.chat > 0.0
    ensures p.c * p.chat > 0.0 && p.c * p.c > 0.0
  {
    MulPos(p.c, p.chat);
    MulPos(p.c, p.c);
  }

  /**
   * The first Newton state recovers the explicit estimate: tau0 D0 = R for
   * every group, with tau0 the optical depth floored at 1.
   */
  lemma InitialStateRecovers(cell: Cell, su: Setup, thermal: seq<real>, ratio: seq<real>, tauRaw: seq<real>, work: seq<real>)
    requires |thermal| == |cell.erad| && |ratio| == |cell.erad| && |tauRaw| == |cell.erad| && |work| == |cell.erad|
    requires |su.src| == |cell.erad| && su.etot0 != 0.0 && AllNonZero(ratio)
    ensures var st := Launch(cell, su, thermal, ratio, tauRaw, work);
            Times(st.ctx.tau0, st.d0) == st.rvec0
            && (forall g :: 0 <= g < |cell.erad| ==> st.ctx.tau0[g] >= 1.0)
            && (forall g :: 0 <= g < |cell.erad| ==>
                  st.rvec0[g] == (thermal[g] - cell.erad[g] / ratio[g]) * tauRaw[g] + work[g])
  {
    var st := Launch(cell, su, thermal, ratio, tauRaw, work);
    var t := Times(st.ctx.tau0, st.d0);
    forall g | 0 <= g < |cell.erad|
      ensures t[g] == st.rvec0[g]
    {
      DivCancel(st.rvec0[g], st.ctx.tau0[g]);
    }
  }

  // ---------------------------------------------------------------------
  // The flux update.
  // ---------------------------------------------------------------------

  /** In a gas at rest the velocity terms vanish. */
  lemma VelocityTermsAtRest(p: Physics, dt: real, tensor: Mat3, erad: real, kP: real, kE: real, kF: real, thermal: real)
    ensures VelocityTerms(p, dt, Vec3(0.0, 0.0, 0.0), tensor, erad, kP, kE, kF, thermal) == Vec3(0.0, 0.0, 0.0)
  {
    var emission := kP * thermal + (if kF != kE then (kF - kE) * erad else 0.0);
    assert emission * (p.chat * dt * 0.0) == 0.0;
    forall n | 0 <= n < 3
      ensures VelocityTerm(p, dt, Vec3(0.0, 0.0, 0.0), tensor, erad, kP, kE, kF, thermal, n) == 0.0
    {
      assert 0.0 * tensor[n][0] * erad == 0.0 && 0.0 * tensor[n][1] * erad == 0.0 && 0.0 * tensor[n][2] * erad == 0.0;
    }
  }

  /**
   * Without velocity terms the update only absorbs: with denominator
   * 1 + F_coeff >= 1 no flux component grows, and none changes sign.
   */
  lemma AbsorptionOnly(f0: Vec3, denom: real)
    requires denom >= 1.0
    ensures var f1 := Implicit(f0, Vec3(0.0, 0.0, 0.0), denom);
            forall n :: 0 <= n < 3 ==>
              Abs(Component(f1, n)) <= Abs(Component(f0, n)) && (Component(f0, n) >= 0.0 <==> Component(f1, n) >= 0.0)
  {
    var f1 := Implicit(f0, Vec3(0.0, 0.0, 0.0), denom);
    forall n | 0 <= n < 3
      ensures Abs(Component(f1, n)) <= Abs(Component(f0, n)) && (Component(f0, n) >= 0.0 <==> Component(f1, n) >= 0.0)
    {
      assert denom * Component(f1, n) == Component(f0, n);
      AbsorbedShrinks(denom, Component(f1, n), Component(f0, n));
    }
  }

  /** In a gas at rest the flux update is F1 = F0 / (1 + F_coeff). */
  lemma FluxAtRest(p: Physics, rho: real, dt: real, f0: Vec3, erad: real, kP: real, kE: real, kF: real, thermal: real)
    requires SqrtLaw(p.sqrt)
    requires FluxUpdate(p, rho, dt, Vec3(0.0, 0.0, 0.0), f0, erad, kP, kE, kF, thermal).Some?
    ensures FluxUpdate(p, rho, dt, Vec3(0.0, 0.0, 0.0), f0, erad, kP, kE, kF, thermal).value
            == Implicit(f0, Vec3(0.0, 0.0, 0.0), 1.0 + FluxCoefficient(p, rho, kF, dt))
  {
    VelocityTermsAtRest(p, dt, FluxTensor(p, f0, erad), erad, kP, kE, kF, thermal);
  }

  lemma AbsorbedShrinks(coeff: real, y: real, x: real)
    requires coeff >= 1.0 && coeff * y == x
    ensures Abs(y) <= Abs(x) && (x >= 0.0 <==> y >= 0.0)
  {
    if y >= 0.0 {
      assert (coeff - 1.0) * y >= 0.0;
    } else {
      assert (coeff - 1.0) * (-y) >= 0.0;
    }
  }

  /** The radiation momentum density of component d, sum F_d / (c chat). */
  function RadiationMomentum(p: Physics, flux: seq<Vec3>, d: nat): real
    requires d < 3 && p.c * p.chat != 0.0
  {
    Sum(Components(flux, d)) / (p.c * p.chat)
  }

  /** Component d of every group's flux. */
  function Components(flux: seq<Vec3>, d: nat): (r: seq<real>)
    requires d < 3
    ensures |r| == |flux|
  {
    seq(|flux|, g requires 0 <= g < |flux| => Component(flux[g], d))
  }

  /**
   * Gas momentum mom0 with fluxes flux0 and gas momentum mom1 with fluxes
   * flux1 carry the same total momentum, component by component.
   */
  predicate MomentumKept(p: Physics, mom0: Vec3, flux0: seq<Vec3>, mom1: Vec3, flux1: seq<Vec3>)
    requires p.c * p.chat != 0.0
  {
    forall d :: 0 <= d < 3 ==>
      Component(mom1, d) + RadiationMomentum(p, flux1, d) == Component(mom0, d) + RadiationMomentum(p, flux0, d)
  }

  /**
   * The momentum update conserves the total momentum: gas momentum plus
   * radiation momentum sum F / (c chat) is the same before and after, component by component.
   */
  lemma MomentumConserved(p: Physics, mom: Vec3, flux0: seq<Vec3>, flux1: seq<Vec3>)
    requires |flux1| == |flux0| && p.c * p.chat != 0.0
    ensures MomentumKept(p, mom, flux0, Add(mom, MomentumChange(p, flux0, flux1)), flux1)
  {
    forall d | 0 <= d < 3
      ensures Sum(Drag(p, flux0, flux1, d)) == RadiationMomentum(p, flux0, d) - RadiationMomentum(p, flux1, d)
    {
      DragSum(p, flux0, flux1, d);
    }
  }

  lemma DragSum(p: Physics, flux0: seq<Vec3>, flux1: seq<Vec3>, d: nat)
    requires |flux1| == |flux0| && d < 3 && p.c * p.chat != 0.0
    ensures Sum(Drag(p, flux0, flux1, d)) == RadiationMomentum(p, flux0, d) - RadiationMomentum(p, flux1, d)
  {
    var a := Components(flux0, d);
    var b := Components(flux1, d);
    var m := p.c * p.chat;
    DragQuotients(p, flux0, flux1, d);
    SumQuotients(Difference(a, b), m);
    SumSubtract(a, b, Difference(a, b));
    SubtractQuotients(Sum(a), Sum(b), Sum(Difference(a, b)), m);
  }

  /** The drag entries are the flux decrements over c chat. */
  lemma DragQuotients(p: Physics, flux0: seq<Vec3>, flux1: seq<Vec3>, d: nat)
    requires |flux1| == |flux0| && d < 3 && p.c * p.chat != 0.0
    ensures Drag(p, flux0, flux1, d) == Quotients(Difference(Components(flux0, d), Components(flux1, d)), p.c * p.chat)
  {
    var a := Components(flux0, d);
    var b := Components(flux1, d);
    forall g | 0 <= g < |flux0|
      ensures Drag(p, flux0, flux1, d)[g] == Quotients(Difference(a, b), p.c * p.chat)[g]
    {
      NegatedQuotient(a[g], b[g], p.c * p.chat);
    }
  }

  lemma NegatedQuotient(u: real, v: real, m: real)
    requires m != 0.0
    ensures -(v - u) / m == (u - v) / m
  {
  }

  // ---------------------------------------------------------------------
  // The outer loop of at most MaxOuterIterations passes, and the cell update.
  // ---------------------------------------------------------------------

  /** What one outer iteration hands to the next: EradVec_guess and the lagged work term. */
  datatype OuterState = OuterState(erad: seq<real>, work: seq<real>)

  predicate OuterFits(st: OuterState, n: nat)
  {
    |st.erad| == n && |st.work| == n
  }

  /**
   * A pass that ends the outer loop: its work term settled, its Newton
   * solve converged for the cell's initial energies and sources, Egas_guess
   * is positive and no radiation energy is negative.
   */
  ghost predicate Settles(p: Physics, cell: Cell, su: Setup, pass: Pass)
  {
    var n := |cell.erad|;
    var x := pass.newton;
    SetupFits(p, cell, su) && pass.settled && PassFits(pass, n) && ContextFits(pass.ctx, n) && StateFits(x.state, n)
    && pass.ctx.erad0 == cell.erad && pass.ctx.etot0 == su.etot0 && pass.ctx.egas0 == su.egas0
    && pass.ctx.src == su.src && pass.ctx.rho == cell.rho && pass.ctx.dt == su.dt
    && Evaluates(p, pass.ctx, x.state, x.eval) && Converged(p, pass.ctx, x.eval)
    && x.state.egas > 0.0 && AllNonNegative(pass.erad) && pass.erad == x.eval.erad
    && PassLaws(p, cell, su, pass)
  }

  type OuterOutcome = Outcome<OuterState, Pass, SourceError>

  /**
   * Outer iteration ite: the Newton solve starts from Egas0, D = R / tau0
   * and the radiation energies the previous iteration left; the loop ends
   * when the work term has settled.
   */
  function OuterIteration(p: Physics, cell: Cell, su: Setup, st: OuterState, ite: nat): (o: OuterOutcome)
    requires SetupFits(p, cell, su) && OuterFits(st, |cell.erad|)
    ensures o.Next? ==> OuterFits(o.state, |cell.erad|)
  {
    var start := PassStart(p, cell, su, st.work, ite);
    if start.Err? then Failed(start.error)
    else
      var ctx := start.value.ctx;
      var x := NewtonLoop(p, ctx, NewtonState(su.egas0, start.value.d0, st.erad));
      if x.Err? then Failed(x.error)
      else
        NewtonExitConverged(p, ctx, NewtonState(su.egas0, start.value.d0, st.erad));
        var pass := PassFinish(p, cell, su, ctx, x.value);
        if pass.Err? then Failed(pass.error)
        else if pass.value.settled then Done(pass.value)
        else Next(OuterState(pass.value.erad, pass.value.work))
  }

  /** OuterIteration as a function of the state and the iteration number (states of the wrong size fail). */
  function OuterIterationAt(p: Physics, cell: Cell, su: Setup): (f: (OuterState, nat) -> OuterOutcome)
    requires SetupFits(p, cell, su)
  {
    (st: OuterState, ite: nat) =>
      if OuterFits(st, |cell.erad|) then OuterIteration(p, cell, su, st, ite) else Failed(NotANumber)
  }

  /** The first outer state: EradVec_guess = Erad0 and a zero work term. */
  function OuterStart(cell: Cell): (st: OuterState)
    ensures OuterFits(st, |cell.erad|) && st.erad == cell.erad
    ensures forall g :: 0 <= g < |st.work| ==> st.work[g] == 0.0
  {
    OuterState(cell.erad, seq(|cell.erad|, g => 0.0))
  }

  /** The outer loop: at most MaxOuterIterations passes; running out is the fatal IterationDiverged. */
  function OuterLoop(p: Physics, cell: Cell, su: Setup): Result<Pass, SourceError>
    requires SetupFits(p, cell, su)
  {
    Drive(OuterIterationAt(p, cell, su), OuterStart(cell), 0, MaxOuterIterations, IterationDiverged)
  }

  /** One outer iteration, with the Newton loop run by NewtonSolve. */
  method OuterPass(p: Physics, cell: Cell, su: Setup, st: OuterState, ite: nat) returns (o: OuterOutcome)
    requires SetupFits(p, cell, su) && OuterFits(st, |cell.erad|)
    ensures o == OuterIteration(p, cell, su, st, ite)
  {
    var start := PassStart(p, cell, su, st.work, ite);
    if start.Err? {
      return Failed(start.error);
    }
    var ctx := start.value.ctx;
    var x := NewtonSolve(p, ctx, NewtonState(su.egas0, start.value.d0, st.erad));
    if x.Err? {
      return Failed(x.error);
    }
    NewtonExitConverged(p, ctx, NewtonState(su.egas0, start.value.d0, st.erad));
    var pass := PassFinish(p, cell, su, ctx, x.value);
    if pass.Err? {
      o := Failed(pass.error);
    } else if pass.value.settled {
      o := Done(pass.value);
    } else {
      o := Next(OuterState(pass.value.erad, pass.value.work));
    }
  }

  /** The source's full-step loop: outer iterations until the work term settles, at most MaxOuterIterations. */
  method OuterSolve(p: Physics, cell: Cell, su: Setup) returns (r: Result<Pass, SourceError>)
    requires SetupFits(p, cell, su)
    ensures r == OuterLoop(p, cell, su)
  {
    var f := OuterIterationAt(p, cell, su);
    var st := OuterStart(cell);
    var ite: nat := 0;
    while ite < MaxOuterIterations
      invariant ite <= MaxOuterIterations && OuterFits(st, |cell.erad|)
      invariant Drive(f, st, ite, MaxOuterIterations, IterationDiverged) == OuterLoop(p, cell, su)
      decreases MaxOuterIterations - ite
    {
      var o := OuterPass(p, cell, su, st, ite);
      match o {
        case Done(pass) => return Ok(pass);
        case Failed(e) => return Err(e);
        case Next(next) => st := next;
      }
      ite := ite + 1;
    }
    r := Err(IterationDiverged);
  }

  /**
   * When the outer loop succeeds, it stopped at an iteration before
   * MaxOuterIterations whose work term settled, after a Newton solve that
   * converged, with Egas_guess > 0 and no negative radiation energy.
   */
  lemma OuterExitSettled(p: Physics, cell: Cell, su: Setup)
    requires SetupFits(p, cell, su) && OuterLoop(p, cell, su).Ok?
    ensures Settles(p, cell, su, OuterLoop(p, cell, su).value)
  {
    var f := OuterIterationAt(p, cell, su);
    var good := (pass: Pass) => Settles(p, cell, su, pass);
    forall t: OuterState, j: nat | f(t, j).Done?
      ensures good(f(t, j).exit)
    {
      OuterDoneSettles(p, cell, su, t, j, f(t, j).exit);
    }
    ResultSatisfies(f, OuterStart(cell), 0, MaxOuterIterations, IterationDiverged, good);
  }

  lemma OuterDoneSettles(p: Physics, cell: Cell, su: Setup, st: OuterState, ite: nat, pass: Pass)
    requires SetupFits(p, cell, su) && OuterIterationAt(p, cell, su)(st, ite) == Done(pass)
    ensures Settles(p, cell, su, pass)
  {
    assert OuterFits(st, |cell.erad|);
    var start := PassStart(p, cell, su, st.work, ite).value;
    var s0 := NewtonState(su.egas0, start.d0, st.erad);
    NewtonExitConverged(p, start.ctx, s0);
    EvaluatesWhenOk(p, start.ctx, NewtonLoop(p, start.ctx, s0).value.state);
  }

  /** Outer iterations fail only with the errors of their parts, never with IterationDiverged. */
  lemma OuterIterationOwnErrors(p: Physics, cell: Cell, su: Setup)
    requires SetupFits(p, cell, su)
    ensures OwnErrors(OuterIterationAt(p, cell, su), IterationDiverged)
  {
    var f := OuterIterationAt(p, cell, su);
    forall t: OuterState, j: nat
      ensures f(t, j) != Failed(IterationDiverged)
    {
      if OuterFits(t, |cell.erad|) {
        OuterPassOwnErrors(p, cell, su, t, j);
      }
    }
  }

  lemma OuterPassOwnErrors(p: Physics, cell: Cell, su: Setup, st: OuterState, ite: nat)
    requires SetupFits(p, cell, su) && OuterFits(st, |cell.erad|)
    ensures OuterIteration(p, cell, su, st, ite) != Failed(IterationDiverged)
  {
    var start := PassStart(p, cell, su, st.work, ite);
    if start.Ok? {
      NewtonLoopErrors(p, start.value.ctx, NewtonState(su.egas0, start.value.d0, st.erad));
    }
  }

  /**
   * The fatal "AddSourceTerms iteration failed to converge!" happens exactly
   * when each of the MaxOuterIterations outer iterations succeeds without
   * its work term settling.
   */
  lemma OuterDivergesIffNeverSettles(p: Physics, cell: Cell, su: Setup)
    requires SetupFits(p, cell, su)
    ensures OuterLoop(p, cell, su) == Err(IterationDiverged)
            <==> MovesOn(OuterIterationAt(p, cell, su), OuterStart(cell), 0, MaxOuterIterations)
  {
    OuterIterationOwnErrors(p, cell, su);
    GivesUpIffAlwaysMovesOn(OuterIterationAt(p, cell, su), OuterStart(cell), 0, MaxOuterIterations, IterationDiverged);
  }

  /**
   * Step 4b: the new conserved state of the cell. The gas receives the
   * fraction factor of the momentum change and of the internal-energy
   * change, its total energy follows from the new internal energy and
   * momentum, and the radiation energies and fluxes of the last pass are
   * stored whole.
   */
  function Store(cell: Cell, su: Setup, pass: Pass): (c: Cell)
    requires cell.rho != 0.0 && PassFits(pass, |cell.erad|)
    ensures CellFits(c, |cell.erad|) && c.rho == cell.rho && c.erad == pass.erad && c.flux == pass.flux
  {
    var mom := Add(cell.mom, Scale(su.factor, pass.dMom));
    var eint := su.egas0 + (pass.egas - su.egas0) * su.factor;
    Cell(cell.rho, mom, EgasFromEint(cell.rho, mom.x, mom.y, mom.z, eint).value, eint, pass.erad, pass.flux)
  }

  /**
   * The implicit source update of one cell in IMEX stage 1 or 2 over the
   * radiation time step dtRadiation, for the radiation energy source
   * density source. The source's debug assertions min(Erad0) > 0, Eint > 0
   * and min(Src) >= 0 are errors here.
   */
  function SourceUpdate(p: Physics, cell: Cell, source: seq<real>, dtRadiation: real, stage: int): (r: Result<Cell, SourceError>)
    requires PhysicsFits(p, |cell.erad|) && CellFits(cell, |cell.erad|) && |source| == |cell.erad|
    ensures r.Ok? ==> CellFits(r.value, |cell.erad|) && r.value.rho == cell.rho
    ensures r == Err(NotPositive) <== !AllPositive(cell.erad)
                                      || EintFromEgas(cell.rho, cell.mom.x, cell.mom.y, cell.mom.z, cell.egas).None?
                                      || !AllNonNegative(Sources(p, source, StageStep(dtRadiation, stage)))
  {
    if !AllPositive(cell.erad) then Err(NotPositive)
    else if EintFromEgas(cell.rho, cell.mom.x, cell.mom.y, cell.mom.z, cell.egas).None? then Err(NotPositive)
    else if !AllNonNegative(Sources(p, source, StageStep(dtRadiation, stage))) then Err(NotPositive)
    else
      SetupPositive(p, cell, source, dtRadiation, stage);
      var su := Prepare(p, cell, source, dtRadiation, stage);
      var pass := OuterLoop(p, cell, su);
      if pass.Err? then Err(pass.error)
      else
        OuterExitSettled(p, cell, su);
        Ok(Store(cell, su, pass.value))
  }

  /** AddSourceTerms for one cell: the checks, the outer loop run by OuterSolve, and the store. */
  method AddSourceTerms(p: Physics, cell: Cell, source: seq<real>, dtRadiation: real, stage: int)
    returns (r: Result<Cell, SourceError>)
    requires PhysicsFits(p, |cell.erad|) && CellFits(cell, |cell.erad|) && |source| == |cell.erad|
    ensures r == SourceUpdate(p, cell, source, dtRadiation, stage)
  {
    if !AllPositive(cell.erad) || EintFromEgas(cell.rho, cell.mom.x, cell.mom.y, cell.mom.z, cell.egas).None?
       || !AllNonNegative(Sources(p, source, StageStep(dtRadiation, stage))) {
      return Err(NotPositive);
    }
    SetupPositive(p, cell, source, dtRadiation, stage);
    var su := Prepare(p, cell, source, dtRadiation, stage);
    var pass := OuterSolve(p, cell, su);
    if pass.Err? {
      return Err(pass.error);
    }
    OuterExitSettled(p, cell, su);
    r := Ok(Store(cell, su, pass.value));
  }

  /** The pass a successful update stores, and the setup it was computed for. */
  lemma UpdateStores(p: Physics, cell: Cell, source: seq<real>, dtRadiation: real, stage: int)
    requires PhysicsFits(p, |cell.erad|) && CellFits(cell, |cell.erad|) && |source| == |cell.erad|
    requires SourceUpdate(p, cell, source, dtRadiation, stage).Ok?
    ensures AllPositive(cell.erad) && AllNonNegative(Sources(p, source, StageStep(dtRadiation, stage)))
    ensures EintFromEgas(cell.rho, cell.mom.x, cell.mom.y, cell.mom.z, cell.egas).Some?
    ensures var su := Prepare(p, cell, source, dtRadiation, stage);
            SetupFits(p, cell, su) && su.etot0 > 0.0 && su.factor == GasUpdateFactor(stage) && OuterLoop(p, cell, su).Ok?
            && PassFits(OuterLoop(p, cell, su).value, |cell.erad|) && PassLaws(p, cell, su, OuterLoop(p, cell, su).value)
            && SourceUpdate(p, cell, source, dtRadiation, stage).value == Store(cell, su, OuterLoop(p, cell, su).value)
  {
    SetupPositive(p, cell, source, dtRadiation, stage);
    OuterExitSettled(p, cell, Prepare(p, cell, source, dtRadiation, stage));
  }

  /** The same update, with the pass it stores settled. */
  lemma UpdateSettles(p: Physics, cell: Cell, source: seq<real>, dtRadiation: real, stage: int)
    requires PhysicsFits(p, |cell.erad|) && CellFits(cell, |cell.erad|) && |source| == |cell.erad|
    requires SourceUpdate(p, cell, source, dtRadiation, stage).Ok?
    ensures var su := Prepare(p, cell, source, dtRadiation, stage);
            SetupFits(p, cell, su) && OuterLoop(p, cell, su).Ok? && Settles(p, cell, su, OuterLoop(p, cell, su).value)
  {
    UpdateStores(p, cell, source, dtRadiation, stage);
    OuterExitSettled(p, cell, Prepare(p, cell, source, dtRadiation, stage));
  }

  /**
   * In both stages the gas momentum changes by the stage's share of the
   * momentum the radiation gives up: all of it in stage 2, a32 of it in
   * stage 1.
   */
  lemma UpdateSharesMomentum(p: Physics, cell: Cell, source: seq<real>, dtRadiation: real, stage: int)
    requires PhysicsFits(p, |cell.erad|) && CellFits(cell, |cell.erad|) && |source| == |cell.erad|
    requires SourceUpdate(p, cell, source, dtRadiation, stage).Ok?
    ensures p.c * p.chat != 0.0
    ensures var c := SourceUpdate(p, cell, source, dtRadiation, stage).value;
            SharesMomentum(p, cell.mom, c.mom, cell.flux, c.flux, GasUpdateFactor(stage))
  {
    UpdateStores(p, cell, source, dtRadiation, stage);
    var su := Prepare(p, cell, source, dtRadiation, stage);
    StoreMomentum(p, cell, su, OuterLoop(p, cell, su).value);
  }

  /**
   * The gas momentum goes from mom0 to mom1 by f times the radiation
   * momentum lost as the fluxes go from flux0 to flux1, in every component.
   */
  predicate SharesMomentum(p: Physics, mom0: Vec3, mom1: Vec3, flux0: seq<Vec3>, flux1: seq<Vec3>, f: real)
    requires p.c * p.chat != 0.0
  {
    forall d :: 0 <= d < 3 ==>
      Component(mom1, d) - Component(mom0, d) == f * (RadiationMomentum(p, flux0, d) - RadiationMomentum(p, flux1, d))
  }

  lemma StoreMomentum(p: Physics, cell: Cell, su: Setup, pass: Pass)
    requires PassLaws(p, cell, su, pass) && PassFits(pass, |cell.erad|)
    ensures p.c * p.chat != 0.0 && cell.rho != 0.0
    ensures SharesMomentum(p, cell.mom, Store(cell, su, pass).mom, cell.flux, pass.flux, su.factor)
  {
    assert Store(cell, su, pass).mom == Add(cell.mom, Scale(su.factor, pass.dMom));
    KeptShares(p, cell.mom, cell.flux, pass.dMom, pass.flux, su.factor);
  }

  /** A change dMom that keeps the total momentum, applied with factor f, shares f of the radiation momentum lost. */
  lemma KeptShares(p: Physics, mom0: Vec3, flux0: seq<Vec3>, dMom: Vec3, flux1: seq<Vec3>, f: real)
    requires p.c * p.chat != 0.0 && MomentumKept(p, mom0, flux0, Add(mom0, dMom), flux1)
    ensures SharesMomentum(p, mom0, Add(mom0, Scale(f, dMom)), flux0, flux1, f)
  {
    var mom := Add(mom0, Scale(f, dMom));
    forall d | 0 <= d < 3
      ensures Component(mom, d) - Component(mom0, d)
              == f * (RadiationMomentum(p, flux0, d) - RadiationMomentum(p, flux1, d))
    {
      var m0 := Component(mom0, d);
      var dm := Component(dMom, d);
      assert Component(Add(mom0, dMom), d) == m0 + dm;
      ComponentShift(mom0, f, dMom, d);
      ShareOfChange(f, Component(mom, d), m0, dm, Component(Add(mom0, dMom), d),
                    RadiationMomentum(p, flux0, d), RadiationMomentum(p, flux1, d));
    }
  }

  lemma ComponentShift(a: Vec3, f: real, v: Vec3, d: nat)
    requires d < 3
    ensures Component(Add(a, Scale(f, v)), d) == Component(a, d) + f * Component(v, d)
  {
  }

  lemma ShareOfChange(f: real, c: real, m0: real, dm: real, m1: real, r0: real, r1: real)
    requires c == m0 + f * dm && m1 == m0 + dm && m1 + r1 == m0 + r0
    ensures c - m0 == f * (r0 - r1)
  {
    assert dm == r0 - r1;
  }

  /**
   * The cell conserves the total energy across the update: Egas + (c / chat)
   * sum E after it differs from the same before it plus the injected
   * energy (c / chat) sum Src by less than twice the residual tolerance
   * times Etot0.
   */
  predicate UpdateHeld(p: Physics, before: Cell, after: Cell, src: seq<real>, etot0: real)
    requires p.chat != 0.0
  {
    var k := p.c / p.chat;
    Abs(after.egas + k * Sum(after.erad) - (before.egas + k * (Sum(before.erad) + Sum(src))))
    < 2.0 * ResidualTolerance * etot0
  }

  /**
   * Stage 2 stores the whole update, and conserves the total energy. This
   * needs every group active at the final temperature: a positive density,
   * time step and kappa_E.
   */
  lemma FullUpdateConservesEnergy(p: Physics, cell: Cell, source: seq<real>, dtRadiation: real, stage: int)
    requires PhysicsFits(p, |cell.erad|) && CellFits(cell, |cell.erad|) && |source| == |cell.erad|
    requires SourceUpdate(p, cell, source, dtRadiation, stage).Ok? && stage != 1
    requires cell.rho > 0.0 && dtRadiation > 0.0
    requires forall t: real, g: nat :: g < |cell.erad| ==> p.kappaE(cell.rho, t, g) > 0.0
    ensures UpdateHeld(p, cell, SourceUpdate(p, cell, source, dtRadiation, stage).value,
                       Sources(p, source, StageStep(dtRadiation, stage)), Prepare(p, cell, source, dtRadiation, stage).etot0)
  {
    UpdateStores(p, cell, source, dtRadiation, stage);
    UpdateHeldEnergy(p, cell, source, dtRadiation, stage);
    PrepareTotal(p, cell, source, dtRadiation, stage);
    var su := Prepare(p, cell, source, dtRadiation, stage);
    StoreHeld(p, cell, su, OuterLoop(p, cell, su).value);
  }

  /** Storing a whole pass that holds Etot0 gives a cell that conserves the total energy. */
  lemma StoreHeld(p: Physics, cell: Cell, su: Setup, pass: Pass)
    requires PassLaws(p, cell, su, pass) && PassFits(pass, |cell.erad|) && su.factor == 1.0
    requires |su.src| == |cell.erad| && SetupTotal(p, cell, su)
    requires EnergyHeld(p, pass.newton.state.egas, pass.erad, su.etot0)
    ensures UpdateHeld(p, cell, Store(cell, su, pass), su.src, su.etot0)
  {
    StoreWhole(p, cell, su, pass);
    ShiftHeld(p, cell, Store(cell, su, pass), pass.newton.state.egas, su);
  }

  /** The pass the update stores holds the total energy Etot0 that Prepare computes. */
  lemma UpdateHeldEnergy(p: Physics, cell: Cell, source: seq<real>, dtRadiation: real, stage: int)
    requires PhysicsFits(p, |cell.erad|) && CellFits(cell, |cell.erad|) && |source| == |cell.erad|
    requires SourceUpdate(p, cell, source, dtRadiation, stage).Ok?
    requires cell.rho > 0.0 && dtRadiation > 0.0
    requires forall t: real, g: nat :: g < |cell.erad| ==> p.kappaE(cell.rho, t, g) > 0.0
    ensures var su := Prepare(p, cell, source, dtRadiation, stage);
            SetupFits(p, cell, su) && OuterLoop(p, cell, su).Ok?
            && EnergyHeld(p, OuterLoop(p, cell, su).value.newton.state.egas, OuterLoop(p, cell, su).value.erad, su.etot0)
  {
    UpdateStores(p, cell, source, dtRadiation, stage);
    UpdateSettles(p, cell, source, dtRadiation, stage);
    var su := Prepare(p, cell, source, dtRadiation, stage);
    PrepareTotal(p, cell, source, dtRadiation, stage);
    SettledConservesEnergy(p, cell, su, OuterLoop(p, cell, su).value);
  }

  /**
   * Moving the bound from the Newton unknowns to the stored cell: its
   * total energy is Egas_guess plus the initial kinetic energy, and Etot0
   * is Eint0 plus (c / chat)(sum E0 + sum Src).
   */
  lemma ShiftHeld(p: Physics, cell: Cell, c: Cell, egasN: real, su: Setup)
    requires p.chat != 0.0 && |su.src| == |cell.erad|
    requires SetupTotal(p, cell, su)
    requires EnergyHeld(p, egasN, c.erad, su.etot0) && c.egas == egasN + (cell.egas - su.egas0)
    ensures UpdateHeld(p, cell, c, su.src, su.etot0)
  {
    var k := p.c / p.chat;
    assert c.egas + k * Sum(c.erad) - (cell.egas + k * (Sum(cell.erad) + Sum(su.src)))
        == egasN + k * Sum(c.erad) - su.etot0;
  }

  /**
   * The pass that ends the loop holds the total energy Etot0 to within
   * twice the residual tolerance, when every group is active at its
   * temperature.
   */
  lemma SettledConservesEnergy(p: Physics, cell: Cell, su: Setup, pass: Pass)
    requires Settles(p, cell, su, pass) && su.etot0 > 0.0 && cell.rho > 0.0 && su.dt > 0.0
    requires SetupTotal(p, cell, su)
    requires forall t: real, g: nat :: g < |cell.erad| ==> p.kappaE(cell.rho, t, g) > 0.0
    ensures EnergyHeld(p, pass.newton.state.egas, pass.erad, su.etot0)
  {
    var x := pass.newton;
    var ctx := pass.ctx;
    SameTotalEnergy(p, ctx, cell, su);
    EvaluationActive(p, ctx, x.state, x.eval);
    ExitConservesEnergy(p, ctx, x);
  }

  /** A Newton context built from a setup inherits its total energy. */
  lemma SameTotalEnergy(p: Physics, ctx: NewtonContext, cell: Cell, su: Setup)
    requires |su.src| == |cell.erad| && p.chat != 0.0 && SetupTotal(p, cell, su)
    requires ctx.etot0 == su.etot0 && ctx.egas0 == su.egas0 && ctx.erad0 == cell.erad && ctx.src == su.src
    ensures TotalEnergy(p, ctx)
  {
  }

  /** With factor 1 the store keeps the pass's momentum, and its total energy is Egas_guess plus Ekin0. */
  lemma StoreWhole(p: Physics, cell: Cell, su: Setup, pass: Pass)
    requires PassLaws(p, cell, su, pass) && PassFits(pass, |cell.erad|) && su.factor == 1.0
    ensures var c := Store(cell, su, pass);
            c.mom == pass.mom && c.eint == pass.egas
            && c.egas == pass.newton.state.egas + (cell.egas - su.egas0)
  {
    var c := Store(cell, su, pass);
    assert Scale(su.factor, pass.dMom) == pass.dMom;
    assert c.mom == pass.mom;
  }

}
