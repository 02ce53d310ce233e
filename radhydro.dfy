/**
 * The level-advance logic of RadhydroSimulation (src/RadhydroSimulation.hpp):
 * the radiation substep count and size of subcycleRadiationAtLevel, the
 * old/new state swap and stage order of one level step, and the curvature
 * rule of ErrorEst.
 *
 * A level holds two states, state_old_ and state_new_, as the fields of a
 * class. The stages themselves (the hydro and radiation PredictStep and
 * AddFluxesRK2, and the matter-radiation source terms) are modelled in
 * Hyperbolic and SourceTerms. Here they are function parameters, so that
 * what is proved is the order in which they run and which state each of
 * them reads.
 */
module RadhydroSimulation {
  import opened Numerics

  /** AMREX_ALWAYS_ASSERT(nsubSteps < 1e4). */
  const SubstepLimit: int := 10000

  /** The smallest cell size, dx_min, over the one to three dimensions. */
  function MinCellSize(dx: seq<real>): (m: real)
    requires |dx| >= 1
    ensures exists d :: 0 <= d < |dx| && m == dx[d]
    ensures forall d :: 0 <= d < |dx| ==> m <= dx[d]
  {
    if |dx| == 1 then dx[0]
    else
      var m := MinCellSize(dx[..|dx| - 1]);
      assert forall d :: 0 <= d < |dx| - 1 ==> dx[..|dx| - 1][d] == dx[d];
      Min(m, dx[|dx| - 1])
  }

  /**
   * dtrad_tmp = radiationCflNumber_ (dx_min / chat): in one substep a
   * signal at speed chat crosses the CFL fraction of the smallest cell.
   */
  function RadiationTimestep(cfl: real, dx: seq<real>, chat: real): (dt: real)
    requires |dx| >= 1 && chat > 0.0
    ensures dt * chat == cfl * MinCellSize(dx)
    ensures cfl > 0.0 && (forall d :: 0 <= d < |dx| ==> dx[d] > 0.0) ==> dt > 0.0
  {
    var m := MinCellSize(dx);
    assert m / chat * chat == m;
    if cfl > 0.0 && m > 0.0 then
      QuotientPositive(m, chat);
      MulPos(cfl, m / chat);
      cfl * (m / chat)
    else cfl * (m / chat)
  }

  /** ceil, through floor: the least integer at or above x. */
  function Ceil(x: real): (n: int)
    ensures x <= n as real < x + 1.0
  {
    -((-x).Floor)
  }

  datatype SubstepPlan = SubstepPlan(count: int, dt: real)

  datatype SubstepError =
    | NoSubsteps      // AMREX_ALWAYS_ASSERT(nsubSteps >= 1)
    | TooManySubsteps // AMREX_ALWAYS_ASSERT(nsubSteps < 1e4)
    | NonPositiveStep // AMREX_ALWAYS_ASSERT(dt_radiation > 0.0)
    | NotANumber      // dt_hydro / dtrad_tmp divides by zero

  /**
   * The substep count and size: nsubSteps = ceil(dt_hydro / dtrad_tmp) and
   * dt_radiation = dt_hydro / nsubSteps. With hydro disabled nsubSteps
   * stays 0 and the first assertion fails.
   */
  function Substeps(hydroEnabled: bool, dtHydro: real, dtradTmp: real): (r: Result<SubstepPlan, SubstepError>)
    ensures r.Ok? ==> 1 <= r.value.count < SubstepLimit && r.value.dt > 0.0
    ensures r.Ok? ==> r.value.count as real * r.value.dt == dtHydro
    ensures !hydroEnabled ==> r == Err(NoSubsteps)
  {
    if !hydroEnabled then Err(NoSubsteps)
    else if dtradTmp == 0.0 then Err(NotANumber)
    else
      var n := Ceil(dtHydro / dtradTmp);
      if n < 1 then Err(NoSubsteps)
      else if n >= SubstepLimit then Err(TooManySubsteps)
      else
        var dt := dtHydro / n as real;
        if dt <= 0.0 then Err(NonPositiveStep)
        else
          assert n as real * dt == dtHydro;
          Ok(SubstepPlan(n, dt))
  }

  /**
   * With a positive dtrad_tmp the assertions hold exactly when hydro is
   * enabled and 0 < dt_hydro <= 9999 dtrad_tmp, and then the substep size is
   * at most dtrad_tmp.
   */
  lemma SubstepsSucceedIff(hydroEnabled: bool, dtHydro: real, dtradTmp: real)
    requires dtradTmp > 0.0
    ensures Substeps(hydroEnabled, dtHydro, dtradTmp).Ok?
            <==> hydroEnabled && 0.0 < dtHydro && dtHydro <= (SubstepLimit - 1) as real * dtradTmp
    ensures Substeps(hydroEnabled, dtHydro, dtradTmp).Ok? ==> Substeps(hydroEnabled, dtHydro, dtradTmp).value.dt <= dtradTmp
  {
    if hydroEnabled {
      var q := dtHydro / dtradTmp;
      assert q * dtradTmp == dtHydro;
      var n := Ceil(q);
      if dtHydro > 0.0 {
        QuotientPositive(dtHydro, dtradTmp);
        assert n >= 1;
        var dt := dtHydro / n as real;
        MulPos(dtHydro, 1.0 / n as real);
        assert dt > 0.0;
        StepAtMost(dtHydro, dtradTmp, q, n as real);
        BoundByCount(dtHydro, dtradTmp, q, n);
      } else {
        NonPositiveQuotient(dtHydro, dtradTmp);
      }
    }
  }

  lemma NonPositiveQuotient(a: real, b: real)
    requires a <= 0.0 && b > 0.0
    ensures a / b <= 0.0
  {
    if a < 0.0 {
      QuotientPositive(-a, b);
      assert (-a) / b == -(a / b);
    }
  }

  /** dt_hydro / n <= dtrad_tmp when n >= dt_hydro / dtrad_tmp. */
  lemma StepAtMost(h: real, t: real, q: real, n: real)
    requires h > 0.0 && t > 0.0 && q * t == h && n >= q && q > 0.0
    ensures h / n <= t
  {
    DivCompare(h, n, t);
    MulLeft(t, q, n);
  }

  /** ceil(q) < 10000 exactly when q <= 9999. */
  lemma BoundByCount(h: real, t: real, q: real, n: int)
    requires t > 0.0 && q * t == h && n == Ceil(q)
    ensures n < SubstepLimit <==> h <= (SubstepLimit - 1) as real * t
  {
    if n < SubstepLimit {
      assert q <= (SubstepLimit - 1) as real;
      MulLeft(t, q, (SubstepLimit - 1) as real);
    } else {
      assert q > (SubstepLimit - 1) as real;
      MulLeftStrict(t, (SubstepLimit - 1) as real, q);
    }
  }

  /**
   * The stages a level step runs, each taking the state(s) it reads and the
   * time step and giving the state it writes: the hydro and radiation
   * PredictStep (old, new), AddFluxesRK2 (old, intermediate) and the
   * operator-split source terms.
   */
  datatype Stages<!S> = Stages(
    hydroPredict: (S, S, real) -> S, hydroCorrect: (S, S, real) -> S,
    radPredict: (S, S, real) -> S, radCorrect: (S, S, real) -> S,
    sources: (S, real) -> S)

  /** One radiation substep: PredictStep, then AddFluxesRK2, then the source terms. */
  function RadiationSubstep<S>(st: Stages<S>, stateOld: S, stateNew: S, dt: real): S
  {
    var inter := st.radPredict(stateOld, stateNew, dt);
    st.sources(st.radCorrect(stateOld, inter, dt), dt)
  }

  /** n substeps as the source runs them: each one starts again from state_old_. */
  function SubcycledAsWritten<S>(st: Stages<S>, stateOld: S, stateNew: S, dt: real, n: nat): S
  {
    if n == 0 then stateNew
    else RadiationSubstep(st, stateOld, SubcycledAsWritten(st, stateOld, stateNew, dt, n - 1), dt)
  }

  /** n substeps, each starting from the state the previous one left. */
  function Subcycled<S>(st: Stages<S>, stateOld: S, stateNew: S, dt: real, n: nat): S
  {
    if n == 0 then stateNew
    else
      var s := RadiationSubstep(st, stateOld, stateNew, dt);
      Subcycled(st, s, s, dt, n - 1)
  }

  /** The state_old_ the last of k corrected substeps started from. */
  function SubcycledOld<S>(st: Stages<S>, stateOld: S, stateNew: S, dt: real, k: nat): S
  {
    if k <= 1 then stateOld else Subcycled(st, stateOld, stateNew, dt, k - 1)
  }

  /** Each corrected substep after the first starts from the previous one's result in both states. */
  lemma {:induction false} SubcycledSnoc<S>(st: Stages<S>, stateOld: S, stateNew: S, dt: real, k: nat)
    requires k >= 1
    ensures var s := Subcycled(st, stateOld, stateNew, dt, k);
            Subcycled(st, stateOld, stateNew, dt, k + 1) == RadiationSubstep(st, s, s, dt)
  {
    var s1 := RadiationSubstep(st, stateOld, stateNew, dt);
    if k > 1 {
      SubcycledSnoc(st, s1, s1, dt, k - 1);
    } else {
      assert Subcycled(st, s1, s1, dt, 1) == RadiationSubstep(st, s1, s1, dt);
    }
  }

  /** n applications of step to s. */
  function Power<S>(step: S -> S, s: S, n: nat): S
  {
    if n == 0 then s else Power(step, step(s), n - 1)
  }

  /**
   * When the substep from a state to itself is step, the corrected
   * subcycle after a first substep is step applied once per further
   * substep: the radiation advances by n substeps.
   */
  lemma {:induction false} SubcycledIsPower<S>(st: Stages<S>, s: S, dt: real, n: nat, step: S -> S)
    requires forall x :: RadiationSubstep(st, x, x, dt) == step(x)
    ensures Subcycled(st, s, s, dt, n) == Power(step, s, n)
  {
    if n > 0 {
      SubcycledIsPower(st, step(s), dt, n - 1, step);
    }
  }

  /**
   * As written, stages whose substep result depends on state_old_ alone
   * give the result of the first substep whatever the substep count. The
   * source's stages are not of this kind: the radiation stages restart
   * from state_old_, but the source-term stage updates the gas in
   * state_new_, and that update carries over to the next substep
   * (AsWrittenGasAccumulates).
   */
  lemma {:induction false} AsWrittenRestarts<S>(st: Stages<S>, stateOld: S, stateNew: S, dt: real, n: nat)
    requires n >= 1
    requires forall x, y :: RadiationSubstep(st, stateOld, x, dt) == RadiationSubstep(st, stateOld, y, dt)
    ensures SubcycledAsWritten(st, stateOld, stateNew, dt, n) == RadiationSubstep(st, stateOld, stateNew, dt)
  {
    if n > 1 {
      AsWrittenRestarts(st, stateOld, stateNew, dt, n - 1);
    }
  }

  /**
   * A concrete case: a radiation state that each substep advances by one
   * unit from the state it starts from. Two substeps as written advance it
   * by one unit; corrected, by two.
   */
  function UnitStages(): Stages<int>
  {
    Stages((o: int, n: int, dt: real) => n, (o: int, i: int, dt: real) => i,
           (o: int, n: int, dt: real) => o + 1, (o: int, i: int, dt: real) => i,
           (s: int, dt: real) => s)
  }

  lemma AsWrittenLosesSubsteps()
    ensures SubcycledAsWritten(UnitStages(), 0, 0, 1.0, 2) == 1
    ensures Subcycled(UnitStages(), 0, 0, 1.0, 2) == 2
  {
    var st := UnitStages();
    assert RadiationSubstep(st, 0, 0, 1.0) == 1;
    assert RadiationSubstep(st, 0, 1, 1.0) == 1;
    assert RadiationSubstep(st, 1, 1, 1.0) == 2;
    assert SubcycledAsWritten(st, 0, 0, 1.0, 1) == 1;
    assert Subcycled(st, 1, 1, 1.0, 1) == 2;
  }

  /** A cell reduced to a radiation part and a gas part. */
  datatype RadGas = RadGas(rad: int, gas: int)

  /**
   * Stages shaped like the source's: the radiation predict stage writes
   * only the radiation part, advancing it by one unit from state_old_ and
   * keeping the gas of state_new_; the source-term stage adds one unit to
   * the gas of the state it is given.
   */
  function RadGasStages(): Stages<RadGas>
  {
    Stages((o: RadGas, n: RadGas, dt: real) => n, (o: RadGas, i: RadGas, dt: real) => i,
           (o: RadGas, n: RadGas, dt: real) => RadGas(o.rad + 1, n.gas), (o: RadGas, i: RadGas, dt: real) => i,
           (s: RadGas, dt: real) => RadGas(s.rad, s.gas + 1))
  }

  /**
   * With such stages a substep's result depends on state_new_ through the
   * gas, and two substeps as written advance the radiation once but the
   * gas twice; corrected, both advance twice.
   */
  lemma AsWrittenGasAccumulates()
    ensures RadiationSubstep(RadGasStages(), RadGas(0, 0), RadGas(0, 0), 1.0)
            != RadiationSubstep(RadGasStages(), RadGas(0, 0), RadGas(0, 1), 1.0)
    ensures SubcycledAsWritten(RadGasStages(), RadGas(0, 0), RadGas(0, 0), 1.0, 2) == RadGas(1, 2)
    ensures Subcycled(RadGasStages(), RadGas(0, 0), RadGas(0, 0), 1.0, 2) == RadGas(2, 2)
  {
    var st := RadGasStages();
    assert RadiationSubstep(st, RadGas(0, 0), RadGas(0, 0), 1.0) == RadGas(1, 1);
    assert RadiationSubstep(st, RadGas(0, 0), RadGas(0, 1), 1.0) == RadGas(1, 2);
    assert RadiationSubstep(st, RadGas(0, 0), RadGas(1, 1), 1.0) == RadGas(1, 2);
    assert SubcycledAsWritten(st, RadGas(0, 0), RadGas(0, 0), 1.0, 1) == RadGas(1, 1);
    assert RadiationSubstep(st, RadGas(1, 1), RadGas(1, 1), 1.0) == RadGas(2, 2);
    assert Subcycled(st, RadGas(1, 1), RadGas(1, 1), 1.0, 1) == RadGas(2, 2);
  }

  /** The hydro part of a level step: the RK2-SSP stages from state_old_. */
  function HydroAdvance<S>(st: Stages<S>, stateOld: S, stateNew: S, dt: real): S
  {
    st.hydroCorrect(stateOld, st.hydroPredict(stateOld, stateNew, dt), dt)
  }

  /**
   * One level with the two states the source keeps for it. The swap, the
   * stages and the subcycle change the fields in place.
   */
  class Level<S> {
    var stateOld: S
    var stateNew: S

    constructor (s0: S, s1: S)
      ensures stateOld == s0 && stateNew == s1
    {
      stateOld := s0;
      stateNew := s1;
    }

    /** std::swap(state_old_[lev], state_new_[lev]). */
    method SwapStates()
      modifies this
      ensures stateOld == old(stateNew) && stateNew == old(stateOld)
    {
      stateOld, stateNew := stateNew, stateOld;
    }

    /** advanceSingleTimestepAtLevelRadiation: the three radiation stages in order. */
    method AdvanceRadiationSubstep(st: Stages<S>, dt: real)
      modifies this
      ensures stateOld == old(stateOld)
      ensures stateNew == RadiationSubstep(st, old(stateOld), old(stateNew), dt)
    {
      stateNew := st.radPredict(stateOld, stateNew, dt);
      stateNew := st.radCorrect(stateOld, stateNew, dt);
      stateNew := st.sources(stateNew, dt);
    }

    /**
     * subcycleRadiationAtLevel as written: plan the substeps, abort when an
     * assertion fails, and otherwise run every substep from state_old_.
     */
    method SubcycleRadiationAsWritten(st: Stages<S>, hydroEnabled: bool, dtHydro: real, dtradTmp: real)
      returns (r: Result<SubstepPlan, SubstepError>)
      modifies this
      ensures r == Substeps(hydroEnabled, dtHydro, dtradTmp)
      ensures stateOld == old(stateOld)
      ensures r.Err? ==> stateNew == old(stateNew)
      ensures r.Ok? ==> stateNew == SubcycledAsWritten(st, old(stateOld), old(stateNew), r.value.dt, r.value.count)
    {
      r := Substeps(hydroEnabled, dtHydro, dtradTmp);
      if r.Err? {
        return;
      }
      var i := 0;
      while i < r.value.count
        invariant 0 <= i <= r.value.count
        invariant stateOld == old(stateOld)
        invariant stateNew == SubcycledAsWritten(st, old(stateOld), old(stateNew), r.value.dt, i)
      {
        AdvanceRadiationSubstep(st, r.value.dt);
        i := i + 1;
      }
    }

    /**
     * The subcycle with the evidently intended update: before each substep
     * after the first, state_old_ takes the state the previous substep
     * produced.
     */
    method SubcycleRadiation(st: Stages<S>, hydroEnabled: bool, dtHydro: real, dtradTmp: real)
      returns (r: Result<SubstepPlan, SubstepError>)
      modifies this
      ensures r == Substeps(hydroEnabled, dtHydro, dtradTmp)
      ensures r.Err? ==> stateOld == old(stateOld) && stateNew == old(stateNew)
      ensures r.Ok? ==> stateNew == Subcycled(st, old(stateOld), old(stateNew), r.value.dt, r.value.count)
                        && stateOld == SubcycledOld(st, old(stateOld), old(stateNew), r.value.dt, r.value.count)
    {
      r := Substeps(hydroEnabled, dtHydro, dtradTmp);
      if r.Err? {
        return;
      }
      var n := r.value.count;
      var dt := r.value.dt;
      AdvanceRadiationSubstep(st, dt);
      var i := 1;
      while i < n
        invariant 1 <= i <= n
        invariant stateNew == Subcycled(st, old(stateOld), old(stateNew), dt, i)
        invariant stateOld == SubcycledOld(st, old(stateOld), old(stateNew), dt, i)
      {
        SubcycledSnoc(st, old(stateOld), old(stateNew), dt, i);
        stateOld := stateNew;
        AdvanceRadiationSubstep(st, dt);
        i := i + 1;
      }
    }

    /** The swap and the hydro stages that open a level step. */
    method AdvanceHydro(st: Stages<S>, hydroEnabled: bool, dtLevel: real)
      modifies this
      ensures stateOld == old(stateNew)
      ensures stateNew == if hydroEnabled then HydroAdvance(st, old(stateNew), old(stateOld), dtLevel) else old(stateOld)
    {
      SwapStates();
      if hydroEnabled {
        stateNew := st.hydroPredict(stateOld, stateNew, dtLevel);
        stateNew := st.hydroCorrect(stateOld, stateNew, dtLevel);
      }
    }

    /**
     * advanceSingleTimestepAtLevel as written: swap the states, run the
     * hydro stages when hydro is enabled, then, when radiation is enabled,
     * subcycle it with subcycleRadiationAtLevel as written, every substep
     * starting from the swapped state_old_. None when radiation is
     * disabled.
     */
    method AdvanceLevel(st: Stages<S>, hydroEnabled: bool, radiationEnabled: bool, dtLevel: real, dtradTmp: real)
      returns (r: Option<Result<SubstepPlan, SubstepError>>)
      modifies this
      ensures r.Some? <==> radiationEnabled
      ensures r.Some? ==> r.value == Substeps(hydroEnabled, dtLevel, dtradTmp)
      ensures stateOld == old(stateNew)
      ensures var hydro := if hydroEnabled then HydroAdvance(st, old(stateNew), old(stateOld), dtLevel) else old(stateOld);
              if r.Some? && r.value.Ok?
              then stateNew == SubcycledAsWritten(st, old(stateNew), hydro, r.value.value.dt, r.value.value.count)
              else stateNew == hydro
    {
      AdvanceHydro(st, hydroEnabled, dtLevel);
      if radiationEnabled {
        var plan := SubcycleRadiationAsWritten(st, hydroEnabled, dtLevel, dtradTmp);
        r := Some(plan);
      } else {
        r := None;
      }
    }

    /** The level step with the corrected subcycle, each substep starting from the previous one's result. */
    method AdvanceLevelCorrected(st: Stages<S>, hydroEnabled: bool, radiationEnabled: bool, dtLevel: real, dtradTmp: real)
      returns (r: Option<Result<SubstepPlan, SubstepError>>)
      modifies this
      ensures r.Some? <==> radiationEnabled
      ensures r.Some? ==> r.value == Substeps(hydroEnabled, dtLevel, dtradTmp)
      ensures var hydro := if hydroEnabled then HydroAdvance(st, old(stateNew), old(stateOld), dtLevel) else old(stateOld);
              if r.Some? && r.value.Ok?
              then stateNew == Subcycled(st, old(stateNew), hydro, r.value.value.dt, r.value.value.count)
                   && stateOld == SubcycledOld(st, old(stateNew), hydro, r.value.value.dt, r.value.value.count)
              else stateNew == hydro && stateOld == old(stateNew)
    {
      AdvanceHydro(st, hydroEnabled, dtLevel);
      if radiationEnabled {
        var plan := SubcycleRadiation(st, hydroEnabled, dtLevel, dtradTmp);
        r := Some(plan);
      } else {
        r := None;
      }
    }
  }

  /** epsilon_threshold of ErrorEst. */
  const CurvatureThreshold: real := 0.01

  /**
   * The ErrorEst rule for one cell: |d2x rho + d2y rho| / rho > 0.01, with
   * the second differences of the density across the x and y neighbours.
   * With rho == 0 the quotient is +inf (tagged) unless the sum is 0 too
   * (NaN, not tagged).
   */
  predicate CurvatureTagged(rho: real, west: real, east: real, south: real, north: real)
  {
    var delsq := (east - 2.0 * rho + west) + (north - 2.0 * rho + south);
    if rho == 0.0 then delsq != 0.0 else Abs(delsq) / rho > CurvatureThreshold
  }

  /** With a positive density the cell is tagged exactly when |d2x + d2y| exceeds 0.01 rho. */
  lemma CurvatureTagPositive(rho: real, west: real, east: real, south: real, north: real)
    requires rho > 0.0
    ensures var delsq := (east - 2.0 * rho + west) + (north - 2.0 * rho + south);
            CurvatureTagged(rho, west, east, south, north) <==> Abs(delsq) > CurvatureThreshold * rho
  {
    var delsq := (east - 2.0 * rho + west) + (north - 2.0 * rho + south);
    var q := Abs(delsq) / rho;
    assert q * rho == Abs(delsq);
    if q > CurvatureThreshold {
      MulLeftStrict(rho, CurvatureThreshold, q);
    } else {
      MulLeft(rho, q, CurvatureThreshold);
    }
  }

  /** A density that is linear across the stencil is never tagged. */
  lemma LinearDensityNotTagged(rho: real, gx: real, gy: real)
    ensures !CurvatureTagged(rho, rho - gx, rho + gx, rho - gy, rho + gy)
  {
  }

  /** A negative density is never tagged: the quotient is not positive. */
  lemma NegativeDensityNotTagged(rho: real, west: real, east: real, south: real, north: real)
    requires rho < 0.0
    ensures !CurvatureTagged(rho, west, east, south, north)
  {
    var delsq := (east - 2.0 * rho + west) + (north - 2.0 * rho + south);
    if Abs(delsq) > 0.0 {
      QuotientPositive(Abs(delsq), -rho);
      assert Abs(delsq) / (-rho) == -(Abs(delsq) / rho);
    }
  }

  /** The tag rule at interior cell (i, j) of an array whose border holds the ghost cells. */
  predicate TaggedAt(density: array2<real>, i: int, j: int)
    requires 0 <= i && i + 2 < density.Length0 && 0 <= j && j + 2 < density.Length1
    reads density
  {
    CurvatureTagged(density[i + 1, j + 1], density[i, j + 1], density[i + 2, j + 1], density[i + 1, j], density[i + 1, j + 2])
  }

  /**
   * ErrorEst over one box of a two-dimensional slice: set the tag of every
   * cell the rule selects and leave the other tags as they were.
   */
  method ErrorEst(density: array2<real>, tags: array2<bool>)
    requires density.Length0 == tags.Length0 + 2 && density.Length1 == tags.Length1 + 2
    modifies tags
    ensures forall i, j :: 0 <= i < tags.Length0 && 0 <= j < tags.Length1 ==>
              tags[i, j] == (old(tags[i, j]) || TaggedAt(density, i, j))
  {
    var i := 0;
    while i < tags.Length0
      invariant 0 <= i <= tags.Length0
      invariant forall i', j' :: 0 <= i' < i && 0 <= j' < tags.Length1 ==>
                  tags[i', j'] == (old(tags[i', j']) || TaggedAt(density, i', j'))
      invariant forall i', j' :: i <= i' < tags.Length0 && 0 <= j' < tags.Length1 ==> tags[i', j'] == old(tags[i', j'])
    {
      var j := 0;
      while j < tags.Length1
        invariant 0 <= j <= tags.Length1
        invariant forall i', j' :: 0 <= i' < i && 0 <= j' < tags.Length1 ==>
                    tags[i', j'] == (old(tags[i', j']) || TaggedAt(density, i', j'))
        invariant forall j' :: 0 <= j' < j ==> tags[i, j'] == (old(tags[i, j']) || TaggedAt(density, i, j'))
        invariant forall j' :: j <= j' < tags.Length1 ==> tags[i, j'] == old(tags[i, j'])
        invariant forall i', j' :: i < i' < tags.Length0 && 0 <= j' < tags.Length1 ==> tags[i', j'] == old(tags[i', j'])
      {
        if TaggedAt(density, i, j) {
          tags[i, j] := true;
        }
        j := j + 1;
      }
      i := i + 1;
    }
  }
}
