# Quokka radiation subsystem: a Dafny model

This project models the core of quokka, a two-moment radiation-hydrodynamics
code built on AMReX, together with the solver driver around it and the
problem-specific pieces of three test problems.

The main part is `RadSystem` in `src/radiation_system.hpp`:

- the M1 (Levermore) closure and the Eddington tensor;
- the face-normal radiation pressure flux and its signal speed;
- the HLL interface flux, with a donor-cell fallback and the reduced speed of light;
- the two explicit stages of the IMEX transport update, which amend inadmissible states;
- the conversion of conserved radiation variables to primitive ones;
- the per-group utilities: the slope limiters, the Planck energy fractions, the
  thermal radiation and its temperature derivative, the power-law exponents and
  the group-mean opacity;
- the two closed-form linear solvers;
- the conversion between total and internal gas energy;
- `AddSourceTerms` on its user-opacity path: the Newton-Raphson solve of the
  matter-radiation energy exchange, the implicit flux update that transfers
  momentum to the gas, and the outer iteration that lags the work term.

Around it the project models:

- the ideal-gas equation of state of `src/EOS.hpp`;
- the radiation substep count, the stage order and the refinement rule of
  `src/RadhydroSimulation.hpp`;
- the diagnostic bookkeeping of `src/DiagBase.cpp`;
- the table post-processing of `src/CloudyDataReader.cpp`;
- the error norms and the cyclic index remap of the grey radiation-pulse test;
- the interpolation, gravity source, diode boundary and refinement rule of the
  supernova metal-advection test;
- the energy injection, boundary types, refinement rule and supernova counter of
  the random-blast test.

Each photon group holds four radiation numbers: the energy density E_r and the
flux (Fx, Fy, Fz). A block of n groups is a sequence of 4n reals, and group g
sits at entries 4g .. 4g + 3. Arrays the source updates in place are Dafny
arrays (`array<real>` for one cell's block and `array2<real>` for a row of
cells by radiation variable). Their loops are `while` loops whose
postconditions tie the new contents to a pure specification function, and the
properties the source relies on are proved about those functions. Objects
whose fields the source updates are classes: a simulation level with its old
and new states, a diagnostic, and the random-blast problem data.

Transcendental functions are function parameters: the square root `sqrt`,
constrained by `SqrtLaw` (`sqrt(x) >= 0` and `sqrt(x) * sqrt(x) == x` for
`x >= 0`), and also log10, exp, pow, the Planck integral, the opacity callbacks
and the kernel quadrature. The speed of light `c`, the reduced speed of light
`chat` and the energy floor `Erad_floor_` are parameters too. Reals are exact.
A division by zero, which the C++ turns into inf or NaN, is an error value or is
excluded by a precondition that mirrors an assertion of the source.

Modules, one per file:

| file | module | models |
|---|---|---|
| numerics.dfy | Numerics | Option/Result, min/max/clamp, sums, 3-vectors, stencils, the square-root law, C++ truncating division, arithmetic lemmas |
| iteration.dfy | Iteration | the bounded loop shape of the Newton loop and the outer loop of AddSourceTerms |
| closure.dfy | Closure | ComputeEddingtonFactor, ComputeEddingtonTensor, ComputeRadPressure |
| radstate.dfy | RadState | isStateValid, amendRadState, ConservedToPrimitive |
| hyperbolic.dfy | Hyperbolic | PredictStep, AddFluxesRK2 |
| fluxes.dfy | Fluxes | ComputeFluxes (HLL) |
| linsolve.dfy | LinearSolvers | SolveLinearEqs, Solve3x3matrix |
| groups.dfy | GroupUtilities | minmod_func, MC, ComputePlanckEnergyFractions, ComputeThermalRadiation(TempDerivative), ComputeRadQuantityExponents, ComputeGroupMeanOpacity |
| energy.dfy | GasEnergy | ComputeEintFromEgas, ComputeEgasFromEint |
| eos.dfy | EquationOfState | ComputeTgasFromEint, ComputeEintFromTgas, ComputeEintTempDerivative |
| sources.dfy | SourceTerms | AddSourceTerms (user-opacity path, beta_order 1) |
| radhydro.dfy | RadhydroSimulation | subcycleRadiationAtLevel, advanceSingleTimestepAtLevelRadiation, the state swap and stage order of a level step, ErrorEst |
| diag.dfy | DiagBase | doDiag, addVars, getFieldIndex, getFieldIndexVec |
| cloudy.dfy | CloudyDataReader | the post-read loops of initialize_cloudy_data, extract_2d_table, copy_1d_table |
| pulse.dfy | RadhydroPulseGrey | compute_initial_Tgas, the shift/index_ remap, the error and symmetry norms, the status |
| sne.dfy | MetalAdvectionProblem | linearInterpolate, GetGradFixedPotential, addStrangSplitSources, the diode boundary, ErrorEst |
| blast.dfy | RandomBlast | isNormalComp and the boundary selection, injectEnergy, computeBeforeTimestep, the mass check of computeAfterTimestep, ErrorEst |

## Model

| member | source | states |
|---|---|---|
| Closure.EddingtonFactor | src/radiation_system.hpp:526-543 | the Levermore factor of the clamped reduced flux lies in [1/3, 1] |
| Closure.EddingtonFactorLimits | src/radiation_system.hpp:526-533 | the factor is exactly 1/3 for f <= 0 and exactly 1 for f >= 1 (isotropic and free-streaming limits) |
| Closure.EddingtonFactorMonotone | src/radiation_system.hpp:526-533 | the factor never decreases as the reduced flux grows |
| Closure.FluxDirectionUnit | src/radiation_system.hpp:623-633 | the direction n is a unit vector when the flux is non-zero and the zero vector otherwise |
| Closure.EddingtonTensorSymmetric | src/radiation_system.hpp:638-656 | the Eddington tensor is symmetric |
| Closure.EddingtonTensorTrace | src/radiation_system.hpp:638-656 | the tensor has unit trace for every reduced flux, so the pressure tensor has trace E_r |
| Closure.EddingtonTensorDiagonal | src/radiation_system.hpp:636-656 | each diagonal entry lies between 0 and the Eddington factor chi |
| Closure.EddingtonTensorIsotropic | src/radiation_system.hpp:628-656 | with no flux the tensor is one third of the identity |
| Closure.ComputeRadPressure | src/radiation_system.hpp:660-725 | the flux row is {F_n, T_n0 E_r, T_n1 E_r, T_n2 E_r}, the normal pressure T_nn E_r lies in [0, E_r], and the speed factor max(0.1, sqrt(T_nn)) lies in [0.1, 1] |
| RadState.IsStateValid | src/radiation_system.hpp:379-397 | returns true exactly when every group has E_r > 0 and sqrt(Fx^2+Fy^2+Fz^2) / (c E_r) <= 1 |
| RadState.GroupValidSquared | src/radiation_system.hpp:387-393 | admissibility without the square root: E_r > 0 and \|F\|^2 <= c^2 E_r^2 |
| RadState.AmendFloor | src/radiation_system.hpp:403-407 | the amended energy is the old one raised to the floor: at least the floor, at least the old value, and one of the two |
| RadState.AmendCausal | src/radiation_system.hpp:408-415 | after amendment \|F\|^2 <= c^2 E_r^2 |
| RadState.AmendRescales | src/radiation_system.hpp:411-415 | an acausal flux is replaced by a positive multiple of itself (direction kept) |
| RadState.AmendUnchanged | src/radiation_system.hpp:399-417 | amendment leaves a group unchanged exactly when its energy is at the floor or above and its flux is causal |
| RadState.AmendValid | src/radiation_system.hpp:399-417 | with a positive floor an amended group is admissible |
| RadState.AmendIdempotent | src/radiation_system.hpp:399-417 | amending twice is amending once |
| RadState.AmendStateValid | src/radiation_system.hpp:399-417 | with a positive floor every group of an amended block is admissible |
| RadState.AmendStateUnchanged | src/radiation_system.hpp:399-417 | an admissible block at or above the floor is left alone |
| RadState.AmendZeroFloorNotValid | src/radiation_system.hpp:403-407 | with a zero floor, a group with negative energy and zero flux is amended to E_r = 0, which is not admissible |
| RadState.AmendRadState | src/radiation_system.hpp:399-417 | the block after the in-place loop is the block amended group by group |
| RadState.PrimitiveRoundTrip | src/radiation_system.hpp:360-363 | converting a group with E_r > 0 to (E_r, F / (c E_r)) and back gives it back |
| RadState.ConservedRoundTrip | src/radiation_system.hpp:776-786 | converting primitive variables (E_r, f) with E_r > 0 to (E_r, c E_r f) and back gives them back |
| RadState.ReducedFluxCausal | src/radiation_system.hpp:387-393 | a group with E_r > 0 is admissible exactly when its reduced flux has length at most 1 |
| RadState.ConservedToPrimitive | src/radiation_system.hpp:343-366 | every group of every cell of the primitive array is the conserved group converted, given that the source's assertion E_r > 0 holds |
| Hyperbolic.StoredValid | src/radiation_system.hpp:450-455 | with a positive floor the state a stage stores is admissible, as the source asserts |
| Hyperbolic.StoredUnchanged | src/radiation_system.hpp:450-452 | an admissible candidate is stored unchanged |
| Hyperbolic.CorrectIsAverage | src/radiation_system.hpp:505-511 | with a32 = 1/2 the second stage is the mean of the old state and a forward-Euler step from the intermediate state |
| Hyperbolic.CorrectFixedPoint | src/radiation_system.hpp:505-511 | a state equal to its intermediate state with equal fluxes on both faces is left unchanged |
| Hyperbolic.FaceDifferencesTelescope | src/radiation_system.hpp:444-447 | the flux differences of a row sum to the first face's flux minus the last face's |
| Hyperbolic.PredictTelescopes | src/radiation_system.hpp:444-447 | over a row, the first-stage candidate totals change only by the flux through the outer faces |
| Hyperbolic.PredictRowValid | src/radiation_system.hpp:443-462 | with a positive floor every cell the first stage stores is admissible |
| Hyperbolic.PredictRowConserves | src/radiation_system.hpp:443-462 | on a periodic row where no cell needed amendment the first stage conserves every variable's total |
| Hyperbolic.PeriodicPredictConserves | src/radiation_system.hpp:444-447 | when the last face's flux is the first's, the first-stage candidates keep each variable's total |
| Hyperbolic.CorrectTelescopes | src/radiation_system.hpp:496-511 | over a row, the second-stage totals are half the old totals plus half the intermediate totals plus the outer-face flux |
| Hyperbolic.CorrectRowValid | src/radiation_system.hpp:488-520 | with a positive floor every cell the second stage stores is admissible |
| Hyperbolic.CorrectRowConserves | src/radiation_system.hpp:488-520 | on a periodic row with no amendment, if the intermediate totals equal the old ones, the second stage returns the old totals |
| Hyperbolic.PredictStep | src/radiation_system.hpp:420-464 | the new array is the row of candidates U_old + (dt/dx)(F_i - F_{i+1}), each amended when inadmissible |
| Hyperbolic.AddFluxesRK2 | src/radiation_system.hpp:465-522 | the new array is the row of second-stage combinations, each amended when inadmissible |
| Fluxes.SideState | src/radiation_system.hpp:776-814 | each side's conserved and primitive forms agree (F = c E_r f) with E_r > 0, and come from the donor cell on the fallback and from the reconstruction otherwise |
| Fluxes.SignalSpeed | src/radiation_system.hpp:816-831 | each side's signal speed lies in [0.1 chat, chat] |
| Fluxes.StarIsDiffusive | src/radiation_system.hpp:836-858 | with the wave-speed correction off, the star and diffusive components agree |
| Fluxes.StarComponentConsistent | src/radiation_system.hpp:851-852 | equal states and equal fluxes on both sides give that flux (consistency of the HLL flux) |
| Fluxes.GroupFlux | src/radiation_system.hpp:760-871 | the left wave speed lies in [-chat, -0.1 chat] and the right one in [0.1 chat, chat] (so the source's assertions \|S\| <= chat hold and S_R - S_L > 0), and the star flux equals the diffusive flux |
| Fluxes.DonorCellFallback | src/radiation_system.hpp:789-814 | on the fallback the flux is the flux of the donor cells' own primitive variables |
| Fluxes.ReconstructionUsed | src/radiation_system.hpp:789-814 | when the reconstruction is admissible the donor cells do not affect the flux |
| Fluxes.IdenticalStatesGivePhysicalFlux | src/radiation_system.hpp:816-852 | identical states on both sides give that side's physical flux |
| Fluxes.FaceGroupFluxes | src/radiation_system.hpp:759-872 | the group loop at one face computes every group's HLL flux |
| Fluxes.ComputeFluxes | src/radiation_system.hpp:729-874 | for every face and group, flux holds the star flux and fluxDiffusive the diffusive flux of that face's HLL solution |
| LinearSolvers.BackSubstitute | src/radiation_system.hpp:309-310 | the back-substituted unknowns xi = (yi - ai0 x0) / aii satisfy every diagonal row ai0 x0 + aii xi = yi |
| LinearSolvers.SolveLinearEqs | src/radiation_system.hpp:302-311 | a solution is returned exactly when every aii and the pivot a00 - sum a0i ai0 / aii are non-zero, and it solves the first row and every diagonal row of the arrowhead system |
| LinearSolvers.ArrowSolvedBy | src/radiation_system.hpp:306-310 | any x0 that solves the reduced first-row equation, back-substituted, solves the whole arrowhead system |
| LinearSolvers.FirstRowSum | src/radiation_system.hpp:306-308 | for unknowns satisfying the diagonal rows, sum a0i xi equals sum(ratios yi) - x0 sum(ratios ai0), the elimination the solver relies on |
| LinearSolvers.ArrowSolutionUnique | src/radiation_system.hpp:302-311 | with non-zero pivots every solution of the arrowhead system is the one SolveLinearEqs returns |
| LinearSolvers.FirstUnknownUnique | src/radiation_system.hpp:307-308 | the first unknown of any solution is the quotient (y0 - sum(ratios yi)) / (a00 - sum(ratios ai0)) |
| LinearSolvers.BackSubstituteUnique | src/radiation_system.hpp:309-310 | given x0, the diagonal rows determine the other unknowns |
| LinearSolvers.Solve3x3matrix | src/radiation_system.hpp:313-332 | a result is returned exactly when C00, E11 and E22 - E12 E21 / E11 are non-zero, and it solves C X = Y |
| LinearSolvers.EliminationSolves | src/radiation_system.hpp:318-329 | the elimination and back-substitution formulas solve all three rows when the pivots are non-zero |
| LinearSolvers.Reduced2x2 | src/radiation_system.hpp:327-328 | the reduced 2x2 system holds exactly for its back-substituted solution |
| LinearSolvers.EliminationKeepsSolutions | src/radiation_system.hpp:318-326 | given row 0, rows 1 and 2 hold exactly when the reduced 2x2 system holds, so eliminating X0 loses no solution and adds none |
| LinearSolvers.EliminatedRow | src/radiation_system.hpp:318-326 | given row 0, row k holds exactly when the row obtained with multiplier Ck0 / C00 holds |
| LinearSolvers.Solve3x3Unique | src/radiation_system.hpp:313-332 | with non-zero pivots the 3x3 system has no solution other than the one Solve3x3matrix returns |
| GroupUtilities.Minmod | src/radiation_system.hpp:80-83 | minmod is 0 when the slopes differ in sign or one is 0, the smaller slope when both are positive, and the larger when both are negative |
| GroupUtilities.MC | src/radiation_system.hpp:98-101 | the MC limiter is 0 on opposite signs and min(0.5 (a + b), 2a, 2b) in size, with that common sign, otherwise |
| GroupUtilities.MinmodBounds | src/radiation_system.hpp:80-83 | \|minmod(a, b)\| <= min(\|a\|, \|b\|), minmod is symmetric, and a non-zero result has the sign of both slopes |
| GroupUtilities.MinmodWithinMC | src/radiation_system.hpp:80-101 | \|minmod\| <= \|MC\| <= 2 min(\|a\|, \|b\|), MC is symmetric, and the two limiters never disagree in sign |
| GroupUtilities.ComputePlanckEnergyFractions | src/radiation_system.hpp:245-268 | the loop's result is the specification PlanckEnergyFractions: [1.0] for one group, otherwise the Planck-integral increments over the groups divided by their total, or None when k_B T or the total is zero |
| GroupUtilities.RawFractionsTelescope | src/radiation_system.hpp:256-262 | the group increments add up to P(b_last u) - P(b_0 u) |
| GroupUtilities.DifferencesTelescope | src/radiation_system.hpp:257-261 | the differences of neighbouring entries add up to the last entry minus the first |
| GroupUtilities.FractionsSumToOne | src/radiation_system.hpp:250-267 | whenever the fractions are defined they sum to 1 |
| GroupUtilities.FractionsInUnit | src/radiation_system.hpp:255-267 | with a non-decreasing Planck integral, sorted boundaries and T > 0, every fraction lies in [0, 1] |
| GroupUtilities.RawFractionsNonNegative | src/radiation_system.hpp:257-261 | increments of a non-decreasing Planck integral over sorted boundaries are non-negative |
| GroupUtilities.NormalisedInUnit | src/radiation_system.hpp:262-265 | non-negative entries divided by their non-zero total lie in [0, 1] |
| GroupUtilities.PartLeTotal | src/radiation_system.hpp:262 | an entry of a non-negative vector is at most the vector's sum |
| GroupUtilities.ThermalRadiation | src/radiation_system.hpp:271-285 | the thermal radiation is defined exactly when the Planck fractions are, has one entry per group, and every entry is at least Erad_floor_ |
| GroupUtilities.ComputeThermalRadiation | src/radiation_system.hpp:271-285 | the method's result is the specification ThermalRadiation |
| GroupUtilities.ScaleAndFloor | src/radiation_system.hpp:276-283 | the in-place floor loop leaves each group's share of a_r T^4 raised to the floor |
| GroupUtilities.ThermalRadiationFloored | src/radiation_system.hpp:277-283 | each group is max(share, floor): at least the floor, and exactly the share when that reaches the floor |
| GroupUtilities.ThermalRadiationTotal | src/radiation_system.hpp:271-285 | when the floor bites nowhere the groups add up to a_r T^4 |
| GroupUtilities.SharesTotal | src/radiation_system.hpp:276-277 | shares of fractions that sum to 1 add up to the power |
| GroupUtilities.ThermalRadiationTempDerivative | src/radiation_system.hpp:287-295 | the derivative is defined exactly when T != 0 and has one entry per group |
| GroupUtilities.TempDerivativeIsExact | src/radiation_system.hpp:292-294 | where the floor does not bite, 4 erad / T equals the exact derivative 4 a_r T^3 f_g of the share a_r T^4 f_g |
| GroupUtilities.ComputeRadQuantityExponents | src/radiation_system.hpp:911-953 | the method's result is the specification RadQuantityExponents |
| GroupUtilities.ComputeLogSlopes | src/radiation_system.hpp:923-941 | the first loop yields the log-slopes between neighbouring bin centres, or None when a division is by zero or the centres do not increase |
| GroupUtilities.SlopesComplete | src/radiation_system.hpp:923-941 | slopes the loop found defined at every group are the log-slopes of the whole grid |
| GroupUtilities.ComputeLimitedExponents | src/radiation_system.hpp:942-950 | the second loop yields the limited exponents, or None when one has size 100 or more |
| GroupUtilities.SlopeUndefined | src/radiation_system.hpp:926-939 | one undefined log-slope makes the whole computation fail |
| GroupUtilities.ExponentsLimited | src/radiation_system.hpp:942-947 | the exponents are 0 at the first and last group and minmod of the neighbouring slopes elsewhere, so no larger than either and 0 where they differ in sign |
| GroupUtilities.ExponentsAreLimitedSlopes | src/radiation_system.hpp:911-953 | a successful result limits the log-slopes and every exponent has size below 100 |
| GroupUtilities.LimitedExponentsLaws | src/radiation_system.hpp:942-950 | exponents that pass the \|exponent\| < 100 test limit the slopes |
| GroupUtilities.SignChangeExponent | src/radiation_system.hpp:930-935 | where the means change sign the slope is +-inf, so minmod takes the other side's slope when that has the same sign and gives 0 at a local extremum |
| GroupUtilities.ComputeGroupMeanOpacity | src/radiation_system.hpp:955-983 | the method's result is the specification GroupMeanOpacity, evaluated group by group |
| GroupUtilities.FlatOpacityMean | src/radiation_system.hpp:965-979 | a group whose opacity exponent is zero has mean opacity kappa_lower |
| GroupUtilities.PowerLawIntegralBranches | src/radiation_system.hpp:966-978 | the log branch applies exactly when \|alpha\| < 1e-8; otherwise the integral is (r^alpha - 1) / alpha |
| GasEnergy.MomentumSquared | src/radiation_system.hpp:998 | p^2 is non-negative and zero for a gas at rest |
| GasEnergy.KineticEnergy | src/radiation_system.hpp:998-999 | the kinetic energy is defined exactly when rho != 0, satisfies Ekin (2 rho) = p^2, and is non-negative for rho > 0 |
| GasEnergy.EintFromEgas | src/radiation_system.hpp:994-1003 | the internal energy is defined exactly when rho != 0 and Etot - Ekin > 0 (the source's assertion), is positive, and adds to Ekin to give Etot |
| GasEnergy.EgasFromEint | src/radiation_system.hpp:1005-1013 | the total energy is defined exactly when rho != 0 and exceeds Eint by the kinetic energy |
| GasEnergy.EgasOfEint | src/radiation_system.hpp:994-1013 | converting a total energy to internal energy and back gives it again |
| GasEnergy.EintOfEgas | src/radiation_system.hpp:994-1013 | converting a positive internal energy to total energy and back gives it again |
| GasEnergy.EintAtMostEgas | src/radiation_system.hpp:998-1000 | with rho > 0 the internal energy is at most the total energy, and equal to it for a gas at rest |
| EquationOfState.DefaultTraits | src/EOS.hpp:17-27 | the default traits have gamma = 5/3 and the cgs Boltzmann constant 1.380658e-16 |
| EquationOfState.SpecificHeat | src/EOS.hpp:48 | c_v is defined exactly when gamma != 1 and mu != 0, and then c_v mu (gamma - 1) = k_B |
| EquationOfState.TgasFromEint | src/EOS.hpp:42-52 | the temperature is defined exactly when c_v is and rho c_v != 0, and then T rho c_v = Eint |
| EquationOfState.EintFromTgas | src/EOS.hpp:54-64 | the internal energy is defined exactly when c_v is, that is when gamma != 1 |
| EquationOfState.EintTempDerivative | src/EOS.hpp:66-76 | the derivative is defined exactly when c_v is, whatever the temperature |
| EquationOfState.DefinedTogether | src/EOS.hpp:46-75 | all three functions are defined exactly when c_v is, and all are undefined (NaN in the source) for gamma == 1 |
| EquationOfState.EintRoundTrip | src/EOS.hpp:42-64 | energy to temperature and back gives the energy again |
| EquationOfState.TgasRoundTrip | src/EOS.hpp:42-64 | temperature to energy and back gives the temperature again when rho c_v != 0 |
| EquationOfState.DerivativeIsSlope | src/EOS.hpp:54-76 | Eint(T) = (dEint/dT) T, so Eint(T) / T is the derivative for T != 0 |
| EquationOfState.SpecificHeatPositive | src/EOS.hpp:48 | gamma > 1, mu > 0 and k_B > 0 give c_v > 0 |
| EquationOfState.TemperaturePositive | src/EOS.hpp:49 | positive energy, density and specific heat give a positive temperature |
| Iteration.Run | src/radiation_system.hpp:1262-1358 | the bounded loop returns what the recursive specification Drive returns: the first iteration's exit or error, or the give-up error once the limit is reached |
| Iteration.StopsAtFirstDone | src/radiation_system.hpp:1262-1358 | a successful result comes from the first iteration that does not move on, below the limit, reached by moving on through every earlier one |
| Iteration.GivesUpIffAlwaysMovesOn | src/radiation_system.hpp:1358 | the loop gives up (the source's fatal assertion ite < max_ite) exactly when every iteration up to the limit moves on |
| Iteration.ErrorsFromIterations | src/radiation_system.hpp:1262-1358 | an error no iteration reports, other than the give-up error, is never the loop's result |
| Iteration.ResultSatisfies | src/radiation_system.hpp:1312-1314 | a property every exit has (here: the tolerance test that exits the loop) holds of the loop's successful result |
| RadhydroSimulation.MinCellSize | src/RadhydroSimulation.hpp:345 | dx_min is one of the cell sizes and no larger than any of them |
| RadhydroSimulation.RadiationTimestep | src/RadhydroSimulation.hpp:343-346 | dtrad_tmp chat = CFL dx_min, and dtrad_tmp is positive for a positive CFL number and positive cell sizes |
| RadhydroSimulation.Ceil | src/RadhydroSimulation.hpp:353 | ceil(x) is the least integer at or above x |
| RadhydroSimulation.Substeps | src/RadhydroSimulation.hpp:348-363 | an accepted plan has 1 <= nsubSteps < 10000, dt_radiation > 0 and nsubSteps dt_radiation = dt_hydro; with hydro disabled nsubSteps stays 0 and the first assertion fails |
| RadhydroSimulation.SubstepsSucceedIff | src/RadhydroSimulation.hpp:350-363 | with dtrad_tmp > 0 the assertions hold exactly when hydro is enabled and 0 < dt_hydro <= 9999 dtrad_tmp, and then dt_radiation <= dtrad_tmp |
| RadhydroSimulation.BoundByCount | src/RadhydroSimulation.hpp:353-362 | ceil(dt_hydro / dtrad_tmp) < 10000 exactly when dt_hydro <= 9999 dtrad_tmp |
| RadhydroSimulation.SubcycledSnoc | src/RadhydroSimulation.hpp:367-371 | in the corrected subcycle each substep after the first starts from the previous substep's result |
| RadhydroSimulation.SubcycledIsPower | src/RadhydroSimulation.hpp:367-371 | when the substep from a state to itself is step, the corrected subcycle applies step once per substep |
| RadhydroSimulation.AsWrittenRestarts | src/RadhydroSimulation.hpp:367-447 | as written, for stages whose substep result depends only on state_old_, every substep count gives the result of one substep; the source's own stages are not of this kind (see AsWrittenGasAccumulates) |
| RadhydroSimulation.AsWrittenGasAccumulates | src/RadhydroSimulation.hpp:367-447 | for stages shaped like the source's (radiation restarted from state_old_, gas updated in state_new_ by the source terms), a substep depends on state_new_, and two substeps as written advance the radiation once and the gas twice; corrected, both twice |
| RadhydroSimulation.AsWrittenLosesSubsteps | src/RadhydroSimulation.hpp:367-371 | concretely, two substeps that each advance the state by one unit advance it by one as written and by two when corrected |
| RadhydroSimulation.Level.constructor | src/RadhydroSimulation.hpp:187 | a level starts with the two given states |
| RadhydroSimulation.Level.SwapStates | src/RadhydroSimulation.hpp:186-187 | the old and new states change places |
| RadhydroSimulation.Level.AdvanceRadiationSubstep | src/RadhydroSimulation.hpp:375-448 | the new state is PredictStep from the old state, then AddFluxesRK2 from the old and intermediate states, then the source terms, in that order; the old state is kept |
| RadhydroSimulation.Level.SubcycleRadiationAsWritten | src/RadhydroSimulation.hpp:338-372 | the plan is Substeps; on an error nothing changes; otherwise the new state is nsubSteps substeps each started from the unchanged state_old_ |
| RadhydroSimulation.Level.SubcycleRadiation | src/RadhydroSimulation.hpp:338-372 | the corrected subcycle: the plan is Substeps and the new state is nsubSteps substeps, each started from the previous one's result |
| RadhydroSimulation.Level.AdvanceHydro | src/RadhydroSimulation.hpp:186-250 | the states are swapped, and the new state is the two hydro stages from the swapped old state when hydro is enabled |
| RadhydroSimulation.Level.AdvanceLevel | src/RadhydroSimulation.hpp:180-260 | a level step as written: swap, the hydro stages when enabled, then, when radiation is enabled, the as-written subcycle; state_old_ stays the swapped state and state_new_ is SubcycledAsWritten from it |
| RadhydroSimulation.Level.AdvanceLevelCorrected | src/RadhydroSimulation.hpp:180-260 | the level step with the corrected subcycle: the final states are those of Subcycled and SubcycledOld |
| RadhydroSimulation.CurvatureTagPositive | src/RadhydroSimulation.hpp:162-172 | with rho > 0 a cell is tagged exactly when \|d2x rho + d2y rho\| > 0.01 rho |
| RadhydroSimulation.LinearDensityNotTagged | src/RadhydroSimulation.hpp:162-172 | a density linear across the stencil is never tagged |
| RadhydroSimulation.NegativeDensityNotTagged | src/RadhydroSimulation.hpp:171-172 | a negative density is never tagged |
| RadhydroSimulation.ErrorEst | src/RadhydroSimulation.hpp:148-177 | each tag afterwards is its old value or the curvature rule at that cell, and the rule sets exactly the cells it selects |
| SourceTerms.KappaRatioLaw | src/radiation_system.hpp:1192-1198 | kappaPoverE is kappa_P / kappa_E where kappa_E > 0 and exactly 1 where kappa_E <= 0 |
| SourceTerms.Thermal | src/radiation_system.hpp:1175 | the thermal radiation, when defined, has one entry per group |
| SourceTerms.EnergyGuessBalances | src/radiation_system.hpp:1294-1299 | where tau > 0 the energy guess is the E at which tau (B - E / kappaPoverE) + work equals R; where tau <= 0 the previous guess is kept |
| SourceTerms.Evaluate | src/radiation_system.hpp:1264-1309 | a successful residual evaluation has one entry per group and a non-negative temperature (the source's assertion T_gas >= 0) |
| SourceTerms.Assemble | src/radiation_system.hpp:1282-1309 | the evaluation carries the temperature and thermal radiation it was assembled at, with one entry per group |
| SourceTerms.EvaluateAssembles | src/radiation_system.hpp:1264-1309 | a successful evaluation is the assembly at the temperature of Egas_guess |
| SourceTerms.EvaluatesWhenOk | src/radiation_system.hpp:1264-1309 | the evaluation succeeds with ev exactly when ev is the spelled-out evaluation of the state |
| SourceTerms.AssemblyBalances | src/radiation_system.hpp:1290-1299 | an evaluation is consistent with its state: R = tau0 D, each active group's guess balances its exchange equation, and inactive groups keep their energy |
| SourceTerms.GuessesBalance | src/radiation_system.hpp:1290-1299 | every group's energy guess solves tau (B - E / ratio) + work = R where tau > 0, and keeps the previous energy where tau <= 0 |
| SourceTerms.Jacobian | src/radiation_system.hpp:1324-1341 | the Jacobian system has dF_G/dEgas = 1, dF_G/dD_g = (c / chat) tau0_g and right-hand side (-F_G, -F_D); a group with tau <= 0 has the row that makes its correction 0 |
| SourceTerms.NewtonSystem | src/radiation_system.hpp:1316-1338 | the system, when defined, has one entry per group |
| SourceTerms.Step | src/radiation_system.hpp:1341-1350 | a Newton step gives a state with one entry per group and keeps the evaluated radiation energies |
| SourceTerms.StepSolvesJacobian | src/radiation_system.hpp:1341-1350 | a Newton step's corrections (dEgas, dD) solve the Jacobian system, and D is unchanged in every group with tau <= 0 |
| SourceTerms.NewtonIteration | src/radiation_system.hpp:1262-1356 | an iteration that moves on hands on a state with one entry per group |
| SourceTerms.NewtonSolve | src/radiation_system.hpp:1262-1358 | the Newton loop method returns the specification NewtonLoop: at most 400 iterations from the given state |
| SourceTerms.NewtonDoneIsConverged | src/radiation_system.hpp:1312-1314 | an iteration that exits has evaluated its state and found \|F_G / Etot0\| < 1e-11 and (c / chat) sum \|F_D\| / Etot0 < 1e-11 |
| SourceTerms.NewtonNextIsStep | src/radiation_system.hpp:1312-1350 | an iteration that moves on had an unconverged evaluation and a defined Newton step |
| SourceTerms.NewtonExitConverged | src/radiation_system.hpp:1262-1358 | a successful Newton loop returns an iterate reached in fewer than 400 steps whose residuals are within tolerance |
| SourceTerms.NewtonIterationOwnErrors | src/radiation_system.hpp:1264-1343 | single iterations fail only with undefined values or a negative temperature, never with the give-up error |
| SourceTerms.NewtonLoopErrors | src/radiation_system.hpp:1262-1358 | the Newton loop never reports the positivity or outer-loop errors |
| SourceTerms.NewtonDivergesIffNeverConverged | src/radiation_system.hpp:1358 | the fatal "Newton-Raphson iteration failed to converge!" happens exactly when all 400 iterations evaluate, are unconverged and take a defined step |
| SourceTerms.ResidualsMeasureEnergy | src/radiation_system.hpp:1301-1309 | with every group active, F_G + (c / chat) sum F_D = Egas + (c / chat) sum E - Etot0 |
| SourceTerms.ResidualSums | src/radiation_system.hpp:1302 | summing F_D = E - E0 - (R + Src) over the groups |
| SourceTerms.AssemblyMeasuresEnergy | src/radiation_system.hpp:1301-1309 | with every group active, an evaluation's residuals measure the energy error and \|sum F_D\| is at most the sum of \|F_D\| |
| SourceTerms.ConvergedConservesEnergy | src/radiation_system.hpp:1312-1314 | a converged evaluation holds the total energy: \|Egas + (c / chat) sum E - Etot0\| < 2e-11 Etot0 |
| SourceTerms.ExitConservesEnergy | src/radiation_system.hpp:1262-1358 | the state a converged Newton loop exits with holds the initial total energy Etot0 to within twice the tolerance (Etot0 is computed at line 1104) |
| SourceTerms.EvaluationActive | src/radiation_system.hpp:1290 | with positive density, time step and kappa_E, every group of an evaluation has tau > 0 |
| SourceTerms.NewtonExitDepths | src/radiation_system.hpp:1290 | the final evaluation's optical depths are dt rho kappa_E chat at its temperature |
| SourceTerms.AbsResidualSum | src/radiation_system.hpp:1303-1309 | with every group active, \|sum F_D\| is at most the masked sum of \|F_D\| the test uses |
| SourceTerms.StageStep | src/radiation_system.hpp:1021-1024 | the stage time step is the whole radiation step in stage 1 and (1 - a32) = half of it in stage 2 |
| SourceTerms.Sources | src/radiation_system.hpp:1065-1068 | one source Src_g = dt chat S_g per group |
| SourceTerms.GasUpdateFactor | src/radiation_system.hpp:1117-1120 | the gas receives a32 = 0.5 of the change in stage 1 and all of it otherwise |
| SourceTerms.PrepareTotal | src/radiation_system.hpp:1100-1105 | the setup's Etot0 = Eint0 + (c / chat)(sum E0 + sum Src), its sources are the stage's, and its time step is positive with the radiation step |
| SourceTerms.SetupPositive | src/radiation_system.hpp:1060-1131 | the assertions min(Erad0) > 0, min(Src) >= 0 and Egas0 > 0 make Etot0 positive and the setup fit the iteration |
| SourceTerms.FloorOne | src/radiation_system.hpp:1241-1246 | tau0 floored at 1: at least 1, and unchanged above 1 |
| SourceTerms.PassStart | src/radiation_system.hpp:1172-1248 | the first part of an outer pass gives a Newton context and D, R with one entry per group |
| SourceTerms.Launch | src/radiation_system.hpp:1238-1248 | the Newton context keeps the cell's initial radiation energies, density, Etot0, Egas0, sources and time step |
| SourceTerms.InitialStateRecovers | src/radiation_system.hpp:1238-1292 | the first Newton state recovers the explicit estimate: tau0 D0 = R in every group, tau0 floored at 1 |
| SourceTerms.Implicit | src/radiation_system.hpp:1452-1455 | the backward-Euler update satisfies denom F1 = F0 + v_term component by component |
| SourceTerms.FluxUpdate | src/radiation_system.hpp:1407-1459 | the flux update is defined exactly when c E != 0 and 1 + F_coeff != 0, where the source would divide by zero |
| SourceTerms.FluxUpdates | src/radiation_system.hpp:1401-1511 | the updated fluxes, when defined, have one entry per group |
| SourceTerms.VelocityTermsAtRest | src/radiation_system.hpp:1421-1450 | in a gas at rest every velocity term vanishes |
| SourceTerms.AbsorptionOnly | src/radiation_system.hpp:1455 | without velocity terms and with 1 + F_coeff >= 1 no flux component grows or changes sign |
| SourceTerms.FluxAtRest | src/radiation_system.hpp:1418-1455 | in a gas at rest the flux update is F1 = F0 / (1 + F_coeff) |
| SourceTerms.MomentumConserved | src/radiation_system.hpp:1458-1515 | gas momentum plus radiation momentum sum F / (c chat) is the same before and after the flux update, component by component |
| SourceTerms.DragSum | src/radiation_system.hpp:1399-1458 | the momentum change is the radiation momentum lost, -sum (F1 - F0) / (c chat) |
| SourceTerms.DragQuotients | src/radiation_system.hpp:1458 | each group's drag is its flux component's loss divided by c chat |
| SourceTerms.PassFinish | src/radiation_system.hpp:1358-1599 | the rest of the pass succeeds only when Egas_guess > 0 and no radiation energy is negative (the always-on assertions), keeps the Newton result, and satisfies the momentum and energy bookkeeping |
| SourceTerms.Conclude | src/radiation_system.hpp:1513-1599 | the end of a pass keeps the context, the Newton result, its energies and the new fluxes |
| SourceTerms.ConcludeLaws | src/radiation_system.hpp:1513-1527 | the gas momentum is the old one plus the change that conserves the total momentum, and the internal energy gives up exactly the kinetic energy gained |
| SourceTerms.OuterStart | src/radiation_system.hpp:1097-1100 | the first outer state has EradVec_guess = Erad0 and a zero work term |
| SourceTerms.OuterIteration | src/radiation_system.hpp:1124-1599 | a pass that moves on hands on a state with one entry per group |
| SourceTerms.OuterPass | src/radiation_system.hpp:1124-1599 | one outer iteration with its Newton loop run by the loop method is the specification OuterIteration |
| SourceTerms.OuterSolve | src/radiation_system.hpp:1122-1602 | the full-step loop method returns the specification OuterLoop: at most 5 passes |
| SourceTerms.OuterExitSettled | src/radiation_system.hpp:1595-1600 | a successful outer loop stops at a pass whose work term settled after a converged Newton solve, with Egas_guess > 0 and no negative radiation energy |
| SourceTerms.OuterDoneSettles | src/radiation_system.hpp:1595-1600 | an outer iteration that exits has settled |
| SourceTerms.OuterIterationOwnErrors | src/radiation_system.hpp:1124-1599 | outer iterations never fail with the outer loop's give-up error |
| SourceTerms.OuterDivergesIffNeverSettles | src/radiation_system.hpp:1602 | the fatal "AddSourceTerms iteration failed to converge!" happens exactly when all 5 passes succeed without the work term settling |
| SourceTerms.Store | src/radiation_system.hpp:1607-1628 | the stored cell has the same density, the last pass's radiation energies and fluxes, and one entry per group |
| SourceTerms.SourceUpdate | src/radiation_system.hpp:1016-1632 | a successful cell update keeps the density and the group count, and a non-positive initial radiation energy is an error |
| SourceTerms.AddSourceTerms | src/radiation_system.hpp:1016-1632 | the per-cell method returns the specification SourceUpdate |
| SourceTerms.UpdateStores | src/radiation_system.hpp:1607-1628 | a successful update met the source's assertions and stores a pass of the outer loop for the setup Prepare computes (the assertions are at lines 1060-1131) |
| SourceTerms.UpdateSettles | src/radiation_system.hpp:1595-1628 | the pass a successful update stores has settled |
| SourceTerms.UpdateSharesMomentum | src/radiation_system.hpp:1607-1612 | the gas momentum changes by the stage's share of the momentum the radiation gives up: a32 of it in stage 1, all of it in stage 2 |
| SourceTerms.StoreMomentum | src/radiation_system.hpp:1607-1609 | storing a pass with factor f changes the gas momentum by f times the radiation momentum the pass's flux update gave up |
| SourceTerms.KeptShares | src/radiation_system.hpp:1607-1609 | when gas plus radiation momentum is kept by dMomentum, adding f dMomentum gives the gas f times the radiation's loss (the momentum law is at lines 1513-1515) |
| SourceTerms.FullUpdateConservesEnergy | src/radiation_system.hpp:1016-1632 | stage 2 stores the whole update and conserves the total energy Egas + (c / chat) sum E, plus the injected (c / chat) sum Src, to within 2e-11 Etot0 |
| SourceTerms.StoreHeld | src/radiation_system.hpp:1613-1623 | storing a whole pass that holds Etot0 gives a cell that conserves the total energy |
| SourceTerms.UpdateHeldEnergy | src/radiation_system.hpp:1262-1358 | the pass a successful update stores holds the Etot0 the setup computed (Etot0 is computed at line 1104) |
| SourceTerms.ShiftHeld | src/radiation_system.hpp:1613-1616 | the stored total energy is Egas_guess plus the initial kinetic energy, so the bound moves from the Newton unknowns to the cell |
| SourceTerms.SettledConservesEnergy | src/radiation_system.hpp:1262-1358 | the pass that ends the loop holds Etot0 to within twice the residual tolerance when every group is active (the loop exits at lines 1595-1600) |
| SourceTerms.StoreWhole | src/radiation_system.hpp:1607-1616 | with factor 1 the store keeps the pass's momentum and its total energy is Egas_guess plus Ekin0 |
| DiagBase.FieldIndex | src/DiagBase.cpp:68-81 | the index found is the first entry equal to the name, and there is none exactly when the name is not in the list |
| DiagBase.FieldIndexOfEntry | src/DiagBase.cpp:68-81 | in a list without repeated names, looking up entry i gives i |
| DiagBase.FieldIndexAppend | src/DiagBase.cpp:60-81 | a name already in the list keeps its index when entries are appended |
| DiagBase.GetFieldIndex | src/DiagBase.cpp:68-81 | the scan that stops at the first match returns the first index of the name, and the not-found error exactly when the name is absent |
| DiagBase.GetFieldIndexVec | src/DiagBase.cpp:83-90 | the result has one index per name, entry n being the index of name n, and the first missing name aborts with its own error |
| DiagBase.FilterVars | src/DiagBase.cpp:60-66 | one variable per filter, in filter order |
| DiagBase.Diagnostic.constructor | src/DiagBase.cpp:4-27 | the diagnostic holds the given interval, period and filters, one of interval and period being positive as the source asserts |
| DiagBase.Diagnostic.DoDiagAtMultiples | src/DiagBase.cpp:47-58 | doDiag holds exactly when the interval is positive and divides nstep, whatever the time |
| DiagBase.Diagnostic.AddVars | src/DiagBase.cpp:60-66 | the list afterwards is the old list followed by every filter's variable in filter order |
| DiagBase.AddVarsLookup | src/DiagBase.cpp:60-81 | after addVars every filter variable can be looked up, and every name already there keeps its index |
| CloudyDataReader.CoolUnitPositive | src/CloudyDataReader.cpp:45-51 | with positive units the cooling unit is positive |
| CloudyDataReader.GridDimensions | src/CloudyDataReader.cpp:37-89 | a rank above CLOUDY_MAX_DIMENSION aborts; otherwise there are CLOUDY_MAX_DIMENSION dimensions, the first grid_rank read from the file and the rest 0 |
| CloudyDataReader.DataSize | src/CloudyDataReader.cpp:121-125 | data_size is the product of the first grid_rank dimensions |
| CloudyDataReader.ProductZeroIff | src/CloudyDataReader.cpp:121-125 | with no negative dimension the size is non-negative, and zero exactly when some dimension is zero |
| CloudyDataReader.RankTwoSize | src/CloudyDataReader.cpp:138-140 | a rank-2 table holds dims[0] dims[1] entries, the extent of the Table2D view |
| CloudyDataReader.ConvertedRateFloor | src/CloudyDataReader.cpp:142-171 | a positive rate becomes the fast log10 of its value in code units, and a rate that is not positive becomes small_fastlog_value |
| CloudyDataReader.ConvertRates | src/CloudyDataReader.cpp:142-171 | every entry of the table is rewritten in place by that conversion of its old value |
| CloudyDataReader.RunningMinUnique | src/CloudyDataReader.cpp:111 | a running minimum is determined: any two results agree (T_min here; mmw_min at line 193 is the same fold) |
| CloudyDataReader.ConvertTemperatures | src/CloudyDataReader.cpp:105-113 | each temperature is replaced by its log10, and T_min and T_max are the minimum and maximum of the start value and the temperatures read |
| CloudyDataReader.MmwRange | src/CloudyDataReader.cpp:191-195 | mmw_min and mmw_max are the minimum and maximum of the start values and every entry |
| CloudyDataReader.Transpose | src/CloudyDataReader.cpp:216-221 | the transpose has the dimensions swapped and entry (j, i) equal to entry (i, j) of the grid |
| CloudyDataReader.TransposeTwice | src/CloudyDataReader.cpp:202-225 | transposing twice gives the grid back |
| CloudyDataReader.Extract2dTable | src/CloudyDataReader.cpp:202-225 | the new lower bounds are the old ones swapped, the inclusive upper bounds are one below the swapped exclusive ends, and the new table is the transpose of the input |
| CloudyDataReader.Copy1dTable | src/CloudyDataReader.cpp:227-241 | the copy keeps the first index, has inclusive upper bound end - 1, and holds the same entries |
| RadhydroPulseGrey.InitialTgasShape | src/RadhydroPulseGrey/test_radhydro_pulse_grey.cpp:17-23 | the initial profile is even in x, equals T1 at x = 0, and lies in (T0, T1] when exp maps into (0, 1] (the profile is used at lines 85-91) |
| RadhydroPulseGrey.DriftBelowPixel | src/RadhydroPulseGrey/test_radhydro_pulse_grey.cpp:287-291 | for a forward move n_p >= 0 and the drift lies in [0, dx) |
| RadhydroPulseGrey.Shift | src/RadhydroPulseGrey/test_radhydro_pulse_grey.cpp:290-292 | for n_p >= 0 the shift lies strictly between -nx and nx |
| RadhydroPulseGrey.ShiftRange | src/RadhydroPulseGrey/test_radhydro_pulse_grey.cpp:290-292 | for n_p >= 0 the shift lies in [-half, nx - half) |
| RadhydroPulseGrey.ShiftCongruent | src/RadhydroPulseGrey/test_radhydro_pulse_grey.cpp:292 | the shift differs from n_p by a multiple of nx |
| RadhydroPulseGrey.RemapIndex | src/RadhydroPulseGrey/test_radhydro_pulse_grey.cpp:301-314 | for a shift strictly between -nx and nx, index_ lies in [0, nx) |
| RadhydroPulseGrey.SourceIndex | src/RadhydroPulseGrey/test_radhydro_pulse_grey.cpp:300-326 | the inverse map sends each slot to a cell in [0, nx) |
| RadhydroPulseGrey.RemapBijection | src/RadhydroPulseGrey/test_radhydro_pulse_grey.cpp:300-326 | index_ and its inverse are inverse bijections of [0, nx) |
| RadhydroPulseGrey.RemapInjective | src/RadhydroPulseGrey/test_radhydro_pulse_grey.cpp:300-326 | two cells are never stored in the same slot |
| RadhydroPulseGrey.RemapIsModulo | src/RadhydroPulseGrey/test_radhydro_pulse_grey.cpp:301-314 | in both sign branches index_ = (i - shift) mod nx |
| RadhydroPulseGrey.RemapIsCyclicShift | src/RadhydroPulseGrey/test_radhydro_pulse_grey.cpp:289-314 | with the source's shift, cell i is stored at (i - n_p) mod nx |
| RadhydroPulseGrey.RemapProfile | src/RadhydroPulseGrey/test_radhydro_pulse_grey.cpp:300-326 | cell i ends up at slot index_, and every slot holds exactly the cell the inverse map names, so each slot is written once |
| RadhydroPulseGrey.ErrorTerms | src/RadhydroPulseGrey/test_radhydro_pulse_grey.cpp:333-336 | one non-negative error term per cell |
| RadhydroPulseGrey.SymmetryTerms | src/RadhydroPulseGrey/test_radhydro_pulse_grey.cpp:349-350 | one non-negative symmetry term per cell, pairing cell i with cell nx - 1 - i |
| RadhydroPulseGrey.ErrorNorms | src/RadhydroPulseGrey/test_radhydro_pulse_grey.cpp:329-339 | err_norm and sol_norm are the sums of the per-cell terms |
| RadhydroPulseGrey.SymmetryNorms | src/RadhydroPulseGrey/test_radhydro_pulse_grey.cpp:345-352 | symm_err and symm_norm are the sums of the per-cell terms |
| RadhydroPulseGrey.ErrorNormZeroIff | src/RadhydroPulseGrey/test_radhydro_pulse_grey.cpp:333-339 | the error norm is non-negative, and zero exactly when Tgas, Trad2 and Tgas2 all equal Trad |
| RadhydroPulseGrey.SymmetryErrorZeroIff | src/RadhydroPulseGrey/test_radhydro_pulse_grey.cpp:349-352 | the symmetry error is non-negative, and zero exactly when the profile reads the same from both ends |
| RadhydroPulseGrey.StatusZeroIff | src/RadhydroPulseGrey/test_radhydro_pulse_grey.cpp:341-353 | the status is 0 or 1; a zero norm (NaN or infinite relative error) fails; with positive norms the test passes exactly when each error is within 1e-3 of its norm (the status is returned at lines 414-418) |
| MetalAdvectionProblem.BracketFrom | src/MetalAdvectionProblem/test_sne.cpp:55-58 | the search stops at the first node whose successor is at least the query point, or at the last node |
| MetalAdvectionProblem.ScanPastEnd | src/MetalAdvectionProblem/test_sne.cpp:53-67 | on an increasing table a query beyond the last abscissa stops the scan at the last node, so x[i + 1] is read one past the end |
| MetalAdvectionProblem.LinearInterpolate | src/MetalAdvectionProblem/test_sne.cpp:53-67 | the scan and straight-line formula compute Interpolate of the tables, with no value where two bracketing abscissae coincide |
| MetalAdvectionProblem.BracketLeast | src/MetalAdvectionProblem/test_sne.cpp:55-58 | on a strictly increasing table with the point below its last node, the bracket is an interval [x[i], x[i+1]] holding the point |
| MetalAdvectionProblem.LerpAtEnds | src/MetalAdvectionProblem/test_sne.cpp:61-66 | the straight line through two points passes through both |
| MetalAdvectionProblem.InterpolateAtNodes | src/MetalAdvectionProblem/test_sne.cpp:53-67 | on a strictly increasing table, interpolating at a node gives the tabulated value |
| MetalAdvectionProblem.LerpBetween | src/MetalAdvectionProblem/test_sne.cpp:61-66 | between the two abscissae the line lies between the two ordinates |
| MetalAdvectionProblem.InterpolateBounded | src/MetalAdvectionProblem/test_sne.cpp:53-67 | inside the table's range the interpolant is defined and lies between the values at the bracketing nodes |
| MetalAdvectionProblem.GradFixedPotential | src/MetalAdvectionProblem/test_sne.cpp:551-574 | the potential gradient has no x or y component, and its z component depends on z alone |
| MetalAdvectionProblem.StrangSplitKeepsEint | src/MetalAdvectionProblem/test_sne.cpp:595-636 | the kick keeps density and the stored internal energy, changes each momentum by -dt rho gradPhi, and the new total energy implies the old internal energy |
| MetalAdvectionProblem.FixedPotentialKickVertical | src/MetalAdvectionProblem/test_sne.cpp:560-564 | with the fixed potential the horizontal momenta are unchanged (the kick is applied at lines 627-628) |
| MetalAdvectionProblem.AddStrangSplitSources | src/MetalAdvectionProblem/test_sne.cpp:577-639 | the pass succeeds exactly when every cell's energy conversion succeeds, and then every cell is its old value kicked by the gradient at its centre |
| MetalAdvectionProblem.DiodeEdge | src/MetalAdvectionProblem/test_sne.cpp:778-790 | a ghost below the domain copies from klo with normal -1, one above from khi with normal +1 |
| MetalAdvectionProblem.DiodeOutflowOnly | src/MetalAdvectionProblem/test_sne.cpp:792-809 | the ghost's z-momentum never points into the domain, has the edge's magnitude, everything else is the edge cell's, and the internal energy implied is unchanged |
| MetalAdvectionProblem.SetDiodeBoundary | src/MetalAdvectionProblem/test_sne.cpp:768-811 | the ghost cell becomes the diode copy of its edge cell and no other cell of the column changes |
| MetalAdvectionProblem.MetallicityFloor | src/MetalAdvectionProblem/test_sne.cpp:393-399 | with a non-negative tracer and positive density the metallicity is at least ZOinit |
| MetalAdvectionProblem.GradientCentralDifferences | src/MetalAdvectionProblem/test_sne.cpp:419-426 | the corrected indicator is non-negative, zero exactly when each axis' neighbours agree (such a cell is never tagged), and unchanged when every axis is mirrored |
| MetalAdvectionProblem.AsWrittenTagsUniformAxes | src/MetalAdvectionProblem/test_sne.cpp:420-428 | with the y difference taken against the z-minus neighbour, a cell whose neighbours agree along each axis is tagged, which the corrected rule does not do |
| MetalAdvectionProblem.ErrorEst | src/MetalAdvectionProblem/test_sne.cpp:375-436 | as written: each cell's tag afterwards is its old tag or the as-written rule (y difference against the z-minus neighbour) at that cell |
| MetalAdvectionProblem.ErrorEstCorrected | src/MetalAdvectionProblem/test_sne.cpp:375-436 | with central differences on every axis: each cell's tag afterwards is its old tag or Tagged at that cell |
| RandomBlast.IsNormalComp | src/RandomBlast/blast.cpp:309-320 | a component is normal to a direction exactly when it is the momentum along that direction |
| RandomBlast.NormalCompUnique | src/RandomBlast/blast.cpp:309-320 | each direction has exactly one normal component, and density, energies and the scalar are never normal |
| RandomBlast.SelectBoundaryConditions | src/RandomBlast/blast.cpp:322-339 | low and high sides agree; periodic runs use int_dir everywhere, otherwise normal momenta are reflect_odd and everything else reflect_even |
| RandomBlast.NearestInteger | src/RandomBlast/blast.cpp:144-146 | the rounding is within one half of its argument and breaks ties to the even integer, as std::remainder does |
| RandomBlast.Remainder | src/RandomBlast/blast.cpp:144-146 | std::remainder lies within half a period of zero |
| RandomBlast.NearestIntegerIsNearest | src/RandomBlast/blast.cpp:144-146 | no integer is closer to the argument than the chosen one |
| RandomBlast.NearestImage | src/RandomBlast/blast.cpp:143-146 | the remainder is the offset to a periodic image, and no image is nearer |
| RandomBlast.Offset | src/RandomBlast/blast.cpp:139-151 | with periodic boundaries the offset is within half the domain length, otherwise it is the plain difference |
| RandomBlast.Deposit | src/RandomBlast/blast.cpp:156-159 | a deposit adds the same mass to density and scalar and the same energy to total and internal energy, leaving momenta and the kinetic part unchanged |
| RandomBlast.DepositCompose | src/RandomBlast/blast.cpp:138-160 | two deposits add up to one deposit of the summed mass and energy, so the order of the blasts does not matter |
| RandomBlast.Weights | src/RandomBlast/blast.cpp:138-154 | one weight per blast, each the normalised kernel integral over the cell at that blast's offset |
| RandomBlast.InjectIntoCell | src/RandomBlast/blast.cpp:133-161 | the loop over blasts leaves the cell with every blast's weighted deposit applied |
| RandomBlast.InjectEnergy | src/RandomBlast/blast.cpp:102-163 | every cell of the box is its old value with every blast's deposit of M_ejecta and E_blast per cell volume applied |
| RandomBlast.InjectionHeats | src/RandomBlast/blast.cpp:156-159 | with non-negative weights and blast energy the energies never fall, and without ejecta the density is unchanged |
| RandomBlast.WeightsNonNegative | src/RandomBlast/blast.cpp:125-154 | a non-negative kernel gives non-negative weights |
| RandomBlast.CellVolume | src/RandomBlast/blast.cpp:108 | the product of the cell widths, positive for positive widths |
| RandomBlast.CellVolumeCounterexample | src/RandomBlast/blast.cpp:209-211 | for unit cells the as-written cvol is 3 while the cell volume is 1 |
| RandomBlast.MassCheck | src/RandomBlast/blast.cpp:213-225 | the run goes on exactly when the relative mass change is within 1e-10, and reports that change |
| RandomBlast.RelativeErrorScaleFree | src/RandomBlast/blast.cpp:209-214 | any non-zero cvol cancels in the relative error, so the as-written sum gives the same verdict as the volume |
| RandomBlast.NoEjectaPassesMassCheck | src/RandomBlast/blast.cpp:206-226 | blasts without ejecta leave the mass unchanged, so the conservation test passes with zero relative error (blasts carry no ejecta at lines 156-157) |
| RandomBlast.SquaredDifferences | src/RandomBlast/blast.cpp:276-279 | the sum of squared half central differences is non-negative |
| RandomBlast.TaggedWithoutRoot | src/RandomBlast/blast.cpp:276-283 | given a true square root, a cell is tagged exactly when it is above q_min and its squared differences exceed (eta q) squared |
| RandomBlast.UniformNotTagged | src/RandomBlast/blast.cpp:276-283 | a uniform neighbourhood is never tagged |
| RandomBlast.ErrorEst | src/RandomBlast/blast.cpp:255-286 | each cell's tag is set when the rule selects it and earlier tags stay set |
| RandomBlast.BlastData.constructor | src/RandomBlast/blast.cpp:165-198 | a fresh record holds no blasts and a zero counter |
| RandomBlast.BlastData.ComputeBeforeTimestep | src/RandomBlast/blast.cpp:165-198 | the tables are replaced by count new positions, each domain length times its uniform draw, and the cumulative counter grows by count, staying the total of all counts |
| RandomBlast.BlastInsideDomain | src/RandomBlast/blast.cpp:191-195 | a draw in [0, 1) places the blast inside [0, L) |
| RandomBlast.CumulativeEnergy | src/RandomBlast/blast.cpp:185 | the cumulative counter times E_blast is the sum of the energy injected at each step (the counter is declared at line 109) |

## Left out

- Hydrodynamic variables, the other spatial directions and the box/index machinery of AMReX: each model works on one row of cells and on the radiation block (the nstartHyperbolic_ offset is dropped).
- IEEE floating point: NaN, infinities and rounding are not modelled; reals are exact. A division by zero that would produce inf or NaN is excluded by a precondition mirroring the source's assertion, or handled as an error value.
- Hyperbolic.PredictStep and Hyperbolic.AddFluxesRK2: the source asserts `isStateValid` after amending. The model proves this assertion only for a positive floor (StoredValid). With `Erad_floor_ = 0` the assertion can fail (AmendZeroFloorNotValid).
- Fluxes.ComputeFluxes: ComputeCellOpticalDepth and the wave-speed correction are not modelled, because `use_wavespeed_correction` is false by default and epsilon is then {1, 1, 1, 1}.
- Fluxes.ComputeFluxes: each face's group fluxes are computed into a list and then stored. The source writes them group by group. The arrays read and the arrays written are distinct, so the results are the same.
- Fluxes.ComputeFluxes requires the source's assertion `erad > 0` from ComputeRadPressure for the donor cells on the fallback path (FaceInputsAdmissible); the reconstructed path has E_r > 0 by its own test.
- amrex::ParallelFor: modelled as a sequential loop over cells, which gives the same result because each iteration writes only its own cell.
- I/O: the HDF5 reads of initialize_cloudy_data and read_potential, ParmParse in DiagBase::init and in the problems' main functions, printing and plotting. The values they deliver are parameters.
- CloudyDataReader.hpp is not part of this model, so CLOUDY_MAX_DIMENSION and the starting values of T_min, T_max, mmw_min and mmw_max are parameters.
- CloudyDataReader.DataSize: the product is over unbounded integers; the 64-bit overflow of data_size is not modelled.
- Transcendental functions (sqrt, log10 and FastMath::log10, exp, pow, pow10, the Planck integral, the Wendland kernel and quad_3d) are function parameters, with only the laws a proof needs stated as preconditions.
- Randomness: the Poisson count and the uniform draws of computeBeforeTimestep are parameters.
- The problem constants Msun and the tabulated vertical gravity of the supernova test are parameters; CellCentre gives the cell positions.
- NaN tests (std::isnan in the pulse test status): a zero norm, which gives NaN or inf in the source, is modelled as a failing relative error.
- ComputeSourceTermsExplicit: dead code (src/radiation_system.hpp:1632) that calls an undeclared function.
- SourceTerms.SourceUpdate: only the user-opacity path with beta_order 1 is modelled. The piecewise power-law opacity path, the other beta orders with their Lorentz factors, and the work-term switches that are off by default are left out.
- SourceTerms.SourceUpdate: gamma == 1 (the isothermal sound speed branch) is not modelled; the model requires the internal-energy conversion to succeed.
- SetRadEnergySource, ComputeMaxSignalSpeed, balanceMatterRadiation and the opacity default functions are outside the modelled core.
- EOS calls with mass scalars (a signature from another revision of the code) are modelled with the signature of src/EOS.hpp.
- AMReX plumbing: fillBoundaryConditions, flux registers, MFIter boxes, the GPU copy in DiagBase::prepare and the hydro stages themselves. In RadhydroSimulation the hydro and radiation stages are function parameters, so what is proved is their order and the state each reads.
- GroupUtilities.ComputeRadQuantityExponents: the local scratch buffers (bin centres, means, log slopes) are sequences built group by group, not fixed-size arrays.
- RandomBlast: setInitialConditionsOnGrid, the derived temperature variable, and the parameter parsing of problem_main are not modelled. hydro_system.hpp is not part of this model, so the component layout (density, three momenta, energy, internal energy, scalar) is assumed; q_min and the refinement threshold are parameters.
- RandomBlast.MassCheck: the masses printed by computeAfterTimestep are not modelled, only the abort decision.
- RadhydroPulseGrey: the two simulations that produce the profiles and compute_exact_rho are not modelled; the profiles are parameters.
- MetalAdvectionProblem: read_potential, AddSupernova, the initial conditions and the projections are not modelled.
- MetalAdvectionProblem.LinearInterpolate: requires the query to be at most the last abscissa. GetGradFixedPotential (src/MetalAdvectionProblem/test_sne.cpp:570) passes the absolute value of z unchecked, and a value beyond the table makes the source read one past the end of z_data and g_data (ScanPastEnd). That read is undefined in C++, so the model gives it no value.
- MetalAdvectionProblem.SetDiodeBoundary: kedge and normal are unset in the source for a cell inside [klo, khi], so the model requires the cell to be outside.

## Findings

| source | as written | input that shows it | evidently intended | confidence | as-written member | corrected member |
|---|---|---|---|---|---|---|
| src/RadhydroSimulation.hpp:367-371 | every radiation substep reads state_old_, which no substep updates, so the radiation restarts from the same state each substep, while the gas update of the source-term stage in state_new_ accumulates over the substeps | two substeps that each advance the radiation and the gas by one unit as written leave the radiation at 1 and the gas at 2, not 2 and 2 | each substep starts from the previous substep's result | not executed; medium, since state_old_ is swapped only between level steps | RadhydroSimulation.Level.SubcycleRadiationAsWritten, RadhydroSimulation.Level.AdvanceLevel, RadhydroSimulation.AsWrittenGasAccumulates, RadhydroSimulation.AsWrittenLosesSubsteps | RadhydroSimulation.Level.SubcycleRadiation, RadhydroSimulation.Level.AdvanceLevelCorrected, RadhydroSimulation.SubcycledIsPower |
| src/MetalAdvectionProblem/test_sne.cpp:420 | del_scaly takes scal_yplus - scal_zminus; scal_yminus is computed and never used | neighbours x: 1, 1; y: 10, 10; z: 0, 0 around a centre of 1 give grad_scal 5 > 4, so the cell is tagged although each axis is uniform | del_scaly = \|scal_yplus - scal_yminus\| / 2 | not executed; high | MetalAdvectionProblem.AsWrittenTagsUniformAxes, MetalAdvectionProblem.ErrorEst | MetalAdvectionProblem.GradientCentralDifferences, MetalAdvectionProblem.ErrorEstCorrected |
| src/RandomBlast/blast.cpp:209-211 | cvol = dx[0] + dx[1] + dx[2], a sum of cell sizes | unit cells give cvol 3 instead of a volume of 1 | cvol = dx[0] dx[1] dx[2], as in injectEnergy at line 108 | not executed; high. The relative error and the abort decision do not depend on cvol (RelativeErrorScaleFree); only the printed masses are wrong | RandomBlast.CellVolumeCounterexample | RandomBlast.CellVolume |
