# Charge exchange between an ion fluid and neutral particles

This project models the deterministic algebra of the charge-exchange (CX)
collision step in the plasma notes repository. The model uses exact `real`
arithmetic, and the random draws are inputs. Two revisions of the step are
modelled.

- **Scalar revision** (`charge-exchange.py`, module `ScalarCx`):
  - One neutral macro-particle (mass, weight, velocity) exchanges momentum
    with an ion fluid (density, momentum, mass, energy) that has no
    temperature.
  - The ion momentum of each exchange is a normal draw centred on the fluid
    momentum whose standard deviation is the stored fluid energy; a
    negative energy makes the draw fail.
  - Each step clamps the exchanged weight `dw = dt*rate*weight*density` to
    the particle weight.
  - The step then moves the fraction `dw/weight` of the particle onto the
    drawn ion momentum.
  - The fluid takes up the difference, and its energy is recomputed from
    its momentum.
- **Vectorised revision** (`chargeexchange.py`, modules `Fluid`, `Neutrals`
  and `Runner`):
  - The ion fluid carries kinetic energy and temperature.
  - The neutrals are a fixed population of weighted macro-particles sharing
    one mass; an exchange relaxes their velocities in place.
  - `IonFluid.getRandomMom` recentres and rescales a raw normal batch so
    that its mean and spread are exactly the targets. It returns momenta,
    that is the ion mass times the sampled velocities.
  - `Particles.applyCX` sorts the sampled ion momenta and the velocities.
    It pairs them up, moves momentum into and out of the fluid, and relaxes
    each velocity toward its paired ion velocity by `k = dt*rate*density`.
    Nothing clamps `k` to 1.
  - `runner.runCX` fixes the total energy once. After every exchange it
    recomputes the neutral kinetic energy and temperature. It then solves
    the fluid temperature backward from what is left of the total, and
    finally recomputes the fluid kinetic energy from the moments.

Supporting modules:
- `Results` holds the error cases.
- `RealSeq` holds sums, means, population variance, and their linearity,
  affine and permutation lemmas.
- `RealSort` is an insertion sort standing for `np.sort`, together with the
  uniqueness of a sorted permutation.

Abstractions:
- Divisions that would give Python's `ZeroDivisionError` or numpy's
  `inf`/`nan` become `Err` results.
- Element-wise operations on arrays of different lengths become
  `LengthMismatch`. Where numpy would broadcast a one-element array
  instead (the constructor, and the weights or the samples in `applyCX`), the
  case is listed under "Left out".
- A negative `temperature/mass` under `** 0.5` is `NegativeTemperature`.
  In the first iteration the temperature is the Python float given to the
  constructor, the power is a complex number, and `np.random.normal`
  rejects it. From the second iteration the temperature is a numpy float,
  the power is `nan`, and the returned momenta are all `nan`.
- A negative fluid energy in the scalar revision is `NegativeSpread`:
  `np.random.normal` raises `ValueError` for a negative scale.
- `sqrt` and the square root inside `np.std` are a parameter `root`. The
  only assumption about it is that it returns a non-negative square root
  on the non-negative reals (`Fluid.IsSquareRoot`).

Behaviour of the code that the model keeps:
- `updateKineticEnergy` divides the bulk term by the ion mass, while
  `__init__` and `updatetemperature` do not (lines 10, 28 and 31). Energy
  is therefore conserved exactly only for unit ion mass. For other masses
  the model proves the exact size of the drift, `Fluid.BulkMismatch`.
- `Particles.__init__` omits the mass factor in the kinetic energy that
  `updateKineticEnergy` applies (lines 107 and 123).
- `applyCX` sorts `vel` but not `weight`. Momentum is therefore conserved
  against the sorted velocities. That is the momentum before the call
  when the weights are equal or the velocities were already sorted
  (`Neutrals.EqualWeightsConserveMomentum`,
  `Neutrals.SortedConserveMomentum`). Otherwise sorting alone can move
  momentum: `Neutrals.UnequalWeightsShiftMomentum` exhibits two unequal
  weights whose momentum shifts.
- `__init__` and `updatetemperature` (lines 108 and 126) subtract the
  energy of the unweighted mean `np.mean(vel)`, not of the weighted mean.
  For the constructor's energy the temperature is therefore `mass` times
  the weighted variance plus `weightedMean^2 - mean^2`
  (`Neutrals.Temperature`). The gap vanishes for equal weights
  (`Neutrals.EqualWeightsMoments`). With unequal weights it can make the
  temperature negative: `Neutrals.UnweightedMeanTemperature` gives unit
  mass, weights `[1, 100]` and velocities `[10, 0]` a temperature of
  `-2425/101`, although the weighted variance is positive.
- Zero density, weight or mass are not guarded in the code. They are
  division-by-zero errors here, not zero contributions.
- In the scalar loop the clamp branch is taken only when the raw weight
  exceeds the particle weight (`>`). When the two are equal the raw weight
  is kept, which is the same value, so `dw == weight` exactly when the raw
  weight is at least the weight.

## Model

| member | source | states |
|---|---|---|
| ScalarCx.NewIonFluid | charge-exchange.py:7-11 | construction fails exactly when the ion mass is zero; otherwise it keeps mass, density and momentum, and the energy equals the bulk kinetic energy `mom^2/(2*mass)` |
| ScalarCx.IonEnergy | charge-exchange.py:17-19 | twice the mass times the energy is the squared momentum, and the energy is non-negative for a positive mass |
| ScalarCx.ExchangedWeight | charge-exchange.py:67-69 | the exchanged weight never exceeds the particle weight nor the raw `dt*rate*weight*density`, is one of the two, is non-negative for non-negative inputs, equals the weight iff the raw value reaches it, and is below the raw value iff the raw value exceeds the weight |
| ScalarCx.ExchangedVelocity | charge-exchange.py:33-35 | the new velocity is the blend, by `dw/weight`, of the old velocity and the ion velocity `ionMom/mass`; full exchange gives the ion velocity, no exchange the old velocity |
| ScalarCx.ExchangedIonMomentum | charge-exchange.py:32-36 | fluid momentum plus particle momentum after the two updates equals the sum before them; no exchange leaves the fluid momentum unchanged |
| ScalarCx.ApplyCX | charge-exchange.py:28-37 | fails with `NegativeSpread` exactly when the fluid energy (the spread of the draw) is negative, and otherwise with `DivisionByZero` exactly on a zero weight, neutral mass or ion mass; on success it conserves fluid plus particle momentum, blends the velocity by `dw/weight` toward the ion velocity (full and no exchange as special cases), keeps masses, weight and density, leaves the fluid energy consistent with its new momentum, and keeps that energy non-negative for a positive ion mass |
| ScalarCx.Step | charge-exchange.py:67-70 | one loop iteration (clamp, then exchange) fails exactly on a negative fluid energy or a zero weight or mass; on success it keeps masses and weight, conserves total momentum and, for a positive ion mass, leaves a non-negative energy for the next draw |
| ScalarCx.RunCX | charge-exchange.py:65-73 | a successful run over at least one draw started from a non-negative energy and non-zero weight and masses; conversely a positive ion mass with those conditions makes every run succeed, and a run has one record per draw |
| ScalarCx.RunCXConservesMomentum | charge-exchange.py:65-73 | every recorded `ionMom + mass*neutralVel` equals the initial total momentum |
| Fluid.NewIonFluid | chargeexchange.py:5-12 | construction fails exactly on a zero mass, density or volume; otherwise it stores the moments and the kinetic energy is bulk energy plus `density*volume*temperature/2` (the mass cancels) |
| Fluid.SampleIonMomenta | chargeexchange.py:14-25 | sampling fails on zero mass or density, on negative `T/mass` and on a spread-free non-empty batch, and only then; a successful batch has the draws' length, mean exactly `mom/density` and population variance exactly `mass^2*(T/mass)`, whatever the draws |
| Fluid.Recentred | chargeexchange.py:16-18 | for a batch with positive spread the rescaled batch has mean `mass` times the bulk velocity and variance `mass^2` times the thermal speed squared |
| Fluid.Recentre | chargeexchange.py:18 | centring, scaling by `mass*k` and shifting by `c` gives a batch of mean `c` whose variance is `(mass*k)^2` times the original |
| Fluid.SingleDrawIsDegenerate | chargeexchange.py:17-18 | a batch of one draw has no spread, so sampling rejects it |
| Fluid.UpdateKineticEnergy | chargeexchange.py:27-28 | only the kinetic energy changes; it is the bulk energy divided by the mass plus `density*volume*T/2`, which is bulk plus thermal energy for unit mass |
| Fluid.UpdateTemperature | chargeexchange.py:30-31 | only the temperature changes, and bulk plus thermal energy at the new temperature equals the total minus the neutrals' energy |
| Fluid.TemperatureIsUnique | chargeexchange.py:30-31 | a temperature closes the energy balance if and only if it is the one `UpdateTemperature` picks |
| Fluid.EnergyBookkeeping | chargeexchange.py:27-31 | solving the temperature and then recomputing the kinetic energy gives `ions + neutrals == total + bulk*(1/mass - 1)`, and exactly the total for unit mass |
| Fluid.MismatchIgnoresHeat | chargeexchange.py:27-31 | the energy drift of the two bulk terms depends only on the moments, not on kinetic energy or temperature |
| RealSort.Sort | chargeexchange.py:111-112 | the result is sorted, a permutation of the input and of the same length |
| RealSort.SortedPermutationUnique | chargeexchange.py:111-112 | two sorted permutations of one another are equal, so any correct sort gives `Sort` |
| Neutrals.NewParticles | chargeexchange.py:103-108 | for arrays of different lengths construction is `LengthMismatch`; for equal lengths it fails exactly on an empty population (`EmptyBatch`) or a zero total weight (`DivisionByZero`); on success it keeps mass, weights and velocities, the kinetic energy is `1/mass` of what `updateKineticEnergy` computes and non-negative for non-negative weights, the temperature is `Neutrals.Temperature`, which is `mass*(weightedVariance + weightedMean^2 - mean^2)`, and with equal weights it is `mass` times the velocity variance |
| Neutrals.Temperature | chargeexchange.py:107-108 | total weight times the temperature is twice the mass times the energy left after removing `totalWeight*mean(v)^2/2`; for the constructor's energy `sum(w*v^2)/2` the temperature is `mass*(weightedVariance + weightedMean^2 - mean^2)`, and for the recomputed energy `mass/2*sum(w*v^2)` it is `mass*(mass*(weightedVariance + weightedMean^2) - mean^2)` |
| Neutrals.EqualWeightsMoments | chargeexchange.py:107-108 | with equal weights the weighted mean and the weighted variance are the plain mean and the population variance, so the unweighted mean the formula removes is the right one |
| Neutrals.WeightedVarianceNonNegative | chargeexchange.py:107-108 | with non-negative weights the weighted variance is non-negative, so a negative temperature can only come from the gap between the squared weighted and unweighted means |
| Neutrals.UnweightedMeanTemperature | chargeexchange.py:107-108 | unit mass, weights `[1, 100]` and velocities `[10, 0]` construct successfully with temperature `-2425/101`, while the total weight is 101 and the weighted variance is positive |
| Neutrals.InitialTemperature | chargeexchange.py:107-108 | with equal weights the constructor's temperature is `mass` times the population variance of the velocities |
| Neutrals.EqualWeightsTemperature | chargeexchange.py:125-126 | with equal weights the temperature is `mass*(2*h*mean(v^2) - mean(v)^2)` when the stored energy is `h` times the weighted squares |
| Neutrals.UpdateKineticEnergy | chargeexchange.py:122-123 | only the kinetic energy changes; it is non-negative for non-negative mass and weights, and with equal weights it splits into the variance and the energy of the mean velocity |
| Neutrals.KineticEnergyFacts | chargeexchange.py:123 | half the mass times the weighted squares is non-negative for non-negative mass and weights, and with equal weights is `mass/2 * totalWeight * (variance + mean^2)` |
| Neutrals.EqualWeightsEnergy | chargeexchange.py:123 | with equal weights the kinetic energy is the thermal part (the variance) plus the energy of the mean velocity |
| Neutrals.UpdateTemperature | chargeexchange.py:125-126 | only the temperature changes, and the stored energy is recovered as `totalWeight*T/(2*mass)` plus the energy of the mean velocity |
| Neutrals.UnitMassTemperatureIsVariance | chargeexchange.py:122-126 | for unit mass and equal weights the recomputed temperature is the population variance of the velocities |
| Neutrals.ApplyCX | chargeexchange.py:110-118 | fails with `LengthMismatch` when weights, velocities and samples differ in length and with `DivisionByZero` on a zero volume or mass, and only then; on success only the velocities and the fluid momentum change, each new velocity is the `k`-blend (`k = dt*rate*density`) of the i-th sorted velocity and the i-th sorted ion velocity, and `volume*fluidMom + mass*sum(weight*vel)` afterwards equals its value with the sorted velocities before the call |
| Neutrals.Exchange | chargeexchange.py:110-118 | the exchange on arrays that fit together: the same frame, per-element blend and momentum identity as `Neutrals.ApplyCX` |
| Neutrals.MomentumBalance | chargeexchange.py:116-118 | for any pairing of velocities and draws the fluid gains exactly what the relaxation takes from the particles |
| Neutrals.EqualWeightsConserveMomentum | chargeexchange.py:112-118 | with equal weights the exchange conserves the total momentum held before the call |
| Neutrals.SortedConserveMomentum | chargeexchange.py:111-118 | when the velocities are already sorted the exchange conserves the total momentum held before the call, whatever the weights |
| Neutrals.UnequalWeightsShiftMomentum | chargeexchange.py:111-112 | with weights `[1, 2]` and velocities `[2, 1]` the momentum after the exchange exceeds the one before by one particle mass, because only the velocities are sorted |
| Neutrals.ExchangedWeightedSum | chargeexchange.py:118 | the weighted sum of the new velocities is the `k`-blend of the weighted sums of the sorted velocities and the ion velocities |
| Neutrals.ExchangeKeepsOrder | chargeexchange.py:111-118 | for `0 <= k <= 1` and positive mass the new velocities are sorted and each lies between its sorted old value and its paired ion velocity |
| Runner.Update | chargeexchange.py:204-207 | the four updates fail on an empty population, a zero total weight or an invalid fluid, and only then; they change energies and temperatures only, and the new energy is the fixed total plus the bulk mismatch |
| Runner.Iterate | chargeexchange.py:183-207 | a successful iteration had one draw per neutral, keeps weights, masses, density and volume, and leaves the total momentum equal to the momentum of the state with its velocities sorted |
| Runner.IterateKeepsValid | chargeexchange.py:183-207 | from a valid state with one draw per neutral an iteration fails exactly on negative `T/mass` or spread-free draws, and otherwise yields a valid state with the same weights, masses, density and volume |
| Runner.IterateConservesMomentum | chargeexchange.py:183-207 | with equal weights, or with velocities already sorted, an iteration conserves fluid plus neutral momentum |
| Runner.IterateKeepsConserving | chargeexchange.py:183-207 | an iteration keeps the weights equal, or keeps sorted velocities sorted when `0 <= k <= 1` and the neutral mass is positive, so the conservation condition holds for the next iteration too |
| Runner.IterateEnergy | chargeexchange.py:204-207 | after an iteration the energies add up to the fixed total plus the bulk mismatch of the new fluid, exactly the total for unit ion mass |
| Runner.IterateNeutralTemperature | chargeexchange.py:204-205 | for unit neutral mass and equal weights the neutral temperature after an iteration is the population variance of the new velocities |
| Runner.RunFrom | chargeexchange.py:175-207 | a successful loop gives one record per batch of draws |
| Runner.RunCX | chargeexchange.py:164-207 | a successful run has one record per batch and starts with the record of the initial state |
| Runner.RunConservesMomentum | chargeexchange.py:175-184 | with equal weights, or with sorted velocities, `0 <= k <= 1` and a positive neutral mass, every record carries the initial total momentum |
| Runner.RunKeepsEnergy | chargeexchange.py:174-207 | for unit ion mass every record's energies add up to the total fixed before the loop |
| Runner.RunCXConserves | chargeexchange.py:174-207 | for unit ion mass every record holds the initial energy, and under the same conservation condition as `Runner.RunConservesMomentum` every record holds the initial momentum |

## Left out

- Random number generation (`np.random.normal`, chargeexchange.py:17 and charge-exchange.py:15): the raw draws are inputs of every step and of the run.
- `IonFluid.getRandomMom` of the scalar revision (charge-exchange.py:13-15): it is only a normal draw, so the drawn ion momentum is an input of `ScalarCx.ApplyCX`; its failure for a negative scale is kept as `NegativeSpread`.
- Plotting and image output (`Plotting`, chargeexchange.py:33-100; the histogram block, chargeexchange.py:185-203 and 209-214; charge-exchange.py:86-110): rendering and file output.
- The `time` arrays (chargeexchange.py:178, charge-exchange.py:74): they only feed the plots.
- The `expm` analytical solution (charge-exchange.py:76-84): a foreign scipy call on globals that the file comments out.
- `InitialConditions` and `Diagnostics` (chargeexchange.py:128-145): they hold no logic, and `Diagnostics` refers to an undefined name.
- `unittests.py`: a script that calls constructors and a `runner` signature the module does not define; its constants (unit masses) motivate the unit-mass lemmas.
- Floating-point rounding: exact reals stand in for IEEE doubles, so "equal to machine precision" becomes exact equality.
- Square roots: the `root` parameter stands in for `** 0.5` and `np.std`'s square root.
- ScalarCx.RunCX: its own contract gives success in both directions only for a positive ion mass; with a negative ion mass a later step can meet a negative energy, so success then depends on the intermediate energies. Conservation of momentum over the run is `ScalarCx.RunCXConservesMomentum`.
- Runner.RunFrom: its own contract gives only the length; momentum and energy over the run are `Runner.RunConservesMomentum` and `Runner.RunKeepsEnergy`.
- Runner.IterateConservesMomentum: stated for equal weights or already-sorted velocities only, because otherwise sorting the velocities alone changes the momentum (`Neutrals.UnequalWeightsShiftMomentum`).
- Runner.RunKeepsEnergy: stated for unit ion mass only; for other masses each iteration's drift is given by `Runner.IterateEnergy`.
- Neutrals.NewParticles: numpy broadcasting is not modelled. A one-element or scalar `weight` next to `n` velocities makes numpy compute the energy as if the weight were repeated, while `np.sum(weight)` in the temperature still sums one element; a one-element `vel` next to `n` weights is broadcast the same way at line 107. Here any length difference is `LengthMismatch`.
- Neutrals.ApplyCX: numpy broadcasting of a one-element or scalar `weight`, or of a single sample, is not modelled. numpy stretches it to the length of the velocities at lines 115-118, and the exchange goes through; here it is `LengthMismatch`. A one-element `vel` next to more samples is not broadcast: the in-place `self.vel += ...` at line 118 cannot grow `self.vel`, numpy raises `ValueError`, and `LengthMismatch` matches that. The fluid momentum that lines 115-116 have already changed before that error is not modelled, since the error ends the run.
