/** The single-particle charge-exchange revision (charge-exchange.py): one
    neutral macro-particle exchanges momentum with an ion fluid that has no
    temperature. `IonFluid.getRandomMom` draws an ion momentum from a normal
    distribution centred on the fluid momentum whose standard deviation is
    the stored fluid energy; the drawn value is an input of each step, and
    the draw fails when that energy is negative. */
module ScalarCx {
  import opened Results
  import opened RealSeq

  /** Ion fluid: number density, momentum, ion mass and kinetic energy. */
  datatype IonFluid = IonFluid(density: real, mom: real, mass: real, energy: real)

  /** One neutral macro-particle of statistical weight `weight`. */
  datatype Particle = Particle(mass: real, weight: real, vel: real)

  /** One entry of the time series `runCX` records after each exchange. */
  datatype Snapshot = Snapshot(neutralVel: real, ionMom: real)

  /** `IonFluid.getIonEnergy`: kinetic energy of the fluid's bulk motion. It
      gives back the squared momentum over twice the mass, and it cannot be
      negative for a positive mass. */
  function IonEnergy(f: IonFluid): (e: real)
    requires f.mass != 0.0
    ensures 2.0 * f.mass * e == f.mom * f.mom
    ensures 0.0 < f.mass ==> 0.0 <= e
  {
    (f.mom * f.mom) / (2.0 * f.mass)
  }

  /** The fluid's stored energy agrees with its momentum. */
  predicate EnergyConsistent(f: IonFluid)
  {
    f.mass != 0.0 && f.energy == IonEnergy(f)
  }

  /** `IonFluid.__init__`; a zero ion mass makes the energy a division by zero. */
  function NewIonFluid(mass: real, density: real, momentum: real): (r: Result<IonFluid>)
    ensures r.Ok? <==> mass != 0.0
    ensures r.Err? ==> r.error == DivisionByZero
    ensures r.Ok? ==> r.value.mass == mass && r.value.density == density && r.value.mom == momentum
    ensures r.Ok? ==> EnergyConsistent(r.value)
  {
    if mass == 0.0 then Err(DivisionByZero)
    else Ok(IonFluid(density, momentum, mass, (momentum * momentum) / (2.0 * mass)))
  }

  /** The weight the loop would exchange in one step before clamping,
      `dt*rate*weight*density`. */
  function RawWeight(dt: real, rate: real, weight: real, density: real): real
  {
    dt * rate * weight * density
  }

  /** The weight exchanged in one step: the raw weight, clamped so that it
      never exceeds the particle's weight. */
  function ExchangedWeight(dt: real, rate: real, weight: real, density: real): (dw: real)
    ensures dw <= weight && dw <= RawWeight(dt, rate, weight, density)
    ensures dw == weight || dw == RawWeight(dt, rate, weight, density)
    ensures 0.0 <= dt && 0.0 <= rate && 0.0 <= weight && 0.0 <= density ==> 0.0 <= dw
    ensures dw == weight <==> RawWeight(dt, rate, weight, density) >= weight
    ensures dw < RawWeight(dt, rate, weight, density) <==> RawWeight(dt, rate, weight, density) > weight
  {
    var raw := RawWeight(dt, rate, weight, density);
    RawWeightNonNegative(dt, rate, weight, density);
    if raw > weight then weight else raw
  }

  /** The raw weight of non-negative factors is non-negative. */
  lemma RawWeightNonNegative(dt: real, rate: real, weight: real, density: real)
    ensures 0.0 <= dt && 0.0 <= rate && 0.0 <= weight && 0.0 <= density ==> 0.0 <= RawWeight(dt, rate, weight, density)
  {
    if 0.0 <= dt && 0.0 <= rate && 0.0 <= weight && 0.0 <= density {
      assert 0.0 <= dt * rate;
      assert 0.0 <= dt * rate * weight;
    }
  }

  /** Lines 33 and 35 of `Particle.applyCX`: the fraction `dw/weight` of the
      particle loses its velocity and takes the ion velocity `ionMom/mass`. */
  function ExchangedVelocity(vel: real, mass: real, weight: real, dw: real, ionMom: real): (v: real)
    requires weight != 0.0 && mass != 0.0
    ensures v == Blend(dw / weight, vel, ionMom / mass)
    ensures dw == weight ==> v == ionMom / mass
    ensures dw == 0.0 ==> v == vel
  {
    (vel - dw * vel / weight) + dw * ionMom / (weight * mass)
  }

  /** Lines 32 and 36 of `Particle.applyCX`: the fluid gains the momentum of
      the neutrals that became ions and loses the sampled ion momentum. */
  function ExchangedIonMomentum(mom: real, vel: real, mass: real, weight: real, dw: real, ionMom: real): (m: real)
    requires weight != 0.0 && mass != 0.0
    ensures m + mass * ExchangedVelocity(vel, mass, weight, dw, ionMom) == mom + mass * vel
    ensures dw == 0.0 ==> m == mom
  {
    assert mass * (dw * ionMom / (weight * mass)) == dw * ionMom / weight;
    assert dw * vel * mass / weight == mass * (dw * vel / weight);
    (mom + dw * vel * mass / weight) - dw * ionMom / weight
  }

  /** `Particle.applyCX`: one charge exchange between the particle and the
      fluid with drawn ion momentum `ionMom`, followed by recomputing the
      fluid energy. The draw comes first and needs a non-negative fluid
      energy; then every denominator must be non-zero. */
  function ApplyCX(p: Particle, dw: real, f: IonFluid, ionMom: real): (r: Result<(Particle, IonFluid)>)
    ensures r.Ok? <==> 0.0 <= f.energy && p.weight != 0.0 && p.mass != 0.0 && f.mass != 0.0
    ensures f.energy < 0.0 ==> r == Err(NegativeSpread)
    ensures 0.0 <= f.energy && r.Err? ==> r.error == DivisionByZero
    ensures r.Ok? ==> r.value.0.mass == p.mass && r.value.0.weight == p.weight
    ensures r.Ok? ==> r.value.1.density == f.density && r.value.1.mass == f.mass
    // momentum conservation
    ensures r.Ok? ==> Momentum(r.value.0, r.value.1) == Momentum(p, f)
    // the velocity is the blend of the old velocity and the ion velocity
    ensures r.Ok? ==> r.value.0.vel == Blend(dw / p.weight, p.vel, ionMom / p.mass)
    // full exchange forgets the old velocity; no exchange changes nothing
    ensures r.Ok? && dw == p.weight ==> r.value.0.vel == ionMom / p.mass
    ensures r.Ok? && dw == 0.0 ==> r.value.0.vel == p.vel && r.value.1.mom == f.mom
    ensures r.Ok? ==> EnergyConsistent(r.value.1)
    // a positive ion mass keeps the next draw possible
    ensures r.Ok? && 0.0 < f.mass ==> 0.0 <= r.value.1.energy
  {
    if f.energy < 0.0 then Err(NegativeSpread)
    else if p.weight == 0.0 || p.mass == 0.0 || f.mass == 0.0 then Err(DivisionByZero)
    else
      var g := f.(mom := ExchangedIonMomentum(f.mom, p.vel, p.mass, p.weight, dw, ionMom));
      Ok((p.(vel := ExchangedVelocity(p.vel, p.mass, p.weight, dw, ionMom)), g.(energy := IonEnergy(g))))
  }

  /** Fluid momentum plus the momentum of the neutral particle. */
  function Momentum(p: Particle, f: IonFluid): real
  {
    f.mom + p.mass * p.vel
  }

  /** Fluid momentum plus neutral momentum of a record, as plotted by `runCX`. */
  function TotalMomentum(s: Snapshot, mass: real): real
  {
    s.ionMom + mass * s.neutralVel
  }

  /** One iteration of the `runCX` loop: clamp the exchanged weight, then
      exchange with the drawn ion momentum. */
  function Step(p: Particle, f: IonFluid, dt: real, rate: real, ionMom: real): (r: Result<(Particle, IonFluid)>)
    ensures r.Ok? <==> 0.0 <= f.energy && p.weight != 0.0 && p.mass != 0.0 && f.mass != 0.0
    ensures r.Ok? ==> r.value.0.mass == p.mass && r.value.0.weight == p.weight && r.value.1.mass == f.mass
    ensures r.Ok? && 0.0 < f.mass ==> 0.0 <= r.value.1.energy
    ensures r.Ok? ==> Momentum(r.value.0, r.value.1) == Momentum(p, f)
  {
    ApplyCX(p, ExchangedWeight(dt, rate, p.weight, f.density), f, ionMom)
  }

  /** The numerical loop of `runner.runCX`: one exchange per drawn ion
      momentum, recording the neutral velocity and the fluid momentum after
      each exchange. A positive ion mass keeps the fluid energy non-negative,
      so such a run fails only if the first step does. */
  function RunCX(p: Particle, f: IonFluid, dt: real, rate: real, draws: seq<real>): (r: Result<seq<Snapshot>>)
    ensures r.Ok? && |draws| > 0 ==> 0.0 <= f.energy && p.weight != 0.0 && p.mass != 0.0 && f.mass != 0.0
    ensures |draws| == 0 || (0.0 <= f.energy && p.weight != 0.0 && p.mass != 0.0 && 0.0 < f.mass) ==> r.Ok?
    ensures r.Ok? ==> |r.value| == |draws|
    decreases |draws|
  {
    if |draws| == 0 then Ok([])
    else
      var step :- Step(p, f, dt, rate, draws[0]);
      var rest :- RunCX(step.0, step.1, dt, rate, draws[1..]);
      Ok([Snapshot(step.0.vel, step.1.mom)] + rest)
  }

  /** Every record carries the total momentum `total`. */
  predicate Conserves(rs: seq<Snapshot>, mass: real, total: real)
  {
    forall i :: 0 <= i < |rs| ==> TotalMomentum(rs[i], mass) == total
  }

  /** Every record of a run carries the initial total momentum. */
  lemma {:induction false} RunCXConservesMomentum(p: Particle, f: IonFluid, dt: real, rate: real, draws: seq<real>)
    requires RunCX(p, f, dt, rate, draws).Ok?
    ensures Conserves(RunCX(p, f, dt, rate, draws).value, p.mass, Momentum(p, f))
    decreases |draws|
  {
    if |draws| > 0 {
      var step := RunCXUnfold(p, f, dt, rate, draws);
      RunCXConservesMomentum(step.0, step.1, dt, rate, draws[1..]);
      ConservesCons(Snapshot(step.0.vel, step.1.mom), RunCX(step.0, step.1, dt, rate, draws[1..]).value,
                    p.mass, Momentum(p, f));
    }
  }

  /** A run over a non-empty batch is the first step's record followed by
      the run from the state after that step. */
  lemma RunCXUnfold(p: Particle, f: IonFluid, dt: real, rate: real, draws: seq<real>) returns (step: (Particle, IonFluid))
    requires |draws| > 0 && RunCX(p, f, dt, rate, draws).Ok?
    ensures Step(p, f, dt, rate, draws[0]) == Ok(step)
    ensures step.0.mass == p.mass
    ensures Momentum(step.0, step.1) == Momentum(p, f)
    ensures TotalMomentum(Snapshot(step.0.vel, step.1.mom), p.mass) == Momentum(p, f)
    ensures RunCX(step.0, step.1, dt, rate, draws[1..]).Ok?
    ensures RunCX(p, f, dt, rate, draws).value
            == [Snapshot(step.0.vel, step.1.mom)] + RunCX(step.0, step.1, dt, rate, draws[1..]).value
  {
    step := Step(p, f, dt, rate, draws[0]).value;
  }

  lemma ConservesCons(s: Snapshot, rs: seq<Snapshot>, mass: real, total: real)
    requires TotalMomentum(s, mass) == total && Conserves(rs, mass, total)
    ensures Conserves([s] + rs, mass, total)
  {
    var r := [s] + rs;
    forall i | 0 <= i < |r|
      ensures TotalMomentum(r[i], mass) == total
    {
      if i > 0 {
        assert r[i] == rs[i - 1];
      }
    }
  }
}
