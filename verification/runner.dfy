/** The time loop of the vectorised revision (chargeexchange.py,
    `runner.runCX`) without its plotting: each iteration records the state,
    draws ion momenta, exchanges charge between ions and neutrals, and then
    recomputes energies and temperatures so that the ions take whatever the
    neutrals leave of the energy fixed before the loop. The raw normal draws
    of every iteration are an input of the run. */
module Runner {
  import opened Results
  import opened RealSeq
  import opened RealSort
  import Fluid
  import Neutrals

  /** What the runner holds fixed: time step `dt_SI`, charge-exchange rate
      and the volume the neutrals share with the fluid. */
  datatype Config = Config(dt: real, rate: real, volume: real)

  /** The ion fluid and the neutral particles between two iterations. */
  datatype State = State(ions: Fluid.IonFluid, neutrals: Neutrals.Particles)

  /** What one iteration stores before the exchange: fluid momentum,
      neutral velocities, both kinetic energies and both temperatures. */
  datatype Record = Record(
    ionMom: real,
    neutralVel: seq<real>,
    particlesEnergy: real,
    fluidEnergy: real,
    fluidTemperature: real,
    particlesTemperature: real)

  /** A state every step of the loop can work with: every denominator is
      non-zero and there is at least one neutral with one weight each. */
  predicate Valid(c: Config, s: State)
  {
    Fluid.Valid(s.ions) && Neutrals.Valid(s.neutrals) && c.volume != 0.0 && s.neutrals.mass != 0.0
  }

  /** `total_energy`, fixed once before the loop. */
  function Energy(s: State): real
  {
    s.ions.kineticEnergy + s.neutrals.kineticEnergy
  }

  /** Fluid momentum density times the volume plus the neutral momentum. */
  function Momentum(c: Config, s: State): real
    requires |s.neutrals.weight| == |s.neutrals.vel|
  {
    Neutrals.TotalMomentum(c.volume, s.ions.mom, s.neutrals.mass, Neutrals.WeightedSum(s.neutrals.weight, s.neutrals.vel))
  }

  /** The values stored at the start of an iteration. */
  function Observe(s: State): (r: Record)
    ensures r.ionMom == s.ions.mom && r.neutralVel == s.neutrals.vel
    ensures r.particlesEnergy + r.fluidEnergy == Energy(s)
    ensures r.fluidTemperature == s.ions.temperature && r.particlesTemperature == s.neutrals.temperature
  {
    Record(s.ions.mom, s.neutrals.vel, s.neutrals.kineticEnergy, s.ions.kineticEnergy,
           s.ions.temperature, s.neutrals.temperature)
  }

  /** The four updates after the exchange, in the loop's order: neutral
      kinetic energy, neutral temperature, fluid temperature (solved from
      the fixed total) and fluid kinetic energy. The neutral temperature
      needs a mean of the velocities and a non-zero total weight; the fluid
      updates divide by mass, density and volume. */
  function Update(n: Neutrals.Particles, f: Fluid.IonFluid, totalEnergy: real): (r: Result<State>)
    requires |n.weight| == |n.vel|
    ensures r.Ok? <==> |n.vel| > 0 && Neutrals.TotalWeight(n.weight) != 0.0 && Fluid.Valid(f)
    ensures |n.vel| == 0 ==> r == Err(EmptyBatch)
    ensures r.Ok? ==> r.value.neutrals == n.(kineticEnergy := r.value.neutrals.kineticEnergy,
                                             temperature := r.value.neutrals.temperature)
    ensures r.Ok? ==> r.value.ions == f.(kineticEnergy := r.value.ions.kineticEnergy,
                                         temperature := r.value.ions.temperature)
    // the energy fixed before the loop is shared out again, up to the bulk term
    ensures r.Ok? ==> Energy(r.value) == totalEnergy + Fluid.BulkMismatch(f)
  {
    var n1 := Neutrals.UpdateKineticEnergy(n);
    if |n1.vel| == 0 then Err(EmptyBatch)
    else if Neutrals.TotalWeight(n1.weight) == 0.0 then Err(DivisionByZero)
    else
      var n2 := Neutrals.UpdateTemperature(n1);
      if !Fluid.Valid(f) then Err(DivisionByZero)
      else
        Fluid.EnergyBookkeeping(f, totalEnergy, n2.kineticEnergy);
        Ok(State(Fluid.UpdateKineticEnergy(Fluid.UpdateTemperature(f, totalEnergy, n2.kineticEnergy)), n2))
  }

  /** One iteration of the loop after its record: draw one ion momentum per
      neutral from the raw normal draws `draws`, exchange, then update. A
      successful iteration needs one draw per neutral; it keeps the weights,
      masses, density and volumes, and the total momentum it leaves is that
      of the start with the neutral velocities sorted. */
  function Iterate(c: Config, s: State, totalEnergy: real, draws: seq<real>, root: real -> real): (r: Result<State>)
    requires Fluid.IsSquareRoot(root)
    ensures r.Ok? ==> |s.neutrals.weight| == |s.neutrals.vel| == |draws|
    ensures r.Ok? ==> Carried(s, r.value)
    ensures r.Ok? ==> Momentum(c, r.value)
                      == Neutrals.TotalMomentum(c.volume, s.ions.mom, s.neutrals.mass,
                                                Neutrals.WeightedSum(s.neutrals.weight, Sort(s.neutrals.vel)))
  {
    var samples :- Fluid.SampleIonMomenta(s.ions, draws, root);
    var exchanged :- Neutrals.ApplyCX(s.neutrals, c.rate, c.dt, s.ions, c.volume, samples);
    Update(exchanged.0, exchanged.1, totalEnergy)
  }

  /** The stages of a successful iteration. */
  lemma IterateSteps(c: Config, s: State, totalEnergy: real, draws: seq<real>, root: real -> real)
    returns (samples: seq<real>, n: Neutrals.Particles, f: Fluid.IonFluid)
    requires Fluid.IsSquareRoot(root)
    requires Iterate(c, s, totalEnergy, draws, root).Ok?
    ensures Fluid.SampleIonMomenta(s.ions, draws, root) == Ok(samples)
    ensures Neutrals.ExchangeDefined(s.neutrals, c.volume, samples)
    ensures (n, f) == Neutrals.Exchange(s.neutrals, c.rate, c.dt, s.ions, c.volume, samples)
    ensures |n.weight| == |n.vel| && Iterate(c, s, totalEnergy, draws, root) == Update(n, f, totalEnergy)
  {
    samples := Fluid.SampleIonMomenta(s.ions, draws, root).value;
    var e := Neutrals.ApplyCX(s.neutrals, c.rate, c.dt, s.ions, c.volume, samples).value;
    n, f := e.0, e.1;
  }

  /** From a valid state with one draw per neutral, an iteration fails only
      when the fluid temperature is negative or the draws have no spread;
      otherwise the next state is valid again, and the weights, masses,
      density and volumes are those of the start. */
  lemma IterateKeepsValid(c: Config, s: State, totalEnergy: real, draws: seq<real>, root: real -> real)
    requires Fluid.IsSquareRoot(root)
    requires Valid(c, s) && |draws| == |s.neutrals.vel|
    ensures Iterate(c, s, totalEnergy, draws, root).Ok?
            <==> 0.0 <= s.ions.temperature / s.ions.mass && PopVariance(draws) != 0.0
    ensures Iterate(c, s, totalEnergy, draws, root).Ok? ==> Kept(c, s, Iterate(c, s, totalEnergy, draws, root).value)
  {
    var r := Iterate(c, s, totalEnergy, draws, root);
    var samples := Fluid.SampleIonMomenta(s.ions, draws, root);
    if samples.Ok? {
      var e := Neutrals.Exchange(s.neutrals, c.rate, c.dt, s.ions, c.volume, samples.value);
      assert Neutrals.ApplyCX(s.neutrals, c.rate, c.dt, s.ions, c.volume, samples.value) == Ok(e);
      assert r == Update(e.0, e.1, totalEnergy);
    }
  }

  /** `t` has the weights, masses, number of neutrals, density and
      volumes of `s`. */
  predicate Carried(s: State, t: State)
  {
    t.neutrals.weight == s.neutrals.weight && t.neutrals.mass == s.neutrals.mass
    && |t.neutrals.vel| == |s.neutrals.vel| && t.ions.mass == s.ions.mass
    && t.ions.density == s.ions.density && t.ions.volume == s.ions.volume
  }

  /** `t` is valid for `c` and carries what `s` fixes. */
  predicate Kept(c: Config, s: State, t: State)
  {
    Valid(c, t) && Carried(s, t)
  }

  /** The conditions under which a run conserves momentum: one weight per
      neutral, and either all weights equal `w`, or the velocities sorted
      with an exchange fraction in [0, 1] and a positive neutral mass (so
      that every exchange leaves them sorted). */
  predicate Conserving(c: Config, s: State, w: real)
  {
    |s.neutrals.weight| == |s.neutrals.vel|
    && (AllEqual(s.neutrals.weight, w)
        || (Sorted(s.neutrals.vel) && 0.0 <= Neutrals.ExchangeFraction(c.rate, c.dt, s.ions) <= 1.0
            && 0.0 < s.neutrals.mass))
  }

  /** With equal weights, or with the velocities already sorted, an
      iteration conserves the total momentum: the exchange conserves it up
      to the order of the velocities and the updates leave momentum and
      velocities alone. */
  lemma IterateConservesMomentum(c: Config, s: State, totalEnergy: real, draws: seq<real>, root: real -> real, w: real)
    requires Fluid.IsSquareRoot(root)
    requires Iterate(c, s, totalEnergy, draws, root).Ok?
    requires |s.neutrals.weight| == |s.neutrals.vel|
    requires AllEqual(s.neutrals.weight, w) || Sorted(s.neutrals.vel)
    ensures |Iterate(c, s, totalEnergy, draws, root).value.neutrals.weight|
            == |Iterate(c, s, totalEnergy, draws, root).value.neutrals.vel|
    ensures Momentum(c, Iterate(c, s, totalEnergy, draws, root).value) == Momentum(c, s)
  {
    if AllEqual(s.neutrals.weight, w) {
      Neutrals.EqualWeightsIgnoreOrder(s.neutrals.weight, Sort(s.neutrals.vel), s.neutrals.vel, w);
    } else {
      SortedPermutationUnique(Sort(s.neutrals.vel), s.neutrals.vel);
    }
  }

  /** An iteration keeps the conditions of `Conserving`: the weights, the
      mass and the density do not change, and with an exchange fraction in
      [0, 1] the exchange leaves sorted velocities sorted. */
  lemma IterateKeepsConserving(c: Config, s: State, totalEnergy: real, draws: seq<real>, root: real -> real, w: real)
    requires Fluid.IsSquareRoot(root)
    requires Iterate(c, s, totalEnergy, draws, root).Ok? && Conserving(c, s, w)
    ensures Conserving(c, Iterate(c, s, totalEnergy, draws, root).value, w)
  {
    var t := Iterate(c, s, totalEnergy, draws, root).value;
    assert t.neutrals.weight == s.neutrals.weight && t.ions.density == s.ions.density;
    SameDensitySameFraction(c, s.ions, t.ions);
    if !AllEqual(s.neutrals.weight, w) {
      var samples, n, f := IterateSteps(c, s, totalEnergy, draws, root);
      Neutrals.ExchangeKeepsOrder(s.neutrals, c.rate, c.dt, s.ions, c.volume, samples);
      assert t.neutrals.vel == n.vel;
    }
  }

  /** The exchange fraction depends on the fluid through its density only. */
  lemma SameDensitySameFraction(c: Config, f: Fluid.IonFluid, g: Fluid.IonFluid)
    requires f.density == g.density
    ensures Neutrals.ExchangeFraction(c.rate, c.dt, f) == Neutrals.ExchangeFraction(c.rate, c.dt, g)
  {
  }

  /** The energy after an iteration is the fixed total plus the bulk
      mismatch of the fluid; for unit ion mass it is the fixed total. */
  lemma IterateEnergy(c: Config, s: State, totalEnergy: real, draws: seq<real>, root: real -> real)
    requires Fluid.IsSquareRoot(root)
    requires Iterate(c, s, totalEnergy, draws, root).Ok?
    ensures Fluid.Valid(Iterate(c, s, totalEnergy, draws, root).value.ions)
    ensures Energy(Iterate(c, s, totalEnergy, draws, root).value)
            == totalEnergy + Fluid.BulkMismatch(Iterate(c, s, totalEnergy, draws, root).value.ions)
    ensures Iterate(c, s, totalEnergy, draws, root).value.ions.mass == s.ions.mass
    ensures s.ions.mass == 1.0 ==> Energy(Iterate(c, s, totalEnergy, draws, root).value) == totalEnergy
  {
    var samples, n, f := IterateSteps(c, s, totalEnergy, draws, root);
    var t := Update(n, f, totalEnergy).value;
    Fluid.MismatchIgnoresHeat(f, t.ions.kineticEnergy, t.ions.temperature);
    UnitMassMismatch(f);
  }

  lemma UnitMassMismatch(f: Fluid.IonFluid)
    requires Fluid.Valid(f)
    ensures f.mass == 1.0 ==> Fluid.BulkMismatch(f) == 0.0
  {
  }

  /** With unit neutral mass and equal weights, the neutral temperature
      after an iteration is the population variance of the new velocities. */
  lemma IterateNeutralTemperature(c: Config, s: State, totalEnergy: real, draws: seq<real>, root: real -> real)
    requires Fluid.IsSquareRoot(root)
    requires Iterate(c, s, totalEnergy, draws, root).Ok?
    requires s.neutrals.mass == 1.0 && |s.neutrals.weight| > 0 && AllEqual(s.neutrals.weight, s.neutrals.weight[0])
    ensures |Iterate(c, s, totalEnergy, draws, root).value.neutrals.vel| > 0
    ensures Iterate(c, s, totalEnergy, draws, root).value.neutrals.temperature
            == PopVariance(Iterate(c, s, totalEnergy, draws, root).value.neutrals.vel)
  {
    var samples, n, f := IterateSteps(c, s, totalEnergy, draws, root);
    Neutrals.UnitMassTemperatureIsVariance(n);
  }

  /** The loop from state `s` with `totalEnergy` fixed: one record and one
      iteration per batch of raw draws. */
  function RunFrom(c: Config, s: State, totalEnergy: real, batches: seq<seq<real>>, root: real -> real)
    : (r: Result<seq<Record>>)
    requires Fluid.IsSquareRoot(root)
    ensures r.Ok? ==> |r.value| == |batches|
    decreases |batches|
  {
    if |batches| == 0 then Ok([])
    else
      var next :- Iterate(c, s, totalEnergy, batches[0], root);
      var rest :- RunFrom(c, next, totalEnergy, batches[1..], root);
      Ok([Observe(s)] + rest)
  }

  /** `runner.runCX` without plotting: fix the total energy of the initial
      state, then loop once per batch of draws. */
  function RunCX(c: Config, s: State, batches: seq<seq<real>>, root: real -> real): (r: Result<seq<Record>>)
    requires Fluid.IsSquareRoot(root)
    ensures r.Ok? ==> |r.value| == |batches|
    ensures r.Ok? && |batches| > 0 ==> r.value[0] == Observe(s)
  {
    RunFrom(c, s, Energy(s), batches, root)
  }

  /** A successful run is the record of `s` followed by the run from the
      state after the first iteration. */
  lemma RunFromUnfold(c: Config, s: State, totalEnergy: real, batches: seq<seq<real>>, root: real -> real)
    returns (next: State)
    requires Fluid.IsSquareRoot(root)
    requires |batches| > 0 && RunFrom(c, s, totalEnergy, batches, root).Ok?
    ensures Iterate(c, s, totalEnergy, batches[0], root) == Ok(next)
    ensures RunFrom(c, next, totalEnergy, batches[1..], root).Ok?
    ensures RunFrom(c, s, totalEnergy, batches, root).value
            == [Observe(s)] + RunFrom(c, next, totalEnergy, batches[1..], root).value
  {
    next := Iterate(c, s, totalEnergy, batches[0], root).value;
  }

  /** Every record carries the total momentum `total`, counted with the
      fixed weights and mass. */
  predicate MomentumKept(c: Config, mass: real, weight: seq<real>, rs: seq<Record>, total: real)
  {
    forall i :: 0 <= i < |rs| ==>
      |rs[i].neutralVel| == |weight|
      && Neutrals.TotalMomentum(c.volume, rs[i].ionMom, mass, Neutrals.WeightedSum(weight, rs[i].neutralVel)) == total
  }

  lemma MomentumKeptCons(c: Config, mass: real, weight: seq<real>, r: Record, rs: seq<Record>, total: real)
    requires MomentumKept(c, mass, weight, [r], total) && MomentumKept(c, mass, weight, rs, total)
    ensures MomentumKept(c, mass, weight, [r] + rs, total)
  {
    var t := [r] + rs;
    forall i | 0 <= i < |t|
      ensures |t[i].neutralVel| == |weight|
      ensures Neutrals.TotalMomentum(c.volume, t[i].ionMom, mass, Neutrals.WeightedSum(weight, t[i].neutralVel)) == total
    {
      if i > 0 {
        assert t[i] == rs[i - 1];
      } else {
        assert t[i] == [r][0];
      }
    }
  }

  /** Under `Conserving` every record of a run carries the momentum of the
      state the run started from. */
  lemma {:induction false} RunConservesMomentum(c: Config, s: State, totalEnergy: real, batches: seq<seq<real>>,
                                                root: real -> real, w: real)
    requires Fluid.IsSquareRoot(root)
    requires RunFrom(c, s, totalEnergy, batches, root).Ok?
    requires Conserving(c, s, w)
    ensures MomentumKept(c, s.neutrals.mass, s.neutrals.weight, RunFrom(c, s, totalEnergy, batches, root).value,
                         Momentum(c, s))
    decreases |batches|
  {
    if |batches| > 0 {
      var next := RunFromUnfold(c, s, totalEnergy, batches, root);
      IterateConservesMomentum(c, s, totalEnergy, batches[0], root, w);
      IterateKeepsConserving(c, s, totalEnergy, batches[0], root, w);
      RunConservesMomentum(c, next, totalEnergy, batches[1..], root, w);
      MomentumKeptCons(c, s.neutrals.mass, s.neutrals.weight, Observe(s),
                       RunFrom(c, next, totalEnergy, batches[1..], root).value, Momentum(c, s));
    }
  }

  /** Every record's energies add up to `total`. */
  predicate EnergyKept(rs: seq<Record>, total: real)
  {
    forall i :: 0 <= i < |rs| ==> rs[i].particlesEnergy + rs[i].fluidEnergy == total
  }

  lemma EnergyKeptCons(r: Record, rs: seq<Record>, total: real)
    requires r.particlesEnergy + r.fluidEnergy == total && EnergyKept(rs, total)
    ensures EnergyKept([r] + rs, total)
  {
    var t := [r] + rs;
    forall i | 0 <= i < |t|
      ensures t[i].particlesEnergy + t[i].fluidEnergy == total
    {
      if i > 0 {
        assert t[i] == rs[i - 1];
      }
    }
  }

  /** For unit ion mass every record of a run holds the energy fixed before
      the loop. */
  lemma {:induction false} RunKeepsEnergy(c: Config, s: State, totalEnergy: real, batches: seq<seq<real>>,
                                          root: real -> real)
    requires Fluid.IsSquareRoot(root)
    requires RunFrom(c, s, totalEnergy, batches, root).Ok?
    requires s.ions.mass == 1.0 && Energy(s) == totalEnergy
    ensures EnergyKept(RunFrom(c, s, totalEnergy, batches, root).value, totalEnergy)
    decreases |batches|
  {
    if |batches| > 0 {
      var next := RunFromUnfold(c, s, totalEnergy, batches, root);
      IterateEnergy(c, s, totalEnergy, batches[0], root);
      RunKeepsEnergy(c, next, totalEnergy, batches[1..], root);
      EnergyKeptCons(Observe(s), RunFrom(c, next, totalEnergy, batches[1..], root).value, totalEnergy);
    }
  }

  /** `runCX` for unit ion mass: every record's energies add up to the
      initial total energy; and with equal weights, or with sorted initial
      velocities and an exchange fraction in [0, 1], every record carries
      the initial total momentum. */
  lemma RunCXConserves(c: Config, s: State, batches: seq<seq<real>>, root: real -> real, w: real)
    requires Fluid.IsSquareRoot(root)
    requires RunCX(c, s, batches, root).Ok?
    ensures s.ions.mass == 1.0 ==> EnergyKept(RunCX(c, s, batches, root).value, Energy(s))
    ensures Conserving(c, s, w) ==>
            MomentumKept(c, s.neutrals.mass, s.neutrals.weight, RunCX(c, s, batches, root).value, Momentum(c, s))
  {
    if s.ions.mass == 1.0 {
      RunKeepsEnergy(c, s, Energy(s), batches, root);
    }
    if Conserving(c, s, w) {
      RunConservesMomentum(c, s, Energy(s), batches, root, w);
    }
  }
}
