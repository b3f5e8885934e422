/** The ion fluid of the vectorised revision (chargeexchange.py, class
    `IonFluid`): continuum moments of the ions in a volume, the recentred
    sampling of ion momenta, and the energy and temperature updates. */
module Fluid {
  import opened Results
  import opened RealSeq

  /** Number density, bulk pseudo-momentum (density times bulk velocity),
      ion mass, kinetic energy, temperature and volume. */
  datatype IonFluid = IonFluid(
    density: real,
    mom: real,
    mass: real,
    kineticEnergy: real,
    temperature: real,
    volume: real)

  /** What construction requires in the model: every denominator the fluid
      uses is non-zero. */
  predicate Valid(f: IonFluid)
  {
    f.mass != 0.0 && f.density != 0.0 && f.volume != 0.0
  }

  /** `root` is a square root on the non-negative reals: the exact
      counterpart of `** 0.5` and of the `sqrt` inside `np.std`. */
  ghost predicate IsSquareRoot(root: real -> real)
  {
    forall x :: 0.0 <= x ==> 0.0 <= root(x) && root(x) * root(x) == x
  }

  /** Energy of the bulk flow, `(mom*V)^2 / (2*density*V)`. */
  function BulkEnergy(f: IonFluid): real
    requires Valid(f)
  {
    ((f.mom * f.volume) * (f.mom * f.volume)) / (2.0 * (f.density * f.volume))
  }

  /** Thermal energy, `mass*density*V*(T/mass) / 2`. */
  function ThermalEnergy(f: IonFluid): real
    requires Valid(f)
  {
    f.mass * f.density * f.volume * (f.temperature / f.mass) / 2.0
  }

  /** `IonFluid.__init__`: stores the moments and sets the kinetic energy to
      bulk plus thermal energy. A zero mass, density or volume is a division
      by zero. */
  function NewIonFluid(mass: real, density: real, momentum: real, temperature: real, volume: real): (r: Result<IonFluid>)
    ensures r.Ok? <==> mass != 0.0 && density != 0.0 && volume != 0.0
    ensures r.Err? ==> r.error == DivisionByZero
    ensures r.Ok? ==> Valid(r.value)
    ensures r.Ok? ==> r.value.mass == mass && r.value.density == density && r.value.mom == momentum
                      && r.value.temperature == temperature && r.value.volume == volume
    // the mass cancels out of the thermal part
    ensures r.Ok? ==> r.value.kineticEnergy == BulkEnergy(r.value) + density * volume * temperature / 2.0
  {
    if density * volume == 0.0 || mass == 0.0 then Err(DivisionByZero)
    else
      var ke := ((momentum * volume) * (momentum * volume)) / (2.0 * (density * volume))
                + mass * density * volume * (temperature / mass) / 2.0;
      Ok(IonFluid(density, momentum, mass, ke, temperature, volume))
  }

  /** `IonFluid.getRandomMom`: the raw normal draws `b` are recentred and
      rescaled so that the returned momenta have mean `mass` times the bulk
      velocity and standard deviation `mass` times the thermal speed
      `sqrt(T/mass)`, exactly, whatever `b` was. */
  function SampleIonMomenta(f: IonFluid, b: seq<real>, root: real -> real): (r: Result<seq<real>>)
    requires IsSquareRoot(root)
    ensures r.Ok? <==> f.mass != 0.0 && f.density != 0.0 && 0.0 <= f.temperature / f.mass
                       && (|b| == 0 || PopVariance(b) != 0.0)
    ensures f.mass == 0.0 || f.density == 0.0 ==> r == Err(DivisionByZero)
    ensures f.mass != 0.0 && f.density != 0.0 && f.temperature / f.mass < 0.0 ==> r == Err(NegativeTemperature)
    ensures r.Ok? ==> |r.value| == |b|
    ensures r.Ok? && |b| > 0 ==> Mean(r.value) == f.mom / f.density
    ensures r.Ok? && |b| > 0 ==> PopVariance(r.value) == f.mass * f.mass * (f.temperature / f.mass)
  {
    // `mass*density` is zero exactly when one of the factors is
    if f.mass == 0.0 || f.density == 0.0 then Err(DivisionByZero)
    else if f.temperature / f.mass < 0.0 then Err(NegativeTemperature)
    else if |b| == 0 then Ok([])
    // np.std(b) is zero exactly when the variance is
    else if PopVariance(b) == 0.0 then Err(DegenerateBatch)
    else Ok(Recentred(f, b, root))
  }

  /** The rescaling step of `getRandomMom` for a batch with some spread:
      centre on zero, scale to the thermal speed, shift to the bulk
      velocity, all times the ion mass. */
  function Recentred(f: IonFluid, b: seq<real>, root: real -> real): (y: seq<real>)
    requires IsSquareRoot(root)
    requires f.mass != 0.0 && f.density != 0.0 && 0.0 <= f.temperature / f.mass
    requires |b| > 0 && PopVariance(b) != 0.0
    ensures |y| == |b|
    ensures Mean(y) == f.mom / f.density
    ensures PopVariance(y) == f.mass * f.mass * (f.temperature / f.mass)
  {
    VarianceNonNegative(b);
    RecentredTargets(f, b, root);
    Recentre(b, f.mass, SpreadFactor(f, b, root), BulkMomentum(f))
  }

  /** The thermal speed `sqrt(T/mass)` over the batch's standard deviation. */
  function SpreadFactor(f: IonFluid, b: seq<real>, root: real -> real): real
    requires IsSquareRoot(root)
    requires f.mass != 0.0 && |b| > 0 && PopVariance(b) != 0.0
  {
    VarianceNonNegative(b);
    root(f.temperature / f.mass) / root(PopVariance(b))
  }

  /** The mass times the bulk velocity `mom/(mass*density)`. */
  function BulkMomentum(f: IonFluid): real
    requires f.mass != 0.0 && f.density != 0.0
  {
    f.mass * (f.mom / (f.mass * f.density))
  }

  /** `Recentre` with `Recentred`'s factors reaches the target moments. */
  lemma RecentredTargets(f: IonFluid, b: seq<real>, root: real -> real)
    requires IsSquareRoot(root)
    requires f.mass != 0.0 && f.density != 0.0 && 0.0 <= f.temperature / f.mass
    requires |b| > 0 && 0.0 < PopVariance(b)
    ensures Mean(Recentre(b, f.mass, SpreadFactor(f, b, root), BulkMomentum(f))) == f.mom / f.density
    ensures PopVariance(Recentre(b, f.mass, SpreadFactor(f, b, root), BulkMomentum(f)))
            == f.mass * f.mass * (f.temperature / f.mass)
  {
    BulkMomentumIs(f);
    VarianceTarget(f.mass, root, PopVariance(b), f.temperature / f.mass, SpreadFactor(f, b, root));
  }

  /** The mass cancels out of the bulk momentum. */
  lemma BulkMomentumIs(f: IonFluid)
    requires f.mass != 0.0 && f.density != 0.0
    ensures BulkMomentum(f) == f.mom / f.density
  {
    MeanTarget(f.mom, f.mass, f.density);
  }

  /** `mass*(b - mean(b))*k + c`, element by element: an affine image of
      the batch, centred on `c` with spread scaled by `mass*k`. */
  function Recentre(b: seq<real>, mass: real, k: real, c: real): (y: seq<real>)
    requires |b| > 0
    ensures |y| == |b|
    ensures Mean(y) == c
    ensures PopVariance(y) == (mass * k) * (mass * k) * PopVariance(b)
  {
    var y := seq(|b|, i requires 0 <= i < |b| => mass * (b[i] - Mean(b)) * k + c);
    RecentredMoments(b, y, mass, k, c);
    y
  }

  /** The recentred batch is an affine image of the raw one. */
  lemma RecentredMoments(b: seq<real>, y: seq<real>, mass: real, k: real, c: real)
    requires |b| > 0 && |y| == |b|
    requires forall i :: 0 <= i < |y| ==> y[i] == mass * (b[i] - Mean(b)) * k + c
    ensures Mean(y) == c
    ensures PopVariance(y) == (mass * k) * (mass * k) * PopVariance(b)
  {
    forall i | 0 <= i < |y|
      ensures y[i] == (mass * k) * (b[i] - Mean(b)) + c
    {
      ReorderProduct(mass, b[i] - Mean(b), k);
    }
    AffineMean(b, y, mass * k, c);
    AffineVariance(b, y, mass * k, c);
  }

  lemma ReorderProduct(p: real, q: real, r: real)
    ensures p * q * r == (p * r) * q
  {
  }

  lemma NonZeroProduct(p: real, q: real)
    ensures p != 0.0 && q != 0.0 ==> p * q != 0.0
  {
  }

  lemma MeanTarget(mom: real, mass: real, density: real)
    requires mass != 0.0 && density != 0.0
    ensures mass * (mom / (mass * density)) == mom / density
  {
  }

  /** Rescaling by `mass*sqrt(t)/sqrt(v)` turns variance `v` into
      `mass*mass*t`. */
  lemma VarianceTarget(mass: real, root: real -> real, v: real, t: real, k: real)
    requires IsSquareRoot(root) && 0.0 < v && 0.0 <= t
    requires k == root(t) / root(v)
    ensures (mass * k) * (mass * k) * v == mass * mass * t
  {
    var sd, thermal := root(v), root(t);
    assert sd * sd == v && thermal * thermal == t;
    assert k * sd == thermal;
    assert (k * k) * (sd * sd) == (k * sd) * (k * sd);
  }

  /** A batch of one draw has no spread, so it cannot be rescaled. */
  lemma SingleDrawIsDegenerate(f: IonFluid, b: seq<real>, root: real -> real)
    requires IsSquareRoot(root)
    requires f.mass != 0.0 && f.density != 0.0 && 0.0 <= f.temperature / f.mass
    requires |b| == 1
    ensures SampleIonMomenta(f, b, root) == Err(DegenerateBatch)
  {
    SingletonVariance(b);
  }

  /** `IonFluid.updateKineticEnergy`. Unlike the constructor it divides the
      bulk part by the mass as well, so the two agree only for unit mass. */
  function UpdateKineticEnergy(f: IonFluid): (r: IonFluid)
    requires Valid(f)
    ensures r == f.(kineticEnergy := r.kineticEnergy)
    ensures r.kineticEnergy == BulkEnergy(f) / f.mass + f.density * f.volume * f.temperature / 2.0
    ensures f.mass == 1.0 ==> r.kineticEnergy == BulkEnergy(f) + ThermalEnergy(f)
  {
    var ke := ((f.mom * f.volume) * (f.mom * f.volume)) / (2.0 * (f.mass * f.density * f.volume))
              + f.mass * f.density * f.volume * (f.temperature / f.mass) / 2.0;
    f.(kineticEnergy := ke)
  }

  /** `IonFluid.updatetemperature`: the temperature is solved backward so
      that bulk plus thermal energy equals what the neutrals leave of the
      total energy. Nothing else changes. */
  function UpdateTemperature(f: IonFluid, totalEnergy: real, neutralsKinetic: real): (r: IonFluid)
    requires Valid(f)
    ensures r == f.(temperature := r.temperature)
    ensures BulkEnergy(r) + ThermalEnergy(r) == totalEnergy - neutralsKinetic
  {
    NonZeroProduct(f.density, f.volume);
    var t := ((totalEnergy - neutralsKinetic - BulkEnergy(f)) * 2.0) / (f.density * f.volume);
    ThermalSolve(f.mass, f.density * f.volume, t, totalEnergy - neutralsKinetic - BulkEnergy(f));
    f.(temperature := t)
  }

  lemma ThermalSolve(mass: real, nv: real, t: real, e: real)
    requires mass != 0.0 && nv != 0.0 && t == (e * 2.0) / nv
    ensures mass * nv * (t / mass) / 2.0 == e
  {
    assert mass * (t / mass) == t;
  }

  /** The temperature `UpdateTemperature` picks is the only one that closes
      the energy balance. */
  lemma TemperatureIsUnique(f: IonFluid, totalEnergy: real, neutralsKinetic: real, t: real)
    requires Valid(f)
    ensures BulkEnergy(f.(temperature := t)) + ThermalEnergy(f.(temperature := t)) == totalEnergy - neutralsKinetic
            <==> t == UpdateTemperature(f, totalEnergy, neutralsKinetic).temperature
  {
    var g := UpdateTemperature(f, totalEnergy, neutralsKinetic);
    NonZeroProduct(f.density, f.volume);
    ThermalCancel(f.mass, f.density * f.volume, t);
    ThermalCancel(f.mass, f.density * f.volume, g.temperature);
    LinearSolve(f.density * f.volume, t, g.temperature, totalEnergy - neutralsKinetic - BulkEnergy(f));
  }

  lemma LinearSolve(nv: real, t: real, t0: real, e: real)
    requires nv != 0.0 && nv * t0 / 2.0 == e
    ensures nv * t / 2.0 == e <==> t == t0
  {
    if nv * t / 2.0 == e {
      assert nv * (t - t0) == 0.0;
    }
  }

  lemma ThermalCancel(mass: real, nv: real, t: real)
    requires mass != 0.0
    ensures mass * nv * (t / mass) / 2.0 == nv * t / 2.0
  {
    assert mass * (t / mass) == t;
  }

  /** Energy bookkeeping of `runCX`: solving the temperature from the total
      energy and then recomputing the kinetic energy returns the ion share of
      the total, up to the bulk term that `updateKineticEnergy` divides by
      the mass and `updatetemperature` does not. For unit mass the split is
      exact. */
  lemma {:induction false} EnergyBookkeeping(f: IonFluid, totalEnergy: real, neutralsKinetic: real)
    requires Valid(f)
    ensures UpdateKineticEnergy(UpdateTemperature(f, totalEnergy, neutralsKinetic)).kineticEnergy + neutralsKinetic
            == totalEnergy + BulkMismatch(f)
    ensures f.mass == 1.0 ==>
            UpdateKineticEnergy(UpdateTemperature(f, totalEnergy, neutralsKinetic)).kineticEnergy + neutralsKinetic
            == totalEnergy
  {
    var g := UpdateTemperature(f, totalEnergy, neutralsKinetic);
    var h := UpdateKineticEnergy(g);
    assert BulkEnergy(g) == BulkEnergy(f);
    ThermalCancel(f.mass, f.density * f.volume, g.temperature);
    assert h.kineticEnergy == BulkEnergy(f) / f.mass + (totalEnergy - neutralsKinetic - BulkEnergy(f));
    assert BulkEnergy(f) / f.mass == BulkEnergy(f) * (1.0 / f.mass);
  }

  /** How far the bulk term of `updateKineticEnergy` (divided by the mass)
      is from the one `updatetemperature` subtracts (not divided). */
  function BulkMismatch(f: IonFluid): real
    requires Valid(f)
  {
    BulkEnergy(f) * (1.0 / f.mass - 1.0)
  }

  /** The bulk mismatch depends on the moments only, not on the energy or
      temperature. */
  lemma MismatchIgnoresHeat(f: IonFluid, ke: real, t: real)
    requires Valid(f)
    ensures BulkMismatch(f.(kineticEnergy := ke, temperature := t)) == BulkMismatch(f)
  {
  }
}
