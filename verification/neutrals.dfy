/** The neutral macro-particles of the vectorised revision
    (chargeexchange.py, class `Particles`): construction, the charge-exchange
    step against the ion fluid, and the energy and temperature updates. */
module Neutrals {
  import opened Results
  import opened RealSeq
  import opened RealSort
  import Fluid

  /** Particle mass (shared by all), per-particle statistical weights and
      velocities, total kinetic energy and temperature. */
  datatype Particles = Particles(
    mass: real,
    weight: seq<real>,
    vel: seq<real>,
    kineticEnergy: real,
    temperature: real)

  /** What construction requires in the model: one weight per velocity, at
      least one particle, and a non-zero total weight. */
  predicate Valid(p: Particles)
  {
    |p.weight| == |p.vel| && |p.vel| > 0 && TotalWeight(p.weight) != 0.0
  }

  /** `np.sum(weight)`. */
  function TotalWeight(w: seq<real>): real
  {
    Sum(w)
  }

  /** `np.sum(np.multiply(weight, x))`: the weighted sum of a per-particle
      quantity. */
  function WeightedSum(w: seq<real>, x: seq<real>): real
    requires |w| == |x|
  {
    Sum(Times(w, x))
  }

  /** `np.sum(np.multiply(weight, np.multiply(vel, vel)))`. */
  function WeightedSquares(w: seq<real>, v: seq<real>): real
    requires |w| == |v|
  {
    Sum(Times(w, Times(v, v)))
  }

  /** `np.sum(weight * vel) / np.sum(weight)`: the weight-averaged velocity. */
  function WeightedMean(w: seq<real>, v: seq<real>): real
    requires |w| == |v| && TotalWeight(w) != 0.0
  {
    WeightedSum(w, v) / TotalWeight(w)
  }

  /** The weight-averaged squared deviation of the velocities from their
      weighted mean: the thermal spread of a weighted population. */
  function WeightedVariance(w: seq<real>, v: seq<real>): real
    requires |w| == |v| && TotalWeight(w) != 0.0
  {
    WeightedSquares(w, Deviations(v, WeightedMean(w, v))) / TotalWeight(w)
  }

  /** The temperature formula shared by `__init__` and `updatetemperature`:
      twice the mass times the kinetic energy left after removing the
      energy of the mean velocity, per unit weight. The mean removed is the
      plain `np.mean(vel)`, not the weighted mean. So for the energy the
      constructor stores (`ke = 1/2 * sum(w*v^2)`) the temperature is the
      mass times the weighted variance plus the gap between the squared
      weighted and unweighted means; for the energy `updateKineticEnergy`
      stores the mass enters once more. Only for equal weights does the gap
      vanish (`EqualWeightsMoments`); otherwise it can make the temperature
      negative (`UnweightedMeanTemperature`). */
  function Temperature(mass: real, w: seq<real>, v: seq<real>, ke: real): (t: real)
    requires |v| > 0 && TotalWeight(w) != 0.0
    ensures TotalWeight(w) * t == 2.0 * mass * (ke - 0.5 * (TotalWeight(w) * (Mean(v) * Mean(v))))
    ensures |w| == |v| && ke == 0.5 * WeightedSquares(w, v)
            ==> t == mass * (WeightedVariance(w, v) + (Square(WeightedMean(w, v)) - Square(Mean(v))))
    ensures |w| == |v| && ke == 0.5 * mass * WeightedSquares(w, v)
            ==> t == mass * (mass * (WeightedVariance(w, v) + Square(WeightedMean(w, v))) - Square(Mean(v)))
  {
    TemperatureMeaning(mass, w, v, ke);
    TemperatureFormula(mass, w, v, ke)
  }

  /** The formula itself, `2 * mass * (ke - 1/2 * sum(w * mean(v) * mean(v))) / sum(w)`. */
  function TemperatureFormula(mass: real, w: seq<real>, v: seq<real>, ke: real): real
    requires |v| > 0 && TotalWeight(w) != 0.0
  {
    2.0 * mass * (ke - 0.5 * Sum(Scale(Mean(v), Scale(Mean(v), w)))) / TotalWeight(w)
  }

  /** The three readings of the temperature formula. */
  lemma TemperatureMeaning(mass: real, w: seq<real>, v: seq<real>, ke: real)
    requires |v| > 0 && TotalWeight(w) != 0.0
    ensures TotalWeight(w) * TemperatureFormula(mass, w, v, ke)
            == 2.0 * mass * (ke - 0.5 * (TotalWeight(w) * (Mean(v) * Mean(v))))
    ensures |w| == |v| && ke == 0.5 * WeightedSquares(w, v)
            ==> TemperatureFormula(mass, w, v, ke)
                == mass * (WeightedVariance(w, v) + (Square(WeightedMean(w, v)) - Square(Mean(v))))
    ensures |w| == |v| && ke == 0.5 * mass * WeightedSquares(w, v)
            ==> TemperatureFormula(mass, w, v, ke)
                == mass * (mass * (WeightedVariance(w, v) + Square(WeightedMean(w, v))) - Square(Mean(v)))
  {
    TemperatureSolved(mass, w, v, ke);
    if |w| == |v| {
      TemperatureSplit(mass, w, v, ke);
      TemperatureSplitMass(mass, w, v, ke);
    }
  }

  lemma TemperatureSolved(mass: real, w: seq<real>, v: seq<real>, ke: real)
    requires |v| > 0 && TotalWeight(w) != 0.0
    ensures TotalWeight(w) * TemperatureFormula(mass, w, v, ke)
            == 2.0 * mass * (ke - 0.5 * (TotalWeight(w) * (Mean(v) * Mean(v))))
  {
    MeanEnergy(w, Mean(v));
  }

  /** For the energy the constructor stores. */
  lemma TemperatureSplit(mass: real, w: seq<real>, v: seq<real>, ke: real)
    requires |w| == |v| > 0 && TotalWeight(w) != 0.0
    ensures ke == 0.5 * WeightedSquares(w, v)
            ==> TemperatureFormula(mass, w, v, ke)
                == mass * (WeightedVariance(w, v) + (Square(WeightedMean(w, v)) - Square(Mean(v))))
  {
    TemperatureSolved(mass, w, v, ke);
    WeightedVarianceBySquares(w, v);
    assert WeightedSquares(w, v) == TotalWeight(w) * (WeightedVariance(w, v) + Square(WeightedMean(w, v)));
  }

  /** For the energy `updateKineticEnergy` stores. */
  lemma TemperatureSplitMass(mass: real, w: seq<real>, v: seq<real>, ke: real)
    requires |w| == |v| > 0 && TotalWeight(w) != 0.0
    ensures ke == 0.5 * mass * WeightedSquares(w, v)
            ==> TemperatureFormula(mass, w, v, ke)
                == mass * (mass * (WeightedVariance(w, v) + Square(WeightedMean(w, v))) - Square(Mean(v)))
  {
    TemperatureSolved(mass, w, v, ke);
    WeightedVarianceBySquares(w, v);
    assert WeightedSquares(w, v) == TotalWeight(w) * (WeightedVariance(w, v) + Square(WeightedMean(w, v)));
  }

  /** The weighted squared deviations from `m` expand into the weighted
      squares, the weighted sum and the total weight. */
  lemma WeightedDeviationSquares(w: seq<real>, v: seq<real>, m: real)
    requires |w| == |v|
    ensures WeightedSquares(w, Deviations(v, m))
            == WeightedSquares(w, v) + (-2.0 * m) * WeightedSum(w, v) + (m * m) * TotalWeight(w)
  {
    WeightedDeviationSums(w, v, m);
    ScaledWeightedSum(-2.0 * m, w, v);
    ScaledTotalWeight(m * m, w);
  }

  /** The expansion term by term, with the two scaled sums still unsummed. */
  lemma WeightedDeviationSums(w: seq<real>, v: seq<real>, m: real)
    requires |w| == |v|
    ensures WeightedSquares(w, Deviations(v, m))
            == WeightedSquares(w, v) + Sum(Scale(-2.0 * m, Times(w, v))) + Sum(Scale(m * m, w))
  {
    var d := Deviations(v, m);
    var e, q, s := Times(w, Times(d, d)), Times(w, Times(v, v)), Times(w, v);
    var s2, w2 := Scale(-2.0 * m, s), Scale(m * m, w);
    forall i | 0 <= i < |e|
      ensures e[i] == q[i] + s2[i] + w2[i]
    {
      WeightedDeviationStep(w[i], v[i], m, d[i], e[i], q[i], s[i]);
    }
    SumOfThree(q, s2, w2, e);
  }

  lemma ScaledWeightedSum(c: real, w: seq<real>, v: seq<real>)
    requires |w| == |v|
    ensures Sum(Scale(c, Times(w, v))) == c * WeightedSum(w, v)
  {
    SumOfScale(c, Times(w, v));
  }

  lemma ScaledTotalWeight(c: real, w: seq<real>)
    ensures Sum(Scale(c, w)) == c * TotalWeight(w)
  {
    SumOfScale(c, w);
  }

  lemma WeightedDeviationStep(w0: real, v0: real, m: real, d0: real, e0: real, q0: real, s0: real)
    requires d0 == v0 - m && e0 == w0 * (d0 * d0) && q0 == w0 * (v0 * v0) && s0 == w0 * v0
    ensures e0 == q0 + (-2.0 * m) * s0 + (m * m) * w0
  {
  }

  /** The weighted variance is the weighted mean of the squares minus the
      square of the weighted mean. */
  lemma WeightedVarianceBySquares(w: seq<real>, v: seq<real>)
    requires |w| == |v| && TotalWeight(w) != 0.0
    ensures WeightedSquares(w, v) / TotalWeight(w) == WeightedVariance(w, v) + Square(WeightedMean(w, v))
  {
    WeightedDeviationSquares(w, v, WeightedMean(w, v));
    WeightedSplit(WeightedSquares(w, Deviations(v, WeightedMean(w, v))), WeightedSquares(w, v), WeightedSum(w, v),
                  TotalWeight(w), WeightedMean(w, v), WeightedVariance(w, v));
  }

  /** The algebra behind `WeightedVarianceBySquares`, on named sums. */
  lemma WeightedSplit(sd: real, ssq: real, ss: real, sw: real, m: real, wv: real)
    requires sw != 0.0 && m == ss / sw && wv == sd / sw
    requires sd == ssq + (-2.0 * m) * ss + (m * m) * sw
    ensures ssq / sw == wv + Square(m)
  {
    VarianceAlgebra(sd, ssq, ss, sw, m);
  }

  /** With every weight equal to `c` the weighted mean and variance are the
      plain mean and the population variance. */
  lemma EqualWeightsMoments(w: seq<real>, v: seq<real>, c: real)
    requires |w| == |v| > 0 && AllEqual(w, c) && TotalWeight(w) != 0.0
    ensures WeightedMean(w, v) == Mean(v)
    ensures WeightedVariance(w, v) == PopVariance(v)
  {
    EqualWeightsMean(w, v, c);
    EqualWeightsSquares(w, Deviations(v, Mean(v)), c);
    EqualWeightsTotal(w, v, c);
    EqualWeightsRatio(WeightedSquares(w, Deviations(v, Mean(v))), SumSq(v, Mean(v)), TotalWeight(w),
                      |v| as real, c);
  }

  lemma EqualWeightsMean(w: seq<real>, v: seq<real>, c: real)
    requires |w| == |v| > 0 && AllEqual(w, c) && TotalWeight(w) != 0.0
    ensures WeightedMean(w, v) == Mean(v)
  {
    EqualWeightsTotal(w, v, c);
    EqualWeightsSum(w, v, c);
    EqualWeightsRatio(WeightedSum(w, v), Sum(v), TotalWeight(w), |v| as real, c);
  }

  lemma {:induction false} EqualWeightsSum(w: seq<real>, v: seq<real>, c: real)
    requires |w| == |v| && AllEqual(w, c)
    ensures WeightedSum(w, v) == c * Sum(v)
  {
    var t := Times(w, v);
    forall i | 0 <= i < |t|
      ensures t[i] == c * v[i]
    {
    }
    SumScale(v, t, c);
  }

  /** A `c`-scaled sum over a `c`-scaled count is the plain ratio. */
  lemma EqualWeightsRatio(ws: real, s: real, sw: real, n: real, c: real)
    requires sw != 0.0 && ws == c * s && sw == n * c
    ensures ws / sw == s / n
  {
    assert c != 0.0 && n != 0.0;
    assert ws / sw == (c * s) / (c * n);
  }

  /** With non-negative weights the weighted variance is non-negative. */
  lemma WeightedVarianceNonNegative(w: seq<real>, v: seq<real>)
    requires |w| == |v| && TotalWeight(w) != 0.0 && AllNonNegative(w)
    ensures 0.0 <= WeightedVariance(w, v)
  {
    SumNonNegative(w);
    SquaresNonNegative(w, Deviations(v, WeightedMean(w, v)));
  }

  /** Scaling every weight twice by `m` scales the total weight by `m * m`. */
  lemma MeanEnergy(w: seq<real>, m: real)
    ensures Sum(Scale(m, Scale(m, w))) == TotalWeight(w) * (m * m)
  {
    SumOfScale(m, w);
    SumOfScale(m, Scale(m, w));
  }

  /** `Particles.__init__`. Its kinetic energy omits the mass factor that
      `updateKineticEnergy` applies. Lengths that differ cannot be multiplied
      element-wise; an empty population has no mean and a zero total weight
      is a division by zero. */
  function NewParticles(mass: real, weight: seq<real>, vel: seq<real>): (r: Result<Particles>)
    ensures r.Ok? <==> |weight| == |vel| && |vel| > 0 && TotalWeight(weight) != 0.0
    ensures |weight| != |vel| ==> r == Err(LengthMismatch)
    ensures |weight| == |vel| == 0 ==> r == Err(EmptyBatch)
    ensures |weight| == |vel| && |vel| > 0 && TotalWeight(weight) == 0.0 ==> r == Err(DivisionByZero)
    ensures r.Ok? ==> Valid(r.value) && r.value.mass == mass && r.value.weight == weight && r.value.vel == vel
    ensures r.Ok? ==> EnergyLacksMass(r.value)
    ensures r.Ok? && AllNonNegative(weight) ==> 0.0 <= r.value.kineticEnergy
    ensures r.Ok? ==> r.value.temperature == Temperature(mass, weight, vel, r.value.kineticEnergy)
    ensures r.Ok? && AllEqual(weight, weight[0]) ==> r.value.temperature == mass * PopVariance(vel)
    ensures r.Ok? ==> r.value.temperature
                      == mass * (WeightedVariance(weight, vel)
                                 + (Square(WeightedMean(weight, vel)) - Square(Mean(vel))))
  {
    if |weight| != |vel| then Err(LengthMismatch)
    else if |vel| == 0 then Err(EmptyBatch)
    else if TotalWeight(weight) == 0.0 then Err(DivisionByZero)
    else
      var ke := 0.5 * WeightedSquares(weight, vel);
      var p := Particles(mass, weight, vel, ke, Temperature(mass, weight, vel, ke));
      SquaresNonNegative(weight, vel);
      InitialTemperature(mass, weight, vel, ke);
      InitialEnergyLacksMass(p);
      Ok(p)
  }

  /** The stored kinetic energy lacks the mass factor: recomputing it with
      `updateKineticEnergy` multiplies it by the mass. */
  predicate EnergyLacksMass(p: Particles)
    requires |p.weight| == |p.vel|
  {
    UpdateKineticEnergy(p).kineticEnergy == p.mass * p.kineticEnergy
  }

  lemma InitialEnergyLacksMass(p: Particles)
    requires |p.weight| == |p.vel| && p.kineticEnergy == 0.5 * WeightedSquares(p.weight, p.vel)
    ensures EnergyLacksMass(p)
  {
  }

  /** With equal weights the constructor's temperature is the mass times
      the population variance of the velocities. */
  lemma {:induction false} InitialTemperature(mass: real, w: seq<real>, v: seq<real>, ke: real)
    requires |w| == |v| > 0 && TotalWeight(w) != 0.0
    requires ke == 0.5 * WeightedSquares(w, v)
    ensures AllEqual(w, w[0]) ==> Temperature(mass, w, v, ke) == mass * PopVariance(v)
  {
    if AllEqual(w, w[0]) {
      EqualWeightsTemperature(mass, w, v, w[0], ke, 0.5);
      VarianceBySquares(v);
    }
  }

  /** Because the mean removed is unweighted, unequal weights can give a
      negative temperature although the weighted variance is positive: with
      unit mass, one light particle at speed 10 and a hundred times heavier
      one at rest give `-2425/101`. */
  lemma UnweightedMeanTemperature(w: seq<real>, v: seq<real>)
    requires w == [1.0, 100.0] && v == [10.0, 0.0]
    ensures var r := NewParticles(1.0, w, v); r.Ok? && r.value.temperature == -2425.0 / 101.0
    ensures TotalWeight(w) == 101.0 && 0.0 < WeightedVariance(w, v)
  {
    assert Sum(w) == 101.0 by { assert w[1..] == [100.0]; assert w[1..][1..] == []; }
    assert Times(w, v) == [10.0, 0.0];
    assert Sum([10.0, 0.0]) == 10.0 by { assert [10.0, 0.0][1..] == [0.0]; assert [0.0][1..] == []; }
    assert Times(w, Times(v, v)) == [100.0, 0.0];
    assert Sum([100.0, 0.0]) == 100.0 by { assert [100.0, 0.0][1..] == [0.0]; assert [0.0][1..] == []; }
    assert Sum(v) == 10.0 by { assert v[1..] == [0.0]; assert [0.0][1..] == []; }
    assert Mean(v) == 5.0;
    assert WeightedMean(w, v) == 10.0 / 101.0;
    WeightedVarianceBySquares(w, v);
    assert WeightedVariance(w, v) == 100.0 / 101.0 - (10.0 / 101.0) * (10.0 / 101.0);
  }

  /** With non-negative weights the weighted sum of squares is non-negative. */
  lemma {:induction false} SquaresNonNegative(w: seq<real>, v: seq<real>)
    requires |w| == |v|
    ensures AllNonNegative(w) ==> 0.0 <= WeightedSquares(w, v)
  {
    if AllNonNegative(w) {
      var t := Times(w, Times(v, v));
      forall i | 0 <= i < |t|
        ensures 0.0 <= t[i]
      {
        SquareNonNegative(v[i]);
        MulNonNegative(w[i], v[i] * v[i]);
      }
      SumNonNegative(t);
    }
  }

  /** With every weight equal to `c` and a kinetic energy of `h` times the
      weighted squares, the temperature is
      `mass * (2 * h * mean(v^2) - mean(v)^2)`. */
  lemma {:induction false} EqualWeightsTemperature(mass: real, w: seq<real>, v: seq<real>, c: real, ke: real, h: real)
    requires |w| == |v| > 0 && AllEqual(w, c) && TotalWeight(w) != 0.0
    requires ke == h * WeightedSquares(w, v)
    ensures Temperature(mass, w, v, ke) == mass * (2.0 * h * SumOfSquares(v) / (|v| as real) - Mean(v) * Mean(v))
  {
    EqualWeightsSquares(w, v, c);
    EqualWeightsTotal(w, v, c);
    EqualWeightsSolve(mass, w, v, c, ke, h, Temperature(mass, w, v, ke));
  }

  /** Any `t` that the total weight turns into twice the mass times the
      thermal energy is the equal-weights temperature, once the weighted
      squares and the total weight are known to be `c` times their
      unweighted counterparts. */
  lemma EqualWeightsSolve(mass: real, w: seq<real>, v: seq<real>, c: real, ke: real, h: real, t: real)
    requires |w| == |v| > 0 && TotalWeight(w) != 0.0
    requires WeightedSquares(w, v) == c * SumOfSquares(v) && TotalWeight(w) == (|v| as real) * c
    requires ke == h * WeightedSquares(w, v)
    requires TotalWeight(w) * t == 2.0 * mass * (ke - 0.5 * (TotalWeight(w) * (Mean(v) * Mean(v))))
    ensures t == mass * (2.0 * h * SumOfSquares(v) / (|v| as real) - Mean(v) * Mean(v))
  {
    TemperatureSubstitution(mass, h, c, |v| as real, SumOfSquares(v), Mean(v), ke, WeightedSquares(w, v),
                            TotalWeight(w), t);
  }

  /** `TemperatureAlgebra` with the total weight, the weighted squares, the
      kinetic energy and the temperature given by name. */
  lemma TemperatureSubstitution(mass: real, h: real, c: real, n: real, sq: real, m: real, ke: real, ws: real,
                                sw: real, t: real)
    requires n != 0.0 && sw != 0.0
    requires ws == c * sq && ke == h * ws && sw == n * c
    requires sw * t == 2.0 * mass * (ke - 0.5 * (sw * (m * m)))
    ensures t == mass * (2.0 * h * sq / n - m * m)
  {
    assert c != 0.0;
    assert t == 2.0 * mass * (h * (c * sq) - 0.5 * ((n * c) * (m * m))) / (n * c);
    TemperatureAlgebra(mass, h, c, n, sq, m);
  }

  lemma {:induction false} EqualWeightsTotal(w: seq<real>, v: seq<real>, c: real)
    requires |w| == |v| && AllEqual(w, c)
    ensures TotalWeight(w) == (|v| as real) * c
  {
    SumOfConstant(w, c);
  }

  /** With every weight equal to `c` the weighted squares are `c` times the
      plain ones. */
  lemma {:induction false} EqualWeightsSquares(w: seq<real>, v: seq<real>, c: real)
    requires |w| == |v| && AllEqual(w, c)
    ensures WeightedSquares(w, v) == c * SumOfSquares(v)
  {
    var sq := Times(v, v);
    var t := Times(w, sq);
    forall i | 0 <= i < |t|
      ensures t[i] == c * sq[i]
    {
    }
    SumScale(sq, t, c);
  }

  lemma TemperatureAlgebra(mass: real, h: real, c: real, n: real, sq: real, m: real)
    requires n != 0.0 && c != 0.0
    ensures 2.0 * mass * (h * (c * sq) - 0.5 * ((n * c) * (m * m))) / (n * c)
            == mass * (2.0 * h * sq / n - m * m)
  {
    assert 2.0 * mass * (h * (c * sq) - 0.5 * ((n * c) * (m * m))) == (n * c) * (mass * (2.0 * h * sq / n - m * m));
  }

  /** `Particles.updateKineticEnergy`: half the mass times the weighted sum
      of squared velocities. Nothing else changes. */
  function UpdateKineticEnergy(p: Particles): (r: Particles)
    requires |p.weight| == |p.vel|
    ensures r == p.(kineticEnergy := r.kineticEnergy)
    ensures 0.0 <= p.mass && AllNonNegative(p.weight) ==> 0.0 <= r.kineticEnergy
    ensures |p.vel| > 0 && AllEqual(p.weight, p.weight[0])
            ==> r.kineticEnergy == 0.5 * p.mass * TotalWeight(p.weight)
                                   * (PopVariance(p.vel) + Mean(p.vel) * Mean(p.vel))
  {
    var ke := (1.0 / 2.0) * p.mass * WeightedSquares(p.weight, p.vel);
    KineticEnergyFacts(p.mass, p.weight, p.vel, ke);
    p.(kineticEnergy := ke)
  }

  lemma {:induction false} KineticEnergyFacts(mass: real, w: seq<real>, v: seq<real>, ke: real)
    requires |w| == |v|
    requires ke == (1.0 / 2.0) * mass * WeightedSquares(w, v)
    ensures 0.0 <= mass && AllNonNegative(w) ==> 0.0 <= ke
    ensures |v| > 0 && AllEqual(w, w[0])
            ==> ke == 0.5 * mass * TotalWeight(w) * (PopVariance(v) + Mean(v) * Mean(v))
  {
    SquaresNonNegative(w, v);
    if 0.0 <= mass && AllNonNegative(w) {
      MulNonNegative(mass, WeightedSquares(w, v));
    }
    if |v| > 0 && AllEqual(w, w[0]) {
      EqualWeightsEnergy(mass, w, v, w[0], ke);
    }
  }

  /** With equal weights the kinetic energy splits into a thermal part (the
      variance) and the energy of the mean velocity. */
  lemma {:induction false} EqualWeightsEnergy(mass: real, w: seq<real>, v: seq<real>, c: real, ke: real)
    requires |w| == |v| > 0 && AllEqual(w, c)
    requires ke == (1.0 / 2.0) * mass * WeightedSquares(w, v)
    ensures ke == 0.5 * mass * TotalWeight(w) * (PopVariance(v) + Mean(v) * Mean(v))
  {
    EqualWeightsSquares(w, v, c);
    EqualWeightsTotal(w, v, c);
    VarianceBySquares(v);
    EnergyAlgebra(mass, c, |v| as real, SumOfSquares(v), Mean(v));
  }

  lemma EnergyAlgebra(mass: real, c: real, n: real, sq: real, m: real)
    requires n != 0.0
    ensures (1.0 / 2.0) * mass * (c * sq) == 0.5 * mass * (n * c) * ((sq / n - m * m) + m * m)
  {
  }

  /** `Particles.updatetemperature`. The new temperature is the one that
      splits the stored kinetic energy into a thermal part and the energy
      of the mean velocity. Nothing else changes. */
  function UpdateTemperature(p: Particles): (r: Particles)
    requires Valid(p)
    ensures r == p.(temperature := r.temperature)
    ensures p.mass != 0.0 ==> EnergyOf(p.mass, p.weight, p.vel, r.temperature) == p.kineticEnergy
  {
    TemperatureInverse(p.mass, p.weight, p.vel, p.kineticEnergy);
    p.(temperature := Temperature(p.mass, p.weight, p.vel, p.kineticEnergy))
  }

  /** The kinetic energy that the temperature `t` stands for: the thermal
      part `sum(w) * t / (2 * mass)` plus the energy of the mean velocity. */
  function EnergyOf(mass: real, w: seq<real>, v: seq<real>, t: real): real
    requires |v| > 0 && mass != 0.0
  {
    TotalWeight(w) * t / (2.0 * mass) + 0.5 * TotalWeight(w) * (Mean(v) * Mean(v))
  }

  lemma TemperatureInverse(mass: real, w: seq<real>, v: seq<real>, ke: real)
    requires |v| > 0 && TotalWeight(w) != 0.0
    ensures mass != 0.0 ==> EnergyOf(mass, w, v, Temperature(mass, w, v, ke)) == ke
  {
  }

  /** For unit mass and equal weights, recomputing the kinetic energy and
      then the temperature gives the population variance of the velocities
      (the square of `np.std`). */
  lemma {:induction false} UnitMassTemperatureIsVariance(p: Particles)
    requires Valid(p) && p.mass == 1.0 && AllEqual(p.weight, p.weight[0])
    ensures UpdateTemperature(UpdateKineticEnergy(p)).temperature == PopVariance(p.vel)
  {
    UnitMassVariance(p.mass, p.weight, p.vel);
  }

  lemma {:induction false} UnitMassVariance(mass: real, w: seq<real>, v: seq<real>)
    requires |w| == |v| > 0 && TotalWeight(w) != 0.0 && mass == 1.0 && AllEqual(w, w[0])
    ensures Temperature(mass, w, v, (1.0 / 2.0) * mass * WeightedSquares(w, v)) == PopVariance(v)
  {
    EqualWeightsTemperature(mass, w, v, w[0], (1.0 / 2.0) * mass * WeightedSquares(w, v), (1.0 / 2.0) * mass);
    VarianceBySquares(v);
  }

  /** Each velocity moved a fraction `k` of the way toward its target:
      `v + k * (target - v)`. */
  function Relax(k: real, v: seq<real>, target: seq<real>): (r: seq<real>)
    requires |v| == |target|
    ensures |r| == |v|
    ensures forall i :: 0 <= i < |r| ==> r[i] == Blend(k, v[i], target[i])
  {
    seq(|v|, i requires 0 <= i < |v| => v[i] + k * (target[i] - v[i]))
  }

  /** Every element divided by `c` (array divided by scalar). */
  function Divide(a: seq<real>, c: real): (r: seq<real>)
    requires c != 0.0
    ensures |r| == |a|
    ensures forall i :: 0 <= i < |r| ==> r[i] == a[i] / c
  {
    seq(|a|, i requires 0 <= i < |a| => a[i] / c)
  }

  /** The inputs `applyCX` can work with: one weight and one ion draw per
      particle, and no division by a zero volume or mass. */
  predicate ExchangeDefined(p: Particles, volume: real, samples: seq<real>)
  {
    |p.weight| == |p.vel| == |samples| && volume != 0.0 && p.mass != 0.0
  }

  /** `Particles.applyCX`. Mismatched arrays fail and a zero volume or
      mass is a division by zero; otherwise the particles and the fluid
      come out exchanged. */
  function ApplyCX(p: Particles, rate: real, dt: real, f: Fluid.IonFluid, volume: real, samples: seq<real>)
    : (r: Result<(Particles, Fluid.IonFluid)>)
    ensures r.Ok? <==> ExchangeDefined(p, volume, samples)
    ensures (|p.weight| != |p.vel| || |samples| != |p.vel|) ==> r == Err(LengthMismatch)
    ensures |p.weight| == |p.vel| == |samples| && (volume == 0.0 || p.mass == 0.0) ==> r == Err(DivisionByZero)
    ensures r.Ok? ==> Exchanged(p, rate, dt, f, volume, samples, r.value.0, r.value.1)
    ensures r.Ok? ==> r.value == Exchange(p, rate, dt, f, volume, samples)
  {
    if |p.weight| != |p.vel| || |samples| != |p.vel| then Err(LengthMismatch)
    else if volume == 0.0 || p.mass == 0.0 then Err(DivisionByZero)
    else Ok(Exchange(p, rate, dt, f, volume, samples))
  }

  /** What a charge exchange of `p` with `f` produces in `q` and `g`:
      only the particle velocities and the fluid momentum change; the
      sorted velocities, paired in order with the sorted ion momenta, each
      move the fraction `dt*rate*density` toward their ion's velocity; and
      the total momentum of fluid and particles is that of the fluid and
      the sorted velocities before. */
  predicate Exchanged(p: Particles, rate: real, dt: real, f: Fluid.IonFluid, volume: real, samples: seq<real>,
                      q: Particles, g: Fluid.IonFluid)
    requires ExchangeDefined(p, volume, samples)
  {
    q == p.(vel := q.vel) && g == f.(mom := g.mom) && |q.vel| == |p.vel|
    && (forall i :: 0 <= i < |p.vel| ==>
          q.vel[i] == Blend(ExchangeFraction(rate, dt, f), Sort(p.vel)[i], Sort(samples)[i] / p.mass))
    && TotalMomentum(volume, g.mom, p.mass, WeightedSum(p.weight, q.vel))
       == TotalMomentum(volume, f.mom, p.mass, WeightedSum(p.weight, Sort(p.vel)))
  }

  /** One charge exchange. The sampled ion momenta and the particle
      velocities are both sorted (the weights are not), so the smallest
      velocity is paired with the smallest ion momentum. The fluid gains
      the particles' momentum at rate `k = dt*rate*density` and loses that
      of the ions they replace; each velocity relaxes toward its paired ion
      velocity by the same fraction `k`.

      Momentum is conserved with respect to the sorted velocities. That is
      the momentum before the call when the weights are all equal
      (`EqualWeightsConserveMomentum`) or the velocities were already
      sorted (`SortedConserveMomentum`); otherwise sorting the velocities
      alone can move momentum between particles
      (`UnequalWeightsShiftMomentum`). */
  function Exchange(p: Particles, rate: real, dt: real, f: Fluid.IonFluid, volume: real, samples: seq<real>)
    : (r: (Particles, Fluid.IonFluid))
    requires ExchangeDefined(p, volume, samples)
    ensures Exchanged(p, rate, dt, f, volume, samples, r.0, r.1)
  {
    ExchangedBalance(p, rate, dt, f, volume, samples);
    (p.(vel := ExchangedVelocities(p, rate, dt, f, samples)),
     f.(mom := FluidMomentumAfter(p, rate, dt, f, volume, samples)))
  }

  /** The fraction of the ions' momentum handed over per time step,
      `dt*rate`, before it is weighted by the ion density. */
  function CollisionFraction(rate: real, dt: real): real
  {
    dt * rate
  }

  /** The exchange fraction `dt*rate*density`: how far each velocity moves
      toward its paired ion velocity in one step. */
  function ExchangeFraction(rate: real, dt: real, f: Fluid.IonFluid): real
  {
    CollisionFraction(rate, dt) * f.density
  }

  /** The velocities after an exchange: the sorted velocities relaxed by
      `dt*rate*density` toward the sorted ion momenta divided by the mass. */
  function ExchangedVelocities(p: Particles, rate: real, dt: real, f: Fluid.IonFluid, samples: seq<real>): (r: seq<real>)
    requires |samples| == |p.vel| && p.mass != 0.0
  {
    Relax(ExchangeFraction(rate, dt, f), Sort(p.vel), Divide(Sort(samples), p.mass))
  }

  /** The fluid momentum `applyCX` computes for these particles and draws. */
  function FluidMomentumAfter(p: Particles, rate: real, dt: real, f: Fluid.IonFluid, volume: real, samples: seq<real>): real
    requires |p.weight| == |p.vel| == |samples| && volume != 0.0
  {
    ExchangedMomentum(f.mom, ExchangeFraction(rate, dt, f), CollisionFraction(rate, dt),
                      WeightedSum(p.weight, Sort(p.vel)), p.mass, volume,
                      WeightedSum(p.weight, Scale(f.density, Sort(samples))))
  }

  /** The fluid momentum after an exchange: first the particles' momentum
      `mass * a` is added at the exchange fraction `k`, then the momentum
      `bulk` of the replaced ions is taken away at the collision fraction
      `c` (the ion density is already part of `bulk`). */
  function ExchangedMomentum(mom: real, k: real, c: real, a: real, mass: real, volume: real, bulk: real): real
    requires volume != 0.0
  {
    (mom + k * a * mass / volume) - c * bulk / volume
  }

  /** The momentum of fluid and particles together: the fluid's momentum
      density times the volume plus the particle mass times the weighted
      sum of the particle velocities. */
  function TotalMomentum(volume: real, fluidMom: real, mass: real, weightedVel: real): real
  {
    volume * fluidMom + mass * weightedVel
  }

  /** The momentum balance of an exchange, over the two components it
      computes. */
  lemma ExchangedBalance(p: Particles, rate: real, dt: real, f: Fluid.IonFluid, volume: real, samples: seq<real>)
    requires |p.weight| == |p.vel| == |samples| && volume != 0.0 && p.mass != 0.0
    ensures TotalMomentum(volume, FluidMomentumAfter(p, rate, dt, f, volume, samples), p.mass,
                          WeightedSum(p.weight, ExchangedVelocities(p, rate, dt, f, samples)))
            == TotalMomentum(volume, f.mom, p.mass, WeightedSum(p.weight, Sort(p.vel)))
  {
    FluidMomentumIs(p, rate, dt, f, volume, samples);
    ExchangedVelocitiesIs(p, rate, dt, f, samples);
    SortedBalance(p, rate, dt, f, volume, samples);
  }

  lemma SortedBalance(p: Particles, rate: real, dt: real, f: Fluid.IonFluid, volume: real, samples: seq<real>)
    requires |p.weight| == |p.vel| == |samples| && volume != 0.0 && p.mass != 0.0
    ensures TotalMomentum(volume, ExchangedMomentum(f.mom, ExchangeFraction(rate, dt, f), CollisionFraction(rate, dt),
                                                    WeightedSum(p.weight, Sort(p.vel)), p.mass, volume,
                                                    WeightedSum(p.weight, Scale(f.density, Sort(samples)))),
                          p.mass, WeightedSum(p.weight, Relax(ExchangeFraction(rate, dt, f), Sort(p.vel),
                                                              Divide(Sort(samples), p.mass))))
            == TotalMomentum(volume, f.mom, p.mass, WeightedSum(p.weight, Sort(p.vel)))
  {
    ExchangeFractionIs(rate, dt, f);
    MomentumBalance(p.weight, Sort(p.vel), Sort(samples), f.mom, ExchangeFraction(rate, dt, f),
                    CollisionFraction(rate, dt), f.density, p.mass, volume);
  }

  /** `ExchangedBalance` for any velocities `v` and ion draws `s`: the
      fluid gains what the relaxation takes from the particles. */
  lemma MomentumBalance(w: seq<real>, v: seq<real>, s: seq<real>, mom: real, k: real, c: real, d: real,
                        m: real, volume: real)
    requires |w| == |v| == |s| && volume != 0.0 && m != 0.0 && k == c * d
    ensures TotalMomentum(volume, ExchangedMomentum(mom, k, c, WeightedSum(w, v), m, volume, WeightedSum(w, Scale(d, s))),
                          m, WeightedSum(w, Relax(k, v, Divide(s, m))))
            == TotalMomentum(volume, mom, m, WeightedSum(w, v))
  {
    WeightedSumOfScale(w, s, d);
    WeightedSumOfDivide(w, s, m);
    WeightedRelax(w, v, Divide(s, m), k);
    MomentumAlgebra(volume, mom, m, k, c, d, WeightedSum(w, v), WeightedSum(w, s), WeightedSum(w, Scale(d, s)),
                    WeightedSum(w, Divide(s, m)), WeightedSum(w, Relax(k, v, Divide(s, m))));
  }

  lemma ExchangedVelocitiesIs(p: Particles, rate: real, dt: real, f: Fluid.IonFluid, samples: seq<real>)
    requires |samples| == |p.vel| && p.mass != 0.0
    ensures ExchangedVelocities(p, rate, dt, f, samples)
            == Relax(ExchangeFraction(rate, dt, f), Sort(p.vel), Divide(Sort(samples), p.mass))
  {
  }

  lemma ExchangeFractionIs(rate: real, dt: real, f: Fluid.IonFluid)
    ensures ExchangeFraction(rate, dt, f) == CollisionFraction(rate, dt) * f.density
  {
  }

  lemma FluidMomentumIs(p: Particles, rate: real, dt: real, f: Fluid.IonFluid, volume: real, samples: seq<real>)
    requires |p.weight| == |p.vel| == |samples| && volume != 0.0
    ensures FluidMomentumAfter(p, rate, dt, f, volume, samples)
            == ExchangedMomentum(f.mom, ExchangeFraction(rate, dt, f), CollisionFraction(rate, dt),
                                 WeightedSum(p.weight, Sort(p.vel)), p.mass, volume,
                                 WeightedSum(p.weight, Scale(f.density, Sort(samples))))
  {
  }

  lemma ExchangedWeightedSum(p: Particles, rate: real, dt: real, f: Fluid.IonFluid, samples: seq<real>)
    requires |samples| == |p.vel| == |p.weight| && p.mass != 0.0
    ensures WeightedSum(p.weight, ExchangedVelocities(p, rate, dt, f, samples))
            == Blend(ExchangeFraction(rate, dt, f), WeightedSum(p.weight, Sort(p.vel)),
                     WeightedSum(p.weight, Divide(Sort(samples), p.mass)))
  {
    var w, v, t := p.weight, Sort(p.vel), Divide(Sort(samples), p.mass);
    ExchangedVelocitiesSum(p, rate, dt, f, samples);
    WeightedRelax(w, v, t, ExchangeFraction(rate, dt, f));
  }

  lemma ExchangedVelocitiesSum(p: Particles, rate: real, dt: real, f: Fluid.IonFluid, samples: seq<real>)
    requires |samples| == |p.vel| == |p.weight| && p.mass != 0.0
    ensures WeightedSum(p.weight, ExchangedVelocities(p, rate, dt, f, samples))
            == WeightedSum(p.weight, Relax(ExchangeFraction(rate, dt, f), Sort(p.vel), Divide(Sort(samples), p.mass)))
  {
  }

  lemma MomentumAlgebra(volume: real, mom: real, mass: real, k: real, c: real, density: real,
                        a: real, b: real, bulk: real, t: real, after: real)
    requires volume != 0.0
    requires k == c * density
    requires bulk == density * b
    requires b == mass * t
    requires after == Blend(k, a, t)
    ensures TotalMomentum(volume, ExchangedMomentum(mom, k, c, a, mass, volume, bulk), mass, after)
            == TotalMomentum(volume, mom, mass, a)
  {
    assert volume * ExchangedMomentum(mom, k, c, a, mass, volume, bulk)
           == volume * mom + k * a * mass - k * (mass * t);
  }

  /** With equal weights the exchange conserves the momentum held before
      the call: sorting the velocities does not change their weighted sum. */
  lemma EqualWeightsConserveMomentum(p: Particles, rate: real, dt: real, f: Fluid.IonFluid, volume: real,
                                     samples: seq<real>, c: real)
    requires ExchangeDefined(p, volume, samples) && AllEqual(p.weight, c)
    ensures TotalMomentum(volume, Exchange(p, rate, dt, f, volume, samples).1.mom, p.mass,
                          WeightedSum(p.weight, Exchange(p, rate, dt, f, volume, samples).0.vel))
            == TotalMomentum(volume, f.mom, p.mass, WeightedSum(p.weight, p.vel))
  {
    EqualWeightsIgnoreOrder(p.weight, Sort(p.vel), p.vel, c);
  }

  /** With the velocities already in order the exchange conserves the
      momentum held before the call, whatever the weights: sorting them
      changes nothing. */
  lemma SortedConserveMomentum(p: Particles, rate: real, dt: real, f: Fluid.IonFluid, volume: real,
                               samples: seq<real>)
    requires ExchangeDefined(p, volume, samples) && Sorted(p.vel)
    ensures TotalMomentum(volume, Exchange(p, rate, dt, f, volume, samples).1.mom, p.mass,
                          WeightedSum(p.weight, Exchange(p, rate, dt, f, volume, samples).0.vel))
            == TotalMomentum(volume, f.mom, p.mass, WeightedSum(p.weight, p.vel))
  {
    SortedPermutationUnique(Sort(p.vel), p.vel);
  }

  /** Two particles of weights 1 and 2 moving at 2 and 1: sorting the
      velocities without the weights swaps which weight carries which
      velocity, and the total momentum grows by one unit of particle mass. */
  lemma UnequalWeightsShiftMomentum(p: Particles, rate: real, dt: real, f: Fluid.IonFluid,
                                    volume: real, samples: seq<real>)
    requires p.weight == [1.0, 2.0] && p.vel == [2.0, 1.0]
    requires ExchangeDefined(p, volume, samples)
    ensures TotalMomentum(volume, Exchange(p, rate, dt, f, volume, samples).1.mom, p.mass,
                          WeightedSum(p.weight, Exchange(p, rate, dt, f, volume, samples).0.vel))
            == TotalMomentum(volume, f.mom, p.mass, WeightedSum(p.weight, p.vel)) + p.mass
  {
    SwappedSums(p);
    MomentumShift(volume, f.mom, p.mass);
  }

  lemma SwappedSums(p: Particles)
    requires p.weight == [1.0, 2.0] && p.vel == [2.0, 1.0]
    ensures WeightedSum(p.weight, Sort(p.vel)) == 5.0
    ensures WeightedSum(p.weight, p.vel) == 4.0
  {
    SortTwo(2.0, 1.0);
    PairWeightedSum(1.0, 2.0, 1.0, 2.0);
    PairWeightedSum(1.0, 2.0, 2.0, 1.0);
  }

  lemma MomentumShift(volume: real, mom: real, mass: real)
    ensures TotalMomentum(volume, mom, mass, 5.0) == TotalMomentum(volume, mom, mass, 4.0) + mass
  {
  }

  /** For an exchange fraction `dt*rate*density` in [0, 1] and a positive
      mass, the new velocities stay sorted and each lies between its old
      (sorted) value and its paired ion velocity. */
  lemma ExchangeKeepsOrder(p: Particles, rate: real, dt: real, f: Fluid.IonFluid, volume: real, samples: seq<real>)
    requires ExchangeDefined(p, volume, samples)
    requires 0.0 <= ExchangeFraction(rate, dt, f) <= 1.0 && 0.0 < p.mass
    ensures Sorted(Exchange(p, rate, dt, f, volume, samples).0.vel)
    ensures forall i :: 0 <= i < |p.vel| ==>
              Between(Exchange(p, rate, dt, f, volume, samples).0.vel[i], Sort(p.vel)[i], Sort(samples)[i] / p.mass)
  {
    DivideKeepsOrder(Sort(samples), p.mass);
    RelaxKeepsOrder(ExchangeFraction(rate, dt, f), Sort(p.vel), Divide(Sort(samples), p.mass));
  }

  /** Relaxing toward `t` blends the weighted sums the same way. */
  lemma {:induction false} WeightedRelax(w: seq<real>, v: seq<real>, t: seq<real>, k: real)
    requires |w| == |v| == |t|
    ensures WeightedSum(w, Relax(k, v, t)) == Blend(k, WeightedSum(w, v), WeightedSum(w, t))
  {
    RelaxTerms(w, v, t, k);
    SumBlend(Times(w, v), Times(w, t), Times(w, Relax(k, v, t)), k);
  }

  lemma RelaxTerms(w: seq<real>, v: seq<real>, t: seq<real>, k: real)
    requires |w| == |v| == |t|
    ensures forall i :: 0 <= i < |v| ==>
              Times(w, Relax(k, v, t))[i] == (1.0 - k) * Times(w, v)[i] + k * Times(w, t)[i]
  {
    var vel := Relax(k, v, t);
    var x, z, y := Times(w, v), Times(w, t), Times(w, vel);
    forall i | 0 <= i < |y|
      ensures y[i] == (1.0 - k) * x[i] + k * z[i]
    {
      BlendTerm(w[i], v[i], t[i], vel[i], k, y[i], x[i], z[i]);
    }
  }

  /** A sequence that blends two others pointwise blends their sums. */
  lemma {:induction false} SumBlend(x: seq<real>, z: seq<real>, y: seq<real>, k: real)
    requires |x| == |z| == |y|
    requires forall i :: 0 <= i < |y| ==> y[i] == (1.0 - k) * x[i] + k * z[i]
    ensures Sum(y) == Blend(k, Sum(x), Sum(z))
  {
    SumCombination(x, z, y, 1.0 - k, k);
  }

  lemma BlendTerm(wi: real, vi: real, ti: real, x: real, k: real, p: real, q: real, r: real)
    requires x == Blend(k, vi, ti) && p == wi * x && q == wi * vi && r == wi * ti
    ensures p == (1.0 - k) * q + k * r
  {
  }

  /** Dividing the per-particle quantity by `c` divides its weighted sum. */
  lemma {:induction false} WeightedSumOfDivide(w: seq<real>, s: seq<real>, c: real)
    requires |w| == |s| && c != 0.0
    ensures WeightedSum(w, s) == c * WeightedSum(w, Divide(s, c))
  {
    var t := Divide(s, c);
    forall i | 0 <= i < |s|
      ensures Times(w, s)[i] == c * Times(w, t)[i]
    {
      DivideTerm(w[i], s[i], t[i], c, Times(w, s)[i], Times(w, t)[i]);
    }
    SumScale(Times(w, t), Times(w, s), c);
  }

  lemma DivideTerm(wi: real, si: real, ti: real, c: real, p: real, q: real)
    requires c != 0.0 && ti == si / c && p == wi * si && q == wi * ti
    ensures p == c * q
  {
    assert si == c * ti;
  }

  /** Scaling the per-particle quantity scales its weighted sum. */
  lemma {:induction false} WeightedSumOfScale(w: seq<real>, x: seq<real>, c: real)
    requires |w| == |x|
    ensures WeightedSum(w, Scale(c, x)) == c * WeightedSum(w, x)
  {
    var y := Times(w, Scale(c, x));
    forall i | 0 <= i < |y|
      ensures y[i] == c * Times(w, x)[i]
    {
    }
    SumScale(Times(w, x), y, c);
  }

  /** With equal weights the weighted sum does not depend on the order of
      the per-particle quantity. */
  lemma {:induction false} EqualWeightsIgnoreOrder(w: seq<real>, x: seq<real>, y: seq<real>, c: real)
    requires |w| == |x| == |y| && multiset(x) == multiset(y) && AllEqual(w, c)
    ensures WeightedSum(w, x) == WeightedSum(w, y)
  {
    forall i | 0 <= i < |x|
      ensures Times(w, x)[i] == c * x[i]
    {
    }
    forall i | 0 <= i < |y|
      ensures Times(w, y)[i] == c * y[i]
    {
    }
    SumScale(x, Times(w, x), c);
    SumScale(y, Times(w, y), c);
    SumPermutation(x, y);
  }

  /** Dividing by a positive number keeps a sequence sorted. */
  lemma {:induction false} DivideKeepsOrder(s: seq<real>, c: real)
    requires Sorted(s) && 0.0 < c
    ensures Sorted(Divide(s, c))
  {
    var t := Divide(s, c);
    forall i, j | 0 <= i < j < |t|
      ensures t[i] <= t[j]
    {
      DivideMonotone(s[i], s[j], c);
    }
  }

  lemma DivideMonotone(a: real, b: real, c: real)
    requires a <= b && 0.0 < c
    ensures a / c <= b / c
  {
    assert b / c - a / c == (b - a) / c;
  }

  /** For `0 <= k <= 1`, relaxing one sorted sequence toward another keeps
      it sorted, and each element ends between its two ends. */
  lemma {:induction false} RelaxKeepsOrder(k: real, v: seq<real>, t: seq<real>)
    requires |v| == |t| && Sorted(v) && Sorted(t) && 0.0 <= k <= 1.0
    ensures Sorted(Relax(k, v, t))
    ensures forall i :: 0 <= i < |v| ==> Between(Relax(k, v, t)[i], v[i], t[i])
  {
    var r := Relax(k, v, t);
    forall i | 0 <= i < |v|
      ensures Between(r[i], v[i], t[i])
    {
      BlendBetween(k, v[i], t[i]);
    }
    forall i, j | 0 <= i < j < |r|
      ensures r[i] <= r[j]
    {
      BlendMonotone(k, v[i], t[i], v[j], t[j]);
    }
  }

  lemma SortTwo(a: real, b: real)
    requires b <= a
    ensures Sort([a, b]) == [b, a]
  {
    assert Sorted([b, a]);
    assert [a, b] == [a] + [b];
    assert multiset([a, b]) == multiset([b, a]);
    SortedPermutationUnique(Sort([a, b]), [b, a]);
  }

  lemma PairWeightedSum(w0: real, w1: real, x0: real, x1: real)
    ensures WeightedSum([w0, w1], [x0, x1]) == w0 * x0 + w1 * x1
  {
    var t := Times([w0, w1], [x0, x1]);
    assert t[0] == w0 * x0 && t[1] == w1 * x1;
    assert t[1..][1..] == [];
    assert Sum(t[1..][1..]) == 0.0;
    assert Sum(t[1..]) == t[1] + Sum(t[1..][1..]);
    assert Sum(t) == t[0] + Sum(t[1..]);
  }
}
