/** Sums and moments of finite sequences of reals: the exact counterparts of
    `np.sum`, `np.multiply`, `np.mean` and the population variance behind
    `np.std`. */
module RealSeq {

  /** Sum of all elements (`np.sum`). */
  function Sum(s: seq<real>): real
  {
    if |s| == 0 then 0.0 else s[0] + Sum(s[1..])
  }

  /** Element-wise product (`np.multiply`). */
  function Times(a: seq<real>, b: seq<real>): (r: seq<real>)
    requires |a| == |b|
    ensures |r| == |a|
    ensures forall i :: 0 <= i < |r| ==> r[i] == a[i] * b[i]
  {
    seq(|a|, i requires 0 <= i < |a| => a[i] * b[i])
  }

  /** Every element multiplied by the scalar `c` (array times scalar). */
  function Scale(c: real, a: seq<real>): (r: seq<real>)
    ensures |r| == |a|
    ensures forall i :: 0 <= i < |r| ==> r[i] == c * a[i]
  {
    seq(|a|, i requires 0 <= i < |a| => c * a[i])
  }

  /** The point a fraction `k` of the way from `a` to `b`. */
  function Blend(k: real, a: real, b: real): real
  {
    (1.0 - k) * a + k * b
  }

  /** The square of `x`. */
  function Square(x: real): real
  {
    x * x
  }

  /** `x` lies between `a` and `b`, whichever is larger. */
  predicate Between(x: real, a: real, b: real)
  {
    a <= x <= b || b <= x <= a
  }

  /** For `0 <= k <= 1` the blend lies between its two ends. */
  lemma BlendBetween(k: real, a: real, b: real)
    requires 0.0 <= k <= 1.0
    ensures a <= b ==> a <= Blend(k, a, b) <= b
    ensures b <= a ==> b <= Blend(k, a, b) <= a
    ensures Between(Blend(k, a, b), a, b)
  {
    assert Blend(k, a, b) == a + k * (b - a);
    assert Blend(k, a, b) == b - (1.0 - k) * (b - a);
    if a <= b {
      MulNonNegative(k, b - a);
      MulNonNegative(1.0 - k, b - a);
    } else {
      MulNonNegative(k, a - b);
      MulNonNegative(1.0 - k, a - b);
      assert k * (b - a) == -(k * (a - b));
      assert (1.0 - k) * (b - a) == -((1.0 - k) * (a - b));
    }
  }

  /** For `0 <= k <= 1` the blend is monotone in both ends. */
  lemma BlendMonotone(k: real, a1: real, b1: real, a2: real, b2: real)
    requires 0.0 <= k <= 1.0 && a1 <= a2 && b1 <= b2
    ensures Blend(k, a1, b1) <= Blend(k, a2, b2)
  {
    assert Blend(k, a2, b2) - Blend(k, a1, b1) == (1.0 - k) * (a2 - a1) + k * (b2 - b1);
    MulNonNegative(1.0 - k, a2 - a1);
    MulNonNegative(k, b2 - b1);
  }

  lemma MulNonNegative(a: real, b: real)
    requires 0.0 <= a && 0.0 <= b
    ensures 0.0 <= a * b
  {
  }

  /** Sum of the squares of the elements. */
  function SumOfSquares(s: seq<real>): real
  {
    Sum(Times(s, s))
  }

  /** Arithmetic mean (`np.mean`); undefined for an empty sequence. */
  function Mean(s: seq<real>): real
    requires |s| > 0
  {
    Sum(s) / (|s| as real)
  }

  /** Each element's deviation from `m`. */
  function Deviations(s: seq<real>, m: real): (r: seq<real>)
    ensures |r| == |s|
    ensures forall i :: 0 <= i < |r| ==> r[i] == s[i] - m
  {
    seq(|s|, i requires 0 <= i < |s| => s[i] - m)
  }

  /** Sum of the squared deviations of the elements from `m`. */
  function SumSq(s: seq<real>, m: real): real
  {
    SumOfSquares(Deviations(s, m))
  }

  /** Population variance: the square of `np.std` (which divides by n). */
  function PopVariance(s: seq<real>): real
    requires |s| > 0
  {
    SumSq(s, Mean(s)) / (|s| as real)
  }

  predicate AllNonNegative(s: seq<real>)
  {
    forall i :: 0 <= i < |s| ==> 0.0 <= s[i]
  }

  /** All elements equal `c`. */
  predicate AllEqual(s: seq<real>, c: real)
  {
    forall i :: 0 <= i < |s| ==> s[i] == c
  }

  /** Sum is linear: summing `a*x[i] + b*z[i] + c` element by element gives
      `a*Sum(x) + b*Sum(z) + n*c`. */
  lemma {:induction false} SumLinear(x: seq<real>, z: seq<real>, y: seq<real>, a: real, b: real, c: real)
    requires |x| == |z| == |y|
    requires forall i :: 0 <= i < |y| ==> y[i] == a * x[i] + b * z[i] + c
    ensures Sum(y) == a * Sum(x) + b * Sum(z) + (|y| as real) * c
  {
    if |y| > 0 {
      assert y[0] == a * x[0] + b * z[0] + c;
      SumLinear(x[1..], z[1..], y[1..], a, b, c);
      SumUnfold(x);
      SumUnfold(z);
      SumUnfold(y);
      LinearStep(a, b, c, x[0], z[0], y[0], Sum(x[1..]), Sum(z[1..]), Sum(y[1..]), |y[1..]| as real,
                 Sum(x), Sum(z), Sum(y), |y| as real);
    }
  }

  /** `SumLinear` without the constant term. */
  lemma SumCombination(x: seq<real>, z: seq<real>, y: seq<real>, a: real, b: real)
    requires |x| == |z| == |y|
    requires forall i :: 0 <= i < |y| ==> y[i] == a * x[i] + b * z[i]
    ensures Sum(y) == a * Sum(x) + b * Sum(z)
  {
    SumLinear(x, z, y, a, b, 0.0);
    ZeroTimes(|y| as real);
  }

  lemma ZeroTimes(n: real)
    ensures n * 0.0 == 0.0
  {
  }

  lemma SumUnfold(s: seq<real>)
    requires |s| > 0
    ensures Sum(s) == s[0] + Sum(s[1..])
  {
  }

  lemma LinearStep(a: real, b: real, c: real, x0: real, z0: real, y0: real, xs: real, zs: real, ys: real, n: real,
                   x: real, z: real, y: real, n1: real)
    requires y0 == a * x0 + b * z0 + c
    requires ys == a * xs + b * zs + n * c
    requires x == x0 + xs && z == z0 + zs && y == y0 + ys && n1 == n + 1.0
    ensures y == a * x + b * z + n1 * c
  {
  }

  /** A sum of non-negative elements is non-negative. */
  lemma {:induction false} SumNonNegative(s: seq<real>)
    requires AllNonNegative(s)
    ensures 0.0 <= Sum(s)
  {
    if |s| > 0 {
      SumNonNegative(s[1..]);
    }
  }

  /** Scaling every element scales the sum. */
  lemma {:induction false} SumScale(x: seq<real>, y: seq<real>, a: real)
    requires |x| == |y|
    requires forall i :: 0 <= i < |y| ==> y[i] == a * x[i]
    ensures Sum(y) == a * Sum(x)
  {
    SumLinear(x, x, y, a, 0.0, 0.0);
  }

  lemma {:induction false} SumOfScale(c: real, a: seq<real>)
    ensures Sum(Scale(c, a)) == c * Sum(a)
  {
    SumScale(a, Scale(c, a), c);
  }

  /** A sequence of `n` copies of `c` sums to `n * c`. */
  lemma {:induction false} SumOfConstant(s: seq<real>, c: real)
    requires AllEqual(s, c)
    ensures Sum(s) == (|s| as real) * c
  {
    SumLinear(s, s, s, 0.0, 0.0, c);
  }

  lemma {:induction false} SumConcat(p: seq<real>, q: seq<real>)
    ensures Sum(p + q) == Sum(p) + Sum(q)
  {
    if |p| > 0 {
      assert (p + q)[1..] == p[1..] + q;
      SumConcat(p[1..], q);
    } else {
      assert p + q == q;
    }
  }

  /** Removing the element at index `j` takes exactly that element off the sum. */
  lemma {:induction false} SumRemove(b: seq<real>, j: int)
    requires 0 <= j < |b|
    ensures Sum(b) == b[j] + Sum(b[..j] + b[j + 1..])
  {
    assert b == b[..j] + ([b[j]] + b[j + 1..]);
    SumConcat(b[..j], [b[j]] + b[j + 1..]);
    SumConcat([b[j]], b[j + 1..]);
    SumConcat(b[..j], b[j + 1..]);
  }

  /** Reordering does not change a sum: sequences with the same multiset of
      elements have the same sum. */
  lemma {:induction false} SumPermutation(a: seq<real>, b: seq<real>)
    requires multiset(a) == multiset(b)
    ensures Sum(a) == Sum(b)
    decreases |a|
  {
    if |a| == 0 {
      assert |b| == |multiset(b)| == 0;
    } else {
      var x := a[0];
      assert x in multiset(b);
      var j :| 0 <= j < |b| && b[j] == x;
      var rest := b[..j] + b[j + 1..];
      MultisetRemove(b, j);
      assert a == [x] + a[1..];
      assert multiset(a[1..]) == multiset(a) - multiset{x};
      SumPermutation(a[1..], rest);
      SumRemove(b, j);
    }
  }

  lemma {:induction false} MultisetRemove<T>(b: seq<T>, j: int)
    requires 0 <= j < |b|
    ensures multiset(b[..j] + b[j + 1..]) == multiset(b) - multiset{b[j]}
  {
    assert b == b[..j] + [b[j]] + b[j + 1..];
  }

  /** The deviations from the mean sum to zero. */
  lemma {:induction false} SumAboutMean(s: seq<real>)
    requires |s| > 0
    ensures Sum(s) == (|s| as real) * Mean(s)
  {
  }

  /** Squared deviations never sum to a negative number. */
  lemma {:induction false} SumSqNonNegative(s: seq<real>, m: real)
    ensures 0.0 <= SumSq(s, m)
  {
    var d := Deviations(s, m);
    forall i | 0 <= i < |d|
      ensures 0.0 <= Times(d, d)[i]
    {
      SquareNonNegative(d[i]);
    }
    SumNonNegative(Times(d, d));
  }

  lemma {:induction false} VarianceNonNegative(s: seq<real>)
    requires |s| > 0
    ensures 0.0 <= PopVariance(s)
  {
    SumSqNonNegative(s, Mean(s));
  }

  /** A single value has no spread. */
  lemma {:induction false} SingletonVariance(s: seq<real>)
    requires |s| == 1
    ensures PopVariance(s) == 0.0
  {
    assert s[1..] == [];
    assert Sum(s) == s[0];
    assert Mean(s) == s[0];
    var d := Times(Deviations(s, s[0]), Deviations(s, s[0]));
    assert d[0] == 0.0 && d[1..] == [];
    assert Sum(d) == 0.0;
  }

  lemma SquareNonNegative(t: real)
    ensures 0.0 <= t * t
  {
    if t < 0.0 {
      assert t * t == (-t) * (-t);
    }
  }

  /** The affine image `a*(x[i] - Mean(x)) + c` of a batch has mean `c`. */
  lemma {:induction false} AffineMean(x: seq<real>, y: seq<real>, a: real, c: real)
    requires |x| > 0 && |y| == |x|
    requires forall i :: 0 <= i < |y| ==> y[i] == a * (x[i] - Mean(x)) + c
    ensures Mean(y) == c
  {
    AffineSum(x, y, a, c, Mean(x));
    SumAboutMean(x);
    MeanAlgebra(Sum(y), Sum(x), |y| as real, |x| as real, Mean(x), a, c, Mean(y));
  }

  /** Summing `a*(x[i] - m) + c` gives `a*Sum(x) + n*(c - a*m)`. */
  lemma {:induction false} AffineSum(x: seq<real>, y: seq<real>, a: real, c: real, m: real)
    requires |y| == |x|
    requires forall i :: 0 <= i < |y| ==> y[i] == a * (x[i] - m) + c
    ensures Sum(y) == a * Sum(x) + (|y| as real) * (c - a * m)
  {
    if |y| > 0 {
      assert y[0] == a * (x[0] - m) + c;
      AffineSum(x[1..], y[1..], a, c, m);
      SumUnfold(x);
      SumUnfold(y);
      AffineStep(a, c, m, x[0], y[0], Sum(x[1..]), Sum(y[1..]), |y[1..]| as real, Sum(x), Sum(y), |y| as real);
    }
  }

  lemma AffineStep(a: real, c: real, m: real, x0: real, y0: real, xs: real, ys: real, n: real,
                   x: real, y: real, n1: real)
    requires y0 == a * (x0 - m) + c
    requires ys == a * xs + n * (c - a * m)
    requires x == x0 + xs && y == y0 + ys && n1 == n + 1.0
    ensures y == a * x + n1 * (c - a * m)
  {
  }

  lemma MeanAlgebra(sy: real, sx: real, ny: real, nx: real, m: real, a: real, c: real, my: real)
    requires ny == nx && nx != 0.0
    requires sy == a * sx + ny * (c - a * m)
    requires sx == nx * m && my == sy / ny
    ensures my == c
  {
    assert sy == ny * c;
    DivCancel(ny, c);
  }

  /** The affine image `a*(x[i] - Mean(x)) + c` of a batch has `a*a` times
      its variance. */
  lemma {:induction false} AffineVariance(x: seq<real>, y: seq<real>, a: real, c: real)
    requires |x| > 0 && |y| == |x|
    requires forall i :: 0 <= i < |y| ==> y[i] == a * (x[i] - Mean(x)) + c
    ensures PopVariance(y) == a * a * PopVariance(x)
  {
    AffineMean(x, y, a, c);
    AffineDeviations(x, y, a, c);
    ScaledVariance(x, y, c, a * a);
  }

  /** The affine image's squared deviations about `c` are `a*a` times those
      of the batch about its mean. */
  lemma AffineDeviations(x: seq<real>, y: seq<real>, a: real, c: real)
    requires |x| > 0 && |y| == |x|
    requires forall i :: 0 <= i < |y| ==> y[i] == a * (x[i] - Mean(x)) + c
    ensures SumSq(y, c) == (a * a) * SumSq(x, Mean(x))
  {
    DeviationTerms(x, y, a, c);
    SumSqScaled(x, y, Mean(x), c, a);
  }

  /** Squared deviations about the mean scaled by `k` scale the variance by `k`. */
  lemma ScaledVariance(x: seq<real>, y: seq<real>, c: real, k: real)
    requires |x| > 0 && |y| == |x|
    requires Mean(y) == c && SumSq(y, c) == k * SumSq(x, Mean(x))
    ensures PopVariance(y) == k * PopVariance(x)
  {
    VarianceCopy(SumSq(y, c), SumSq(x, Mean(x)), |y| as real, |x| as real, k, PopVariance(y), PopVariance(x));
  }

  lemma DeviationTerms(x: seq<real>, y: seq<real>, a: real, c: real)
    requires |x| > 0 && |y| == |x|
    requires forall i :: 0 <= i < |y| ==> y[i] == a * (x[i] - Mean(x)) + c
    ensures forall i :: 0 <= i < |y| ==> y[i] - c == a * (x[i] - Mean(x))
  {
  }

  lemma VarianceCopy(sy: real, sx: real, ny: real, nx: real, k: real, vy: real, vx: real)
    requires ny == nx && nx != 0.0
    requires sy == k * sx && vy == sy / ny && vx == sx / nx
    ensures vy == k * vx
  {
    MulDivAssoc(k, sx, nx);
  }

  /** If `y` deviates from `c` by `a` times the deviation of `x` from `m`,
      its squared deviations sum to `a*a` times those of `x`. */
  lemma {:induction false} SumSqScaled(x: seq<real>, y: seq<real>, m: real, c: real, a: real)
    requires |x| == |y|
    requires forall i :: 0 <= i < |y| ==> y[i] - c == a * (x[i] - m)
    ensures SumSq(y, c) == (a * a) * SumSq(x, m)
  {
    var tx, ty := Times(Deviations(x, m), Deviations(x, m)), Times(Deviations(y, c), Deviations(y, c));
    ScaledDeviationTerms(x, y, m, c, a);
    SumScale(tx, ty, a * a);
    ScaledCopy(Sum(ty), Sum(tx), SumSq(y, c), SumSq(x, m), a * a);
  }

  lemma ScaledCopy(p: real, q: real, p1: real, q1: real, k: real)
    requires p == k * q && p1 == p && q1 == q
    ensures p1 == k * q1
  {
  }

  lemma ScaledDeviationTerms(x: seq<real>, y: seq<real>, m: real, c: real, a: real)
    requires |x| == |y|
    requires forall i :: 0 <= i < |y| ==> y[i] - c == a * (x[i] - m)
    ensures forall i :: 0 <= i < |y| ==>
              Times(Deviations(y, c), Deviations(y, c))[i] == (a * a) * Times(Deviations(x, m), Deviations(x, m))[i]
  {
    var dx, dy := Deviations(x, m), Deviations(y, c);
    forall i | 0 <= i < |dy|
      ensures Times(dy, dy)[i] == (a * a) * Times(dx, dx)[i]
    {
      ScaledSquare(dy[i], dx[i], a);
    }
  }

  lemma ScaledSquare(u: real, t: real, a: real)
    requires u == a * t
    ensures u * u == (a * a) * (t * t)
  {
  }

  /** Squared deviations expand into the sum of squares, the sum and the count. */
  lemma {:induction false} SumSqExpand(s: seq<real>, m: real)
    ensures SumSq(s, m) == SumOfSquares(s) - 2.0 * m * Sum(s) + (|s| as real) * (m * m)
  {
    SumSqLinear(s, m);
    ExpandTotal(SumSq(s, m), SumOfSquares(s), Sum(s), |s| as real, m);
  }

  lemma {:induction false} SumSqLinear(s: seq<real>, m: real)
    ensures SumSq(s, m) == 1.0 * SumOfSquares(s) + (-2.0 * m) * Sum(s) + (|s| as real) * (m * m)
  {
    var t := Times(Deviations(s, m), Deviations(s, m));
    SquaredDeviationTerms(s, m);
    SumLinear(Times(s, s), s, t, 1.0, -2.0 * m, m * m);
    LinearCopy(Sum(t), Sum(Times(s, s)), Sum(s), |t| as real, SumSq(s, m), SumOfSquares(s), |s| as real,
               1.0, -2.0 * m, m * m);
  }

  lemma LinearCopy(y: real, x: real, z: real, n: real, y1: real, x1: real, n1: real, a: real, b: real, c: real)
    requires y == a * x + b * z + n * c
    requires y1 == y && x1 == x && n1 == n
    ensures y1 == a * x1 + b * z + n1 * c
  {
  }

  lemma SquaredDeviationTerms(s: seq<real>, m: real)
    ensures forall i :: 0 <= i < |s| ==>
              Times(Deviations(s, m), Deviations(s, m))[i] == 1.0 * Times(s, s)[i] + (-2.0 * m) * s[i] + m * m
  {
    var d := Deviations(s, m);
    forall i | 0 <= i < |s|
      ensures Times(d, d)[i] == 1.0 * Times(s, s)[i] + (-2.0 * m) * s[i] + m * m
    {
      ExpandSquare(s[i], m, d[i]);
    }
  }

  lemma ExpandSquare(v: real, m: real, d: real)
    requires d == v - m
    ensures d * d == 1.0 * (v * v) + (-2.0 * m) * v + m * m
  {
  }

  lemma ExpandTotal(sd: real, sq: real, ss: real, n: real, m: real)
    requires sd == 1.0 * sq + (-2.0 * m) * ss + n * (m * m)
    ensures sd == sq - 2.0 * m * ss + n * (m * m)
  {
  }

  /** Population variance as "mean of squares minus square of mean". */
  lemma {:induction false} VarianceBySquares(s: seq<real>)
    requires |s| > 0
    ensures PopVariance(s) == SumOfSquares(s) / (|s| as real) - Mean(s) * Mean(s)
  {
    var m := Mean(s);
    SumSqExpand(s, m);
    VarianceAlgebra(SumSq(s, m), SumOfSquares(s), Sum(s), |s| as real, m);
  }

  lemma VarianceAlgebra(sd: real, ssq: real, ss: real, n: real, m: real)
    requires n != 0.0
    requires m == ss / n
    requires sd == ssq - 2.0 * m * ss + n * (m * m)
    ensures sd / n == ssq / n - m * m
  {
    assert ss == n * m;
    assert sd == ssq - n * (m * m);
    DivSub(ssq, n * (m * m), n);
    DivCancel(n, m * m);
  }

  lemma DivCancel(n: real, c: real)
    requires n != 0.0
    ensures n * c / n == c
  {
  }

  lemma DivSub(p: real, q: real, n: real)
    requires n != 0.0
    ensures (p - q) / n == p / n - q / n
  {
  }

  lemma MulDivAssoc(k: real, p: real, n: real)
    requires n != 0.0
    ensures (k * p) / n == k * (p / n)
  {
  }

  /** Sum is additive across three sequences added element by element. */
  lemma {:induction false} SumOfThree(x: seq<real>, z: seq<real>, u: seq<real>, y: seq<real>)
    requires |x| == |z| == |u| == |y|
    requires forall i :: 0 <= i < |y| ==> y[i] == x[i] + z[i] + u[i]
    ensures Sum(y) == Sum(x) + Sum(z) + Sum(u)
  {
    if |y| > 0 {
      assert y[0] == x[0] + z[0] + u[0];
      SumOfThree(x[1..], z[1..], u[1..], y[1..]);
    }
  }
}
