/** The size detector: a rolling per-key baseline and a sigma test. */
module SizeAnomaly {
  import opened Text

  const SIZE_FLAG := "size_anomaly_suspected"

  datatype Config = Config(windowSize: int, sigma: real, minSamples: int)

  /** Non-positive fields take their documented defaults. */
  function Resolved(c: Config): (r: Config)
    ensures r.windowSize > 0 && r.sigma > 0.0 && r.minSamples > 0
  {
    Config(if c.windowSize < 1 then 20 else c.windowSize,
           if c.sigma <= 0.0 then 3.0 else c.sigma,
           if c.minSamples < 1 then 5 else c.minSamples)
  }

  // ---------------------------------------------------------------- sums

  function Sum(xs: seq<int>): int {
    if xs == [] then 0 else Sum(xs[..|xs| - 1]) + xs[|xs| - 1]
  }

  function SumSq(xs: seq<int>): nat {
    if xs == [] then 0 else SumSq(xs[..|xs| - 1]) + Square(xs[|xs| - 1])
  }

  function Square(x: int): (r: nat) {
    assert x * x >= 0;
    x * x
  }

  /** n^2 times the population variance. */
  function Spread(xs: seq<int>): int {
    |xs| * SumSq(xs) - Square(Sum(xs))
  }

  /** The sum of squared deviations from `m`. */
  function SqDev(xs: seq<int>, m: real): real {
    if xs == [] then 0.0
    else SqDev(xs[..|xs| - 1], m) + (xs[|xs| - 1] as real - m) * (xs[|xs| - 1] as real - m)
  }

  lemma {:induction false} SumsAppend(a: seq<int>, b: seq<int>)
    ensures Sum(a + b) == Sum(a) + Sum(b)
    ensures SumSq(a + b) == SumSq(a) + SumSq(b)
    decreases |b|
  {
    if b == [] {
      NothingAfter(a, b);
    } else {
      assert (a + b)[..|a + b| - 1] == a + b[..|b| - 1];
      SumsAppend(a, b[..|b| - 1]);
    }
  }

  // ---------------------------------------------------------------- deviations from a value

  function DevSum(xs: seq<int>, x: int): int {
    if xs == [] then 0 else DevSum(xs[..|xs| - 1], x) + (xs[|xs| - 1] - x)
  }

  function DevSq(xs: seq<int>, x: int): nat {
    if xs == [] then 0 else DevSq(xs[..|xs| - 1], x) + Square(xs[|xs| - 1] - x)
  }

  lemma DevStep(q: int, s: int, n: int, e: int, x: int)
    ensures (q - 2 * x * s + n * x * x) + Square(e - x) == (q + Square(e)) - 2 * x * (s + e) + (n + 1) * x * x
    ensures (s - n * x) + (e - x) == (s + e) - (n + 1) * x
  {
  }

  lemma {:induction false} DevSums(xs: seq<int>, x: int)
    ensures DevSum(xs, x) == Sum(xs) - |xs| * x
    ensures DevSq(xs, x) == SumSq(xs) - 2 * x * Sum(xs) + |xs| * x * x
    decreases |xs|
  {
    if xs != [] {
      var n := |xs| - 1;
      DevSums(xs[..n], x);
      DevStep(SumSq(xs[..n]), Sum(xs[..n]), n, xs[n], x);
    }
  }

  lemma SpreadAlgebra(n: int, s: int, q: int, x: int)
    ensures n * (q - 2 * x * s + n * x * x) - Square(s - n * x) == n * q - Square(s)
  {
  }

  lemma SquareNegates(a: int, b: int)
    requires a == -b
    ensures Square(a) == Square(b)
  {
  }

  /** The spread is the same about any value. */
  lemma SpreadAbout(xs: seq<int>, x: int)
    ensures |xs| * DevSq(xs, x) - Square(DevSum(xs, x)) == Spread(xs)
    ensures Square(|xs| * x - Sum(xs)) == Square(DevSum(xs, x))
  {
    DevSums(xs, x);
    SpreadAlgebra(|xs|, Sum(xs), SumSq(xs), x);
    SquareNegates(|xs| * x - Sum(xs), DevSum(xs, x));
  }

  lemma SquareOfSum(t: int, y: int)
    ensures Square(t + y) == Square(t) + 2 * (t * y) + Square(y)
  {
  }

  lemma SquareOfDifference(t: int, n: int, y: int)
    ensures 0 <= Square(t) - 2 * (n * (t * y)) + n * (n * Square(y))
  {
    var d := t - n * y;
    assert Square(d) == Square(t) - 2 * (n * (t * y)) + n * (n * Square(y));
  }

  lemma Cancel(n: int, a: int, b: int)
    requires n > 0 && n * a <= n * b
    ensures a <= b
  {
    if a > b { Product(n, a - b); }
  }

  lemma Product(n: int, d: int)
    requires n > 0 && d > 0
    ensures n * d > 0
  {
  }

  lemma Distribute(n: int, a: int, b: int)
    ensures n * (a + b) == n * a + n * b
    ensures (n + 1) * (a + b) == n * a + a + n * b + b
  {
  }

  lemma TwiceProduct(n: int, tt: int, p: int, yy: int, r: int)
    requires n > 0 && tt <= n * r && 0 <= tt - 2 * (n * p) + n * (n * yy)
    ensures 2 * p <= r + n * yy
  {
    Distribute(n, r, n * yy);
    assert n * (2 * p) == 2 * (n * p);
    Cancel(n, 2 * p, r + n * yy);
  }

  /** The linear part of the induction step, with the products as plain numbers. */
  lemma CauchyLinear(tt: int, p: int, yy: int, r: int, nr: int, nyy: int)
    requires tt <= nr && 2 * p <= r + nyy
    ensures tt + 2 * p + yy <= nr + r + nyy + yy
  {
  }

  lemma CauchyStep(n: nat, t: int, r: int, y: int)
    requires Square(t) <= n * r && (n == 0 ==> t == 0 && r == 0)
    ensures Square(t + y) <= (n + 1) * (r + Square(y))
  {
    SquareOfSum(t, y);
    Distribute(n, r, Square(y));
    if n > 0 {
      SquareOfDifference(t, n, y);
      TwiceProduct(n, Square(t), t * y, Square(y), r);
    }
    CauchyLinear(Square(t), t * y, Square(y), r, n * r, n * Square(y));
  }

  /** The square of a sum of deviations is at most their count times the sum of their squares. */
  lemma {:induction false} Cauchy(xs: seq<int>, x: int)
    ensures Square(DevSum(xs, x)) <= |xs| * DevSq(xs, x)
    decreases |xs|
  {
    if xs != [] {
      var n := |xs| - 1;
      Cauchy(xs[..n], x);
      CauchyStep(n, DevSum(xs[..n], x), DevSq(xs[..n], x), xs[n] - x);
    }
  }

  lemma {:induction false} DevAppend(a: seq<int>, b: seq<int>, x: int)
    ensures DevSum(a + b, x) == DevSum(a, x) + DevSum(b, x)
    ensures DevSq(a + b, x) == DevSq(a, x) + DevSq(b, x)
    decreases |b|
  {
    if b == [] {
      NothingAfter(a, b);
    } else {
      assert (a + b)[..|a + b| - 1] == a + b[..|b| - 1];
      DevAppend(a, b[..|b| - 1], x);
    }
  }

  /** About a member, one less than the count will do. */
  lemma WithoutMember(xs: seq<int>, k: nat) returns (ys: seq<int>)
    requires k < |xs|
    ensures |ys| == |xs| - 1
    ensures DevSum(ys, xs[k]) == DevSum(xs, xs[k]) && DevSq(ys, xs[k]) == DevSq(xs, xs[k])
  {
    var a, b, x := xs[..k], xs[k + 1..], xs[k];
    assert xs == a + ([x] + b);
    DevAppend(a, [x] + b, x);
    DevAppend([x], b, x);
    DevAppend(a, b, x);
    DevSingle(x);
    ys := a + b;
  }

  lemma DevSingle(x: int)
    ensures DevSum([x], x) == 0 && DevSq([x], x) == 0
  {
    assert [x][..0] == [];
  }

  /** About a member, one less than the count will do. */
  lemma CauchyAboutMember(xs: seq<int>, k: nat)
    requires k < |xs|
    ensures Square(DevSum(xs, xs[k])) <= (|xs| - 1) * DevSq(xs, xs[k])
  {
    var ys := WithoutMember(xs, k);
    Cauchy(ys, xs[k]);
  }

  lemma SpreadNonNegative(xs: seq<int>)
    ensures Spread(xs) >= 0
  {
    SpreadAbout(xs, 0);
    Cauchy(xs, 0);
  }

  lemma NearAlgebra(n: int, tt: int, r: int)
    requires n >= 1 && tt <= (n - 1) * r
    ensures tt <= (n - 1) * (n * r - tt)
  {
    var e := (n - 1) * r - tt;
    assert n * e >= 0 by { if e > 0 { Product(n, e); } }
    assert (n - 1) * (n * r - tt) - tt == n * e;
  }

  /** A member lies within sqrt(n-1) population deviations of the mean. */
  lemma MemberIsNear(xs: seq<int>, k: nat)
    requires k < |xs|
    ensures Square(|xs| * xs[k] - Sum(xs)) <= (|xs| - 1) * Spread(xs)
  {
    SpreadAbout(xs, xs[k]);
    CauchyAboutMember(xs, k);
    NearAlgebra(|xs|, Square(DevSum(xs, xs[k])), DevSq(xs, xs[k]));
  }

  lemma SquareZero(y: int)
    ensures Square(y) == 0 <==> y == 0
  {
    if y > 0 { Product(y, y); }
    if y < 0 { Product(-y, -y); }
  }

  lemma {:induction false} DevSqZero(xs: seq<int>, x: int)
    ensures DevSq(xs, x) == 0 <==> forall i :: 0 <= i < |xs| ==> xs[i] == x
    ensures DevSq(xs, x) == 0 ==> DevSum(xs, x) == 0
    decreases |xs|
  {
    if xs != [] {
      var n := |xs| - 1;
      DevSqZero(xs[..n], x);
      SquareZero(xs[n] - x);
      assert forall i :: 0 <= i < n ==> xs[..n][i] == xs[i];
    }
  }

  lemma ZeroAlgebra(n: int, tt: int, r: int)
    requires n >= 1 && r >= 0 && tt <= (n - 1) * r && n * r - tt == 0
    ensures r == 0
  {
    assert n * r == (n - 1) * r + r;
  }

  /** No spread exactly when all samples are equal. */
  lemma SpreadZeroIff(xs: seq<int>)
    requires xs != []
    ensures Spread(xs) == 0 <==> forall i :: 0 <= i < |xs| ==> xs[i] == xs[0]
  {
    var t, r := DevSum(xs, xs[0]), DevSq(xs, xs[0]);
    SpreadAbout(xs, xs[0]);
    CauchyAboutMember(xs, 0);
    DevSqZero(xs, xs[0]);
    if Spread(xs) == 0 { ZeroAlgebra(|xs|, Square(t), r); }
  }

  // ---------------------------------------------------------------- the sigma test

  /** The test over whole numbers: (n x - S)^2 > sigma^2 (n Q - S^2). */
  predicate Deviates(xs: seq<int>, x: int, sigma: real) {
    Exceeds(|xs| * x - Sum(xs), Spread(xs), sigma)
  }

  predicate Exceeds(d: int, v: int, sigma: real) {
    Square(d) as real > sigma * sigma * v as real
  }

  ghost predicate IsSqrt(sqrt: real -> real) {
    forall v: real :: v >= 0.0 ==> sqrt(v) >= 0.0 && sqrt(v) * sqrt(v) == v
  }

  lemma SqDevStep(q: real, s: real, n: real, e: real, m: real)
    ensures (q - 2.0 * m * s + n * m * m) + (e - m) * (e - m) == (q + e * e) - 2.0 * m * (s + e) + (n + 1.0) * m * m
  {
  }

  lemma {:induction false} SqDevIsPolynomial(xs: seq<int>, m: real)
    ensures SqDev(xs, m) == SumSq(xs) as real - 2.0 * m * Sum(xs) as real + |xs| as real * m * m
    decreases |xs|
  {
    if xs != [] {
      var n := |xs| - 1;
      SqDevIsPolynomial(xs[..n], m);
      SqDevStep(SumSq(xs[..n]) as real, Sum(xs[..n]) as real, n as real, xs[n] as real, m);
      SquareAsReal(xs[n]);
    }
  }

  lemma SquareAsReal(x: int)
    ensures Square(x) as real == x as real * x as real
  {
  }

  lemma ProductAsReal(n: int, q: int)
    ensures (n * q) as real == n as real * q as real
  {
  }

  lemma DifferenceAsReal(n: int, q: int, s: int)
    ensures (n * q - Square(s)) as real == n as real * q as real - s as real * s as real
  {
    SquareAsReal(s);
    ProductAsReal(n, q);
  }

  lemma SpreadAsReal(xs: seq<int>)
    ensures Spread(xs) as real == |xs| as real * SumSq(xs) as real - Sum(xs) as real * Sum(xs) as real
  {
    DifferenceAsReal(|xs|, SumSq(xs), Sum(xs));
  }

  /** The mean loop and the deviation loop. */
  method Accumulate(xs: seq<int>) returns (mean: real, sq: real)
    requires xs != []
    ensures mean == Sum(xs) as real / |xs| as real
    ensures sq == SqDev(xs, mean)
  {
    var sum := 0.0;
    for i := 0 to |xs|
      invariant sum == Sum(xs[..i]) as real
    {
      assert xs[..i + 1][..i] == xs[..i];
      sum := sum + xs[i] as real;
    }
    assert xs[..|xs|] == xs;
    mean := sum / |xs| as real;
    sq := 0.0;
    for i := 0 to |xs|
      invariant sq == SqDev(xs[..i], mean)
    {
      assert xs[..i + 1][..i] == xs[..i];
      var diff := xs[i] as real - mean;
      sq := sq + diff * diff;
    }
  }

  /** For `n` samples of sum `s` and spread `v`: n times the mean is the sum, and n times the deviation squares to the
      spread. */
  predicate IsMeanStddev(n: real, s: real, v: real, mean: real, stddev: real) {
    mean * n == s && stddev >= 0.0 && (stddev * n) * (stddev * n) == v
  }

  lemma VarianceAlgebra(n: real, s: real, q: real, mean: real, sq: real)
    requires n > 0.0 && mean * n == s && sq == q - 2.0 * mean * s + n * mean * mean
    ensures sq * n == n * q - s * s
  {
    assert n * mean * mean == s * mean;
    assert sq == q - mean * s;
    assert sq * n == q * n - (mean * n) * s;
  }

  /** The sample in plain numbers: count, sum, sum of squares, spread, mean, squared deviations. */
  predicate IsSample(n: real, s: real, q: real, v: real, mean: real, sq: real) {
    n > 0.0 && v >= 0.0 && v == n * q - s * s && mean == s / n && sq == q - 2.0 * mean * s + n * mean * mean
  }

  lemma SampleNumbers(xs: seq<int>, mean: real, sq: real)
    requires xs != [] && mean == Sum(xs) as real / |xs| as real && sq == SqDev(xs, mean)
    ensures IsSample(|xs| as real, Sum(xs) as real, SumSq(xs) as real, Spread(xs) as real, mean, sq)
  {
    SqDevIsPolynomial(xs, mean);
    SpreadAsReal(xs);
    SpreadNonNegative(xs);
  }

  lemma VarianceOrder(n: real, s: real, q: real, mean: real, sq: real, spread: real)
    requires IsSample(n, s, q, spread, mean, sq)
    ensures mean * n == s && sq / n >= 0.0 && sq / n * (n * n) == spread
  {
    Quotient(s, n);
    VarianceAlgebra(n, s, q, mean, sq);
    Quotient(sq, n);
    NonNegativeQuotient(sq / n, n, spread);
  }

  lemma Quotient(a: real, n: real)
    requires n > 0.0
    ensures a / n * n == a
    ensures a / n * (n * n) == a * n
  {
  }

  lemma NonNegativeQuotient(q: real, n: real, v: real)
    requires n > 0.0 && v >= 0.0 && q * (n * n) == v
    ensures q >= 0.0
  {
    if q < 0.0 {
      NegativeProduct(q, n);
      NegativeProduct(q * n, n);
    }
  }

  lemma NegativeProduct(q: real, m: real)
    requires q < 0.0 && m > 0.0
    ensures q * m < 0.0
  {
  }

  lemma StddevAlgebra(d: real, n: real, v: real, spread: real)
    requires d * d == v && v * (n * n) == spread
    ensures (d * n) * (d * n) == spread
  {
    assert (d * n) * (d * n) == (d * d) * (n * n);
  }

  lemma RootIsDeviation(sqrt: real -> real, n: real, s: real, q: real, v: real, mean: real, sq: real)
    requires IsSqrt(sqrt) && IsSample(n, s, q, v, mean, sq)
    ensures IsMeanStddev(n, s, v, mean, sqrt(sq / n))
  {
    VarianceOrder(n, s, q, mean, sq, v);
    StddevAlgebra(sqrt(sq / n), n, sq / n, v);
  }

  /** Mean and population standard deviation of a non-empty sample. */
  method MeanStddev(xs: seq<int>, sqrt: real -> real) returns (mean: real, stddev: real)
    requires xs != [] && IsSqrt(sqrt)
    ensures IsMeanStddev(|xs| as real, Sum(xs) as real, Spread(xs) as real, mean, stddev)
  {
    var sq;
    mean, sq := Accumulate(xs);
    SampleNumbers(xs, mean, sq);
    RootIsDeviation(sqrt, |xs| as real, Sum(xs) as real, SumSq(xs) as real, Spread(xs) as real, mean, sq);
    stddev := sqrt(sq / |xs| as real);
  }

  /** The comparison of absolute values is the comparison over whole numbers. */
  lemma SigmaTest(xs: seq<int>, x: int, sigma: real, mean: real, stddev: real)
    requires xs != [] && sigma >= 0.0
    requires IsMeanStddev(|xs| as real, Sum(xs) as real, Spread(xs) as real, mean, stddev)
    ensures Abs(x as real - mean) > sigma * stddev <==> Deviates(xs, x, sigma)
  {
    var d := |xs| * x - Sum(xs);
    ProductAsReal(|xs|, x);
    SquareAsReal(d);
    SigmaOrder(x as real, mean, sigma, stddev, |xs| as real, Sum(xs) as real, d as real, Spread(xs) as real);
  }

  /** The same over plain numbers: `s` the sum, `d` the scaled difference, `v` the spread. */
  lemma SigmaOrder(x: real, mean: real, sigma: real, stddev: real, n: real, s: real, d: real, v: real)
    requires n > 0.0 && sigma >= 0.0 && IsMeanStddev(n, s, v, mean, stddev) && d == n * x - s
    ensures Abs(x - mean) > sigma * stddev <==> d * d > sigma * sigma * v
  {
    var a, b := Abs(x - mean), sigma * stddev;
    DifferenceScaled(x, mean, n, s, d);
    AbsSquare(x - mean, n, d);
    SigmaAlgebra(sigma, stddev, n, v);
    ScaleOrder(a, b, n);
    SquareOrder(a * n, b * n);
  }

  lemma DifferenceScaled(x: real, mean: real, n: real, s: real, d: real)
    requires mean * n == s && d == n * x - s
    ensures (x - mean) * n == d
  {
  }

  function Abs(r: real): real {
    if r < 0.0 then -r else r
  }

  lemma PositiveProduct(a: real, b: real)
    requires a > 0.0 && b > 0.0
    ensures a * b > 0.0
  {
  }

  lemma ScaleOrder(a: real, b: real, n: real)
    requires n > 0.0
    ensures a > b <==> a * n > b * n
  {
    var d := a - b;
    assert d * n == a * n - b * n;
    if d > 0.0 { PositiveProduct(d, n); }
    if d < 0.0 { NegativeProduct(d, n); }
  }

  lemma SquareOrder(a: real, b: real)
    requires a >= 0.0 && b >= 0.0
    ensures a > b <==> a * a > b * b
  {
    assert (a - b) * (a + b) == a * a - b * b && (b - a) * (b + a) == b * b - a * a;
    if a > b { PositiveProduct(a - b, a + b); }
    if a < b { PositiveProduct(b - a, b + a); }
  }

  lemma AbsSquare(d: real, n: real, p: real)
    requires d * n == p && n > 0.0
    ensures Abs(d) * n >= 0.0 && (Abs(d) * n) * (Abs(d) * n) == p * p
  {
    assert (-d) * n == -p;
    if d < 0.0 { PositiveProduct(-d, n); }
    if d > 0.0 { PositiveProduct(d, n); }
    assert (-p) * (-p) == p * p;
  }

  lemma SigmaAlgebra(sigma: real, stddev: real, n: real, v: real)
    requires sigma >= 0.0 && stddev >= 0.0 && n > 0.0 && (stddev * n) * (stddev * n) == v
    ensures sigma * stddev * n >= 0.0
    ensures (sigma * stddev * n) * (sigma * stddev * n) == sigma * sigma * v
  {
    var p := stddev * n;
    assert sigma * stddev * n == sigma * p;
    assert (sigma * p) * (sigma * p) == sigma * sigma * (p * p);
    if sigma > 0.0 && stddev > 0.0 {
      PositiveProduct(stddev, n);
      PositiveProduct(sigma, p);
    }
  }

  // ---------------------------------------------------------------- repeat sizes

  /** A size already in a buffer of `n` cannot deviate once sigma squared reaches n - 1. */
  lemma RepeatDoesNotDeviate(xs: seq<int>, k: nat, sigma: real)
    requires k < |xs| && SquareReaches(sigma, |xs| - 1)
    ensures !Deviates(xs, xs[k], sigma)
  {
    MemberIsNear(xs, k);
    SpreadNonNegative(xs);
    WithinThreshold(|xs| * xs[k] - Sum(xs), |xs| - 1, Spread(xs), sigma);
  }

  predicate SquareReaches(sigma: real, m: int) {
    sigma * sigma >= m as real
  }

  lemma WithinThreshold(d: int, m: int, v: int, sigma: real)
    requires Square(d) <= m * v && v >= 0 && SquareReaches(sigma, m)
    ensures !Exceeds(d, v, sigma)
  {
    ProductAsReal(m, v);
    Monotone(sigma * sigma, m as real, v as real);
  }

  lemma Monotone(a: real, b: real, v: real)
    requires a >= b && v >= 0.0
    ensures a * v >= b * v
  {
    assert (a - b) * v == a * v - b * v;
    if a > b && v > 0.0 { PositiveProduct(a - b, v); }
  }

  function Zeros(n: nat): (zs: seq<int>)
    ensures |zs| == n && forall i :: 0 <= i < n ==> zs[i] == 0
  {
    seq(n, _ => 0)
  }

  /** The bound is sharp: below it one sample among equal ones does. */
  lemma LoneSampleDeviates(n: nat, sigma: real)
    requires n >= 1 && !SquareReaches(sigma, n - 1)
    ensures Deviates([1] + Zeros(n - 1), 1, sigma)
  {
    var xs := [1] + Zeros(n - 1);
    SumsAppend([1], Zeros(n - 1));
    SumsOfEqual(Zeros(n - 1), 0);
    SumsOfEqual([1], 1);
    assert Sum(xs) == 1 && SumSq(xs) == 1;
    SquareAsReal(n - 1);
    Below(sigma * sigma, (n - 1) as real);
  }

  lemma Below(a: real, m: real)
    requires 0.0 <= a < m
    ensures m * m > a * m
  {
    assert (m - a) * m == m * m - a * m;
    PositiveProduct(m - a, m);
  }

  lemma {:induction false} SumsOfEqual(xs: seq<int>, v: int)
    requires forall i :: 0 <= i < |xs| ==> xs[i] == v
    ensures Sum(xs) == |xs| * v && SumSq(xs) == |xs| * Square(v)
    decreases |xs|
  {
    if xs != [] {
      var n := |xs| - 1;
      SumsOfEqual(xs[..n], v);
      assert (n + 1) * v == n * v + v && (n + 1) * Square(v) == n * Square(v) + Square(v);
    }
  }

  /** With equal samples, exactly a different size deviates. */
  lemma EqualSamples(xs: seq<int>, x: int, sigma: real)
    requires xs != [] && forall i :: 0 <= i < |xs| ==> xs[i] == xs[0]
    ensures Deviates(xs, x, sigma) <==> x != xs[0]
  {
    SpreadZeroIff(xs);
    SumsOfEqual(xs, xs[0]);
    var d := |xs| * x - Sum(xs);
    assert d == |xs| * (x - xs[0]);
    if x > xs[0] { Product(|xs|, x - xs[0]); }
    if x < xs[0] {
      Product(|xs|, xs[0] - x);
      assert |xs| * (xs[0] - x) == -d;
    }
    SquareZero(d);
  }

  // ---------------------------------------------------------------- the rolling buffers

  function SizesOf(m: map<string, seq<int>>, key: string): seq<int> {
    if key in m then m[key] else []
  }

  /** The answer from a buffer: enough samples, and the size deviates. */
  function Verdict(buf: seq<int>, size: int, c: Config): seq<string> {
    if |buf| >= c.minSamples && Deviates(buf, size, c.sigma) then [SIZE_FLAG] else []
  }

  ghost predicate IsStatistics(buf: seq<int>, mean: real, stddev: real) {
    IsMeanStddev(|buf| as real, Sum(buf) as real, Spread(buf) as real, mean, stddev)
  }

  /** Flagged with enough samples and more than sigma standard deviations from their mean, and only then. */
  ghost predicate IsAnswer(buf: seq<int>, size: int, c: Config, flags: seq<string>) {
    if |buf| < c.minSamples then flags == []
    else exists mean, stddev ::
      && IsStatistics(buf, mean, stddev)
      && flags == if Abs(size as real - mean) > c.sigma * stddev then ["size_anomaly_suspected"] else []
  }

  /** A size the buffer already holds is not flagged while sigma squared reaches the count less one. */
  lemma RepeatIsNotFlagged(buf: seq<int>, k: nat, c: Config)
    requires k < |buf| && SquareReaches(c.sigma, |buf| - 1)
    ensures Verdict(buf, buf[k], c) == []
  {
    RepeatDoesNotDeviate(buf, k, c.sigma);
  }

  /** Repeats are safe in every buffer of `n` samples exactly when `n` is below the minimum or sigma squared reaches
      n - 1. */
  lemma RepeatsSafeIff(n: nat, c: Config)
    requires c.minSamples > 0
    ensures (forall buf: seq<nat>, k: nat :: |buf| == n && k < n ==> Verdict(buf, buf[k], c) == [])
       <==> n < c.minSamples || SquareReaches(c.sigma, n - 1)
  {
    if n >= c.minSamples {
      if SquareReaches(c.sigma, n - 1) {
        forall buf: seq<nat>, k: nat | |buf| == n && k < n ensures Verdict(buf, buf[k], c) == [] {
          RepeatIsNotFlagged(buf, k, c);
        }
      } else {
        LoneSampleDeviates(n, c.sigma);
        var buf: seq<nat> := [1] + Zeros(n - 1);
        assert |buf| == n && Verdict(buf, buf[0], c) != [];
      }
    }
  }

  /** A repeat of any size in the window of any log. */
  ghost predicate RepeatsSafe(c: Config)
    requires c.windowSize > 0
  {
    forall log: seq<nat>, k: nat :: k < |LastOf(log, c.windowSize)| ==>
      Verdict(LastOf(log, c.windowSize), LastOf(log, c.windowSize)[k], c) == []
  }

  /** A configuration never flags a size that is still in the window exactly when a full window is below the minimum,
      or sigma squared reaches its size less one. */
  lemma ConfigurationSafeIff(c: Config)
    requires c.windowSize > 0 && c.minSamples > 0
    ensures RepeatsSafe(c) <==> c.windowSize < c.minSamples || SquareReaches(c.sigma, c.windowSize - 1)
  {
    var w := c.windowSize;
    RepeatsSafeIff(w, c);
    if w < c.minSamples || SquareReaches(c.sigma, w - 1) {
      forall log: seq<nat>, k: nat | k < |LastOf(log, w)| ensures Verdict(LastOf(log, w), LastOf(log, w)[k], c) == [] {
        RepeatsSafeIff(|LastOf(log, w)|, c);
      }
    } else {
      var buf: seq<nat>, k: nat :| |buf| == w && k < w && Verdict(buf, buf[k], c) != [];
      assert LastOf(buf, w) == buf;
    }
  }

  /** The default configuration is not safe: a lone size in a full window of twenty is flagged when it comes again. */
  lemma DefaultIsNotSafe()
    ensures !RepeatsSafe(Resolved(Config(0, 0.0, 0)))
  {
    ConfigurationSafeIff(Resolved(Config(0, 0.0, 0)));
  }

  /** At the default three sigma that is any buffer of at most ten samples. */
  lemma DefaultSigmaCoversTen(n: nat)
    ensures SquareReaches(3.0, n - 1) <==> n <= 10
  {
  }

  /** Every key's buffer is the last sizes of that key's log. */
  ghost predicate LastSizes(buffers: map<string, seq<int>>, log: map<string, seq<int>>, w: nat) {
    forall k :: SizesOf(buffers, k) == LastOf(SizesOf(log, k), w)
  }

  lemma PushKeepsBuffers(buffers: map<string, seq<int>>, log: map<string, seq<int>>, key: string, size: int, w: nat)
    requires w > 0 && LastSizes(buffers, log, w)
    ensures LastSizes(buffers[key := LastOf(SizesOf(buffers, key) + [size], w)],
                      log[key := SizesOf(log, key) + [size]], w)
  {
    LastOfSnoc(SizesOf(log, key), size, w);
    assert SizesOf(buffers, key) == LastOf(SizesOf(log, key), w);
    var buffers' := buffers[key := LastOf(SizesOf(buffers, key) + [size], w)];
    var log' := log[key := SizesOf(log, key) + [size]];
    forall k ensures SizesOf(buffers', k) == LastOf(SizesOf(log', k), w) {
      if k != key { assert SizesOf(buffers', k) == SizesOf(buffers, k) && SizesOf(log', k) == SizesOf(log, k); }
    }
  }

  class SizeAnomalyDetector {
    const config: Config
    const sqrt: real -> real
    var buffers: map<string, seq<int>>
    /** Every size ever written, by key. */
    ghost var log: map<string, seq<int>>

    constructor (config: Config, sqrt: real -> real)
      requires IsSqrt(sqrt)
      ensures Valid() && this.config == Resolved(config) && log == map[]
      ensures this.config.windowSize == if config.windowSize < 1 then 20 else config.windowSize
      ensures this.config.sigma == if config.sigma <= 0.0 then 3.0 else config.sigma
      ensures this.config.minSamples == if config.minSamples < 1 then 5 else config.minSamples
    {
      this.config, this.sqrt := Resolved(config), sqrt;
      buffers, log := map[], map[];
    }

    ghost predicate Valid()
      reads this
    {
      && IsSqrt(sqrt) && config == Resolved(config)
      && LastSizes(buffers, log, config.windowSize)
    }

    /** Compare, then update: the answer is the one the last `windowSize` sizes of the key's log give. */
    method Inspect(content: string, key: string) returns (flags: seq<string>)
      requires Valid()
      modifies this
      ensures Valid()
      ensures flags == Verdict(LastOf(SizesOf(old(log), key), config.windowSize), |content|, config)
      ensures IsAnswer(LastOf(SizesOf(old(log), key), config.windowSize), |content|, config, flags)
      ensures log == old(log)[key := SizesOf(old(log), key) + [|content|]]
    {
      var size := |content|;
      var buf := SizesOf(buffers, key);
      flags := Compare(buf, size);
      buf := buf + [size];
      if |buf| > config.windowSize { buf := buf[|buf| - config.windowSize..]; }
      PushKeepsBuffers(buffers, log, key, size, config.windowSize);
      buffers := buffers[key := buf];
      log := log[key := SizesOf(log, key) + [size]];
    }

    method Compare(buf: seq<int>, size: int) returns (flags: seq<string>)
      requires IsSqrt(sqrt) && config == Resolved(config)
      ensures flags == Verdict(buf, size, config)
      ensures IsAnswer(buf, size, config, flags)
    {
      flags := [];
      if |buf| >= config.minSamples {
        var mean, stddev := MeanStddev(buf, sqrt);
        assert IsStatistics(buf, mean, stddev);
        SigmaTest(buf, size, config.sigma, mean, stddev);
        if Abs(size as real - mean) > config.sigma * stddev { flags := [SIZE_FLAG]; }
      }
    }
  }

  lemma LastOfSnoc(xs: seq<int>, x: int, n: int)
    requires n > 0
    ensures LastOf(LastOf(xs, n) + [x], n) == LastOf(xs + [x], n)
  {
  }

  // ---------------------------------------------------------------- interleaved keys

  datatype Sized = Sized(key: string, size: nat)

  /** The buffers after a run of writes under any keys. */
  function BuffersAfter(run: seq<Sized>, w: nat): map<string, seq<int>>
    requires w > 0
  {
    if run == [] then map[]
    else
      var before, e := BuffersAfter(run[..|run| - 1], w), run[|run| - 1];
      before[e.key := LastOf(SizesOf(before, e.key) + [e.size], w)]
  }

  /** The writes of one key, in order. */
  function Under(run: seq<Sized>, key: string): seq<Sized> {
    if run == [] then []
    else Under(run[..|run| - 1], key) + (if run[|run| - 1].key == key then [run[|run| - 1]] else [])
  }

  function Sizes(run: seq<Sized>): seq<int> {
    if run == [] then [] else Sizes(run[..|run| - 1]) + [run[|run| - 1].size]
  }

  /** A key's buffer is the last `w` sizes written under it. */
  lemma {:induction false} BufferIsLastSizes(run: seq<Sized>, w: nat, key: string)
    requires w > 0
    ensures SizesOf(BuffersAfter(run, w), key) == LastOf(Sizes(Under(run, key)), w)
    decreases |run|
  {
    if run != [] {
      var before, e := run[..|run| - 1], run[|run| - 1];
      BufferIsLastSizes(before, w, key);
      if e.key == key {
        LastOfSnoc(Sizes(Under(before, key)), e.size, w);
        assert Under(run, key)[..|Under(run, key)| - 1] == Under(before, key);
      } else {
        assert Under(run, key) == Under(before, key);
      }
    }
  }

  lemma {:induction false} UnderTwice(run: seq<Sized>, key: string)
    ensures Under(Under(run, key), key) == Under(run, key)
    decreases |run|
  {
    if run != [] {
      var before, e := run[..|run| - 1], run[|run| - 1];
      UnderTwice(before, key);
      if e.key == key {
        assert Under(run, key)[..|Under(run, key)| - 1] == Under(before, key);
      } else {
        assert Under(run, key) == Under(before, key);
      }
    }
  }

  /** What other keys wrote in between does not show in a key's answers. */
  lemma OtherKeysDoNotShow(run: seq<Sized>, key: string, size: nat, c: Config)
    requires c.windowSize > 0
    ensures Verdict(SizesOf(BuffersAfter(run, c.windowSize), key), size, c)
         == Verdict(SizesOf(BuffersAfter(Under(run, key), c.windowSize), key), size, c)
  {
    BufferIsLastSizes(run, c.windowSize, key);
    BufferIsLastSizes(Under(run, key), c.windowSize, key);
    UnderTwice(run, key);
  }
}
