/** Z-score anomaly flags over the monthly revenue totals.  A month is an
    anomaly when its standard score exceeds 2 in absolute value, the score being
    taken against the mean and the SAMPLE standard deviation (divisor n - 1) of
    all months.  With one month the deviation is undefined and with all months
    equal it is 0; both make the score undefined, and an undefined score never
    compares above 2, so such months are normal.

    The flag is computed exactly in integers: scaling every deviation by n
    removes the division by n, and squaring removes the square root.  The real
    reference definition `ZScoreAboveTwo` is proved equivalent to it. */
module ZScore {
  import opened Aggregation
  import opened Calendar
  import opened Tables
  import opened RevenueTrend

  function Square(k: int): int {
    k * k
  }

  function RealSquare(r: real): real {
    r * r
  }

  /** The values scaled by `c` and shifted by `-s`. */
  function Affine(xs: seq<int>, c: int, s: int): (r: seq<int>)
    ensures |r| == |xs|
  {
    if xs == [] then [] else [c * xs[0] - s] + Affine(xs[1..], c, s)
  }

  function SumSquares(xs: seq<int>): int {
    if xs == [] then 0 else Square(xs[0]) + SumSquares(xs[1..])
  }

  /** The deviations from the mean, each multiplied by the number of values:
      `n * x_j - S` where `S` is the sum of the values. */
  function Deviations(xs: seq<int>): seq<int> {
    Affine(xs, |xs|, Sum(xs))
  }

  /** The square of the scaled deviation of value `i`. */
  function ScaledSquare(xs: seq<int>, i: nat): int
    requires i < |xs|
  {
    Square(Deviations(xs)[i])
  }

  /** The sum of the squares of all scaled deviations. */
  function ScaledSumOfSquares(xs: seq<int>): int {
    SumSquares(Deviations(xs))
  }

  /** The integer form of "|z| > 2" for value `i`; with `d` the scaled deviations
      and `Q` the sum of their squares, it reads `(n - 1) * d_i^2 > 4 * Q`. */
  predicate IsAnomaly(xs: seq<int>, i: nat)
    requires i < |xs|
  {
    (|xs| - 1) * ScaledSquare(xs, i) > 4 * ScaledSumOfSquares(xs)
  }

  /** The anomaly flag of every value, in order. */
  function AnomalyFlags(xs: seq<int>): (flags: seq<bool>)
    ensures |flags| == |xs|
    ensures forall i | 0 <= i < |xs| :: flags[i] <==> ZScoreAboveTwo(xs, i)
  {
    var flags := seq(|xs|, i requires 0 <= i < |xs| => IsAnomaly(xs, i));
    assert forall i | 0 <= i < |xs| :: flags[i] <==> ZScoreAboveTwo(xs, i) by {
      forall i | 0 <= i < |xs| ensures flags[i] <==> ZScoreAboveTwo(xs, i) {
        AnomalyIsZScoreAboveTwo(xs, i);
      }
    }
    flags
  }

  /** A month of the revenue trend with its anomaly flag. */
  datatype TrendRow = TrendRow(month: Month, totalAmount: int, anomaly: bool)

  function Totals(rows: seq<MonthlyRevenue>): (r: seq<int>)
    ensures |r| == |rows|
    ensures forall j | 0 <= j < |rows| :: r[j] == rows[j].totalAmount
  {
    seq(|rows|, j requires 0 <= j < |rows| => rows[j].totalAmount)
  }

  /** The monthly paid revenue, month by month in ascending order, each month
      flagged when its z-score against all months exceeds 2 in absolute value. */
  function RevenueTrendWithAnomalies(txs: seq<Transaction>): (r: seq<TrendRow>)
    ensures var rows := MonthlyPaidRevenue(txs);
            && |r| == |rows|
            && forall j | 0 <= j < |r| ::
                 && r[j].month == rows[j].month
                 && r[j].totalAmount == MonthTotal(txs, r[j].month)
                 && (r[j].anomaly <==> ZScoreAboveTwo(Totals(rows), j))
  {
    var rows := MonthlyPaidRevenue(txs);
    var flags := AnomalyFlags(Totals(rows));
    seq(|rows|, j requires 0 <= j < |rows| => TrendRow(rows[j].month, rows[j].totalAmount, flags[j]))
  }

  // ---------------------------------------------------------------------
  // The reference definition over the reals

  function Mean(xs: seq<int>): real
    requires xs != []
  {
    Sum(xs) as real / |xs| as real
  }

  function RealSquaredDeviations(xs: seq<int>, c: real): real {
    if xs == [] then 0.0
    else RealSquare(xs[0] as real - c) + RealSquaredDeviations(xs[1..], c)
  }

  /** The squared deviation of value `i` from the mean. */
  function SquaredDeviation(xs: seq<int>, i: nat): real
    requires i < |xs|
  {
    RealSquare(xs[i] as real - Mean(xs))
  }

  /** The sum of the squared deviations of all values from the mean. */
  function SumOfSquaredDeviations(xs: seq<int>): real
    requires xs != []
  {
    RealSquaredDeviations(xs, Mean(xs))
  }

  /** The sample variance (divisor n - 1), defined from two values on. */
  function SampleVariance(xs: seq<int>): real
    requires |xs| >= 2
  {
    SumOfSquaredDeviations(xs) / (|xs| - 1) as real
  }

  /** "|z| > 2" with z = (x - mean) / std and std the square root of the sample
      variance, written as z^2 > 4: false when the variance is undefined (one
      value) or zero, as a comparison with an undefined score is false. */
  predicate ZScoreAboveTwo(xs: seq<int>, i: nat)
    requires i < |xs|
  {
    |xs| >= 2 && SampleVariance(xs) > 0.0 && SquaredDeviation(xs, i) > 4.0 * SampleVariance(xs)
  }

  // ---------------------------------------------------------------------
  // The integer flag is the real one

  /** The integer flag is exactly the real "|z| > 2" on sample statistics,
      including the undefined cases, which are never flagged. */
  lemma AnomalyIsZScoreAboveTwo(xs: seq<int>, i: nat)
    requires i < |xs|
    ensures IsAnomaly(xs, i) <==> ZScoreAboveTwo(xs, i)
  {
    if |xs| >= 2 {
      ScaledSquareBounds(xs, i);
      SquaredDeviationScaled(xs, i);
      SumOfSquaredDeviationsScaled(xs);
      VarianceScaled(xs);
      PositiveSquare(|xs|);
      FlagEquivalence(|xs|, ScaledSquare(xs, i), ScaledSumOfSquares(xs), (|xs| as real) * (|xs| as real),
                      SquaredDeviation(xs, i), SumOfSquaredDeviations(xs), SampleVariance(xs));
    } else {
      SumSquaresNonNegative(Deviations(xs));
    }
  }

  lemma {:induction false} SumSquaresNonNegative(xs: seq<int>)
    ensures SumSquares(xs) >= 0
  {
    if xs != [] {
      SumSquaresNonNegative(xs[1..]);
    }
  }

  /** One square never exceeds the sum of all squares. */
  lemma {:induction false} SquareAtMostSum(d: seq<int>, i: nat)
    requires i < |d|
    ensures 0 <= Square(d[i]) <= SumSquares(d)
  {
    SumSquaresNonNegative(d[1..]);
    if i > 0 {
      SquareAtMostSum(d[1..], i - 1);
    }
  }

  lemma ScaledSquareBounds(xs: seq<int>, i: nat)
    requires i < |xs|
    ensures 0 <= ScaledSquare(xs, i) <= ScaledSumOfSquares(xs)
  {
    SquareAtMostSum(Deviations(xs), i);
  }

  lemma {:induction false} AffineAt(xs: seq<int>, c: int, s: int, j: nat)
    requires j < |xs|
    ensures Affine(xs, c, s)[j] == c * xs[j] - s
  {
    if j > 0 {
      AffineAt(xs[1..], c, s, j - 1);
    }
  }

  lemma {:induction false} SumAffine(xs: seq<int>, c: int, s: int)
    ensures Sum(Affine(xs, c, s)) == c * Sum(xs) - |xs| * s
  {
    if xs != [] {
      SumAffine(xs[1..], c, s);
      assert Affine(xs, c, s)[1..] == Affine(xs[1..], c, s);
    }
  }

  /** The scaled deviations sum to zero. */
  lemma DeviationsSumToZero(xs: seq<int>)
    ensures Sum(Deviations(xs)) == 0
  {
    SumAffine(xs, |xs|, Sum(xs));
  }

  lemma CastProduct(a: int, b: int)
    ensures (a * b) as real == (a as real) * (b as real)
  {
  }

  lemma CastSquare(k: int, r: real, e: real)
    requires k as real == r * e
    ensures Square(k) as real == r * r * RealSquare(e)
  {
    CastProduct(k, k);
  }

  lemma PositiveSquare(n: int)
    requires n >= 1
    ensures (n as real) * (n as real) > 0.0
  {
  }

  lemma MeanScaled(xs: seq<int>)
    requires xs != []
    ensures (|xs| as real) * Mean(xs) == Sum(xs) as real
  {
  }

  lemma VarianceScaled(xs: seq<int>)
    requires |xs| >= 2
    ensures VarianceOf(SampleVariance(xs), |xs|, SumOfSquaredDeviations(xs))
  {
    DivideThenMultiply(SumOfSquaredDeviations(xs), (|xs| - 1) as real);
  }

  lemma DivideThenMultiply(a: real, m: real)
    requires m > 0.0
    ensures (a / m) * m == a
  {
  }

  /** Scaling by `n` and shifting by `s = n * c` turns a deviation from `c` into
      `n` times that deviation, and its square into `n^2` times its square. */
  lemma ScaledDeviation(x: int, n: int, s: int, c: real, k: int)
    requires (n as real) * c == s as real && k == n * x - s
    ensures k as real == (n as real) * (x as real - c)
    ensures Square(k) as real == (n as real) * (n as real) * RealSquare(x as real - c)
  {
    CastProduct(n, x);
    CastSquare(k, n as real, x as real - c);
  }

  /** The squared scaled deviation of value `i` is `n^2` times its squared
      deviation from the mean. */
  lemma SquaredDeviationScaled(xs: seq<int>, i: nat)
    requires i < |xs|
    ensures ScaledBy(ScaledSquare(xs, i), (|xs| as real) * (|xs| as real), SquaredDeviation(xs, i))
  {
    AffineAt(xs, |xs|, Sum(xs), i);
    MeanScaled(xs);
    ScaledDeviation(xs[i], |xs|, Sum(xs), Mean(xs), Deviations(xs)[i]);
  }

  /** The sum of squares of the values scaled by `n` and shifted by `s = n * c`
      is `n^2` times the real sum of squared deviations from `c`. */
  predicate ScaledSquaresHold(xs: seq<int>, n: int, s: int, c: real) {
    SumSquares(Affine(xs, n, s)) as real == (n as real) * (n as real) * RealSquaredDeviations(xs, c)
  }

  lemma {:induction false} ScaledSquares(xs: seq<int>, n: int, s: int, c: real)
    requires (n as real) * c == s as real
    ensures ScaledSquaresHold(xs, n, s, c)
    decreases |xs|, 1
  {
    if xs != [] {
      ScaledSquaresStep(xs, n, s, c);
    }
  }

  lemma {:induction false} ScaledSquaresStep(xs: seq<int>, n: int, s: int, c: real)
    requires (n as real) * c == s as real
    requires xs != []
    ensures ScaledSquaresHold(xs, n, s, c)
    decreases |xs|, 0
  {
    var a := Affine(xs, n, s);
    AffineAt(xs, n, s, 0);
    assert a[1..] == Affine(xs[1..], n, s);
    ScaledSquares(xs[1..], n, s, c);
    ScaledDeviation(xs[0], n, s, c, a[0]);
    SquareStep(SumSquares(a), Square(a[0]), SumSquares(a[1..]), (n as real) * (n as real),
               RealSquare(xs[0] as real - c), RealSquaredDeviations(xs[1..], c), RealSquaredDeviations(xs, c));
  }

  lemma SquareStep(total: int, head: int, tail: int, n2: real, e2: real, rest: real, all: real)
    requires total == head + tail
    requires tail as real == n2 * rest
    requires head as real == n2 * e2
    requires all == e2 + rest
    ensures total as real == n2 * all
  {
  }

  /** The sum of squared scaled deviations is `n^2` times the real sum of squared
      deviations from the mean. */
  lemma SumOfSquaredDeviationsScaled(xs: seq<int>)
    requires xs != []
    ensures ScaledBy(ScaledSumOfSquares(xs), (|xs| as real) * (|xs| as real), SumOfSquaredDeviations(xs))
  {
    ScaledSquaresAtMean(xs, |xs|, Sum(xs));
  }

  lemma ScaledSquaresAtMean(xs: seq<int>, n: int, s: int)
    requires n > 0
    ensures ScaledSquaresHold(xs, n, s, s as real / n as real)
  {
    ScaledSquares(xs, n, s, s as real / n as real);
  }

  /** The arithmetic core of the equivalence, over named quantities: `dd` is the
      squared scaled deviation, `q` the sum of squared scaled deviations, `n2` the
      square of the number of values, `ee` and `rq` the unscaled real counterparts
      of `dd` and `q`, and `v` the sample variance. */
  lemma FlagEquivalence(n: int, dd: int, q: int, n2: real, ee: real, rq: real, v: real)
    requires n >= 2 && n2 > 0.0 && 0 <= dd <= q
    requires ScaledBy(dd, n2, ee) && ScaledBy(q, n2, rq)
    requires VarianceOf(v, n, rq)
    ensures (n - 1) * dd > 4 * q <==> v > 0.0 && ee > 4.0 * v
  {
    IntegerToReal(n - 1, dd, q);
    Unscale((n - 1) as real, n2, dd as real, q as real, ee, rq);
    DivideByPositive((n - 1) as real, ee, rq, v);
    FlagNeedsSpread(n - 1, dd, q);
    PositiveScaled(n2, q as real, rq);
  }

  /** `k` is `n2` times `r`. */
  predicate ScaledBy(k: int, n2: real, r: real) {
    k as real == n2 * r
  }

  /** `v` is the sum of squared deviations `rq` of `n` values divided by `n - 1`. */
  predicate VarianceOf(v: real, n: int, rq: real) {
    v * (n - 1) as real == rq
  }

  /** The integer comparison, read in the reals. */
  lemma IntegerToReal(a: int, dd: int, q: int)
    ensures a * dd > 4 * q <==> (a as real) * (dd as real) > 4.0 * (q as real)
  {
    CastProduct(a, dd);
  }

  /** Dividing both sides of the comparison by the positive factor `n2`. */
  lemma Unscale(m: real, n2: real, d: real, q: real, ee: real, rq: real)
    requires n2 > 0.0 && d == n2 * ee && q == n2 * rq
    ensures m * d > 4.0 * q <==> m * ee > 4.0 * rq
  {
    assert m * d == n2 * (m * ee);
    assert 4.0 * q == n2 * (4.0 * rq);
    CancelPositive(n2, m * ee, 4.0 * rq);
  }

  /** Multiplying by a positive factor keeps a strict comparison. */
  lemma CancelPositive(k: real, x: real, y: real)
    requires k > 0.0
    ensures k * x > k * y <==> x > y
  {
    if x > y {
      assert k * x - k * y == k * (x - y);
    }
    if k * x > k * y {
      assert k * (x - y) > 0.0;
    }
  }

  lemma DivideByPositive(m: real, ee: real, rq: real, v: real)
    requires m > 0.0 && v * m == rq
    ensures m * ee > 4.0 * rq <==> ee > 4.0 * v
    ensures v > 0.0 <==> rq > 0.0
  {
    assert 4.0 * rq == m * (4.0 * v);
    CancelPositive(m, ee, 4.0 * v);
  }

  /** The integer flag can only hold when the squares do not all vanish. */
  lemma FlagNeedsSpread(a: int, dd: int, q: int)
    requires 0 <= dd <= q
    ensures a * dd > 4 * q ==> q > 0
  {
    if q == 0 {
      assert dd == 0;
    }
  }

  lemma PositiveScaled(n2: real, q: real, rq: real)
    requires n2 > 0.0 && q == n2 * rq
    ensures q > 0.0 <==> rq > 0.0
  {
    if rq > 0.0 {
      assert n2 * rq > 0.0;
    }
    if rq <= 0.0 {
      assert n2 * rq <= 0.0;
    }
  }
  // ---------------------------------------------------------------------
  // Consequences of the definition

  /** A series of at most five months never has an anomaly: the largest
      possible score of n values is (n - 1) / sqrt(n), which exceeds 2 only
      from n = 6 on. */
  lemma ShortSeriesNeverFlagged(xs: seq<int>)
    requires |xs| <= 5
    ensures forall i | 0 <= i < |xs| :: !ZScoreAboveTwo(xs, i)
  {
    forall i | 0 <= i < |xs| ensures !ZScoreAboveTwo(xs, i) {
      DeviationBound(xs, i);
      ScaledSquareBounds(xs, i);
      ShortBound(|xs|, ScaledSquare(xs, i), ScaledSumOfSquares(xs));
      AnomalyIsZScoreAboveTwo(xs, i);
    }
  }

  /** The bound of `ShortSeriesNeverFlagged` is tight: six months suffice for a
      spike to be flagged. */
  lemma SpikeAfterFiveQuietMonthsIsFlagged()
    ensures ZScoreAboveTwo([0, 0, 0, 0, 0, 60], 5)
  {
    var xs := [0, 0, 0, 0, 0, 60];
    assert Sum(xs) == 60 by {
      assert xs[1..] == [0, 0, 0, 0, 60];
      assert xs[2..] == [0, 0, 0, 60];
      assert xs[3..] == [0, 0, 60];
      assert xs[4..] == [0, 60];
      assert xs[5..] == [60];
    }
    assert Deviations(xs) == [-60, -60, -60, -60, -60, 300] by {
      forall j | 0 <= j < 6 ensures Deviations(xs)[j] == 6 * xs[j] - 60 {
        AffineAt(xs, 6, 60, j);
      }
    }
    var d := Deviations(xs);
    assert ScaledSumOfSquares(xs) == 108000 by {
      assert d[1..] == [-60, -60, -60, -60, 300];
      assert d[1..][1..] == [-60, -60, -60, 300];
      assert d[1..][1..][1..] == [-60, -60, 300];
      assert d[1..][1..][1..][1..] == [-60, 300];
      assert d[1..][1..][1..][1..][1..] == [300];
    }
    assert IsAnomaly(xs, 5);
    AnomalyIsZScoreAboveTwo(xs, 5);
  }

  /** A series whose months are all equal has zero variance and no anomaly. */
  lemma ConstantSeriesNeverFlagged(xs: seq<int>)
    requires forall j, k | 0 <= j < |xs| && 0 <= k < |xs| :: xs[j] == xs[k]
    ensures forall i | 0 <= i < |xs| :: !ZScoreAboveTwo(xs, i)
  {
    forall i | 0 <= i < |xs| ensures !ZScoreAboveTwo(xs, i) {
      SumConstant(xs, xs[i]);
      AffineAt(xs, |xs|, Sum(xs), i);
      assert ScaledSquare(xs, i) == 0;
      SumSquaresNonNegative(Deviations(xs));
      AnomalyIsZScoreAboveTwo(xs, i);
    }
  }

  /** With at most five paid months no month of the trend is flagged. */
  lemma FewMonthsNoAnomaly(txs: seq<Transaction>)
    requires |MonthlyPaidRevenue(txs)| <= 5
    ensures forall r | r in RevenueTrendWithAnomalies(txs) :: !r.anomaly
  {
    ShortSeriesNeverFlagged(Totals(MonthlyPaidRevenue(txs)));
  }

  lemma {:induction false} SumConstant(xs: seq<int>, c: int)
    requires forall j | 0 <= j < |xs| :: xs[j] == c
    ensures Sum(xs) == |xs| * c
  {
    if xs != [] {
      SumConstant(xs[1..], c);
    }
  }

  lemma {:induction false} SumSquaresAppend(xs: seq<int>, ys: seq<int>)
    ensures SumSquares(xs + ys) == SumSquares(xs) + SumSquares(ys)
  {
    if xs == [] {
      assert xs + ys == ys;
    } else {
      assert (xs + ys)[1..] == xs[1..] + ys;
      SumSquaresAppend(xs[1..], ys);
    }
  }

  /** The square of a sum of `m` integers is at most `m` times the sum of their
      squares (the Cauchy-Schwarz inequality against the all-ones vector). */
  lemma {:induction false} SquareOfSumBound(ys: seq<int>)
    ensures Square(Sum(ys)) <= |ys| * SumSquares(ys)
  {
    if ys != [] {
      SquareOfSumBound(ys[1..]);
      SumSquaresNonNegative(ys[1..]);
      SquareOfSumStep(|ys| - 1, ys[0], Sum(ys[1..]), SumSquares(ys[1..]));
    }
  }

  lemma SquareOfSumStep(m: nat, a: int, s: int, q: int)
    requires q >= 0 && Square(s) <= m * q
    ensures Square(a + s) <= (m + 1) * (Square(a) + q)
  {
    SquareOfSum(a, s);
    if m == 0 {
      SquareZero(s);
    } else {
      CrossTermBound(m, a, s, q);
    }
    assert (m + 1) * (Square(a) + q) == m * Square(a) + m * q + Square(a) + q;
  }

  lemma SquareOfSum(a: int, s: int)
    ensures Square(a + s) == Square(a) + 2 * a * s + Square(s)
  {
  }

  lemma SquareZero(s: int)
    requires Square(s) <= 0
    ensures s == 0
  {
  }

  /** `2 a s <= m a^2 + q` whenever `s^2 <= m q` and `m > 0`: multiplied by `m`
      the difference is `(m a - s)^2 + (m q - s^2)`. */
  lemma CrossTermBound(m: int, a: int, s: int, q: int)
    requires m > 0 && Square(s) <= m * q
    ensures 2 * a * s <= m * Square(a) + q
  {
    var sq, cross := Square(a), a * s;
    SquareOfSum(m * a, -s);
    ScaledSquare2(m, a);
    ScaledCross(m, a, s);
    // Square(m a - s) = m (m sq) - m (2 cross) + Square(s) >= 0, and Square(s) <= m q
    Distribute(m, m * sq, 2 * cross, q);
    PositiveFactor(m, m * sq - 2 * cross + q);
  }

  lemma ScaledSquare2(m: int, a: int)
    ensures Square(m * a) == m * (m * Square(a))
  {
  }

  lemma ScaledCross(m: int, a: int, s: int)
    ensures 2 * (m * a) * -s == -(m * (2 * (a * s)))
  {
  }

  lemma Distribute(m: int, x: int, y: int, z: int)
    ensures m * (x - y + z) == m * x - m * y + m * z
  {
  }

  lemma PositiveFactor(m: int, x: int)
    requires m > 0 && m * x >= 0
    ensures x >= 0
  {
  }

  /** Since the scaled deviations sum to zero, one of them is minus the sum of
      the others; hence `n * d_i^2 <= (n - 1) * Q`. */
  lemma DeviationBound(xs: seq<int>, i: nat)
    requires i < |xs|
    ensures |xs| * ScaledSquare(xs, i) <= (|xs| - 1) * ScaledSumOfSquares(xs)
  {
    var d := Deviations(xs);
    var others := d[..i] + d[i + 1..];
    assert d == d[..i] + [d[i]] + d[i + 1..];
    SumAppend(d[..i] + [d[i]], d[i + 1..]);
    SumAppend(d[..i], [d[i]]);
    SumAppend(d[..i], d[i + 1..]);
    SumSquaresAppend(d[..i] + [d[i]], d[i + 1..]);
    SumSquaresAppend(d[..i], [d[i]]);
    SumSquaresAppend(d[..i], d[i + 1..]);
    DeviationsSumToZero(xs);
    SquareOfSumBound(others);
    OthersBound(|xs|, d[i], Sum(others), SumSquares(others), ScaledSumOfSquares(xs));
  }

  lemma OthersBound(n: int, di: int, s: int, q: int, total: int)
    requires n >= 1 && s == -di && total == Square(di) + q
    requires Square(s) <= (n - 1) * q
    ensures n * Square(di) <= (n - 1) * total
  {
    assert Square(s) == Square(di);
  }

  lemma ShortBound(n: int, dd: int, q: int)
    requires 1 <= n <= 5 && 0 <= dd <= q
    requires n * dd <= (n - 1) * q
    ensures !((n - 1) * dd > 4 * q)
  {
    if n == 1 {
    } else if n == 2 {
    } else if n == 3 {
    } else if n == 4 {
    } else {
    }
  }
}
