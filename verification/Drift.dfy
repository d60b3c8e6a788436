/** Population Stability Index and epsilon-smoothed Jensen-Shannon divergence of histograms over the reals, for any
    function with the laws of the natural logarithm. */
module Drift {
  import opened Wrappers

  const EPSILON: real := 0.00000001
  const PSI_MINOR_THRESHOLD: real := 0.10
  const PSI_MAJOR_THRESHOLD: real := 0.20
  const KL_DRIFT_THRESHOLD: real := 0.10

  type Log = real -> real

  // The laws of a logarithm, one instance at a time.
  predicate Increases(log: Log, x: real, y: real) {
    0.0 < x < y ==> log(x) < log(y)
  }

  predicate TurnsProductsIntoSums(log: Log, x: real, y: real) {
    0.0 < x && 0.0 < y ==> log(x * y) == log(x) + log(y)
  }

  predicate BelowTangent(log: Log, x: real) {
    0.0 < x ==> log(x) <= x - 1.0
  }

  ghost predicate IsLog(log: Log) {
    && (forall x, y :: Increases(log, x, y))
    && (forall x, y :: TurnsProductsIntoSums(log, x, y))
    && (forall x :: BelowTangent(log, x))
  }

  datatype DriftSeverity = NO_DRIFT | MINOR | MAJOR

  datatype DriftError = LengthMismatch | EmptyHistogram | NonPositiveTotal

  datatype PsiResult = PsiResult(psi: real, severity: DriftSeverity, bins: nat)

  datatype FeatureDriftResult = FeatureDriftResult(feature: string, divergence: real, drifted: bool)

  // Counts and frequencies are not negative; the source asks the same of its callers.
  type Mass = x: real | 0.0 <= x

  type Histogram = seq<Mass>

  function Sum(h: Histogram): Mass {
    if h == [] then 0.0 else h[0] + Sum(h[1..])
  }

  function Share(x: Mass, total: real): Mass
    requires total > 0.0
  {
    QuotientSign(x, total);
    x / total
  }

  lemma {:induction false} QuotientSign(x: real, y: real)
    requires x >= 0.0 && y > 0.0
    ensures x / y >= 0.0 && (x > 0.0 ==> x / y > 0.0)
  {
  }

  function Divide(h: Histogram, total: real): (r: Histogram)
    requires total > 0.0
    ensures |r| == |h|
    ensures forall i :: 0 <= i < |h| ==> r[i] == Share(h[i], total)
  {
    if h == [] then [] else [Share(h[0], total)] + Divide(h[1..], total)
  }

  function NormalizeHistogram(h: Histogram): (r: Result<Histogram, DriftError>)
    ensures r.Success? <==> exists i :: 0 <= i < |h| && h[i] > 0.0
    ensures r.Success? ==> |r.value| == |h| && Sum(r.value) == 1.0
    ensures r.Success? ==> Sum(h) > 0.0 && forall i :: 0 <= i < |h| ==> r.value[i] == Share(h[i], Sum(h))
    ensures r.Failure? ==> r.error == if h == [] then EmptyHistogram else NonPositiveTotal
  {
    PositiveSum(h);
    if h == [] then Failure(EmptyHistogram)
    else if Sum(h) <= 0.0 then Failure(NonPositiveTotal)
    else
      DivideSum(h, Sum(h));
      SelfQuotient(Sum(h));
      Success(Divide(h, Sum(h)))
  }

  lemma {:induction false} PositiveSum(h: Histogram)
    ensures Sum(h) > 0.0 <==> exists i :: 0 <= i < |h| && h[i] > 0.0
  {
    if h == [] {
    } else {
      PositiveSum(h[1..]);
      if i :| 0 <= i < |h| && h[i] > 0.0 {
        assert i > 0 ==> h[1..][i - 1] == h[i];
      }
      if Sum(h[1..]) > 0.0 {
        var i :| 0 <= i < |h[1..]| && h[1..][i] > 0.0;
        assert h[i + 1] > 0.0;
      }
    }
  }

  lemma {:induction false} SelfQuotient(x: real)
    requires x > 0.0
    ensures x / x == 1.0
  {
  }

  lemma {:induction false} AddQuotients(x: real, y: real, total: real)
    requires total != 0.0
    ensures (x + y) / total == x / total + y / total
  {
  }

  lemma {:induction false} DivideSum(h: Histogram, total: real)
    requires total > 0.0
    ensures Sum(Divide(h, total)) == Sum(h) / total
  {
    if h == [] {
    } else {
      DivideSum(h[1..], total);
      AddQuotients(h[0], Sum(h[1..]), total);
      assert Divide(h, total)[1..] == Divide(h[1..], total);
    }
  }

  // round(x, 6): to the nearest millionth, ties to even.
  function HalfEven(y: real): int {
    var down := y.Floor;
    var rest := y - down as real;
    if rest < 0.5 || (rest == 0.5 && down % 2 == 0) then down else down + 1
  }

  function Round6(x: real): real {
    HalfEven(x * 1000000.0) as real / 1000000.0
  }

  // sum(term(p, q) for p, q in zip(ps, qs)): zip stops at the shorter one.
  function ZipSum(term: (Mass, Mass) -> real, ps: Histogram, qs: Histogram): real {
    if ps == [] || qs == [] then 0.0
    else term(ps[0], qs[0]) + ZipSum(term, ps[1..], qs[1..])
  }

  // The smoothed log ratio of two bins.
  function LogRatio(log: Log): Ratio {
    (x: Mass, y: Mass) => log((x + EPSILON) / (y + EPSILON))
  }

  type Ratio = (Mass, Mass) -> real

  function PsiBin(ratio: Ratio, p: Mass, q: Mass): real {
    (p - q) * ratio(p, q)
  }

  function PsiTerm(ratio: Ratio): (Mass, Mass) -> real {
    (p: Mass, q: Mass) => PsiBin(ratio, p, q)
  }

  function PsiSum(log: Log, ref: Histogram, prod: Histogram): real {
    ZipSum(PsiTerm(LogRatio(log)), ref, prod)
  }

  function Classify(psi: real): DriftSeverity {
    if psi < PSI_MINOR_THRESHOLD then NO_DRIFT
    else if psi < PSI_MAJOR_THRESHOLD then MINOR
    else MAJOR
  }

  function ComputePsi(log: Log, reference: Histogram, production: Histogram): Result<PsiResult, DriftError>
  {
    if |reference| != |production| then Failure(LengthMismatch)
    else if |reference| == 0 then Failure(EmptyHistogram)
    else
      match (NormalizeHistogram(reference), NormalizeHistogram(production))
      case (Failure(e), _) => Failure(e)
      case (Success(_), Failure(e)) => Failure(e)
      case (Success(p), Success(q)) =>
        var psi := Round6(PsiSum(log, p, q));
        Success(PsiResult(psi, Classify(psi), |reference|))
  }

  function Middle(p: Mass, q: Mass): Mass {
    (p + q) / 2.0
  }

  function Midpoint(p: Histogram, q: Histogram): Histogram {
    if p == [] || q == [] then [] else [Middle(p[0], q[0])] + Midpoint(p[1..], q[1..])
  }

  function KlBin(ratio: Ratio, p: Mass, q: Mass): real {
    p * ratio(p, q)
  }

  function KlTerm(ratio: Ratio): (Mass, Mass) -> real {
    (p: Mass, q: Mass) => KlBin(ratio, p, q)
  }

  function Jsd(log: Log, p: Histogram, q: Histogram): real {
    var m := Midpoint(p, q);
    0.5 * ZipSum(KlTerm(LogRatio(log)), p, m) + 0.5 * ZipSum(KlTerm(LogRatio(log)), q, m)
  }

  // Histograms of different lengths are cut to the shorter one by zip.
  function ComputeFeatureDrift(log: Log, feature: string, reference: Histogram, production: Histogram)
    : Result<FeatureDriftResult, DriftError>
  {
    match (NormalizeHistogram(reference), NormalizeHistogram(production))
    case (Failure(e), _) => Failure(e)
    case (Success(_), Failure(e)) => Failure(e)
    case (Success(p), Success(q)) =>
      var jsd := Round6(Jsd(log, p, q));
      Success(FeatureDriftResult(feature, jsd, jsd >= KL_DRIFT_THRESHOLD))
  }

  // --- scaling ---

  function Scale(h: Histogram, c: Mass): (r: Histogram)
    ensures |r| == |h|
  {
    if h == [] then [] else [c * h[0]] + Scale(h[1..], c)
  }

  lemma {:induction false} ScaleSum(h: Histogram, c: Mass)
    ensures Sum(Scale(h, c)) == c * Sum(h)
  {
    if h == [] {
    } else {
      ScaleSum(h[1..], c);
    }
  }

  lemma {:induction false} CancelFactor(x: real, y: real, c: real, cx: real, cy: real)
    requires y != 0.0 && cy != 0.0 && cx == c * x && cy == c * y
    ensures cx / cy == x / y
  {
    var r := x / y;
    assert cx == r * cy by {
      QuotientTimes(x, y);
      assert c * (r * y) == r * (c * y);
    }
  }

  lemma {:induction false} DivideScaled(h: Histogram, c: Mass, total: real, scaledTotal: real)
    requires total > 0.0 && scaledTotal > 0.0 && scaledTotal == c * total
    ensures Divide(Scale(h, c), scaledTotal) == Divide(h, total)
  {
    if h == [] {
    } else {
      var scaled := Scale(h, c);
      assert scaled[1..] == Scale(h[1..], c);
      CancelFactor(h[0], total, c, scaled[0], scaledTotal);
      DivideScaled(h[1..], c, total, scaledTotal);
    }
  }

  lemma {:induction false} SignOfScaled(c: real, total: real)
    requires c > 0.0
    ensures c * total <= 0.0 <==> total <= 0.0
  {
  }

  /** Counts or frequencies, it makes no difference: scaling a histogram changes nothing downstream. */
  lemma {:induction false} ScaleInvariant(h: Histogram, c: real)
    requires c > 0.0
    ensures NormalizeHistogram(Scale(h, c)) == NormalizeHistogram(h)
  {
    ScaleSum(h, c);
    SignOfScaled(c, Sum(h));
    if Sum(h) > 0.0 {
      DivideScaled(h, c, Sum(h), Sum(Scale(h, c)));
    }
  }

  // --- the log ratio of one pair of bins ---

  lemma {:induction false} QuotientTimes(x: real, y: real)
    requires y != 0.0
    ensures (x / y) * y == x
  {
  }

  lemma {:induction false} LogQuotient(log: Log, x: real, y: real)
    requires IsLog(log) && x > 0.0 && y > 0.0
    ensures log(x / y) == log(x) - log(y)
  {
    QuotientSign(x, y);
    QuotientTimes(x, y);
    LogOfProduct(log, x / y, y, x);
  }

  lemma {:induction false} LogOfProduct(log: Log, a: real, b: real, product: real)
    requires IsLog(log) && a > 0.0 && b > 0.0 && a * b == product
    ensures log(product) == log(a) + log(b)
  {
    assert TurnsProductsIntoSums(log, a, b);
  }

  lemma {:induction false} MulMonotone(a: real, x: real, y: real)
    requires a >= 0.0 && x <= y
    ensures a * x <= a * y
  {
  }

  lemma {:induction false} MulPositive(x: real, y: real)
    requires (x > 0.0 && y > 0.0) || (x < 0.0 && y < 0.0)
    ensures x * y > 0.0
  {
  }

  lemma {:induction false} MeanSquare(x: real, y: real)
    requires x > 0.0 && y > 0.0
    ensures 0.0 < x * y <= ((x + y) / 2.0) * ((x + y) / 2.0)
  {
    var m, d := (x + y) / 2.0, (x - y) / 2.0;
    assert m * m == x * y + d * d;
  }

  // The arithmetic mean of two smoothed bins is at least their geometric mean.
  lemma {:induction false} LogOfMean(log: Log, x: real, y: real)
    requires IsLog(log) && x > 0.0 && y > 0.0
    ensures 2.0 * log((x + y) / 2.0) >= log(x) + log(y)
  {
    var m := (x + y) / 2.0;
    MeanSquare(x, y);
    assert TurnsProductsIntoSums(log, m, m);
    assert TurnsProductsIntoSums(log, x, y);
    LogNotAbove(log, x * y, m * m);
  }

  lemma {:induction false} LogNotAbove(log: Log, x: real, y: real)
    requires IsLog(log) && 0.0 < x <= y
    ensures log(x) <= log(y)
  {
    assert Increases(log, x, y);
  }

  // The tangent law read from the other side.
  lemma {:induction false} LogAtLeast(log: Log, x: real, m: real)
    requires IsLog(log) && x > 0.0 && m > 0.0
    ensures log(x / m) >= 1.0 - m / x
  {
    LogQuotient(log, x, m);
    LogQuotient(log, m, x);
    QuotientSign(m, x);
    assert BelowTangent(log, m / x);
  }

  lemma {:induction false} OneMinusQuotient(m: real, x: real, h: real)
    requires x > 0.0 && m == x - h
    ensures 1.0 - m / x == h / x
  {
    AddQuotients(m, h, x);
    SelfQuotient(x);
  }

  lemma {:induction false} SwapFactors(p: real, h: real, x: real)
    requires x > 0.0
    ensures p * (h / x) == h * (p / x)
  {
    QuotientTimes(h, x);
    QuotientTimes(p, x);
  }

  lemma {:induction false} SmallerPart(e: real, x: real, y: real)
    requires e > 0.0 && 0.0 < x < y
    ensures e / y < e / x
  {
    var u, v := e / x, e / y;
    QuotientTimes(e, x);
    QuotientTimes(e, y);
    QuotientSign(e, y);
    MulPositive(v, y - x);
    assert (u - v) * x == v * (y - x);
  }

  lemma {:induction false} ShareIncreases(p: real, q: real)
    requires 0.0 <= p < q
    ensures p / (p + EPSILON) < q / (q + EPSILON)
  {
    OneMinusQuotient(EPSILON, p + EPSILON, p);
    OneMinusQuotient(EPSILON, q + EPSILON, q);
    SmallerPart(EPSILON, p + EPSILON, q + EPSILON);
  }

  // With shares u = p / p' and v = q / q' of the smoothed bins, the two tangent bounds add up to h * (u - v).
  lemma {:induction false} TangentBounds(p: real, q: real, a: real, b: real)
    requires p >= 0.0 && q >= 0.0
    requires a >= 1.0 - ((p + q) / 2.0 + EPSILON) / (p + EPSILON)
    requires b >= 1.0 - ((p + q) / 2.0 + EPSILON) / (q + EPSILON)
    ensures p * a + q * b >= (p - q) / 2.0 * (p / (p + EPSILON) - q / (q + EPSILON))
  {
    var p', q', h := p + EPSILON, q + EPSILON, (p - q) / 2.0;
    var m' := (p + q) / 2.0 + EPSILON;
    OneMinusQuotient(m', p', h);
    OneMinusQuotient(m', q', -h);
    MulMonotone(p, h / p', a);
    MulMonotone(q, -h / q', b);
    SwapFactors(p, h, p');
    SwapFactors(q, -h, q');
    Regroup(h, p / p', q / q');
  }

  lemma {:induction false} Regroup(h: real, u: real, v: real)
    ensures h * u + (-h) * v == h * (u - v)
  {
  }

  lemma {:induction false} JsdBinPositive(p: real, q: real, a: real, b: real)
    requires p >= 0.0 && q >= 0.0 && p != q
    requires a >= 1.0 - ((p + q) / 2.0 + EPSILON) / (p + EPSILON)
    requires b >= 1.0 - ((p + q) / 2.0 + EPSILON) / (q + EPSILON)
    ensures p * a + q * b > 0.0
  {
    TangentBounds(p, q, a, b);
    if p < q { ShareIncreases(p, q); } else { ShareIncreases(q, p); }
    MulPositive((p - q) / 2.0, p / (p + EPSILON) - q / (q + EPSILON));
  }

  // What the bounds below use about the log ratio of two bins p, q and of each with their midpoint.
  predicate RatioLaws(ratio: Ratio, top: real, ln2: real, p: Mass, q: Mass) {
    var m := Middle(p, q);
    && (p < q ==> ratio(p, q) < 0.0)
    && (q < p ==> ratio(p, q) > 0.0)
    && ratio(q, p) == -ratio(p, q)
    && (p <= 1.0 && q <= 1.0 ==> -top <= ratio(p, q) <= top)
    && ratio(p, m) <= 0.5 * ratio(p, q)
    && ratio(q, m) <= -0.5 * ratio(p, q)
    && ratio(p, m) <= ln2 && ratio(q, m) <= ln2
    && (p != q ==> p * ratio(p, m) + q * ratio(q, m) > 0.0)
  }

  lemma {:induction false} RatioIsDifference(log: Log, x: Mass, y: Mass)
    requires IsLog(log)
    ensures LogRatio(log)(x, y) == log(x + EPSILON) - log(y + EPSILON)
  {
    LogQuotient(log, x + EPSILON, y + EPSILON);
  }

  lemma {:induction false} RatioSign(log: Log, p: Mass, q: Mass)
    requires IsLog(log)
    ensures p < q ==> LogRatio(log)(p, q) < 0.0
    ensures q < p ==> LogRatio(log)(p, q) > 0.0
    ensures LogRatio(log)(q, p) == -LogRatio(log)(p, q)
    ensures p <= 1.0 && q <= 1.0 ==> LogRatio(log)(p, q) <= log((1.0 + EPSILON) / EPSILON)
  {
    var p', q' := p + EPSILON, q + EPSILON;
    RatioIsDifference(log, p, q);
    RatioIsDifference(log, q, p);
    LogQuotient(log, 1.0 + EPSILON, EPSILON);
    assert Increases(log, p', q') && Increases(log, q', p');
    assert Increases(log, EPSILON, q') && Increases(log, p', 1.0 + EPSILON);
  }

  lemma {:induction false} RatioToMidpoint(log: Log, p: Mass, q: Mass)
    requires IsLog(log)
    ensures var m := Middle(p, q);
            && LogRatio(log)(p, m) <= 0.5 * LogRatio(log)(p, q)
            && LogRatio(log)(p, m) <= log(2.0)
            && LogRatio(log)(p, m) >= 1.0 - (m + EPSILON) / (p + EPSILON)
  {
    var m := Middle(p, q);
    var p', q', m' := p + EPSILON, q + EPSILON, m + EPSILON;
    RatioIsDifference(log, p, m);
    RatioIsDifference(log, p, q);
    assert m' == (p' + q') / 2.0;
    LogOfMean(log, p', q');
    assert TurnsProductsIntoSums(log, m', 2.0);
    assert Increases(log, p', m' * 2.0);
    LogAtLeast(log, p', m');
  }

  lemma {:induction false} LogRatioLaws(log: Log, p: Mass, q: Mass)
    requires IsLog(log)
    ensures RatioLaws(LogRatio(log), log((1.0 + EPSILON) / EPSILON), log(2.0), p, q)
  {
    var m := Middle(p, q);
    var ratio := LogRatio(log);
    RatioSign(log, p, q);
    RatioSign(log, q, p);
    RatioToMidpoint(log, p, q);
    RatioToMidpoint(log, q, p);
    assert Middle(q, p) == m;
    if p != q {
      RatioJsdPositive(log, p, q);
    }
  }

  lemma {:induction false} RatioJsdPositive(log: Log, p: Mass, q: Mass)
    requires IsLog(log) && p != q
    ensures p * LogRatio(log)(p, Middle(p, q)) + q * LogRatio(log)(q, Middle(p, q)) > 0.0
  {
    RatioToMidpoint(log, p, q);
    RatioToMidpoint(log, q, p);
    assert Middle(q, p) == Middle(p, q);
    JsdBinPositive(p, q, LogRatio(log)(p, Middle(p, q)), LogRatio(log)(q, Middle(p, q)));
  }

  // --- one bin, for any ratio with those laws ---

  // One bin contributes between 0 and its mass times `top`, nothing exactly when the two sides are equal, and the
  // same whichever side is called the reference.
  predicate BinBound(term: (Mass, Mass) -> real, top: real, p: Mass, q: Mass) {
    p <= 1.0 && q <= 1.0 ==>
      && 0.0 <= term(p, q) <= (p + q) * top
      && (term(p, q) == 0.0 <==> p == q)
      && term(p, q) == term(q, p)
  }

  lemma {:induction false} DifferenceTimesRatio(p: real, q: real, d: real, top: real)
    requires 0.0 <= p && 0.0 <= q && -top <= d <= top
    requires (p > q ==> d > 0.0) && (p < q ==> d < 0.0)
    ensures 0.0 <= (p - q) * d <= (p + q) * top
    ensures (p - q) * d == 0.0 <==> p == q
    ensures (p - q) * d == (q - p) * (-d)
  {
    var x := if p < q then q - p else p - q;
    var e := if p < q then -d else d;
    assert (p - q) * d == x * e;
    MulMonotone(x, e, top);
    MulMonotone(top, x, p + q);
    assert x * e <= top * x <= top * (p + q);
    if p != q {
      MulPositive(x, e);
    }
  }

  lemma {:induction false} PsiTermBounds(ratio: Ratio, top: real, ln2: real, p: Mass, q: Mass)
    requires RatioLaws(ratio, top, ln2, p, q)
    ensures BinBound(PsiTerm(ratio), top, p, q)
  {
    if p <= 1.0 && q <= 1.0 {
      DifferenceTimesRatio(p, q, ratio(p, q), top);
    }
  }

  function JsdBin(ratio: Ratio, p: Mass, q: Mass): real {
    0.5 * KlBin(ratio, p, Middle(p, q)) + 0.5 * KlBin(ratio, q, Middle(p, q))
  }

  function JsdTerm(ratio: Ratio): (Mass, Mass) -> real {
    (p: Mass, q: Mass) => JsdBin(ratio, p, q)
  }

  predicate AtMostQuarter(small: (Mass, Mass) -> real, large: (Mass, Mass) -> real, p: Mass, q: Mass) {
    small(p, q) <= 0.25 * large(p, q)
  }

  lemma {:induction false} WeightedQuarter(p: real, q: real, a: real, b: real, d: real)
    requires p >= 0.0 && q >= 0.0 && a <= 0.5 * d && b <= -0.5 * d
    ensures 0.5 * (p * a) + 0.5 * (q * b) <= 0.25 * ((p - q) * d)
  {
    MulMonotone(p, a, 0.5 * d);
    MulMonotone(q, b, -0.5 * d);
  }

  lemma {:induction false} JsdTermQuarter(ratio: Ratio, top: real, ln2: real, p: Mass, q: Mass)
    requires RatioLaws(ratio, top, ln2, p, q)
    ensures AtMostQuarter(JsdTerm(ratio), PsiTerm(ratio), p, q)
  {
    var m := Middle(p, q);
    WeightedQuarter(p, q, ratio(p, m), ratio(q, m), ratio(p, q));
  }

  lemma {:induction false} WeightedAtMost(p: real, q: real, a: real, b: real, top: real)
    requires p >= 0.0 && q >= 0.0 && a <= top && b <= top
    ensures 0.5 * (p * a) + 0.5 * (q * b) <= (p + q) * (0.5 * top)
  {
    MulMonotone(p, a, top);
    MulMonotone(q, b, top);
  }

  lemma {:induction false} JsdTermBounds(ratio: Ratio, top: real, ln2: real, p: Mass, q: Mass)
    requires RatioLaws(ratio, top, ln2, p, q)
    ensures BinBound(JsdTerm(ratio), 0.5 * ln2, p, q)
  {
    var m := Middle(p, q);
    assert Middle(q, p) == m;
    WeightedAtMost(p, q, ratio(p, m), ratio(q, m), ln2);
    if p == q {
      assert ratio(p, q) == 0.0 && m == p;
    }
  }

  // --- sums over bins ---

  lemma {:induction false} JsdByBins(ratio: Ratio, p: Histogram, q: Histogram)
    ensures 0.5 * ZipSum(KlTerm(ratio), p, Midpoint(p, q)) + 0.5 * ZipSum(KlTerm(ratio), q, Midpoint(p, q))
         == ZipSum(JsdTerm(ratio), p, q)
  {
    if p == [] || q == [] {
    } else {
      JsdByBins(ratio, p[1..], q[1..]);
      assert Midpoint(p, q)[1..] == Midpoint(p[1..], q[1..]);
    }
  }

  lemma {:induction false} QuarterByBins(small: (Mass, Mass) -> real, large: (Mass, Mass) -> real, p: Histogram,
                                         q: Histogram)
    requires forall x: Mass, y: Mass :: AtMostQuarter(small, large, x, y)
    ensures ZipSum(small, p, q) <= 0.25 * ZipSum(large, p, q)
  {
    if p == [] || q == [] {
    } else {
      assert AtMostQuarter(small, large, p[0], q[0]);
      QuarterByBins(small, large, p[1..], q[1..]);
    }
  }

  /** The divergence is at most a quarter of the stability index, whatever the histograms. */
  lemma {:induction false} JsdAtMostQuarterPsi(log: Log, p: Histogram, q: Histogram)
    requires IsLog(log)
    ensures Jsd(log, p, q) <= 0.25 * PsiSum(log, p, q)
  {
    var ratio := LogRatio(log);
    JsdByBins(ratio, p, q);
    forall x: Mass, y: Mass
      ensures AtMostQuarter(JsdTerm(ratio), PsiTerm(ratio), x, y)
    {
      LogRatioLaws(log, x, y);
      JsdTermQuarter(ratio, log((1.0 + EPSILON) / EPSILON), log(2.0), x, y);
    }
    QuarterByBins(JsdTerm(ratio), PsiTerm(ratio), p, q);
  }

  lemma {:induction false} ZipSumBounds(term: (Mass, Mass) -> real, top: real, p: Histogram, q: Histogram)
    requires forall x: Mass, y: Mass :: BinBound(term, top, x, y)
    requires |p| == |q| && Sum(p) <= 1.0 && Sum(q) <= 1.0
    ensures 0.0 <= ZipSum(term, p, q) <= (Sum(p) + Sum(q)) * top
    ensures ZipSum(term, p, q) == 0.0 <==> p == q
    ensures ZipSum(term, p, q) == ZipSum(term, q, p)
  {
    if p == [] {
    } else {
      assert BinBound(term, top, p[0], q[0]);
      ZipSumBounds(term, top, p[1..], q[1..]);
      AddShares(p[0], q[0], Sum(p[1..]), Sum(q[1..]), top);
      assert p == [p[0]] + p[1..] && q == [q[0]] + q[1..];
    }
  }

  lemma {:induction false} AddShares(x: real, y: real, x': real, y': real, top: real)
    ensures (x + x' + (y + y')) * top == (x + y) * top + (x' + y') * top
  {
  }

  lemma {:induction false} AllPsiBinsBounded(log: Log, ratio: Ratio, top: real)
    requires IsLog(log) && ratio == LogRatio(log) && top == log((1.0 + EPSILON) / EPSILON)
    ensures forall x: Mass, y: Mass :: BinBound(PsiTerm(ratio), top, x, y)
  {
    forall x: Mass, y: Mass
      ensures BinBound(PsiTerm(ratio), top, x, y)
    {
      LogRatioLaws(log, x, y);
      PsiTermBounds(ratio, top, log(2.0), x, y);
    }
  }

  lemma {:induction false} AllJsdBinsBounded(log: Log, ratio: Ratio, half: real)
    requires IsLog(log) && ratio == LogRatio(log) && half == 0.5 * log(2.0)
    ensures forall x: Mass, y: Mass :: BinBound(JsdTerm(ratio), half, x, y)
  {
    forall x: Mass, y: Mass
      ensures BinBound(JsdTerm(ratio), half, x, y)
    {
      LogRatioLaws(log, x, y);
      JsdTermBounds(ratio, log((1.0 + EPSILON) / EPSILON), log(2.0), x, y);
    }
  }

  /** Before rounding, over two distributions on the same bins: 0 <= PSI <= 2 ln((1 + eps) / eps), zero exactly when the
      distributions are equal, and the same in both directions. */
  lemma {:induction false} PsiIsBounded(log: Log, p: Histogram, q: Histogram)
    requires IsLog(log) && |p| == |q| && Sum(p) == 1.0 && Sum(q) == 1.0
    ensures 0.0 <= PsiSum(log, p, q) <= 2.0 * log((1.0 + EPSILON) / EPSILON)
    ensures PsiSum(log, p, q) == 0.0 <==> p == q
    ensures PsiSum(log, p, q) == PsiSum(log, q, p)
  {
    var ratio, top := LogRatio(log), log((1.0 + EPSILON) / EPSILON);
    AllPsiBinsBounded(log, ratio, top);
    UnitSums(PsiTerm(ratio), top, p, q);
  }

  /** Likewise 0 <= JSD <= ln 2, zero exactly when the distributions are equal, and symmetric. */
  lemma {:induction false} JsdIsBounded(log: Log, p: Histogram, q: Histogram)
    requires IsLog(log) && |p| == |q| && Sum(p) == 1.0 && Sum(q) == 1.0
    ensures 0.0 <= Jsd(log, p, q) <= log(2.0)
    ensures Jsd(log, p, q) == 0.0 <==> p == q
    ensures Jsd(log, p, q) == Jsd(log, q, p)
  {
    var ratio, half := LogRatio(log), 0.5 * log(2.0);
    AllJsdBinsBounded(log, ratio, half);
    UnitSums(JsdTerm(ratio), half, p, q);
    JsdByBins(ratio, p, q);
    JsdByBins(ratio, q, p);
  }

  lemma {:induction false} UnitSums(term: (Mass, Mass) -> real, top: real, p: Histogram, q: Histogram)
    requires forall x: Mass, y: Mass :: BinBound(term, top, x, y)
    requires |p| == |q| && Sum(p) == 1.0 && Sum(q) == 1.0
    ensures 0.0 <= ZipSum(term, p, q) <= 2.0 * top
    ensures ZipSum(term, p, q) == 0.0 <==> p == q
    ensures ZipSum(term, p, q) == ZipSum(term, q, p)
  {
    ZipSumBounds(term, top, p, q);
  }

  // --- rounding ---

  lemma {:induction false} RoundingIsClose(x: real)
    ensures -0.0000005 <= Round6(x) - x <= 0.0000005
  {
  }

  lemma {:induction false} RoundingKeeps(x: real, k: int)
    requires x >= k as real / 1000000.0
    ensures Round6(x) >= k as real / 1000000.0
  {
    assert x * 1000000.0 >= k as real;
    assert (x * 1000000.0).Floor >= k;
  }

  /** A feature flagged as drifted would be MAJOR by PSI on the same histograms, rounding included. */
  lemma {:induction false} DriftedFeatureIsMajorByPsi(log: Log, feature: string, reference: Histogram,
                                                      production: Histogram)
    requires IsLog(log) && |reference| == |production|
    requires ComputeFeatureDrift(log, feature, reference, production).Success?
    requires ComputeFeatureDrift(log, feature, reference, production).value.drifted
    ensures ComputePsi(log, reference, production).Success?
    ensures ComputePsi(log, reference, production).value.severity == MAJOR
  {
    var p, q := NormalizeHistogram(reference).value, NormalizeHistogram(production).value;
    JsdAtMostQuarterPsi(log, p, q);
    RoundingIsClose(Jsd(log, p, q));
    assert PsiSum(log, p, q) >= 0.2;
    RoundingKeeps(PsiSum(log, p, q), 200000);
  }

  // --- the suite ---

  datatype Note =
    | FeatureDrift(features: seq<string>)
    | RaisedByFeatures
    | AnomalyBreaches(count: int)
    | RaisedByAnomalies

  // The dict of feature results, as its values in insertion order; each carries its key.
  datatype DriftSuiteResult = DriftSuiteResult(
    psiResult: PsiResult, featureResults: seq<FeatureDriftResult>, driftedFeatures: seq<string>,
    overall: DriftSeverity, anomalyCount: int, notes: seq<Note>)

  datatype Feature = Feature(name: string, reference: Histogram, production: Histogram)

  function Rank(s: DriftSeverity): nat {
    match s
    case NO_DRIFT => 0
    case MINOR => 1
    case MAJOR => 2
  }

  function Max(a: nat, b: nat): nat {
    if a < b then b else a
  }

  function Measure(log: Log, f: Feature): Result<FeatureDriftResult, DriftError> {
    ComputeFeatureDrift(log, f.name, f.reference, f.production)
  }

  ghost predicate FirstFailure(log: Log, features: seq<Feature>, k: nat) {
    && k < |features| && Measure(log, features[k]).Failure?
    && forall i :: 0 <= i < k ==> Measure(log, features[i]).Success?
  }

  function DriftedNames(results: seq<FeatureDriftResult>): seq<string> {
    if results == [] then []
    else
      var last := results[|results| - 1];
      DriftedNames(results[..|results| - 1]) + (if last.drifted then [last.feature] else [])
  }

  method MeasureAll(log: Log, features: seq<Feature>) returns (r: Result<seq<FeatureDriftResult>, DriftError>)
    ensures r.Success? <==> forall i :: 0 <= i < |features| ==> Measure(log, features[i]).Success?
    ensures r.Failure? ==> exists k: nat :: FirstFailure(log, features, k) && r.error == Measure(log, features[k]).error
    ensures r.Success? ==> |r.value| == |features|
                           && forall i :: 0 <= i < |features| ==> Success(r.value[i]) == Measure(log, features[i])
  {
    var results: seq<FeatureDriftResult> := [];
    for k := 0 to |features|
      invariant |results| == k
      invariant forall i :: 0 <= i < k ==> Success(results[i]) == Measure(log, features[i])
    {
      var one := Measure(log, features[k]);
      if one.Failure? {
        assert FirstFailure(log, features, k);
        return Failure(one.error);
      }
      results := results + [one.value];
    }
    r := Success(results);
  }

  // What was found, and what raised the severity above that of the stability index.
  function NotesFor(psi: DriftSeverity, drifted: seq<string>, anomalyCount: int): seq<Note> {
    (if drifted == [] then []
     else if psi == NO_DRIFT then [FeatureDrift(drifted), RaisedByFeatures]
     else [FeatureDrift(drifted)])
    + (if anomalyCount <= 0 then []
       else if psi == MAJOR then [AnomalyBreaches(anomalyCount)]
       else [AnomalyBreaches(anomalyCount), RaisedByAnomalies])
  }

  // The join of the three: what PSI says, MINOR if any feature drifted, MAJOR if any anomaly fired.
  function Join(psi: DriftSeverity, drifted: bool, anomalyCount: int): nat {
    Max(Rank(psi), Max(if drifted then Rank(MINOR) else 0, if anomalyCount > 0 then Rank(MAJOR) else 0))
  }

  /** The join is the least severity that is at least each of the three, and it never falls when one of them rises. */
  lemma {:induction false} JoinIsLeastAndMonotone(psi: DriftSeverity, drifted: bool, anomalyCount: int,
                                                  psi': DriftSeverity, drifted': bool, anomalyCount': int, bound: nat)
    ensures Join(psi, drifted, anomalyCount) <= bound <==>
              && Rank(psi) <= bound && (drifted ==> Rank(MINOR) <= bound)
              && (anomalyCount > 0 ==> Rank(MAJOR) <= bound)
    ensures Rank(psi) <= Rank(psi') && (drifted ==> drifted') && anomalyCount <= anomalyCount' ==>
              Join(psi, drifted, anomalyCount) <= Join(psi', drifted', anomalyCount')
  {
  }

  method Escalate(psi: DriftSeverity, drifted: seq<string>, anomalyCount: int)
    returns (overall: DriftSeverity, notes: seq<Note>)
    ensures overall == if psi == MAJOR || anomalyCount > 0 then MAJOR
                       else if psi == MINOR || drifted != [] then MINOR
                       else NO_DRIFT
    ensures Rank(overall) == Join(psi, drifted != [], anomalyCount)
    ensures notes == NotesFor(psi, drifted, anomalyCount)
  {
    overall, notes := psi, [];
    if drifted != [] {
      notes := notes + [FeatureDrift(drifted)];
      if overall == NO_DRIFT {
        overall := MINOR;
        notes := notes + [RaisedByFeatures];
      }
    }
    if anomalyCount > 0 {
      notes := notes + [AnomalyBreaches(anomalyCount)];
      if overall != MAJOR {
        overall := MAJOR;
        notes := notes + [RaisedByAnomalies];
      }
    }
  }

  /** The severity of the suite is MAJOR exactly if the index is at least 0.20 or an anomaly fired, and NO_DRIFT
      exactly if the index is below 0.10, no feature drifted and no anomaly fired: the join of the three, so monotone
      in each. It fails exactly when one of its measurements does, with the error of the first that does. */
  method CheckDriftSuite(log: Log, reference: Histogram, production: Histogram, features: seq<Feature>,
                         anomalyCount: int)
    returns (r: Result<DriftSuiteResult, DriftError>)
    ensures r.Success? <==>
              ComputePsi(log, reference, production).Success?
              && forall i :: 0 <= i < |features| ==> Measure(log, features[i]).Success?
    ensures r.Failure? ==>
              if ComputePsi(log, reference, production).Failure? then
                r.error == ComputePsi(log, reference, production).error
              else exists k: nat :: FirstFailure(log, features, k) && r.error == Measure(log, features[k]).error
    ensures r.Success? ==>
              && Success(r.value.psiResult) == ComputePsi(log, reference, production)
              && |r.value.featureResults| == |features|
              && (forall i :: 0 <= i < |features| ==> Success(r.value.featureResults[i]) == Measure(log, features[i]))
              && r.value.driftedFeatures == DriftedNames(r.value.featureResults)
              && r.value.anomalyCount == anomalyCount
              && (forall name :: name in r.value.driftedFeatures <==>
                    exists f :: f in r.value.featureResults && f.drifted && f.feature == name)
              && r.value.notes == NotesFor(r.value.psiResult.severity, r.value.driftedFeatures, anomalyCount)
              && Rank(r.value.overall) == Join(r.value.psiResult.severity,
                                               exists f :: f in r.value.featureResults && f.drifted, anomalyCount)
    ensures r.Success? ==>
              && (r.value.overall == MAJOR <==> r.value.psiResult.psi >= 0.20 || anomalyCount > 0)
              && (r.value.overall == NO_DRIFT <==>
                    && r.value.psiResult.psi < 0.10 && anomalyCount <= 0
                    && forall f :: f in r.value.featureResults ==> f.divergence < 0.10)
  {
    var psi := ComputePsi(log, reference, production);
    if psi.Failure? {
      return Failure(psi.error);
    }
    var measured := MeasureAll(log, features);
    if measured.Failure? {
      return Failure(measured.error);
    }
    var results := measured.value;
    var drifted := DriftedNames(results);
    SomeDrifted(results);
    FlagsAreThresholds(log, features, results);
    var overall, notes := Escalate(psi.value.severity, drifted, anomalyCount);
    r := Success(DriftSuiteResult(psi.value, results, drifted, overall, anomalyCount, notes));
  }

  lemma {:induction false} FlagsAreThresholds(log: Log, features: seq<Feature>, results: seq<FeatureDriftResult>)
    requires |results| == |features|
    requires forall i :: 0 <= i < |features| ==> Success(results[i]) == Measure(log, features[i])
    ensures forall f :: f in results ==> (f.drifted <==> f.divergence >= 0.10)
  {
    forall f | f in results
      ensures f.drifted <==> f.divergence >= 0.10
    {
      var i :| 0 <= i < |results| && results[i] == f;
      assert Success(f) == Measure(log, features[i]);
    }
  }

  lemma {:induction false} SomeDrifted(results: seq<FeatureDriftResult>)
    ensures DriftedNames(results) != [] <==> exists f :: f in results && f.drifted
    ensures forall name :: name in DriftedNames(results) <==>
              exists f :: f in results && f.drifted && f.feature == name
  {
    if results == [] {
    } else {
      var init, last := results[..|results| - 1], results[|results| - 1];
      SomeDrifted(init);
      assert results == init + [last];
    }
  }
}
