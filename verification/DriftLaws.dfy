/** What the drift measures report, in numbers: the formulas bin by bin, the thresholds, and the rounding. */
module DriftLaws {
  import opened Wrappers
  import opened Drift

  function Total(xs: seq<real>): real {
    if xs == [] then 0.0 else Total(xs[..|xs| - 1]) + xs[|xs| - 1]
  }

  // The histogram divided by its sum.
  ghost predicate Shares(h: Histogram, p: seq<real>) {
    && |p| == |h|
    && forall i :: 0 <= i < |h| ==> p[i] * Total(h) == h[i]
  }

  predicate Near(rounded: real, x: real) {
    -0.0000005 <= rounded - x <= 0.0000005
  }

  // --- sums ---

  lemma {:induction false} TotalFromTheLeft(x: real, xs: seq<real>)
    ensures Total([x] + xs) == x + Total(xs)
  {
    if xs == [] {
      assert [x] + xs == [x];
      assert [x][..0] == [];
    } else {
      var n := |xs|;
      assert ([x] + xs)[..n] == [x] + xs[..n - 1];
      assert ([x] + xs)[n] == xs[n - 1];
      TotalFromTheLeft(x, xs[..n - 1]);
    }
  }

  lemma {:induction false} SumIsTotal(h: Histogram)
    ensures Sum(h) == Total(h)
  {
    if h == [] {
    } else {
      SumIsTotal(h[1..]);
      var rest: seq<real> := h[1..];
      TotalFromTheLeft(h[0], rest);
      assert h == [h[0]] + rest;
    }
  }

  lemma {:induction false} ZipSumIsTotal(term: (Mass, Mass) -> real, p: Histogram, q: Histogram, xs: seq<real>)
    requires |xs| == (if |p| < |q| then |p| else |q|)
    requires forall i :: 0 <= i < |xs| ==> xs[i] == term(p[i], q[i])
    ensures ZipSum(term, p, q) == Total(xs)
  {
    if p == [] || q == [] {
    } else {
      ZipSumIsTotal(term, p[1..], q[1..], xs[1..]);
      TotalFromTheLeft(xs[0], xs[1..]);
      assert xs == [xs[0]] + xs[1..];
    }
  }

  lemma {:induction false} ShareIsQuotient(x: Mass, total: real, p: real)
    requires total > 0.0 && p * total == x
    ensures Share(x, total) == p
  {
    QuotientTimes(x, total);
    assert (p - x / total) * total == 0.0;
  }

  lemma {:induction false} NormalizedAre(h: Histogram, p: seq<real>)
    requires NormalizeHistogram(h).Success? && Shares(h, p)
    ensures NormalizeHistogram(h).value == p
  {
    SumIsTotal(h);
    SharesAreQuotients(h, p, Total(h));
  }

  lemma {:induction false} SharesAreQuotients(h: Histogram, p: seq<real>, total: real)
    requires total > 0.0 && |p| == |h| && forall i :: 0 <= i < |h| ==> p[i] * total == h[i]
    ensures forall i :: 0 <= i < |h| ==> p[i] == Share(h[i], total)
  {
    forall i | 0 <= i < |h|
      ensures p[i] == Share(h[i], total)
    {
      ShareIsQuotient(h[i], total, p[i]);
    }
  }

  // --- rounding ---

  /** The rounded number is the nearest millionth, and of two equally near ones the even one. */
  lemma {:induction false} RoundsTo(x: real, k: int)
    requires k as real - 0.5 <= x * 1000000.0 <= k as real + 0.5
    requires k % 2 == 0 || k as real - 0.5 < x * 1000000.0 < k as real + 0.5
    ensures Round6(x) == k as real / 1000000.0
  {
    var y := x * 1000000.0;
    assert y.Floor == k || y.Floor == k - 1;
  }

  // --- the stability index ---

  /** It is computed exactly for histograms of the same positive length with positive sums, and otherwise the error says
      which of these fails first; the severity is read off it by the two thresholds. */
  lemma {:induction false} PsiSucceedsWhen(log: Log, reference: Histogram, production: Histogram)
    ensures var r := ComputePsi(log, reference, production);
            if |reference| != |production| then r == Failure(LengthMismatch)
            else if |reference| == 0 then r == Failure(EmptyHistogram)
            else if Total(reference) <= 0.0 || Total(production) <= 0.0 then r == Failure(NonPositiveTotal)
            else
              && r.Success? && r.value.bins == |reference|
              && (r.value.severity == NO_DRIFT <==> r.value.psi < 0.10)
              && (r.value.severity == MINOR <==> 0.10 <= r.value.psi < 0.20)
              && (r.value.severity == MAJOR <==> 0.20 <= r.value.psi)
  {
    SumIsTotal(reference);
    SumIsTotal(production);
    PositiveSum(reference);
    PositiveSum(production);
  }

  function PsiFormula(log: Log, p: real, q: real): real
    requires p >= 0.0 && q >= 0.0
  {
    (p - q) * log((p + 0.00000001) / (q + 0.00000001))
  }

  lemma {:induction false} PsiIsTotal(log: Log, p: Histogram, q: Histogram, bins: seq<real>)
    requires |p| == |q| == |bins| && forall i :: 0 <= i < |bins| ==> bins[i] == PsiFormula(log, p[i], q[i])
    ensures PsiSum(log, p, q) == Total(bins)
  {
    forall i | 0 <= i < |bins|
      ensures bins[i] == PsiTerm(LogRatio(log))(p[i], q[i])
    {
      PsiFormulaIsTerm(log, p[i], q[i]);
    }
    ZipSumIsTotal(PsiTerm(LogRatio(log)), p, q, bins);
  }

  lemma {:induction false} PsiFormulaIsTerm(log: Log, p: Mass, q: Mass)
    ensures PsiFormula(log, p, q) == PsiTerm(LogRatio(log))(p, q)
  {
  }

  /** The index is within half a millionth of the sum, over the bins, of the difference of the shares times the
      logarithm of their smoothed ratio. */
  lemma {:induction false} PsiReports(log: Log, reference: Histogram, production: Histogram, p: Histogram,
                                      q: Histogram, bins: seq<real>)
    requires ComputePsi(log, reference, production).Success?
    requires Shares(reference, p) && Shares(production, q) && |bins| == |reference|
    requires forall i :: 0 <= i < |bins| ==>
               bins[i] == PsiFormula(log, p[i], q[i])
    ensures Near(ComputePsi(log, reference, production).value.psi, Total(bins))
  {
    NormalizedAre(reference, p);
    NormalizedAre(production, q);
    PsiIsTotal(log, p, q, bins);
    RoundingIsClose(PsiSum(log, p, q));
  }

  // --- the divergence of a feature ---

  /** It is computed exactly for non-empty histograms with positive sums, whatever their lengths; the feature has
      drifted exactly if it is at least 0.10. */
  lemma {:induction false} FeatureSucceedsWhen(log: Log, feature: string, reference: Histogram, production: Histogram)
    ensures var r := ComputeFeatureDrift(log, feature, reference, production);
            if reference == [] then r == Failure(EmptyHistogram)
            else if Total(reference) <= 0.0 then r == Failure(NonPositiveTotal)
            else if production == [] then r == Failure(EmptyHistogram)
            else if Total(production) <= 0.0 then r == Failure(NonPositiveTotal)
            else r.Success? && r.value.feature == feature && (r.value.drifted <==> r.value.divergence >= 0.10)
  {
    SumIsTotal(reference);
    SumIsTotal(production);
    PositiveSum(reference);
    PositiveSum(production);
  }

  function JsdFormula(log: Log, p: real, q: real): real
    requires p >= 0.0 && q >= 0.0
  {
    var m := (p + q) / 2.0;
    0.5 * (p * log((p + 0.00000001) / (m + 0.00000001))) + 0.5 * (q * log((q + 0.00000001) / (m + 0.00000001)))
  }

  lemma {:induction false} JsdIsTotal(log: Log, p: Histogram, q: Histogram, bins: seq<real>)
    requires |bins| == if |p| < |q| then |p| else |q|
    requires forall i :: 0 <= i < |bins| ==> bins[i] == JsdFormula(log, p[i], q[i])
    ensures Jsd(log, p, q) == Total(bins)
  {
    forall i | 0 <= i < |bins|
      ensures bins[i] == JsdTerm(LogRatio(log))(p[i], q[i])
    {
      JsdFormulaIsTerm(log, p[i], q[i]);
    }
    JsdByBins(LogRatio(log), p, q);
    ZipSumIsTotal(JsdTerm(LogRatio(log)), p, q, bins);
  }

  lemma {:induction false} JsdFormulaIsTerm(log: Log, p: Mass, q: Mass)
    ensures JsdFormula(log, p, q) == JsdTerm(LogRatio(log))(p, q)
  {
  }

  /** The divergence is within half a millionth of the sum, over the bins both histograms have, of the two halves of the
      Jensen-Shannon term. */
  lemma {:induction false} FeatureReports(log: Log, feature: string, reference: Histogram, production: Histogram,
                                          p: Histogram, q: Histogram, bins: seq<real>)
    requires ComputeFeatureDrift(log, feature, reference, production).Success?
    requires Shares(reference, p) && Shares(production, q)
    requires |bins| == if |reference| < |production| then |reference| else |production|
    requires forall i :: 0 <= i < |bins| ==>
               bins[i] == JsdFormula(log, p[i], q[i])
    ensures Near(ComputeFeatureDrift(log, feature, reference, production).value.divergence, Total(bins))
  {
    NormalizedAre(reference, p);
    NormalizedAre(production, q);
    JsdIsTotal(log, p, q, bins);
    RoundingIsClose(Jsd(log, p, q));
  }

  // --- stable distributions ---

  /** Histograms with the same shares, whatever their scales, show no drift by either measure. */
  lemma {:induction false} SameSharesNoDrift(log: Log, feature: string, reference: Histogram, production: Histogram,
                                             p: Histogram)
    requires IsLog(log)
    requires Shares(reference, p) && Shares(production, p) && Total(reference) > 0.0 && Total(production) > 0.0
    ensures ComputePsi(log, reference, production) == Success(PsiResult(0.0, NO_DRIFT, |reference|))
    ensures ComputeFeatureDrift(log, feature, reference, production)
         == Success(FeatureDriftResult(feature, 0.0, false))
  {
    assert Total([]) == 0.0;
    PsiSucceedsWhen(log, reference, production);
    FeatureSucceedsWhen(log, feature, reference, production);
    NormalizedAre(reference, p);
    NormalizedAre(production, p);
    PsiIsBounded(log, p, p);
    JsdIsBounded(log, p, p);
    RoundsTo(0.0, 0);
  }

  /** Histograms that share no bin are MAJOR. */
  lemma {:induction false} DisjointIsMajor(log: Log)
    requires IsLog(log)
    ensures ComputePsi(log, [1.0, 0.0], [0.0, 1.0]).Success?
    ensures ComputePsi(log, [1.0, 0.0], [0.0, 1.0]).value.severity == MAJOR
  {
    var a: Histogram, b: Histogram := [1.0, 0.0], [0.0, 1.0];
    TotalOfTwo(1.0, 0.0);
    TotalOfTwo(0.0, 1.0);
    PsiSucceedsWhen(log, a, b);
    var x, y := PsiFormula(log, 1.0, 0.0), PsiFormula(log, 0.0, 1.0);
    PsiReports(log, a, b, a, b, [x, y]);
    TotalOfTwo(x, y);
    FarApart(log);
  }

  lemma {:induction false} TotalOfTwo(x: real, y: real)
    ensures Total([x, y]) == x + y
  {
    assert [x, y][..1] == [x] && [x][..0] == [];
    assert Total([x]) == x;
  }

  lemma {:induction false} FarApart(log: Log)
    requires IsLog(log)
    ensures PsiFormula(log, 1.0, 0.0) >= 0.5 && PsiFormula(log, 0.0, 1.0) >= 0.5
  {
    LogQuotient(log, 1.0 + EPSILON, EPSILON);
    LogQuotient(log, EPSILON, 1.0 + EPSILON);
    LogAtLeast(log, 1.0 + EPSILON, EPSILON);
    assert PsiFormula(log, 1.0, 0.0) == log((1.0 + EPSILON) / EPSILON);
    assert PsiFormula(log, 0.0, 1.0) == -log(EPSILON / (1.0 + EPSILON));
  }

  // --- the drifted features ---

  /** The drifted features are listed in the order they were measured in, each result on its own account. */
  lemma {:induction false} DriftedNamesConcat(a: seq<FeatureDriftResult>, b: seq<FeatureDriftResult>)
    ensures DriftedNames(a + b) == DriftedNames(a) + DriftedNames(b)
  {
    if b == [] {
      assert a + b == a;
    } else {
      var init, last := b[..|b| - 1], b[|b| - 1];
      DriftedNamesConcat(a, init);
      assert (a + b)[..|a + b| - 1] == a + init;
    }
  }

  lemma {:induction false} DriftedNamesOne(f: FeatureDriftResult)
    ensures DriftedNames([f]) == if f.drifted then [f.feature] else []
  {
    assert [f][..0] == [];
  }

  /** The notes name the drifted features if there are any and the anomalies if there are any, in this order, each
      followed by a note that it raised the severity exactly if it did. */
  lemma {:induction false} NotesSay(psi: DriftSeverity, drifted: seq<string>, anomalyCount: int)
    ensures var features :=
              if drifted == [] then []
              else [FeatureDrift(drifted)] + if psi == NO_DRIFT then [RaisedByFeatures] else [];
            var anomalies :=
              if anomalyCount <= 0 then []
              else [AnomalyBreaches(anomalyCount)] + if psi != MAJOR then [RaisedByAnomalies] else [];
            NotesFor(psi, drifted, anomalyCount) == features + anomalies
  {
  }
}
