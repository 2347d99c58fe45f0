/**
 * The consensus of the weather providers (aggregator/src/validation/weather/ensemble.ts), over
 * real numbers. The square root is any function that squares back to its argument.
 */
module Ensemble {
  import opened Wrappers

  datatype EnsembleStatus = Agreed | Degraded | Divergent | Unavailable

  datatype EnsembleResult = EnsembleResult(
    ghi: real, providersResponded: nat, stdDev: Option<real>, relativeDivergence: Option<real>,
    status: EnsembleStatus)

  datatype EnsembleOptions = EnsembleOptions(divergenceThreshold: real, nightStdThreshold: real)

  const DEFAULT_OPTIONS: EnsembleOptions := EnsembleOptions(0.30, 50.0)

  ghost predicate IsSquareRoot(sqrt: real -> real) {
    forall v: real {:trigger sqrt(v)} :: v >= 0.0 ==> sqrt(v) >= 0.0 && sqrt(v) * sqrt(v) == v
  }

  // ---------- Sorting ----------

  function Insert(x: real, s: seq<real>): seq<real> {
    if s == [] || x <= s[0] then [x] + s else [s[0]] + Insert(x, s[1..])
  }

  function SortAscending(s: seq<real>): seq<real> {
    if s == [] then [] else Insert(s[0], SortAscending(s[1..]))
  }

  ghost predicate Ascending(s: seq<real>) {
    forall i, j :: 0 <= i < j < |s| ==> s[i] <= s[j]
  }

  ghost predicate AllAtLeast(s: seq<real>, lo: real) {
    forall i :: 0 <= i < |s| ==> lo <= s[i]
  }

  lemma {:induction false} InsertKeeps(x: real, s: seq<real>, lo: real)
    ensures multiset(Insert(x, s)) == multiset{x} + multiset(s)
    ensures lo <= x && AllAtLeast(s, lo) ==> AllAtLeast(Insert(x, s), lo)
  {
    if s != [] && x > s[0] {
      InsertKeeps(x, s[1..], lo);
      assert s == [s[0]] + s[1..];
    }
  }

  lemma {:induction false} InsertKeepsOrder(x: real, s: seq<real>)
    requires Ascending(s)
    ensures Ascending(Insert(x, s))
  {
    if s != [] && x > s[0] {
      InsertKeepsOrder(x, s[1..]);
      InsertKeeps(x, s[1..], s[0]);
    }
  }

  lemma {:induction false} SortKeeps(s: seq<real>)
    ensures Ascending(SortAscending(s))
    ensures multiset(SortAscending(s)) == multiset(s)
    ensures |SortAscending(s)| == |s|
  {
    if s != [] {
      SortKeeps(s[1..]);
      InsertKeepsOrder(s[0], SortAscending(s[1..]));
      InsertKeeps(s[0], SortAscending(s[1..]), 0.0);
      assert s == [s[0]] + s[1..];
    }
    assert |multiset(SortAscending(s))| == |SortAscending(s)| && |multiset(s)| == |s|;
  }

  lemma SmallestFirst(s: seq<real>, x: real)
    requires Ascending(s) && x in multiset(s)
    ensures s[0] <= x
  {
    assert x in s;
  }

  lemma WithoutFirst(s: seq<real>)
    requires s != []
    ensures multiset(s[1..]) == multiset(s) - multiset{s[0]}
    ensures s[0] in multiset(s)
  {
    assert s == [s[0]] + s[1..];
  }

  lemma SameFirst(a: seq<real>, b: seq<real>)
    requires Ascending(a) && Ascending(b) && multiset(a) == multiset(b) && a != [] && b != []
    ensures a[0] == b[0] && multiset(a[1..]) == multiset(b[1..])
  {
    hide Ascending;
    WithoutFirst(a);
    WithoutFirst(b);
    SmallestFirst(a, b[0]);
    SmallestFirst(b, a[0]);
  }

  /** Any other sort gives the same list, so the result does not depend on how it is done. */
  lemma {:induction false} SortIsUnique(a: seq<real>, b: seq<real>)
    requires Ascending(a) && Ascending(b) && multiset(a) == multiset(b)
    ensures a == b
    decreases |a|
  {
    assert |multiset(a)| == |a| && |multiset(b)| == |b|;
    if a != [] {
      SameFirst(a, b);
      SortIsUnique(a[1..], b[1..]);
      assert a == [a[0]] + a[1..] && b == [b[0]] + b[1..];
    }
  }

  // ---------- The ensemble ----------

  function ComputeMedian(sorted: seq<real>): real {
    var n := |sorted|;
    if n == 0 then 0.0
    else if n % 2 == 1 then sorted[(n - 1) / 2]
    else (sorted[n / 2 - 1] + sorted[n / 2]) / 2.0
  }

  function Sum(values: seq<real>): real {
    if values == [] then 0.0 else Sum(values[..|values| - 1]) + values[|values| - 1]
  }

  function Square(x: real): real {
    x * x
  }

  function SquaredDeviations(values: seq<real>, mean: real): real {
    if values == [] then 0.0
    else
      SquaredDeviations(values[..|values| - 1], mean) + Square(values[|values| - 1] - mean)
  }

  function Variance(values: seq<real>): real
    requires values != []
  {
    SquaredDeviations(values, Sum(values) / |values| as real) / |values| as real
  }

  function ComputeStdDev(values: seq<real>, sqrt: real -> real): real {
    if |values| < 2 then 0.0 else sqrt(Variance(values))
  }

  /** `classify` on the irradiance of the providers that responded. */
  function Classify(points: seq<real>, options: EnsembleOptions, sqrt: real -> real): EnsembleResult {
    if |points| == 0 then EnsembleResult(0.0, 0, None, None, Unavailable)
    else if |points| == 1 then EnsembleResult(points[0], 1, None, None, Degraded)
    else
      var ghis := SortAscending(points);
      var median, stdDev := ComputeMedian(ghis), ComputeStdDev(ghis, sqrt);
      if median == 0.0 then
        EnsembleResult(median, |points|, Some(stdDev), None,
                       if stdDev >= options.nightStdThreshold then Divergent else Agreed)
      else
        var relative := stdDev / median;
        EnsembleResult(median, |points|, Some(stdDev), Some(relative),
                       if relative >= options.divergenceThreshold then Divergent else Agreed)
  }

  lemma SingleResponse(p: seq<real>, q: seq<real>)
    requires |p| == |q| == 1 && multiset(p) == multiset(q)
    ensures p == q
  {
    assert p[0] in multiset(q);
  }

  /** The order in which providers answer is irrelevant. */
  lemma ResponseOrderIsIrrelevant(p: seq<real>, q: seq<real>, options: EnsembleOptions, sqrt: real -> real)
    requires multiset(p) == multiset(q)
    ensures Classify(p, options, sqrt) == Classify(q, options, sqrt)
  {
    assert |multiset(p)| == |p| && |multiset(q)| == |q|;
    SortKeeps(p);
    SortKeeps(q);
    SortIsUnique(SortAscending(p), SortAscending(q));
    if |p| == 1 {
      SingleResponse(p, q);
    }
    hide SortAscending, ComputeMedian, ComputeStdDev, Ascending;
  }

  // ---------- Robustness of the median ----------

  /** Within the bounds that are given. */
  predicate Within(x: real, lo: Option<real>, hi: Option<real>) {
    (lo.Some? ==> lo.value <= x) && (hi.Some? ==> x <= hi.value)
  }

  function CountWithin(s: seq<real>, lo: Option<real>, hi: Option<real>): nat {
    if s == [] then 0 else (if Within(s[0], lo, hi) then 1 else 0) + CountWithin(s[1..], lo, hi)
  }

  lemma {:induction false} CountAfterInsert(x: real, s: seq<real>, lo: Option<real>, hi: Option<real>)
    ensures CountWithin(Insert(x, s), lo, hi) == (if Within(x, lo, hi) then 1 else 0) + CountWithin(s, lo, hi)
  {
    if s != [] && x > s[0] {
      CountAfterInsert(x, s[1..], lo, hi);
    } else {
      assert ([x] + s)[1..] == s;
    }
  }

  lemma {:induction false} CountAfterSort(s: seq<real>, lo: Option<real>, hi: Option<real>)
    ensures CountWithin(SortAscending(s), lo, hi) == CountWithin(s, lo, hi)
  {
    if s != [] {
      CountAfterSort(s[1..], lo, hi);
      CountAfterInsert(s[0], SortAscending(s[1..]), lo, hi);
    }
  }

  /** If the entries from index a up to b lie outside, at most the others lie inside. */
  lemma {:induction false} CountOutside(s: seq<real>, lo: Option<real>, hi: Option<real>, a: nat, b: nat)
    requires a <= b <= |s|
    requires forall i :: a <= i < b ==> !Within(s[i], lo, hi)
    ensures CountWithin(s, lo, hi) <= |s| - (b - a)
  {
    if s != [] {
      CountOutside(s[1..], lo, hi, if a > 0 then a - 1 else 0, if b > 0 then b - 1 else 0);
    }
  }

  lemma EmptyCount(lo: Option<real>, hi: Option<real>)
    ensures CountWithin([], lo, hi) == 0
  {
  }

  lemma MidpointIsWithin(x: real, y: real, lo: Option<real>, hi: Option<real>)
    requires Within(x, lo, hi) && Within(y, lo, hi)
    ensures Within((x + y) / 2.0, lo, hi)
  {
  }

  lemma MiddleIsWithin(s: seq<real>, lo: Option<real>, hi: Option<real>, m: nat)
    requires Ascending(s) && 2 * CountWithin(s, lo, hi) > |s|
    requires m < |s| && |s| <= 2 * (m + 1) && 2 * m <= |s|
    ensures Within(s[m], lo, hi)
  {
    if lo.Some? && s[m] < lo.value {
      CountOutside(s, lo, hi, 0, m + 1);
    } else if hi.Some? && hi.value < s[m] {
      CountOutside(s, lo, hi, m, |s|);
    }
  }

  lemma MedianIsWithin(points: seq<real>, lo: Option<real>, hi: Option<real>,
                       options: EnsembleOptions, sqrt: real -> real)
    requires 2 * CountWithin(points, lo, hi) > |points|
    ensures Within(Classify(points, options, sqrt).ghi, lo, hi)
  {
    var s, n := SortAscending(points), |points|;
    if n == 1 {
      assert CountWithin(points[1..], lo, hi) == 0;
      return;
    }
    hide SortAscending, CountWithin, Ascending, ComputeStdDev, Within;
    SortKeeps(points);
    CountAfterSort(points, lo, hi);
    EmptyCount(lo, hi);
    if n % 2 == 1 {
      MiddleIsWithin(s, lo, hi, (n - 1) / 2);
    } else {
      MiddleIsWithin(s, lo, hi, n / 2 - 1);
      MiddleIsWithin(s, lo, hi, n / 2);
      MidpointIsWithin(s[n / 2 - 1], s[n / 2], lo, hi);
    }
  }

  /**
   * The ensemble value is robust: if more than half of the providers that responded lie within
   * bounds, one-sided or two-sided, so does it, whatever the others report.
   */
  lemma MajorityDecides(points: seq<real>, lo: Option<real>, hi: Option<real>,
                        options: EnsembleOptions, sqrt: real -> real)
    requires 2 * CountWithin(points, lo, hi) > |points|
    ensures var ghi := Classify(points, options, sqrt).ghi;
            (lo.Some? ==> lo.value <= ghi) && (hi.Some? ==> ghi <= hi.value)
  {
    MedianIsWithin(points, lo, hi, options, sqrt);
    hide Classify;
  }

  /** At night, when more than half report exactly nothing, divergence is judged by its absolute size. */
  lemma DarkMajority(points: seq<real>, options: EnsembleOptions, sqrt: real -> real)
    requires |points| >= 2 && 2 * CountWithin(points, Some(0.0), Some(0.0)) > |points|
    ensures var r := Classify(points, options, sqrt);
            && r.ghi == 0.0 && r.relativeDivergence == None && r.stdDev.Some?
            && (r.status == Divergent <==> r.stdDev.value >= options.nightStdThreshold)
            && r.status in {Divergent, Agreed}
  {
    MajorityDecides(points, Some(0.0), Some(0.0), options, sqrt);
  }

  // ---------- Agreement is recognised ----------

  lemma {:induction false} SumBounds(values: seq<real>, lo: real, hi: real)
    requires forall i :: 0 <= i < |values| ==> lo <= values[i] <= hi
    ensures |values| as real * lo <= Sum(values) <= |values| as real * hi
  {
    if values != [] {
      SumBounds(values[..|values| - 1], lo, hi);
    }
  }

  lemma SquareBound(d: real, w: real)
    requires -w <= d <= w
    ensures 0.0 <= d * d <= w * w
  {
    if d >= 0.0 {
      assert d * d <= d * w <= w * w;
    } else {
      assert (-d) * (-d) <= (-d) * w <= w * w;
    }
  }

  lemma {:induction false} DeviationBound(values: seq<real>, mean: real, w: real)
    requires forall i :: 0 <= i < |values| ==> -w <= values[i] - mean <= w
    ensures 0.0 <= SquaredDeviations(values, mean) <= |values| as real * (w * w)
  {
    if values != [] {
      DeviationBound(values[..|values| - 1], mean, w);
      SquareBound(values[|values| - 1] - mean, w);
    }
  }

  lemma CancelFactor(a: real, b: real, n: real)
    requires n > 0.0 && a * n <= b * n
    ensures a <= b
  {
  }

  lemma DivideBound(x: real, n: real, lo: real, hi: real)
    requires n > 0.0 && n * lo <= x <= n * hi
    ensures lo <= x / n <= hi
  {
    assert x / n * n == x;
    CancelFactor(lo, x / n, n);
    CancelFactor(x / n, hi, n);
  }

  lemma MulLess(a: real, b: real, c: real)
    requires a < b && 0.0 < c
    ensures a * c < b * c
  {
  }

  lemma MulAtMost(a: real, b: real, c: real)
    requires a <= b && 0.0 <= c
    ensures a * c <= b * c
  {
  }

  lemma SquaresLess(w: real, r: real)
    requires 0.0 <= w < r
    ensures w * w < r * r
  {
    calc {
      w * w;
    <= { MulAtMost(w, r, w); }
      r * w;
    ==
      w * r;
    < { MulLess(w, r, r); }
      r * r;
    }
  }

  lemma RootBound(r: real, w: real)
    requires r >= 0.0 && w >= 0.0 && r * r <= w * w
    ensures r <= w
  {
    if w < r {
      SquaresLess(w, r);
    }
  }

  lemma StdDevBound(values: seq<real>, lo: real, hi: real, sqrt: real -> real)
    requires |values| >= 2 && IsSquareRoot(sqrt)
    requires forall i :: 0 <= i < |values| ==> lo <= values[i] <= hi
    ensures 0.0 <= ComputeStdDev(values, sqrt) <= hi - lo
  {
    var n, mean, w := |values| as real, Sum(values) / |values| as real, hi - lo;
    assert lo <= values[0] <= hi;
    SumBounds(values, lo, hi);
    DivideBound(Sum(values), n, lo, hi);
    DeviationBound(values, mean, w);
    hide SquaredDeviations, Sum;
    SquareBound(w, w);
    assert n * 0.0 == 0.0;
    DivideBound(SquaredDeviations(values, mean), n, 0.0, w * w);
    RootBound(sqrt(Variance(values)), w);
  }

  lemma RatioBelow(stdDev: real, median: real, t: real, lo: real)
    requires 0.0 < lo <= median && 0.0 <= stdDev < t * lo
    ensures stdDev / median < t
  {
    assert stdDev / median * median == stdDev;
    if t < 0.0 {
      MulLess(t, 0.0, lo);
    } else {
      MulAtMost(lo, median, t);
      if t <= stdDev / median {
        MulAtMost(t, stdDev / median, median);
      }
    }
  }

  lemma {:induction false} AllWithin(s: seq<real>, lo: Option<real>, hi: Option<real>, i: nat)
    requires CountWithin(s, lo, hi) == |s| && i < |s|
    ensures Within(s[i], lo, hi)
  {
    CountOutside(s, lo, hi, 0, 0);
    if !Within(s[i], lo, hi) {
      CountOutside(s, lo, hi, i, i + 1);
    }
  }

  lemma AgreementBounds(points: seq<real>, lo: real, hi: real, sqrt: real -> real)
    requires |points| >= 2 && IsSquareRoot(sqrt)
    requires CountWithin(points, Some(lo), Some(hi)) == |points|
    ensures 0.0 <= ComputeStdDev(SortAscending(points), sqrt) <= hi - lo
  {
    var s := SortAscending(points);
    SortKeeps(points);
    CountAfterSort(points, Some(lo), Some(hi));
    hide SortAscending;
    forall i | 0 <= i < |s|
      ensures lo <= s[i] <= hi
    {
      AllWithin(s, Some(lo), Some(hi), i);
    }
    hide CountWithin, IsSquareRoot, ComputeStdDev;
    StdDevBound(s, lo, hi, sqrt);
  }

  /** Providers that agree closely enough, relative to how bright it is, are never called divergent. */
  lemma AgreementIsRecognised(points: seq<real>, lo: real, hi: real, options: EnsembleOptions, sqrt: real -> real)
    requires |points| >= 2 && IsSquareRoot(sqrt)
    requires CountWithin(points, Some(lo), Some(hi)) == |points|
    requires 0.0 < lo && hi - lo < options.divergenceThreshold * lo
    ensures Classify(points, options, sqrt).status == Agreed
  {
    hide SortAscending, ComputeMedian, ComputeStdDev, CountWithin, IsSquareRoot;
    AgreementBounds(points, lo, hi, sqrt);
    MajorityDecides(points, Some(lo), Some(hi), options, sqrt);
    var s := SortAscending(points);
    RatioBelow(ComputeStdDev(s, sqrt), ComputeMedian(s), options.divergenceThreshold, lo);
  }

  // ---------- The value, the deviation and the status, exactly ----------

  /** Twice the ensemble value is the sum of the two middle reports, which are one for an odd number. */
  lemma ValueIsMiddle(points: seq<real>, s: seq<real>, options: EnsembleOptions, sqrt: real -> real)
    requires |points| >= 2 && Ascending(s) && multiset(s) == multiset(points)
    ensures |s| == |points|
    ensures 2.0 * Classify(points, options, sqrt).ghi == s[(|s| - 1) / 2] + s[|s| / 2]
  {
    assert |multiset(s)| == |s| && |multiset(points)| == |points|;
    SortKeeps(points);
    SortIsUnique(SortAscending(points), s);
    hide SortAscending, ComputeStdDev;
    var n := |s|;
    assert n % 2 == 1 ==> (n - 1) / 2 == n / 2;
    assert n % 2 == 0 ==> (n - 1) / 2 == n / 2 - 1;
  }

  function Total(values: seq<real>): real {
    if values == [] then 0.0 else values[0] + Total(values[1..])
  }

  function SquaredDistances(values: seq<real>, center: real): real {
    if values == [] then 0.0
    else Square(values[0] - center) + SquaredDistances(values[1..], center)
  }

  lemma {:induction false} SumSplit(values: seq<real>, center: real)
    requires values != []
    ensures Sum(values) == values[0] + Sum(values[1..])
    ensures SquaredDeviations(values, center)
         == Square(values[0] - center) + SquaredDeviations(values[1..], center)
    decreases |values|
  {
    hide Square;
    var init := values[..|values| - 1];
    if init == [] {
      assert values[1..] == [];
    } else {
      SumSplit(init, center);
      assert values[1..][..|values| - 2] == init[1..];
    }
  }

  lemma {:induction false} SumsAreTotals(values: seq<real>, center: real)
    ensures Sum(values) == Total(values) && SquaredDeviations(values, center) == SquaredDistances(values, center)
  {
    hide Square;
    if values != [] {
      SumSplit(values, center);
      SumsAreTotals(values[1..], center);
    }
  }

  lemma {:induction false} TotalsAfterInsert(x: real, s: seq<real>, center: real)
    ensures Total(Insert(x, s)) == x + Total(s)
    ensures SquaredDistances(Insert(x, s), center) == Square(x - center) + SquaredDistances(s, center)
  {
    hide Square;
    if s != [] && x > s[0] {
      TotalsAfterInsert(x, s[1..], center);
    } else {
      assert ([x] + s)[1..] == s;
    }
  }

  lemma {:induction false} TotalsAfterSort(s: seq<real>, center: real)
    ensures Total(SortAscending(s)) == Total(s)
    ensures SquaredDistances(SortAscending(s), center) == SquaredDistances(s, center)
  {
    hide Square;
    if s != [] {
      TotalsAfterSort(s[1..], center);
      TotalsAfterInsert(s[0], SortAscending(s[1..]), center);
    }
  }

  lemma SquaredDistancesAreNotNegative(values: seq<real>, center: real)
    ensures SquaredDistances(values, center) >= 0.0
  {
  }

  function Mean(values: seq<real>): real
    requires values != []
  {
    Total(values) / |values| as real
  }

  /** The mean of the squared distances from the mean, in the order the reports came in. */
  function MeanSquaredDistance(values: seq<real>): real
    requires values != []
  {
    SquaredDistances(values, Mean(values)) / |values| as real
  }

  lemma QuotientIsNotNegative(x: real, n: real)
    requires x >= 0.0 && n > 0.0
    ensures x / n >= 0.0
  {
  }

  lemma VarianceIsNotNegative(values: seq<real>)
    requires values != []
    ensures MeanSquaredDistance(values) >= 0.0
  {
    SquaredDistancesAreNotNegative(values, Mean(values));
    QuotientIsNotNegative(SquaredDistances(values, Mean(values)), |values| as real);
  }

  lemma SortedVariance(points: seq<real>)
    requires points != []
    ensures SortAscending(points) != []
    ensures Variance(SortAscending(points)) == MeanSquaredDistance(points)
  {
    var s, mean := SortAscending(points), Mean(points);
    SortKeeps(points);
    TotalsAfterSort(points, mean);
    SumsAreTotals(s, mean);
    hide SortAscending, SquaredDeviations, SquaredDistances, Sum, Total, Square;
  }

  /** The square of the deviation is the mean squared distance of the reports from their mean. */
  lemma DeviationIsRootMeanSquare(points: seq<real>, options: EnsembleOptions, sqrt: real -> real)
    requires |points| >= 2 && IsSquareRoot(sqrt)
    ensures var r := Classify(points, options, sqrt);
            r.stdDev.Some? && r.stdDev.value >= 0.0 && Square(r.stdDev.value) == MeanSquaredDistance(points)
  {
    SortedVariance(points);
    VarianceIsNotNegative(points);
    DeviationOf(points, options, sqrt);
    RootSquared(Variance(SortAscending(points)), sqrt);
    hide *;
  }

  lemma RootSquared(v: real, sqrt: real -> real)
    requires IsSquareRoot(sqrt) && v >= 0.0
    ensures sqrt(v) >= 0.0 && Square(sqrt(v)) == v
  {
  }

  lemma DeviationOf(points: seq<real>, options: EnsembleOptions, sqrt: real -> real)
    requires |points| >= 2
    ensures Classify(points, options, sqrt).stdDev == Some(sqrt(Variance(SortAscending(points))))
  {
    SortKeeps(points);
    hide SortAscending;
  }

  lemma RatioAtLeastIff(stdDev: real, median: real, t: real)
    requires median != 0.0
    ensures stdDev / median * median == stdDev
    ensures median > 0.0 ==> (stdDev / median >= t <==> stdDev >= t * median)
    ensures median < 0.0 ==> (stdDev / median >= t <==> stdDev <= t * median)
  {
    var r := stdDev / median;
    assert r * median == stdDev;
    ScaledOrder(r, t, median);
  }

  lemma ScaledOrder(r: real, t: real, m: real)
    ensures m > 0.0 ==> (r >= t <==> r * m >= t * m)
    ensures m < 0.0 ==> (r >= t <==> r * m <= t * m)
  {
    if m > 0.0 {
      if r >= t { MulAtMost(t, r, m); } else { MulLess(r, t, m); }
    } else if m < 0.0 {
      assert r * -m == -(r * m) && t * -m == -(t * m);
      if r >= t { MulAtMost(t, r, -m); } else { MulLess(r, t, -m); }
    }
  }

  /**
   * The status both ways: unavailable without reports, degraded with one; with more, divergent
   * exactly if the deviation reaches the night threshold in the dark, and the threshold's share of
   * the value in daylight.
   */
  lemma StatusIsExact(points: seq<real>, options: EnsembleOptions, sqrt: real -> real)
    ensures var r := Classify(points, options, sqrt);
            && r.providersResponded == |points|
            && (|points| == 0 ==> r.status == Unavailable && r.ghi == 0.0 && r.stdDev == None)
            && (|points| == 1 ==> r.status == Degraded && r.ghi == points[0] && r.stdDev == None)
            && (|points| < 2 ==> r.relativeDivergence == None)
    ensures var r := Classify(points, options, sqrt);
            |points| >= 2 ==>
              && r.stdDev.Some? && r.status in {Divergent, Agreed}
              && (r.ghi == 0.0 ==>
                    && r.relativeDivergence == None
                    && (r.status == Divergent <==> r.stdDev.value >= options.nightStdThreshold))
              && (r.ghi != 0.0 ==>
                    r.relativeDivergence.Some? && r.relativeDivergence.value * r.ghi == r.stdDev.value)
              && (r.ghi > 0.0 ==>
                    (r.status == Divergent <==> r.stdDev.value >= options.divergenceThreshold * r.ghi))
              && (r.ghi < 0.0 ==>
                    (r.status == Divergent <==> r.stdDev.value <= options.divergenceThreshold * r.ghi))
  {
    if |points| >= 2 {
      var s := SortAscending(points);
      hide SortAscending, ComputeMedian, ComputeStdDev;
      if ComputeMedian(s) != 0.0 {
        RatioAtLeastIff(ComputeStdDev(s, sqrt), ComputeMedian(s), options.divergenceThreshold);
      }
    }
  }

  /** Unless configured otherwise: 30 percent in daylight, 50 W/m2 in the dark. */
  lemma DefaultThresholds(points: seq<real>, sqrt: real -> real)
    requires |points| >= 2
    ensures var r := Classify(points, DEFAULT_OPTIONS, sqrt);
            && r.stdDev.Some?
            && (r.ghi > 0.0 ==> (r.status == Divergent <==> 10.0 * r.stdDev.value >= 3.0 * r.ghi))
            && (r.ghi == 0.0 ==> (r.status == Divergent <==> r.stdDev.value >= 50.0))
  {
    StatusIsExact(points, DEFAULT_OPTIONS, sqrt);
    hide Classify;
  }
}
