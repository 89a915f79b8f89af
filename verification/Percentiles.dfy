/** The statistics of an execution report: nearest-rank percentiles and sums over what is known. Samples
    are `None` where the program has no finite number. */
module Percentiles {
  import opened Options
  import opened Sorting

  type Samples = seq<Option<real>>

  function Known(values: Samples): seq<real> {
    if values == [] then []
    else Known(values[..|values| - 1]) + if values[|values| - 1].Some? then [values[|values| - 1].value] else []
  }

  predicate AtMost(a: real, b: real) {
    a <= b
  }

  function Ceil100(x: nat): nat {
    (x + 99) / 100
  }

  /** The index of the `p`-th percentile among `n` sorted samples. */
  function Rank(p: nat, n: nat): int {
    var r := if Ceil100(p * n) < 1 then 0 else Ceil100(p * n) - 1;
    if n - 1 < r then n - 1 else r
  }

  datatype Percentile = Percentile(p50: Option<real>, p95: Option<real>, n: nat)

  function PercentileOf(sorted: seq<real>, p: nat): Option<real> {
    var r := Rank(p, |sorted|);
    if 0 <= r < |sorted| then Some(sorted[r]) else None
  }

  function NearestRankPercentiles(values: Samples): Percentile {
    var sorted := Sort(Known(values), AtMost);
    Percentile(PercentileOf(sorted, 50), PercentileOf(sorted, 95), |sorted|)
  }

  // ---------- What a percentile is ----------

  /** How many of the samples are at or below `v`. */
  function Below(s: seq<real>, v: real): nat {
    if s == [] then 0 else (if s[0] <= v then 1 else 0) + Below(s[1..], v)
  }

  /** Every sample counts once. */
  lemma {:induction false} BelowCounts(a: seq<real>, x: real, b: seq<real>, v: real)
    ensures Below([], v) == 0 && Below([x], v) == if x <= v then 1 else 0
    ensures Below(a + b, v) == Below(a, v) + Below(b, v)
  {
    assert [x][1..] == [];
    if a == [] {
      assert a + b == b;
    } else {
      assert (a + b)[1..] == a[1..] + b;
      BelowCounts(a[1..], x, b, v);
    }
  }

  /** `v` is a sample with at least `p` percent of the samples at or below it, and the smallest such. */
  ghost predicate IsPercentile(s: seq<real>, p: nat, v: real) {
    && v in s
    && 100 * Below(s, v) >= p * |s|
    && forall w :: w in s && w < v ==> 100 * Below(s, w) < p * |s|
  }

  lemma {:induction false} BelowInsert(x: real, s: seq<real>, v: real)
    ensures Below(Insert(x, s, AtMost), v) == Below(s, v) + if x <= v then 1 else 0
  {
    if s != [] && !AtMost(x, s[0]) {
      BelowInsert(x, s[1..], v);
    }
  }

  lemma {:induction false} BelowSort(s: seq<real>, v: real)
    ensures Below(Sort(s, AtMost), v) == Below(s, v)
  {
    if s != [] {
      BelowSort(s[1..], v);
      BelowInsert(s[0], Sort(s[1..], AtMost), v);
    }
  }

  /** In a sorted list, everything up to the `i`-th element is at or below it, and only what is before it
      can be at or below anything smaller. */
  lemma {:induction false} BelowSorted(t: seq<real>, i: nat, w: real)
    requires Ordered(t, AtMost) && i < |t|
    ensures w >= t[i] ==> Below(t, w) >= i + 1
    ensures w < t[i] ==> Below(t, w) <= i
  {
    if i > 0 {
      BelowSorted(t[1..], i - 1, w);
    } else if w < t[0] {
      BelowNothing(t, w);
    }
  }

  lemma {:induction false} BelowNothing(t: seq<real>, w: real)
    requires forall i :: 0 <= i < |t| ==> w < t[i]
    ensures Below(t, w) == 0
  {
    if t != [] {
      BelowNothing(t[1..], w);
    }
  }

  lemma CeilIsRight(x: nat, n: nat)
    requires 0 < x <= 100 * n
    ensures 1 <= Ceil100(x) <= n && 100 * Ceil100(x) >= x && 100 * (Ceil100(x) - 1) < x
  {
  }

  lemma {:induction false} ProductBounds(p: nat, n: nat)
    requires 0 < p <= 100
    ensures n <= p * n <= 100 * n
    decreases p
  {
    if p > 1 {
      ProductBounds(p - 1, n);
      assert p * n == (p - 1) * n + n;
      ProductAtMost(p, n);
    }
  }

  lemma {:induction false} ProductAtMost(p: nat, n: nat)
    requires p <= 100
    ensures p * n <= 100 * n
    decreases 100 - p
  {
    if p < 100 {
      ProductAtMost(p + 1, n);
      assert (p + 1) * n == p * n + n;
    }
  }

  lemma RankIsRight(p: nat, n: nat)
    requires 0 < p <= 100 && n > 0
    ensures 0 <= Rank(p, n) < n && 100 * (Rank(p, n) + 1) >= p * n && 100 * Rank(p, n) < p * n
  {
    var x := p * n;
    ProductBounds(p, n);
    CeilIsRight(x, n);
  }

  lemma SortedPercentile(s: seq<real>, p: nat)
    requires 0 < p <= 100 && s != []
    ensures PercentileOf(Sort(s, AtMost), p).Some? && IsPercentile(s, p, PercentileOf(Sort(s, AtMost), p).value)
  {
    var t := Sort(s, AtMost);
    SortSorts(s, AtMost);
    RankIsRight(p, |s|);
    var r: nat := Rank(p, |s|);
    var v := t[r];
    assert v in multiset(t) && v in s;
    BelowSorted(t, r, v);
    BelowSort(s, v);
    forall w | w in s && w < v ensures 100 * Below(s, w) < p * |s| {
      BelowSorted(t, r, w);
      BelowSort(s, w);
    }
  }

  lemma PercentileIsUnique(s: seq<real>, p: nat, v: real, w: real)
    requires IsPercentile(s, p, v) && IsPercentile(s, p, w)
    ensures v == w
  {
  }

  lemma {:induction false} BelowGrows(s: seq<real>, v: real, w: real)
    requires v <= w
    ensures Below(s, v) <= Below(s, w)
  {
    if s != [] {
      BelowGrows(s[1..], v, w);
    }
  }

  /** Both percentiles are the smallest samples with 50 and 95 percent of the samples at or below them, and
      the first is not above the second; there is none exactly if nothing is known. */
  lemma PercentilesAreRight(values: Samples)
    ensures var r, s := NearestRankPercentiles(values), Known(values);
            && r.n == |s|
            && (s == [] ==> r.p50 == None && r.p95 == None)
            && (s != []
                ==> r.p50.Some? && r.p95.Some? && IsPercentile(s, 50, r.p50.value) && IsPercentile(s, 95, r.p95.value)
                            && r.p50.value <= r.p95.value)
  {
    var s := Known(values);
    SortKeepsElements(s, AtMost);
    if s != [] {
      SortedPercentile(s, 50);
      SortedPercentile(s, 95);
      SortSorts(s, AtMost);
      RankIsRight(50, |s|);
      RankIsRight(95, |s|);
    }
  }

  /** The order of the samples does not matter. */
  lemma PercentilesIgnoreOrder(a: Samples, b: Samples)
    requires multiset(Known(a)) == multiset(Known(b))
    ensures NearestRankPercentiles(a) == NearestRankPercentiles(b)
  {
    SortSorts(Known(a), AtMost);
    SortSorts(Known(b), AtMost);
    OrderIsUnique(Sort(Known(a), AtMost), Sort(Known(b), AtMost), AtMost);
  }

  // ---------- Sums ----------

  datatype Reason = NoObservations | MissingMetadata | PartialSample | Given(id: nat)

  datatype Coverage = Coverage(sum: Option<real>, known: nat, total: nat, reasons: seq<Reason>)

  function Sum(s: seq<real>): real {
    if s == [] then 0.0 else Sum(s[..|s| - 1]) + s[|s| - 1]
  }

  function CoverageSum(values: Samples, reasonsOfKnown: seq<Reason>): Coverage {
    var known := Known(values);
    if known == [] then Coverage(None, 0, |values|, [if |values| == 0 then NoObservations else MissingMetadata])
    else Coverage(Some(Sum(known)), |known|, |values|, reasonsOfKnown + if |known| < |values| then [PartialSample]
                  else [])
  }

  lemma {:induction false} KnownAppend(a: Samples, b: Samples)
    ensures Known(a + b) == Known(a) + Known(b)
    decreases |b|
  {
    if b == [] {
      assert a + b == a;
    } else {
      assert (a + b)[..|a + b| - 1] == a + b[..|b| - 1];
      KnownAppend(a, b[..|b| - 1]);
    }
  }

  lemma {:induction false} SumAppend(a: seq<real>, b: seq<real>)
    ensures Sum(a + b) == Sum(a) + Sum(b)
    decreases |b|
  {
    if b == [] {
      assert a + b == a;
    } else {
      assert (a + b)[..|a + b| - 1] == a + b[..|b| - 1];
      SumAppend(a, b[..|b| - 1]);
    }
  }

  lemma {:induction false} KnownIsSome(values: Samples)
    ensures |Known(values)| <= |values|
    ensures |Known(values)| == |values| <==> forall i :: 0 <= i < |values| ==> values[i].Some?
    ensures Known(values) == [] <==> forall i :: 0 <= i < |values| ==> values[i] == None
  {
    if values != [] {
      KnownIsSome(values[..|values| - 1]);
    }
  }

  /** Over two samples one after the other sums, known and total counts add up; there is no sum exactly if
      nothing is known, and the sample is called partial exactly if something is known and something not. */
  lemma CoverageAdds(a: Samples, b: Samples, reasons: seq<Reason>)
    requires PartialSample !in reasons
    ensures var x, y, all := CoverageSum(a, reasons), CoverageSum(b, reasons), CoverageSum(a + b, reasons);
            && all.known == x.known + y.known && all.total == x.total + y.total
            && all.sum.UnwrapOr(0.0) == x.sum.UnwrapOr(0.0) + y.sum.UnwrapOr(0.0)
            && (all.sum == None <==> forall i :: 0 <= i < |a + b| ==> (a + b)[i] == None)
            && (PartialSample in all.reasons <==> all.sum.Some? && exists i :: 0 <= i < |a + b| && (a + b)[i] == None)
  {
    KnownAppend(a, b);
    SumAppend(Known(a), Known(b));
    KnownIsSome(a + b);
    assert Sum([]) == 0.0;
  }

  lemma KnownOfOne(one: Option<real>)
    ensures Known([]) == [] && Known([one]) == if one.Some? then [one.value] else []
  {
    assert [one][..0] == [];
    assert Known([one][..0]) == [];
  }

  lemma SumOfOne(x: real)
    ensures Sum([]) == 0.0 && Sum([x]) == x
  {
    assert [x][..0] == [];
  }

  /** One sample is its own sum and both its percentiles; one that is not known has none, and neither has no
      sample. */
  lemma CoverageOfOne(one: Option<real>, reasons: seq<Reason>)
    ensures CoverageSum([one], reasons)
            == if one.Some? then Coverage(one, 1, 1, reasons) else Coverage(None, 0, 1, [MissingMetadata])
    ensures CoverageSum([], reasons) == Coverage(None, 0, 0, [NoObservations])
    ensures NearestRankPercentiles([one]) == Percentile(one, one, if one.Some? then 1 else 0)
  {
    KnownOfOne(one);
    assert reasons + [] == reasons;
    if one.Some? {
      SumOfOne(one.value);
      SortOfOne(one.value);
    }
  }

  lemma SortOfOne(x: real)
    ensures Sort([x], AtMost) == [x]
  {
    assert [x][1..] == [];
  }

  /** Why a sum is missing or incomplete: no sample at all, none that is known, or some that are not; the
      reasons given for what is known come first, exactly if something is. */
  lemma ReasonsExactly(values: Samples, reasons: seq<Reason>)
    ensures var c, known, unknown := CoverageSum(values, reasons), SomeKnown(values), SomeUnknown(values);
            && (c.sum.Some? <==> known) && c.total == |values|
            && (!known && !unknown ==> c.reasons == [NoObservations])
            && (!known && unknown ==> c.reasons == [MissingMetadata])
            && (known && !unknown ==> c.reasons == reasons)
            && (known && unknown ==> c.reasons == reasons + [PartialSample])
  {
    KnownIsSome(values);
    assert reasons + [] == reasons;
    assert |values| > 0 ==> values[0] == None || values[0].Some?;
  }

  ghost predicate SomeKnown(values: Samples) {
    exists i :: 0 <= i < |values| && values[i].Some?
  }

  ghost predicate SomeUnknown(values: Samples) {
    exists i :: 0 <= i < |values| && values[i] == None
  }
}
