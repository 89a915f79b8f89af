/** The regions of a failure log worth showing: a window of context around every failure line, merged
    where they touch, each weighted by the failure lines it holds. */
module ExcerptRegions {

  const CONTEXT_LINES := 6
  const STRONG_HIT_WEIGHT := 1000

  /** What a log line says about failure: nothing, failure-adjacent vocabulary, or an explicit marker. */
  datatype Kind = Plain | Weak | Strong

  datatype LogLine = LogLine(text: string, kind: Kind)

  datatype Region = Region(from: nat, to: nat)

  datatype Ranked = Ranked(region: Region, weight: nat)

  function Abs(x: int): nat {
    if x < 0 then -x else x
  }

  predicate IsHit(lines: seq<LogLine>, i: int) {
    0 <= i < |lines| && lines[i].kind != Plain
  }

  /** `hits` lists exactly the failure lines, in log order. */
  ghost predicate AreHits(lines: seq<LogLine>, hits: seq<nat>) {
    && (forall j, k :: 0 <= j < k < |hits| ==> hits[j] < hits[k])
    && (forall i: nat :: i in hits <==> IsHit(lines, i))
  }

  method CollectHits(lines: seq<LogLine>) returns (hits: seq<nat>)
    ensures AreHits(lines, hits)
  {
    hits := [];
    var i := 0;
    while i < |lines|
      invariant 0 <= i <= |lines|
      invariant forall j, k :: 0 <= j < k < |hits| ==> hits[j] < hits[k]
      invariant forall j :: 0 <= j < |hits| ==> hits[j] < i
      invariant forall h: nat :: h in hits <==> h < i && IsHit(lines, h)
    {
      if lines[i].kind != Plain {
        ghost var before := hits;
        hits := hits + [i];
        assert hits[|before|] == i;
        assert forall h: nat :: h in hits <==> h in before || h == i;
      }
      i := i + 1;
    }
  }

  function Window(n: nat, hit: nat): Region
    requires hit < n
  {
    Region(if hit < CONTEXT_LINES then 0 else hit - CONTEXT_LINES,
           if hit + CONTEXT_LINES < n then hit + CONTEXT_LINES else n - 1)
  }

  predicate Inside(i: int, r: Region) {
    r.from <= i <= r.to
  }

  ghost predicate Covered(i: int, regions: seq<Region>) {
    exists k :: 0 <= k < |regions| && Inside(i, regions[k])
  }

  /** Line `i` is within the context distance of one of the hits. */
  ghost predicate Near(i: int, hits: seq<nat>) {
    exists k :: 0 <= k < |hits| && Abs(i - hits[k]) <= CONTEXT_LINES
  }

  /** In log order, with at least one line between any two. */
  ghost predicate Apart(regions: seq<Region>, n: nat) {
    && (forall k :: 0 <= k < |regions| ==> regions[k].from <= regions[k].to < n)
    && (forall j, k :: 0 <= j < k < |regions| ==> regions[j].to + 1 < regions[k].from)
  }

  ghost predicate CoversExactly(regions: seq<Region>, hits: seq<nat>, n: nat) {
    forall i :: 0 <= i < n ==> (Covered(i, regions) <==> Near(i, hits))
  }

  /** Merging the windows of ascending hits: separate regions that cover exactly the lines near a hit. */
  method MergeWindows(n: nat, hits: seq<nat>) returns (merged: seq<Region>)
    requires forall k :: 0 <= k < |hits| ==> hits[k] < n
    requires forall j, k :: 0 <= j < k < |hits| ==> hits[j] < hits[k]
    ensures Apart(merged, n) && CoversExactly(merged, hits, n)
    ensures hits != [] ==> merged != []
  {
    merged := [];
    var k := 0;
    while k < |hits|
      invariant 0 <= k <= |hits|
      invariant Apart(merged, n) && CoversExactly(merged, hits[..k], n)
      invariant merged == [] <==> k == 0
      invariant k > 0
                ==> merged[|merged| - 1].to == Window(n, hits[k - 1]).to
                    && merged[|merged| - 1].from <= Window(n, hits[k - 1]).from
    {
      var w := Window(n, hits[k]);
      ghost var before := merged;
      if merged != [] && w.from <= merged[|merged| - 1].to + 1 {
        var last := merged[|merged| - 1];
        merged := merged[..|merged| - 1] + [Region(last.from, if last.to < w.to then w.to else last.to)];
      } else {
        merged := merged + [w];
      }
      MergeStep(before, merged, hits, k, n);
      k := k + 1;
    }
    assert hits[..k] == hits;
  }

  lemma MergeStep(before: seq<Region>, merged: seq<Region>, hits: seq<nat>, k: nat, n: nat)
    requires k < |hits| && hits[k] < n && Apart(before, n) && CoversExactly(before, hits[..k], n)
    requires var w := Window(n, hits[k]);
             if before != [] && w.from <= before[|before| - 1].to + 1
             then
               var last := before[|before| - 1];
               && merged == before[..|before| - 1] + [Region(last.from, if last.to < w.to then w.to else last.to)]
               && last.from <= w.from
             else merged == before + [w]
    ensures CoversExactly(merged, hits[..k + 1], n)
  {
    var w := Window(n, hits[k]);
    assert hits[..k + 1] == hits[..k] + [hits[k]];
    forall i | 0 <= i < n ensures Covered(i, merged) <==> Near(i, hits[..k + 1]) {
      NearAppend(i, hits[..k], hits[k]);
      assert Inside(i, w) <==> Abs(i - hits[k]) <= CONTEXT_LINES;
      CoveredAppend(i, merged[..|merged| - 1], merged[|merged| - 1]);
      assert merged == merged[..|merged| - 1] + [merged[|merged| - 1]];
      if merged[..|merged| - 1] != before {
        assert before == before[..|before| - 1] + [before[|before| - 1]];
        CoveredAppend(i, before[..|before| - 1], before[|before| - 1]);
      }
    }
  }

  lemma NearAppend(i: int, hits: seq<nat>, hit: nat)
    ensures Near(i, hits + [hit]) <==> Near(i, hits) || Abs(i - hit) <= CONTEXT_LINES
  {
    var all := hits + [hit];
    assert all[|hits|] == hit;
    assert forall k :: 0 <= k < |hits| ==> all[k] == hits[k];
  }

  lemma CoveredAppend(i: int, regions: seq<Region>, r: Region)
    ensures Covered(i, regions + [r]) <==> Covered(i, regions) || Inside(i, r)
  {
    var all := regions + [r];
    assert all[|regions|] == r;
    assert forall k :: 0 <= k < |regions| ==> all[k] == regions[k];
  }

  // ---------- Weights ----------

  function LineWeight(l: LogLine): nat {
    match l.kind
    case Plain => 0
    case Weak => 1
    case Strong => STRONG_HIT_WEIGHT
  }

  /** The failure lines from `a` up to `b`, counted one by one. */
  function Weight(lines: seq<LogLine>, a: int, b: int): nat
    requires 0 <= a <= b <= |lines|
    decreases b
  {
    if a == b then 0 else Weight(lines, a, b - 1) + LineWeight(lines[b - 1])
  }

  lemma {:induction false} WeightWithoutHits(lines: seq<LogLine>, a: int, b: int, c: int)
    requires 0 <= a <= b <= c <= |lines|
    requires forall i :: b <= i < c ==> !IsHit(lines, i)
    ensures Weight(lines, a, b) == Weight(lines, a, c)
    decreases c
  {
    if b < c {
      WeightWithoutHits(lines, a, b, c - 1);
      assert !IsHit(lines, c - 1);
    }
  }

  /** The linear pass: one cursor over the hits serves all regions, and still gives each region the
      weight of counting its own failure lines. */
  method RankRegions(lines: seq<LogLine>, hits: seq<nat>, merged: seq<Region>) returns (ranked: seq<Ranked>)
    requires AreHits(lines, hits) && Apart(merged, |lines|)
    ensures |ranked| == |merged|
    ensures forall k :: 0 <= k < |merged| ==>
              ranked[k] == Ranked(merged[k], Weight(lines, merged[k].from, merged[k].to + 1))
  {
    ranked := [];
    var hi := 0;
    var r := 0;
    while r < |merged|
      invariant 0 <= r == |ranked| <= |merged| && 0 <= hi <= |hits|
      invariant forall k :: 0 <= k < r ==>
                  ranked[k] == Ranked(merged[k], Weight(lines, merged[k].from, merged[k].to + 1))
      invariant r < |merged| ==> forall j :: 0 <= j < hi ==> hits[j] < merged[r].from
    {
      var region := merged[r];
      while hi < |hits| && hits[hi] < region.from
        invariant 0 <= hi <= |hits|
        invariant forall j :: 0 <= j < hi ==> hits[j] < region.from
      {
        hi := hi + 1;
      }
      var weight := WeighRegion(lines, hits, region, hi);
      ranked := ranked + [Ranked(region, weight)];
      r := r + 1;
    }
  }

  /** The inner loop, from the first hit that is not before the region. */
  method WeighRegion(lines: seq<LogLine>, hits: seq<nat>, region: Region, hi: nat) returns (weight: nat)
    requires AreHits(lines, hits) && region.from <= region.to < |lines| && hi <= |hits|
    requires forall j :: 0 <= j < hi ==> hits[j] < region.from
    requires hi < |hits| ==> hits[hi] >= region.from
    ensures weight == Weight(lines, region.from, region.to + 1)
  {
    weight := 0;
    var k := hi;
    ghost var upto: nat := region.from;
    while k < |hits| && hits[k] <= region.to
      invariant hi <= k <= |hits| && region.from <= upto <= region.to + 1
      invariant k < |hits| ==> hits[k] >= upto
      invariant forall j :: 0 <= j < k ==> hits[j] < upto
      invariant weight == Weight(lines, region.from, upto)
    {
      assert hits[k] in hits;
      NoHitBetween(lines, hits, k, upto, hits[k]);
      WeightWithoutHits(lines, region.from, upto, hits[k]);
      weight := weight + if lines[hits[k]].kind == Strong then STRONG_HIT_WEIGHT else 1;
      upto := hits[k] + 1;
      k := k + 1;
    }
    NoHitBetween(lines, hits, k, upto, region.to + 1);
    WeightWithoutHits(lines, region.from, upto, region.to + 1);
  }

  lemma NoHitBetween(lines: seq<LogLine>, hits: seq<nat>, k: nat, a: nat, b: nat)
    requires AreHits(lines, hits) && k <= |hits|
    requires forall j :: 0 <= j < k ==> hits[j] < a
    requires k < |hits| ==> hits[k] >= b
    ensures forall i :: a <= i < b ==> !IsHit(lines, i)
  {
    forall i | a <= i < b ensures i !in hits {
      forall j | 0 <= j < |hits| ensures hits[j] != i {}
    }
  }
}
