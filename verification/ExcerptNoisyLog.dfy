/** A log on which a failure marker is crowded out by vocabulary. */
module ExcerptNoisyLog {
  import opened ExcerptRegions
  import opened FailureExcerpt
  import opened ExcerptText
  import opened ExcerptBuilder
  import opened ExcerptDetermined
  import opened ExcerptLimits
  import opened ExcerptShown
  import opened Sorting
  import opened Text

  lemma {:induction false} AllOfKind(lines: seq<LogLine>, kind: Kind, a: int, b: int)
    requires 0 <= a <= b <= |lines|
    requires forall i :: a <= i < b ==> lines[i].kind == kind
    ensures CountKind(lines, kind, a, b) == b - a
    ensures forall k :: k != kind ==> CountKind(lines, k, a, b) == 0
    decreases b
  {
    if a < b {
      AllOfKind(lines, kind, a, b - 1);
    }
  }

  /** A log on which the marker does not win: a thousand and one lines of vocabulary, and far behind them
      one marker. */
  function NoisyLog(): (lines: seq<LogLine>)
    ensures |lines| == 1022
  {
    seq(1022, i => if i < 1001 then LogLine("timeout case passed", Weak)
                   else if i == 1021 then LogLine("not ok 1", Strong) else LogLine("", Plain))
  }

  lemma NoisyWeights()
    ensures Weight(NoisyLog(), 0, 1007) == 1001 && Weight(NoisyLog(), 1015, 1022) == 1000
  {
    var lines := NoisyLog();
    assert Weight(lines, 0, 1007) == 1001 by {
      SplitWeight(lines, 0, 1001, 1007);
      AllOfKind(lines, Weak, 0, 1001);
    }
    assert Weight(lines, 1015, 1021) == 0 by {
      SplitWeight(lines, 1015, 1015, 1021);
    }
  }

  lemma SplitWeight(lines: seq<LogLine>, a: int, b: int, c: int)
    requires 0 <= a <= b <= c <= |lines|
    requires forall i :: b <= i < c ==> lines[i].kind == Plain
    ensures Weight(lines, a, c) == Weight(lines, a, b)
    ensures Weight(lines, a, b) == STRONG_HIT_WEIGHT * CountKind(lines, Strong, a, b) + CountKind(lines, Weak, a, b)
  {
    WeightWithoutHits(lines, a, b, c);
    WeightByKind(lines, a, b);
  }

  function NoisyRegions(): seq<Region> {
    [Region(0, 1006), Region(1015, 1021)]
  }

  lemma NoisyCover(hits: seq<nat>, i: int)
    requires AreHits(NoisyLog(), hits) && 0 <= i < 1022
    ensures Near(i, hits) <==> i <= 1006 || i >= 1015
  {
    var nearest: nat := if i < 1001 then i else if i <= 1006 then 1000 else 1021;
    assert IsHit(NoisyLog(), nearest) && nearest in hits;
    var k :| 0 <= k < |hits| && hits[k] == nearest;
    forall j | 0 <= j < |hits| ensures hits[j] < 1001 || hits[j] == 1021 {
      assert hits[j] in hits;
    }
  }

  lemma NoisyMerged(hits: seq<nat>, merged: seq<Region>)
    requires AreHits(NoisyLog(), hits) && Apart(merged, 1022) && CoversExactly(merged, hits, 1022)
    ensures merged == NoisyRegions()
  {
    forall i ensures Covered(i, merged) <==> Covered(i, NoisyRegions()) {
      CoveredByTwo(i, Region(0, 1006), Region(1015, 1021));
      if Covered(i, merged) {
        CoveredInLog(i, merged, 1022);
      }
      if 0 <= i < 1022 {
        NoisyCover(hits, i);
      }
    }
    RegionsAreDetermined(merged, NoisyRegions(), 1022);
  }

  lemma NoisyRanking(merged: seq<Region>, sorted: seq<Ranked>)
    requires merged == NoisyRegions() && multiset(Regions(sorted)) == multiset(merged)
    requires Weighed(sorted, NoisyLog()) && Descending(sorted)
    ensures sorted == [Ranked(Region(0, 1006), 1001), Ranked(Region(1015, 1021), 1000)]
  {
    var expected := [Ranked(Region(0, 1006), 1001), Ranked(Region(1015, 1021), 1000)];
    NoisyWeights();
    assert Regions(expected) == merged;
    RankingIsDetermined(sorted, expected, NoisyLog());
    OrderIsUnique(expected, sorted, Before);
  }

  lemma {:induction false} NoisyChoice(sorted: seq<Ranked>)
    requires sorted == [Ranked(Region(0, 1006), 1001), Ranked(Region(1015, 1021), 1000)]
    ensures RankedInLog(sorted, 1022) && Greedy(sorted, NoisyLog()) == [Region(0, 1006)]
  {
    var lines := NoisyLog();
    GreedyStep(sorted, lines, 0);
    GreedyStep(sorted, lines, 1);
    assert sorted[..0] == [] && sorted[..2] == sorted;
    assert [] + [Region(0, 1006)] == [Region(0, 1006)];
    UsedAppend([], Region(0, 1006), lines);
  }

  lemma OneRegionSlots(r: Region, n: nat)
    requires InLog(r, n)
    ensures AllInLog(SortRegions([r]), n) && Slots(SortRegions([r]), n) == RegionSlots(r)
  {
    var none: seq<Region> := [];
    assert [r][1..] == none && Sort(none, Earlier) == none && Insert(r, none, Earlier) == [r];
    assert [r][..0] == none && Slots(none, n) == [];
  }

  lemma NoisyExcerpt(hits: seq<nat>, merged: seq<Region>, sorted: seq<Ranked>, excerpt: string, truncated: bool)
    requires IsExcerpt(NoisyLog(), hits, merged, sorted, excerpt, truncated)
    ensures sorted == [Ranked(Region(0, 1006), 1001), Ranked(Region(1015, 1021), 1000)]
    ensures (excerpt, truncated) == Finish(Texts(RegionSlots(Region(0, 1006)), NoisyLog()), true)
  {
    NoisyMerged(hits, merged);
    NoisyRanking(merged, sorted);
    NoisyChoice(sorted);
    OneRegionSlots(Region(0, 1006), 1022);
  }

  lemma NoisyTexts(i: nat)
    requires i < 1007
    ensures 'k' !in Texts(RegionSlots(Region(0, 1006)), NoisyLog())[i]
  {
    assert RegionSlots(Region(0, 1006))[i] == Line(i);
    assert NoisyLog()[i].text == "timeout case passed" || NoisyLog()[i].text == "";
  }

  lemma NoMarkerLeft(excerpt: string, cut: bool)
    requires excerpt == Finish(Texts(RegionSlots(Region(0, 1006)), NoisyLog()), cut).0
    ensures "not ok 1" !in Lines(excerpt)
  {
    var texts := Texts(RegionSlots(Region(0, 1006)), NoisyLog());
    if "not ok 1" in Lines(excerpt) {
      assert "not ok 1"[5] == 'k';
      LinesKeepChars(excerpt, "not ok 1", 'k');
      var l := CharsOfKeptLines(texts, cut, 'k');
      TextsStay(texts, l);
      var i: nat :| i < |texts| && texts[i] == l;
      NoisyTexts(i);
    }
  }

  /** On that log the region of the marker ranks second and is passed over, and the marker's line is
      nowhere in the excerpt. */
  lemma MarkerCanLose(hits: seq<nat>, merged: seq<Region>, sorted: seq<Ranked>, excerpt: string, truncated: bool)
    requires IsExcerpt(NoisyLog(), hits, merged, sorted, excerpt, truncated)
    ensures sorted == [Ranked(Region(0, 1006), 1001), Ranked(Region(1015, 1021), 1000)] && truncated
    ensures NoisyLog()[1021] == LogLine("not ok 1", Strong) && "not ok 1" !in Lines(excerpt)
  {
    NoisyExcerpt(hits, merged, sorted, excerpt, truncated);
    NoMarkerLeft(excerpt, true);
  }

  lemma NoisyLogIsALog()
    ensures AllOneLine(NoisyLog()) && IsHit(NoisyLog(), 0) && !Blank(NoisyLog()[0].text)
  {
    VisibleIsNotBlank(NoisyLog()[0].text, 0);
  }

  /** The function itself on this log. */
  method ExcerptOfNoisyLog() returns (excerpt: string, truncated: bool)
    ensures truncated && "not ok 1" !in Lines(excerpt)
  {
    var lines := NoisyLog();
    NoisyLogIsALog();
    ghost var hits, merged, sorted;
    excerpt, truncated, hits, merged, sorted := BuildFailureExcerpt(lines);
    assert 0 in hits;
    MarkerCanLose(hits, merged, sorted, excerpt, truncated);
  }
}
