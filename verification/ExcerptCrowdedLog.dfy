/** A log of one region, which is taken, and whose failure marker the line cap cuts off. */
module ExcerptCrowdedLog {
  import opened ExcerptRegions
  import opened FailureExcerpt
  import opened ExcerptText
  import opened ExcerptBuilder
  import opened ExcerptDetermined
  import opened ExcerptNoisyLog
  import opened ExcerptShown
  import opened Sorting
  import opened Text

  /** A hundred lines of vocabulary, no two neighbours equal, and at once the marker. */
  function CrowdedLog(): (lines: seq<LogLine>)
    ensures |lines| == 101
  {
    seq(101, i => if i == 100 then LogLine("not ok 1", Strong)
                  else if i % 2 == 0 then LogLine("timeout a", Weak) else LogLine("timeout b", Weak))
  }

  lemma CrowdedMerged(hits: seq<nat>, merged: seq<Region>)
    requires AreHits(CrowdedLog(), hits) && Apart(merged, 101) && CoversExactly(merged, hits, 101)
    ensures merged == [Region(0, 100)]
  {
    var whole := [Region(0, 100)];
    forall i ensures Covered(i, merged) <==> Covered(i, whole) {
      assert Covered(i, whole) <==> Inside(i, whole[0]);
      if Covered(i, merged) {
        CoveredInLog(i, merged, 101);
      }
      if 0 <= i < 101 {
        assert IsHit(CrowdedLog(), i) && i in hits;
        var k :| 0 <= k < |hits| && hits[k] == i;
        assert Abs(i - hits[k]) <= CONTEXT_LINES;
      }
    }
    RegionsAreDetermined(merged, whole, 101);
  }

  /** What is selected is the whole log. */
  function CrowdedTexts(): (texts: seq<string>)
    ensures |texts| == 101 && forall k :: 0 <= k < 101 ==> texts[k] == CrowdedLog()[k].text
  {
    seq(101, k requires 0 <= k < 101 => CrowdedLog()[k].text)
  }

  lemma {:induction false} CrowdedChoice(sorted: seq<Ranked>)
    requires RankedInLog(sorted, 101) && multiset(Regions(sorted)) == multiset([Region(0, 100)])
    ensures |sorted| == 1 && Greedy(sorted, CrowdedLog()) == [Region(0, 100)]
            && AllInLog(SortRegions([Region(0, 100)]), 101)
    ensures Texts(Slots(SortRegions([Region(0, 100)]), 101), CrowdedLog()) == CrowdedTexts()
  {
    SameElementsSameLength(Regions(sorted), [Region(0, 100)]);
    assert Regions(sorted)[0] in multiset([Region(0, 100)]);
    GreedyTakesTheTop(sorted, CrowdedLog());
    OneRegionSlots(Region(0, 100), 101);
  }

  lemma CrowdedHasNoTriple()
    ensures NoTriple(CrowdedTexts())
  {
    forall i ensures !TripleAt(CrowdedTexts(), i) {
      if 0 <= i < 99 {
        assert "timeout a"[8] != "timeout b"[8];
      }
    }
  }

  lemma KeptTexts(i: nat)
    requires i < MAX_LINES
    ensures 'k' !in CrowdedTexts()[i]
  {
    assert CrowdedTexts()[i] == "timeout a" || CrowdedTexts()[i] == "timeout b";
  }

  lemma NoMarkerKept(cut: bool)
    ensures "not ok 1" !in Lines(Finish(CrowdedTexts(), cut).0)
  {
    var excerpt := Finish(CrowdedTexts(), cut).0;
    if "not ok 1" in Lines(excerpt) {
      assert "not ok 1"[5] == 'k';
      LinesKeepChars(excerpt, "not ok 1", 'k');
      var l := CharsOfKeptLines(CrowdedTexts(), cut, 'k');
      CrowdedHasNoTriple();
      CollapsedExactly(CrowdedTexts());
      var i: nat :| i < MAX_LINES && CrowdedTexts()[i] == l;
      KeptTexts(i);
    }
  }

  /** The one region ranks first and is taken, and yet the marker's line is not in the excerpt: a hundred
      lines of vocabulary are enough for that. */
  lemma MarkerIsCutOff(hits: seq<nat>, merged: seq<Region>, sorted: seq<Ranked>, excerpt: string, truncated: bool)
    requires IsExcerpt(CrowdedLog(), hits, merged, sorted, excerpt, truncated)
    ensures |sorted| == 1 && Greedy(sorted, CrowdedLog()) == [sorted[0].region] == [Region(0, 100)] && truncated
    ensures CrowdedLog()[100] == LogLine("not ok 1", Strong) && "not ok 1" !in Lines(excerpt)
  {
    CrowdedMerged(hits, merged);
    CrowdedChoice(sorted);
    GreedyTakesTheTop(sorted, CrowdedLog());
    NoMarkerKept(false);
    CrowdedHasNoTriple();
    CollapsedExactly(CrowdedTexts());
  }

  /** The function itself on this log. */
  method ExcerptOfCrowdedLog() returns (excerpt: string, truncated: bool)
    ensures truncated && "not ok 1" !in Lines(excerpt)
  {
    var lines := CrowdedLog();
    ghost var hits, merged, sorted;
    excerpt, truncated, hits, merged, sorted := BuildFailureExcerpt(lines);
    assert IsHit(lines, 0) && 0 in hits;
    VisibleIsNotBlank(lines[0].text, 0);
    MarkerIsCutOff(hits, merged, sorted, excerpt, truncated);
  }
}
