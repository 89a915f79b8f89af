/** A log whose regions are all accepted within the budgets, and whose excerpt is cut all the same. */
module ExcerptThreeFailures {
  import opened ExcerptRegions
  import opened FailureExcerpt
  import opened ExcerptText
  import opened ExcerptBuilder
  import opened ExcerptDetermined
  import opened ExcerptLimits
  import opened Sorting
  import opened Text

  /** A log of three failures that are all accepted with the counter at exactly 4000 characters. */
  ghost predicate ThreeFailures(lines: seq<LogLine>) {
    && |lines| == 29
    && |lines[0].text| == 3931 && "not ok " <= lines[0].text && OneLine(lines[0].text)
    && lines[14].text == lines[28].text == "not ok"
    && (forall i :: 0 <= i < 29 && i != 0 && i != 14 && i != 28 ==> lines[i].text == if i % 2 == 0 then "a" else "b")
    && (forall i :: 0 <= i < 29 ==> lines[i].kind == if i == 0 || i == 14 || i == 28 then Strong else Plain)
  }

  function ThreeFailuresLog(): (lines: seq<LogLine>)
    ensures ThreeFailures(lines)
  {
    seq(29, i => if i == 0 then LogLine("not ok " + seq(3924, _ => 'x'), Strong)
                 else if i == 14 || i == 28 then LogLine("not ok", Strong)
                 else LogLine(if i % 2 == 0 then "a" else "b", Plain))
  }

  function ThreeRegions(): seq<Region> {
    [Region(0, 6), Region(8, 20), Region(22, 28)]
  }

  lemma {:induction false} ShortLines(lines: seq<LogLine>, a: int, b: int)
    requires 0 <= a <= b <= |lines|
    requires forall i :: a <= i < b ==> |lines[i].text| == 1
    ensures Chars(lines, a, b) == 2 * (b - a)
    decreases b
  {
    if a < b {
      ShortLines(lines, a, b - 1);
    }
  }

  lemma {:induction false} CharsSplit(lines: seq<LogLine>, a: int, b: int, c: int)
    requires 0 <= a <= b < c <= |lines|
    ensures Chars(lines, a, c) == Chars(lines, a, b) + |lines[b].text| + 1 + Chars(lines, b + 1, c)
    decreases c
  {
    if b + 1 < c {
      CharsSplit(lines, a, b, c - 1);
    }
  }

  lemma ThreeCharCounts(lines: seq<LogLine>)
    requires ThreeFailures(lines)
    ensures Chars(lines, 0, 7) == 3944 && Chars(lines, 8, 21) == 31 && Chars(lines, 22, 29) == 19
  {
    CharsSplit(lines, 0, 0, 7);
    CharsSplit(lines, 8, 14, 21);
    CharsSplit(lines, 22, 28, 29);
    ShortLines(lines, 1, 7);
    ShortLines(lines, 8, 14);
    ShortLines(lines, 15, 21);
    ShortLines(lines, 22, 28);
  }

  lemma UsedByThree(a: Region, b: Region, c: Region, lines: seq<LogLine>)
    requires InLog(a, |lines|) && InLog(b, |lines|) && InLog(c, |lines|)
    ensures AllInLog([a, b, c], |lines|)
    ensures UsedChars([a, b, c], lines)
            == Chars(lines, a.from, a.to + 1) + Chars(lines, b.from, b.to + 1) + Chars(lines, c.from, c.to + 1) + 6
  {
    UsedAppend([], a, lines);
    UsedAppend([a], b, lines);
    UsedAppend([a, b], c, lines);
    assert [] + [a] == [a] && [a] + [b] == [a, b] && [a, b] + [c] == [a, b, c];
  }

  lemma ThreeAreUsed(lines: seq<LogLine>)
    requires ThreeFailures(lines)
    ensures AllInLog(ThreeRegions(), |lines|) && UsedChars(ThreeRegions(), lines) == MAX_CHARS
  {
    ThreeCharCounts(lines);
    UsedByThree(Region(0, 6), Region(8, 20), Region(22, 28), lines);
  }

  lemma SlotsAppend(rs: seq<Region>, r: Region, n: nat)
    requires AllInLog(rs, n) && InLog(r, n) && rs != []
    ensures AllInLog(rs + [r], n) && Slots(rs + [r], n) == Slots(rs, n) + [Gap] + RegionSlots(r)
  {
    assert (rs + [r])[..|rs|] == rs;
  }

  lemma ThreeSlots()
    ensures AllInLog(ThreeRegions(), 29)
    ensures Slots(ThreeRegions(), 29)
            == RegionSlots(Region(0, 6)) + [Gap] + RegionSlots(Region(8, 20)) + [Gap] + RegionSlots(Region(22, 28))
  {
    var one, two := [Region(0, 6)], [Region(0, 6), Region(8, 20)];
    assert one[..0] == [] && Slots(one, 29) == RegionSlots(Region(0, 6));
    SlotsAppend(one, Region(8, 20), 29);
    SlotsAppend(two, Region(22, 28), 29);
    assert one + [Region(8, 20)] == two && two + [Region(22, 28)] == ThreeRegions();
  }

  lemma ThreePlaces(a: seq<Slot>, b: seq<Slot>, c: seq<Slot>)
    requires a == RegionSlots(Region(0, 6)) && b == RegionSlots(Region(8, 20)) && c == RegionSlots(Region(22, 28))
    ensures |a + [Gap] + b + [Gap] + c| == 29
    ensures forall k: nat :: k < 29 ==> (a + [Gap] + b + [Gap] + c)[k] == if k == 7 || k == 21 then Gap else Line(k)
  {
    forall k: nat | k < 29 ensures (a + [Gap] + b + [Gap] + c)[k] == if k == 7 || k == 21 then Gap else Line(k) {
      if k < 7 {
        assert a[k] == Line(k);
      } else if 7 < k < 21 {
        assert b[k - 8] == Line(k);
      } else if 21 < k {
        assert c[k - 22] == Line(k);
      }
    }
  }

  predicate OddText(t: string) {
    t == "b" || t == "..."
  }

  /** No two neighbouring lines of its excerpt are equal. */
  lemma ThreeTexts(lines: seq<LogLine>, texts: seq<string>)
    requires ThreeFailures(lines) && AllInLog(ThreeRegions(), 29)
    requires texts == Texts(Slots(ThreeRegions(), 29), lines)
    ensures NoTriple(texts) && |texts| == 29 && texts[0] == lines[0].text && texts[28] == lines[28].text
  {
    ThreeSlots();
    ThreePlaces(RegionSlots(Region(0, 6)), RegionSlots(Region(8, 20)), RegionSlots(Region(22, 28)));
    assert |texts| == 29 && forall i: nat :: i < 29 ==> texts[i] == if i == 7 || i == 21 then "..." else lines[i].text;
    AlternatingHasNoTriple(lines, texts);
  }

  lemma AlternatingHasNoTriple(lines: seq<LogLine>, texts: seq<string>)
    requires ThreeFailures(lines) && |texts| == 29
    requires forall i: nat :: i < 29 ==> texts[i] == if i == 7 || i == 21 then "..." else lines[i].text
    ensures NoTriple(texts)
  {
    ThreeParity(lines);
    forall i: nat | i < 29 ensures OddText(texts[i]) <==> i % 2 == 1 {
      assert OddText("...");
    }
    forall i ensures !TripleAt(texts, i) {
      if 0 <= i < 27 {
        assert OddText(texts[i]) <==> !OddText(texts[i + 1]);
      }
    }
  }

  lemma ThreeParity(lines: seq<LogLine>)
    requires ThreeFailures(lines)
    ensures forall i :: 0 <= i < 29 ==> (OddText(lines[i].text) <==> i % 2 == 1)
  {
    assert |lines[0].text| != |"b"| && |lines[0].text| != |"..."|;
    assert |lines[14].text| == |"not ok"|;
  }

  lemma ThreeCover(lines: seq<LogLine>, hits: seq<nat>, i: int)
    requires ThreeFailures(lines) && AreHits(lines, hits) && 0 <= i < 29
    ensures Near(i, hits) <==> Covered(i, ThreeRegions())
  {
    var rs := ThreeRegions();
    assert rs == [Region(0, 6), Region(8, 20)] + [Region(22, 28)];
    CoveredAppend(i, [Region(0, 6), Region(8, 20)], Region(22, 28));
    CoveredByTwo(i, Region(0, 6), Region(8, 20));
    var nearest: nat := if i <= 7 then 0 else if i <= 21 then 14 else 28;
    assert IsHit(lines, nearest) && nearest in hits;
    var k :| 0 <= k < |hits| && hits[k] == nearest;
    forall j | 0 <= j < |hits| ensures hits[j] == 0 || hits[j] == 14 || hits[j] == 28 {
      assert hits[j] in hits;
    }
  }

  lemma ThreeMerged(lines: seq<LogLine>, hits: seq<nat>, merged: seq<Region>)
    requires ThreeFailures(lines) && AreHits(lines, hits) && Apart(merged, 29) && CoversExactly(merged, hits, 29)
    ensures merged == ThreeRegions()
  {
    forall i ensures Covered(i, merged) <==> Covered(i, ThreeRegions()) {
      if Covered(i, merged) {
        CoveredInLog(i, merged, 29);
      }
      if Covered(i, ThreeRegions()) {
        CoveredInLog(i, ThreeRegions(), 29);
      }
      if 0 <= i < 29 {
        ThreeCover(lines, hits, i);
      }
    }
    RegionsAreDetermined(merged, ThreeRegions(), 29);
  }

  lemma ThreeLines()
    ensures AllInLog(ThreeRegions(), 29) && UsedLines(ThreeRegions(), 29) == 29
  {
    ThreeSlots();
    ThreePlaces(RegionSlots(Region(0, 6)), RegionSlots(Region(8, 20)), RegionSlots(Region(22, 28)));
    SlotCount(ThreeRegions(), 29);
  }

  lemma ThreeAreTaken(lines: seq<LogLine>, sorted: seq<Ranked>)
    requires ThreeFailures(lines) && RankedInLog(sorted, |lines|)
             && multiset(Regions(sorted)) == multiset(ThreeRegions())
    ensures Greedy(sorted, lines) == Regions(sorted)
  {
    var regions := Regions(sorted);
    ThreeAreUsed(lines);
    ThreeLines();
    forall i | 0 <= i < |regions| ensures InLog(regions[i], |lines|) {
      assert regions[i] == sorted[i].region;
    }
    CountersIgnoreOrder(regions, ThreeRegions(), lines);
    WhatFitsIsTaken(sorted, lines);
  }

  /** Nothing is passed over, the character counter stands at the cap, the line cap and the collapsing have
      nothing to do, and yet the excerpt of such a log is cut. */
  lemma AcceptedAndYetCut(lines: seq<LogLine>, hits: seq<nat>, merged: seq<Region>, sorted: seq<Ranked>,
                          excerpt: string, truncated: bool)
    requires ThreeFailures(lines) && IsExcerpt(lines, hits, merged, sorted, excerpt, truncated)
    ensures var taken := Greedy(sorted, lines);
            && |taken| == |sorted| == 3 && UsedChars(taken, lines) == MAX_CHARS && UsedLines(taken, |lines|) < MAX_LINES
            && NoTriple(Texts(Slots(SortRegions(taken), |lines|), lines)) && truncated
  {
    ThreeMerged(lines, hits, merged);
    ThreeAreTaken(lines, sorted);
    ThreeAreUsed(lines);
    ThreeLines();
    var taken := Greedy(sorted, lines);
    SortedBackIs(taken, ThreeRegions(), |lines|);
    CountersIgnoreOrder(taken, ThreeRegions(), lines);
    SameElementsSameLength(taken, ThreeRegions());
    var texts := Texts(Slots(ThreeRegions(), |lines|), lines);
    ThreeTexts(lines, texts);
    VisibleEnds(lines, texts);
    CutExactly(lines, hits, merged, sorted, excerpt, truncated);
  }

  lemma VisibleEnds(lines: seq<LogLine>, texts: seq<string>)
    requires ThreeFailures(lines) && |texts| == 29 && texts[0] == lines[0].text && texts[28] == lines[28].text
    ensures Margin(JoinLines(texts)) == 0
  {
    LastOfJoin(texts);
    var whole := JoinLines(texts);
    assert whole[0] == texts[0][0] == 'n' && whole[|whole| - 1] == 'k';
    TrimmedStays(whole);
  }

  /** The function itself on such a log. */
  method ExcerptOfThreeFailures() returns (excerpt: string, truncated: bool)
    ensures truncated && |excerpt| <= MAX_CHARS
  {
    var lines := ThreeFailuresLog();
    ghost var hits, merged, sorted;
    assert AllOneLine(lines);
    excerpt, truncated, hits, merged, sorted := BuildFailureExcerpt(lines);
    assert IsHit(lines, 0) && 0 in hits;
    VisibleIsNotBlank(lines[0].text, 0);
    AcceptedAndYetCut(lines, hits, merged, sorted, excerpt, truncated);
  }
}
