/** Two promises that buildFailureExcerpt's comments make and its code keeps only up to a point: that a
    window with an explicit marker always wins, and that regions within the character budget fit. */
module ExcerptLimits {
  import opened ExcerptRegions
  import opened FailureExcerpt
  import opened ExcerptText
  import opened ExcerptBuilder
  import opened Sorting
  import opened Text

  // ---------- Markers against vocabulary ----------

  function CountKind(lines: seq<LogLine>, kind: Kind, a: int, b: int): nat
    requires 0 <= a <= b <= |lines|
    decreases b
  {
    if a == b then 0 else CountKind(lines, kind, a, b - 1) + if lines[b - 1].kind == kind then 1 else 0
  }

  lemma {:induction false} WeightByKind(lines: seq<LogLine>, a: int, b: int)
    requires 0 <= a <= b <= |lines|
    ensures Weight(lines, a, b) == STRONG_HIT_WEIGHT * CountKind(lines, Strong, a, b) + CountKind(lines, Weak, a, b)
    ensures CountKind(lines, Strong, a, b) + CountKind(lines, Weak, a, b) <= b - a
    decreases b
  {
    if a < b {
      WeightByKind(lines, a, b - 1);
    }
  }

  function WeakLines(lines: seq<LogLine>, r: Region): nat
    requires InLog(r, |lines|)
  {
    CountKind(lines, Weak, r.from, r.to + 1)
  }

  function Markers(lines: seq<LogLine>, r: Region): nat
    requires InLog(r, |lines|)
  {
    CountKind(lines, Strong, r.from, r.to + 1)
  }

  /** A region with markers is the heavier one exactly as long as the other has not a thousand lines of
      mere vocabulary more for each marker; so it always wins against a region of up to 1000 lines. */
  lemma MarkerWinsExactly(lines: seq<LogLine>, marked: Region, topical: Region)
    requires InLog(marked, |lines|) && InLog(topical, |lines|)
    requires Markers(lines, marked) >= 1 && Markers(lines, topical) == 0
    ensures Weight(lines, marked.from, marked.to + 1) > Weight(lines, topical.from, topical.to + 1)
            <==> WeakLines(lines, topical) < STRONG_HIT_WEIGHT * Markers(lines, marked) + WeakLines(lines, marked)
    ensures Size(topical) < STRONG_HIT_WEIGHT
            ==> Weight(lines, marked.from, marked.to + 1) > Weight(lines, topical.from, topical.to + 1)
  {
    WeightByKind(lines, marked.from, marked.to + 1);
    WeightByKind(lines, topical.from, topical.to + 1);
  }

  // ---------- Separators ----------

  /** The length of the lines with a line feed after each. */
  function TotalChars(texts: seq<string>): nat {
    if texts == [] then 0 else |texts[0]| + 1 + TotalChars(texts[1..])
  }

  lemma {:induction false} TotalAppend(a: seq<string>, b: seq<string>)
    ensures TotalChars(a + b) == TotalChars(a) + TotalChars(b)
  {
    if a == [] {
      assert a + b == b;
    } else {
      TotalAppend(a[1..], b);
      assert (a + b)[1..] == a[1..] + b;
    }
  }

  lemma {:induction false} JoinLength(texts: seq<string>)
    requires texts != []
    ensures |JoinLines(texts)| == TotalChars(texts) - 1
  {
    if |texts| > 1 {
      JoinLength(texts[1..]);
    }
  }

  lemma {:induction false} RegionLength(r: Region, lines: seq<LogLine>)
    requires InLog(r, |lines|)
    ensures TotalChars(Texts(RegionSlots(r), lines)) == Chars(lines, r.from, r.to + 1)
    decreases r.to
  {
    var slots := RegionSlots(r);
    if r.from < r.to {
      var shorter := Region(r.from, r.to - 1);
      RegionLength(shorter, lines);
      assert Texts(slots, lines) == Texts(RegionSlots(shorter), lines) + [lines[r.to].text];
      TotalAppend(Texts(RegionSlots(shorter), lines), [lines[r.to].text]);
    } else {
      assert Texts(slots, lines) == [lines[r.to].text];
      assert Chars(lines, r.from, r.to) == 0;
    }
  }

  lemma {:induction false} SlotsLength(rs: seq<Region>, lines: seq<LogLine>)
    requires AllInLog(rs, |lines|)
    ensures TotalChars(Texts(Slots(rs, |lines|), lines)) == UsedChars(rs, lines) + if rs == [] then 0 else |rs| - 1
  {
    if rs != [] {
      var before, last := rs[..|rs| - 1], rs[|rs| - 1];
      SlotsLength(before, lines);
      RegionLength(last, lines);
      TextsOfLast(rs, lines);
    }
  }

  lemma {:induction false} TextsOfLast(rs: seq<Region>, lines: seq<LogLine>)
    requires AllInLog(rs, |lines|) && rs != []
    ensures TotalChars(Texts(Slots(rs, |lines|), lines))
            == TotalChars(Texts(Slots(rs[..|rs| - 1], |lines|), lines)) + (if |rs| == 1 then 0 else 4)
                + TotalChars(Texts(RegionSlots(rs[|rs| - 1]), lines))
  {
    var inner, last := Slots(rs[..|rs| - 1], |lines|), RegionSlots(rs[|rs| - 1]);
    var gap := if |rs| == 1 then [] else [Gap];
    TextsAppend(inner + gap, last, lines);
    TextsAppend(inner, gap, lines);
    TotalAppend(Texts(inner + gap, lines), Texts(last, lines));
    TotalAppend(Texts(inner, lines), Texts(gap, lines));
    assert Texts(gap, lines) == if |rs| == 1 then [] else ["..."];
  }

  /** A separator is charged with three characters and takes four: the text of several regions is as long
      as the counter says plus one for every region beyond the second. */
  lemma WrittenLength(rs: seq<Region>, lines: seq<LogLine>)
    requires AllInLog(rs, |lines|) && rs != []
    ensures |JoinLines(Texts(Slots(rs, |lines|), lines))| == UsedChars(rs, lines) + |rs| - 2
  {
    SlotCount(rs, |lines|);
    SlotsLength(rs, lines);
    assert UsedLines(rs, |lines|) > 0;
    JoinLength(Texts(Slots(rs, |lines|), lines));
  }

  /** The white space that trimming takes off both ends. */
  function Margin(s: string): int {
    |s| - |Trim(s)|
  }

  lemma FinishCutsExactly(selected: seq<string>, cut: bool)
    ensures Finish(selected, cut).1
            <==> cut || !NoTriple(selected) || |selected| > MAX_LINES || |Trim(JoinLines(selected))| > MAX_CHARS
  {
    CollapsedExactly(selected);
  }

  /** The excerpt of a log with failure lines is cut exactly if a region was passed over, a line comes three
      times in a row, or the counters, with a character more for each region beyond the second and
      without the white space at both ends, are above a cap. */
  lemma CutExactly(lines: seq<LogLine>, hits: seq<nat>, merged: seq<Region>, sorted: seq<Ranked>, excerpt: string,
                   truncated: bool)
    requires IsExcerpt(lines, hits, merged, sorted, excerpt, truncated) && sorted != []
    ensures var taken := Greedy(sorted, lines); var texts := Texts(Slots(SortRegions(taken), |lines|), lines);
            && (truncated <==> || |taken| < |sorted| || !NoTriple(texts) || UsedLines(taken, |lines|) > MAX_LINES
                               || UsedChars(taken, lines) + |taken| - 2 - Margin(JoinLines(texts)) > MAX_CHARS)
            && (|taken| == |sorted| == 2 && NoTriple(texts) ==> !truncated)
  {
    var taken := Greedy(sorted, lines);
    var texts := Texts(Slots(SortRegions(taken), |lines|), lines);
    GreedyTakesTheTop(sorted, lines);
    PickedCountIsUsed(taken, lines);
    SortKeepsElements(taken, Earlier);
    WrittenLength(SortRegions(taken), lines);
    FinishCutsExactly(texts, |taken| < |sorted|);
    var k := TrimIsStretch(JoinLines(texts));
  }

  lemma {:induction false} LastOfJoin(texts: seq<string>)
    requires texts != [] && texts[|texts| - 1] != ""
    ensures var whole, last := JoinLines(texts), texts[|texts| - 1];
            whole != "" && whole[|whole| - 1] == last[|last| - 1]
  {
    if |texts| > 1 {
      LastOfJoin(texts[1..]);
    }
  }

  /** When all regions together are within both budgets, all are taken. */
  lemma {:induction false} WhatFitsIsTaken(ranked: seq<Ranked>, lines: seq<LogLine>)
    requires RankedInLog(ranked, |lines|) && AllInLog(Regions(ranked), |lines|)
    requires UsedLines(Regions(ranked), |lines|) <= MAX_LINES && UsedChars(Regions(ranked), lines) <= MAX_CHARS
    ensures Greedy(ranked, lines) == Regions(ranked)
  {
    if ranked != [] {
      var before, last := ranked[..|ranked| - 1], ranked[|ranked| - 1].region;
      var earlier := Regions(before);
      assert Regions(ranked) == earlier + [last];
      assert AllInLog(earlier, |lines|) by {
        assert forall i :: 0 <= i < |earlier| ==> earlier[i] == Regions(ranked)[i];
      }
      UsedAppend(earlier, last, lines);
      WhatFitsIsTaken(before, lines);
    }
  }

  /** The counters of the ranked regions are those of the regions in log order. */
  lemma CountersIgnoreOrder(rs: seq<Region>, ts: seq<Region>, lines: seq<LogLine>)
    requires AllInLog(rs, |lines|) && AllInLog(ts, |lines|) && multiset(rs) == multiset(ts)
    ensures UsedLines(rs, |lines|) == UsedLines(ts, |lines|) && UsedChars(rs, lines) == UsedChars(ts, lines)
  {
    SameElementsSameLength(rs, ts);
    CountersAreSums(rs, lines);
    CountersAreSums(ts, lines);
    SumIgnoresOrder(rs, ts, SizeOf());
    SumIgnoresOrder(rs, ts, CharsOf(lines));
  }
}
