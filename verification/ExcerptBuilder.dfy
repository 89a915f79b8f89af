/** buildFailureExcerpt as a whole: bounded, ranked, and complete whenever it says that nothing was cut. */
module ExcerptBuilder {
  import opened ExcerptRegions
  import opened FailureExcerpt
  import opened ExcerptText
  import opened Sorting
  import opened Text

  // ---------- Runs of equal lines ----------

  predicate EndsWithPair(s: seq<string>, line: string) {
    |s| >= 2 && s[|s| - 1] == line && s[|s| - 2] == line
  }

  function Collapsed(s: seq<string>): (c: seq<string>)
    ensures |c| <= |s|
  {
    if s == [] then []
    else
      Added(Collapsed(s[..|s| - 1]), s[|s| - 1])
  }

  /** A third line equal to the two before it is dropped. */
  function Added(before: seq<string>, line: string): seq<string> {
    if EndsWithPair(before, line) then before else before + [line]
  }

  predicate TripleAt(s: seq<string>, i: int) {
    0 <= i < |s| - 2 && s[i] == s[i + 1] == s[i + 2]
  }

  ghost predicate NoTriple(s: seq<string>) {
    forall i :: !TripleAt(s, i)
  }

  lemma TripleAtTheEnd(s: seq<string>)
    requires s != []
    ensures NoTriple(s) <==> NoTriple(s[..|s| - 1]) && !EndsWithPair(s[..|s| - 1], s[|s| - 1])
  {
    var shorter := s[..|s| - 1];
    assert forall i :: TripleAt(s, i) <==> TripleAt(shorter, i) || (i == |s| - 3 && EndsWithPair(shorter, s[|s| - 1]));
    assert EndsWithPair(shorter, s[|s| - 1]) ==> TripleAt(s, |s| - 3);
  }

  /** No line is left three times in a row, and nothing is dropped unless it was. */
  lemma {:induction false} CollapsedExactly(s: seq<string>)
    ensures NoTriple(Collapsed(s))
    ensures |Collapsed(s)| == |s| <==> NoTriple(s)
    ensures |Collapsed(s)| == |s| ==> Collapsed(s) == s
  {
    if s != [] {
      var shorter, line := s[..|s| - 1], s[|s| - 1];
      CollapsedExactly(shorter);
      TripleAtTheEnd(s);
      var longer := Collapsed(shorter) + [line];
      TripleAtTheEnd(longer);
      assert longer[..|longer| - 1] == Collapsed(shorter);
      assert s == shorter + [line];
    }
  }

  /** Every text stays, and none is added. */
  lemma {:induction false} TextsStay(s: seq<string>, l: string)
    ensures l in Collapsed(s) <==> l in s
  {
    if s != [] {
      TextsStay(s[..|s| - 1], l);
      assert s == s[..|s| - 1] + [s[|s| - 1]];
    }
  }

  lemma {:induction false} EndsStay(s: seq<string>)
    requires s != []
    ensures Collapsed(s) != [] && Collapsed(s)[0] == s[0] && Collapsed(s)[|Collapsed(s)| - 1] == s[|s| - 1]
  {
    if |s| > 1 {
      EndsStay(s[..|s| - 1]);
    }
  }

  lemma EndsDiffer(a: seq<string>, b: seq<string>, line: string)
    requires a == [] || a[|a| - 1] != if b == [] then line else b[0]
    ensures Collapsed(a) == []
            || Collapsed(a)[|Collapsed(a)| - 1] != if Collapsed(b) == [] then line else Collapsed(b)[0]
  {
    if a != [] {
      EndsStay(a);
    }
    if b != [] {
      EndsStay(b);
    }
  }

  /** Where two neighbouring lines differ, both sides are collapsed on their own. */
  lemma {:induction false} CollapsesApart(a: seq<string>, b: seq<string>)
    requires a == [] || b == [] || a[|a| - 1] != b[0]
    ensures Collapsed(a + b) == Collapsed(a) + Collapsed(b)
    decreases |b|
  {
    if b == [] {
      assert a + b == a && Collapsed(a) + [] == Collapsed(a);
    } else {
      var shorter, line := b[..|b| - 1], b[|b| - 1];
      assert (a + b)[..|a + b| - 1] == a + shorter;
      CollapsesApart(a, shorter);
      EndsDiffer(a, shorter, line);
      AddedApart(Collapsed(a), Collapsed(shorter), line);
    }
  }

  lemma AddedApart(a: seq<string>, b: seq<string>, line: string)
    requires a == [] || a[|a| - 1] != if b == [] then line else b[0]
    ensures Added(a + b, line) == a + Added(b, line)
  {
    PairIsOnOneSide(a, b, line);
    assert a + (b + [line]) == a + b + [line];
  }

  lemma PairIsOnOneSide(a: seq<string>, b: seq<string>, line: string)
    requires a == [] || a[|a| - 1] != if b == [] then line else b[0]
    ensures EndsWithPair(a + b, line) <==> EndsWithPair(b, line)
  {
  }

  function Run(line: string, m: nat): seq<string> {
    seq(m, _ => line)
  }

  lemma {:induction false} RunCollapses(line: string, m: nat)
    ensures Collapsed(Run(line, m)) == Run(line, if m < 2 then m else 2)
  {
    if m > 0 {
      assert Run(line, m)[..m - 1] == Run(line, m - 1);
      RunCollapses(line, m - 1);
    }
  }

  /** Every run of equal lines, between lines that differ from it, keeps its first two and no more, in its
      place. */
  lemma RunKeepsTwo(a: seq<string>, line: string, m: nat, b: seq<string>)
    requires m > 0 && (a == [] || a[|a| - 1] != line) && (b == [] || b[0] != line)
    ensures Collapsed(a + Run(line, m) + b) == Collapsed(a) + Run(line, if m < 2 then m else 2) + Collapsed(b)
  {
    CollapsesApart(a + Run(line, m), b);
    CollapsesApart(a, Run(line, m));
    RunCollapses(line, m);
  }

  method Collapse(selected: seq<string>) returns (collapsed: seq<string>, dropped: bool)
    ensures collapsed == Collapsed(selected) && (dropped <==> |collapsed| < |selected|)
  {
    collapsed, dropped := [], false;
    var k := 0;
    while k < |selected|
      invariant 0 <= k <= |selected|
      invariant collapsed == Collapsed(selected[..k]) && (dropped <==> |collapsed| < k)
    {
      assert selected[..k + 1][..k] == selected[..k];
      if EndsWithPair(collapsed, selected[k]) {
        dropped := true;
      } else {
        collapsed := collapsed + [selected[k]];
      }
      k := k + 1;
    }
    assert selected[..k] == selected;
  }

  // ---------- The caps ----------

  function Capped(c: seq<string>): seq<string> {
    if |c| > MAX_LINES then c[..MAX_LINES] else c
  }

  /** The excerpt made of the selected lines, and whether anything was cut. `cut` says that regions or
      lines were already left out. */
  function Finish(selected: seq<string>, cut: bool): (string, bool) {
    var c := Collapsed(selected);
    var joined := Trim(JoinLines(Capped(c)));
    (if |joined| > MAX_CHARS then TrimEnd(joined[..MAX_CHARS]) else joined,
     cut || |c| < |selected| || |c| > MAX_LINES || |joined| > MAX_CHARS)
  }

  /** Never more than 80 lines or 4000 characters, nothing but visible text at either end, and complete
      exactly unless a cap or the collapsing took something away. */
  lemma FinishIsBounded(selected: seq<string>, cut: bool)
    requires forall l :: l in selected ==> OneLine(l)
    ensures var (excerpt, truncated) := Finish(selected, cut);
            && |excerpt| <= MAX_CHARS && |Lines(excerpt)| <= MAX_LINES && Trimmed(excerpt)
            && (!truncated
                <==> !cut && NoTriple(selected) && |selected| <= MAX_LINES && |Trim(JoinLines(selected))| <= MAX_CHARS)
            && (!truncated ==> excerpt == Trim(JoinLines(selected)))
  {
    CollapsedExactly(selected);
    var capped := Capped(Collapsed(selected));
    var whole := JoinLines(capped);
    forall l | l in capped ensures OneLine(l) {
      assert l in Collapsed(selected);
      TextsStay(selected, l);
    }
    assert LineFeeds(whole) < MAX_LINES by {
      if capped != [] {
        LinesOfJoin(capped);
        LinesCountLineFeeds(whole);
      }
    }
    var k := TrimIsStretch(whole);
    StretchHasNoMoreLineFeeds(Trim(whole), whole, k);
    var (excerpt, truncated) := Finish(selected, cut);
    LinesCountLineFeeds(excerpt);
    if |Trim(whole)| > MAX_CHARS {
      CutIsTrimmed(Trim(whole), MAX_CHARS);
    }
  }

  lemma CutIsTrimmed(s: string, n: nat)
    requires Trimmed(s) && 0 < n <= |s|
    ensures Trimmed(TrimEnd(s[..n])) && |TrimEnd(s[..n])| <= n && LineFeeds(TrimEnd(s[..n])) <= LineFeeds(s)
  {
    var t := TrimEnd(s[..n]);
    TrimEndIsPrefix(s[..n]);
    assert t == s[..|t|];
    assert StretchAt(t, s, 0);
    StretchHasNoMoreLineFeeds(t, s, 0);
  }

  // ---------- Sorting back gives the regions themselves ----------

  ghost function Regions(ranked: seq<Ranked>): seq<Region> {
    seq(|ranked|, k requires 0 <= k < |ranked| => ranked[k].region)
  }

  lemma {:induction false} SameRankedSameRegions(a: seq<Ranked>, b: seq<Ranked>)
    requires multiset(a) == multiset(b)
    ensures multiset(Regions(a)) == multiset(Regions(b))
    decreases |a|
  {
    SameElementsSameLength(a, b);
    if a != [] {
      assert a[0] in multiset(a);
      var i := IndexIn(b, a[0]);
      var rest := b[..i] + b[i + 1..];
      TailWithoutFirst(a);
      WithoutOne(b, i);
      SameRankedSameRegions(a[1..], rest);
      PutBack(a, b, i);
    }
  }

  lemma PutBack(a: seq<Ranked>, b: seq<Ranked>, i: nat)
    requires a != [] && i < |b| && a[0] == b[i]
    requires multiset(Regions(a[1..])) == multiset(Regions(b[..i] + b[i + 1..]))
    ensures multiset(Regions(a)) == multiset(Regions(b))
  {
    assert Regions(a)[1..] == Regions(a[1..]);
    assert Regions(b)[..i] + Regions(b)[i + 1..] == Regions(b[..i] + b[i + 1..]);
    SameButOne(Regions(a), Regions(b), i);
  }

  lemma SameButOne(a: seq<Region>, b: seq<Region>, i: nat)
    requires a != [] && i < |b| && a[0] == b[i] && multiset(a[1..]) == multiset(b[..i] + b[i + 1..])
    ensures multiset(a) == multiset(b)
  {
    assert a == [a[0]] + a[1..] && b == b[..i] + [b[i]] + b[i + 1..];
  }

  lemma SameStartSamePlace(regions: seq<Region>, n: nat, i: nat, j: nat)
    requires Apart(regions, n) && i < |regions| && j < |regions| && regions[i].from == regions[j].from
    ensures i == j
  {
    assert forall a, b :: 0 <= a < b < |regions| ==> regions[a].to + 1 < regions[b].from;
  }

  /** Separate regions, in whatever order, sort back to themselves. */
  lemma SortedBackIs(taken: seq<Region>, regions: seq<Region>, n: nat)
    requires Apart(regions, n) && multiset(taken) == multiset(regions)
    ensures SortRegions(taken) == regions
  {
    SortSorts(taken, Earlier);
    forall x, y | x in regions && y in regions && Earlier(x, y) && Earlier(y, x) ensures x == y {
      var i :| 0 <= i < |regions| && regions[i] == x;
      var j :| 0 <= j < |regions| && regions[j] == y;
      SameStartSamePlace(regions, n, i, j);
    }
    OrderIsUnique(regions, SortRegions(taken), Earlier);
  }

  /** If no region was passed over, what is written down are all the merged regions in log order. */
  lemma NothingSkippedIsEverything(lines: seq<LogLine>, merged: seq<Region>, ranked: seq<Ranked>)
    requires Apart(merged, |lines|) && Regions(ranked) == merged
    requires RankedInLog(SortRanked(ranked), |lines|)
    requires |Greedy(SortRanked(ranked), lines)| == |ranked|
    ensures SortRegions(Greedy(SortRanked(ranked), lines)) == merged
  {
    var sorted := SortRanked(ranked);
    SortKeepsElements(ranked, Before);
    GreedyTookAll(sorted, lines);
    var taken := Greedy(sorted, lines);
    assert taken == Regions(sorted);
    SameRankedSameRegions(sorted, ranked);
    SortedBackIs(taken, merged, |lines|);
  }

  // ---------- The whole ----------

  function AllTexts(lines: seq<LogLine>): seq<string> {
    seq(|lines|, k requires 0 <= k < |lines| => lines[k].text)
  }

  predicate HasItsWeight(r: Ranked, lines: seq<LogLine>) {
    InLog(r.region, |lines|) && r.weight == Weight(lines, r.region.from, r.region.to + 1)
  }

  ghost predicate Weighed(ranked: seq<Ranked>, lines: seq<LogLine>) {
    forall i :: 0 <= i < |ranked| ==> HasItsWeight(ranked[i], lines)
  }

  /** What the excerpt of a log with failure lines is made of. */
  ghost predicate IsExcerpt(lines: seq<LogLine>, hits: seq<nat>, merged: seq<Region>, sorted: seq<Ranked>,
                            excerpt: string, truncated: bool)
  {
    && AreHits(lines, hits) && Apart(merged, |lines|) && CoversExactly(merged, hits, |lines|)
    && RankedInLog(sorted, |lines|) && Weighed(sorted, lines) && Descending(sorted)
    && multiset(Regions(sorted)) == multiset(merged)
    && AllInLog(SortRegions(Greedy(sorted, lines)), |lines|)
    && (excerpt, truncated)
       == Finish(Texts(Slots(SortRegions(Greedy(sorted, lines)), |lines|), lines), |Greedy(sorted, lines)| < |sorted|)
  }

  method AllBlank(lines: seq<LogLine>) returns (blank: bool)
    ensures blank <==> forall i :: 0 <= i < |lines| ==> Blank(lines[i].text)
  {
    var i := 0;
    while i < |lines|
      invariant 0 <= i <= |lines|
      invariant forall k :: 0 <= k < i ==> Blank(lines[k].text)
    {
      if Trim(lines[i].text) != "" {
        return false;
      }
      i := i + 1;
    }
    return true;
  }

  /** What sorting the ranked regions leaves true. */
  lemma RankingIsSound(lines: seq<LogLine>, merged: seq<Region>, ranked: seq<Ranked>)
    requires Apart(merged, |lines|) && |ranked| == |merged|
    requires forall k :: 0 <= k < |merged| ==>
               ranked[k] == Ranked(merged[k], Weight(lines, merged[k].from, merged[k].to + 1))
    ensures RankedInLog(SortRanked(ranked), |lines|) && Weighed(SortRanked(ranked), lines)
    ensures Descending(SortRanked(ranked)) && multiset(Regions(SortRanked(ranked))) == multiset(merged)
  {
    assert Descending(SortRanked(ranked)) && multiset(SortRanked(ranked)) == multiset(ranked) by {
      SortSorts(ranked, Before);
    }
    assert multiset(Regions(SortRanked(ranked))) == multiset(merged) by {
      SameRankedSameRegions(SortRanked(ranked), ranked);
      assert Regions(ranked) == merged;
    }
    assert Weighed(SortRanked(ranked), lines) by {
      SortedAll(ranked, Before, (r: Ranked) => HasItsWeight(r, lines));
    }
  }

  method SelectRegions(lines: seq<LogLine>, hits: seq<nat>)
    returns (selected: seq<string>, skipped: bool, ghost merged: seq<Region>, ghost sorted: seq<Ranked>)
    requires AreHits(lines, hits)
    ensures IsExcerpt(lines, hits, merged, sorted, Finish(selected, skipped).0, Finish(selected, skipped).1)
    ensures selected == Texts(Slots(SortRegions(Greedy(sorted, lines)), |lines|), lines)
            && (skipped <==> |Greedy(sorted, lines)| < |sorted|)
    ensures !skipped ==> AllInLog(merged, |lines|) && selected == Texts(Slots(merged, |lines|), lines)
  {
    forall k | 0 <= k < |hits| ensures hits[k] < |lines| {
      assert hits[k] in hits;
    }
    var regions := MergeWindows(|lines|, hits);
    var ranked := RankRegions(lines, hits, regions);
    var order := SortRanked(ranked);
    RankingIsSound(lines, regions, ranked);
    merged, sorted := regions, order;
    var taken, used;
    taken, used, skipped := PickRegions(order, lines);
    PickedCountIsUsed(taken, lines);
    selected := Assemble(SortRegions(taken), lines);
    if !skipped {
      SortKeepsElements(ranked, Before);
      assert Regions(ranked) == merged;
      NothingSkippedIsEverything(lines, merged, ranked);
    }
  }

  method FinishExcerpt(selected: seq<string>, cut: bool) returns (excerpt: string, truncated: bool)
    ensures (excerpt, truncated) == Finish(selected, cut)
  {
    truncated := cut;
    var kept, dropped := Collapse(selected);
    truncated := truncated || dropped;
    if |kept| > MAX_LINES {
      kept := kept[..MAX_LINES];
      truncated := true;
    }
    excerpt := Trim(JoinLines(kept));
    if |excerpt| > MAX_CHARS {
      excerpt := TrimEnd(excerpt[..MAX_CHARS]);
      truncated := true;
    }
  }

  predicate Bounded(excerpt: string) {
    |excerpt| <= MAX_CHARS && |Lines(excerpt)| <= MAX_LINES && Trimmed(excerpt)
  }

  /** All merged regions are written down, and with them every failure line, in log order. */
  ghost predicate Complete(lines: seq<LogLine>, merged: seq<Region>, excerpt: string) {
    && AllInLog(merged, |lines|)
    && excerpt == Trim(JoinLines(Texts(Slots(merged, |lines|), lines)))
    && InLogOrder(Slots(merged, |lines|))
    && forall i: nat :: IsHit(lines, i) ==> Line(i) in Slots(merged, |lines|)
  }

  ghost predicate AllOneLine(lines: seq<LogLine>) {
    forall i :: 0 <= i < |lines| ==> OneLine(lines[i].text)
  }

  /** The excerpt of a log with failure lines. */
  method ExcerptOfHits(lines: seq<LogLine>, hits: seq<nat>)
    returns (excerpt: string, truncated: bool, ghost merged: seq<Region>, ghost sorted: seq<Ranked>)
    requires AllOneLine(lines) && AreHits(lines, hits)
    ensures Bounded(excerpt) && IsExcerpt(lines, hits, merged, sorted, excerpt, truncated)
    ensures !truncated ==> Complete(lines, merged, excerpt)
  {
    var selected, cut;
    selected, cut, merged, sorted := SelectRegions(lines, hits);
    assert forall l :: l in selected ==> OneLine(l);
    FinishIsBounded(selected, cut);
    excerpt, truncated := FinishExcerpt(selected, cut);
    if !truncated {
      AllHitsInLogOrder(lines, hits, merged);
    }
  }

  function Tail(lines: seq<LogLine>): seq<LogLine> {
    if |lines| > MAX_LINES then lines[|lines| - MAX_LINES..] else lines
  }

  method ExcerptOfTail(lines: seq<LogLine>) returns (excerpt: string, truncated: bool)
    requires AllOneLine(lines)
    ensures Bounded(excerpt) && (excerpt, truncated) == Finish(AllTexts(Tail(lines)), |lines| > MAX_LINES)
  {
    var selected := AllTexts(Tail(lines));
    assert forall l :: l in selected ==> OneLine(l);
    FinishIsBounded(selected, |lines| > MAX_LINES);
    excerpt, truncated := FinishExcerpt(selected, |lines| > MAX_LINES);
  }

  /** buildFailureExcerpt, from the split and classified lines of the sanitized log. With failure lines:
      the greedy choice among the ranked regions, and complete, with every failure line in log order,
      whenever `truncated` is false. Without any: the last lines of the log. */
  method BuildFailureExcerpt(lines: seq<LogLine>)
    returns (excerpt: string, truncated: bool, ghost hits: seq<nat>, ghost merged: seq<Region>,
             ghost sorted: seq<Ranked>)
    requires AllOneLine(lines)
    ensures Bounded(excerpt) && AreHits(lines, hits)
    ensures var blank := forall i :: 0 <= i < |lines| ==> Blank(lines[i].text);
            && (blank ==> excerpt == "" && !truncated)
            && (!blank && hits != [] ==> IsExcerpt(lines, hits, merged, sorted, excerpt, truncated))
            && (!blank && hits != [] && !truncated ==> Complete(lines, merged, excerpt))
            && (!blank && hits == [] ==> (excerpt, truncated) == Finish(AllTexts(Tail(lines)), |lines| > MAX_LINES))
  {
    merged, sorted := [], [];
    var found := CollectHits(lines);
    hits := found;
    var blank := AllBlank(lines);
    if blank {
      excerpt, truncated := "", false;
    } else if |found| > 0 {
      excerpt, truncated, merged, sorted := ExcerptOfHits(lines, found);
    } else {
      excerpt, truncated := ExcerptOfTail(lines);
    }
  }
}
