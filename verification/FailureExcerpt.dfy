/** The failure excerpt: the heaviest regions that fit two budgets, in log order, with repeated lines
    collapsed and the caps enforced. */
module FailureExcerpt {
  import opened ExcerptRegions
  import opened Sorting

  const MAX_LINES := 80
  const MAX_CHARS := 4000

  // ---------- Ranking ----------

  /** Heavier first, ties in log order. */
  predicate Before(a: Ranked, b: Ranked) {
    a.weight > b.weight || (a.weight == b.weight && a.region.from <= b.region.from)
  }

  function SortRanked(s: seq<Ranked>): seq<Ranked> {
    Sort(s, Before)
  }

  ghost predicate Descending(s: seq<Ranked>) {
    Ordered(s, Before)
  }

  // ---------- Budgets ----------

  /** The characters of the lines from `a` up to `b`, a line feed after each. */
  function Chars(lines: seq<LogLine>, a: int, b: int): nat
    requires 0 <= a <= b <= |lines|
    decreases b
  {
    if a == b then 0 else Chars(lines, a, b - 1) + |lines[b - 1].text| + 1
  }

  predicate InLog(r: Region, n: nat) {
    r.from <= r.to < n
  }

  ghost predicate AllInLog(rs: seq<Region>, n: nat) {
    forall i :: 0 <= i < |rs| ==> InLog(rs[i], n)
  }

  ghost predicate RankedInLog(ranked: seq<Ranked>, n: nat) {
    forall i :: 0 <= i < |ranked| ==> InLog(ranked[i].region, n)
  }

  function Size(r: Region): nat
    requires r.from <= r.to
  {
    r.to - r.from + 1
  }

  /** The line counter after these regions: their lines, and a separator before each but the first. */
  ghost function UsedLines(taken: seq<Region>, n: nat): nat
    requires AllInLog(taken, n)
  {
    if taken == [] then 0
    else UsedLines(taken[..|taken| - 1], n) + Size(taken[|taken| - 1]) + if |taken| == 1 then 0 else 1
  }

  /** The character counter after these regions: their lines, and three for each separator. */
  ghost function UsedChars(taken: seq<Region>, lines: seq<LogLine>): nat
    requires AllInLog(taken, |lines|)
  {
    if taken == [] then 0
    else
      var last := taken[|taken| - 1];
      UsedChars(taken[..|taken| - 1], lines) + Chars(lines, last.from, last.to + 1) + if |taken| == 1 then 0 else 3
  }

  /** Whether `r` may follow what is taken: the first region always, any other within both budgets. */
  ghost predicate Fits(taken: seq<Region>, r: Region, lines: seq<LogLine>)
    requires AllInLog(taken, |lines|) && InLog(r, |lines|)
  {
    || taken == []
    || (UsedLines(taken, |lines|) + Size(r) + 1 <= MAX_LINES &&
        UsedChars(taken, lines) + Chars(lines, r.from, r.to + 1) + 3 <= MAX_CHARS)
  }

  /** The greedy choice in rank order. */
  ghost function Greedy(ranked: seq<Ranked>, lines: seq<LogLine>): (taken: seq<Region>)
    requires RankedInLog(ranked, |lines|)
    ensures AllInLog(taken, |lines|) && |taken| <= |ranked|
  {
    if ranked == [] then []
    else
      var before := Greedy(ranked[..|ranked| - 1], lines);
      var r := ranked[|ranked| - 1].region;
      if Fits(before, r, lines) then before + [r] else before
  }

  lemma UsedAppend(taken: seq<Region>, r: Region, lines: seq<LogLine>)
    requires AllInLog(taken, |lines|) && InLog(r, |lines|)
    ensures AllInLog(taken + [r], |lines|)
    ensures UsedLines(taken + [r], |lines|) == UsedLines(taken, |lines|) + Size(r) + if taken == [] then 0 else 1
    ensures UsedChars(taken + [r], lines)
            == UsedChars(taken, lines) + Chars(lines, r.from, r.to + 1) + if taken == [] then 0 else 3
  {
    assert (taken + [r])[..|taken|] == taken;
  }

  /** The heaviest region is always taken, and first; two or more regions are within both budgets. */
  lemma {:induction false} GreedyTakesTheTop(ranked: seq<Ranked>, lines: seq<LogLine>)
    requires RankedInLog(ranked, |lines|) && ranked != []
    ensures Greedy(ranked, lines) != [] && Greedy(ranked, lines)[0] == ranked[0].region
    ensures |Greedy(ranked, lines)| > 1 ==>
              UsedLines(Greedy(ranked, lines), |lines|) <= MAX_LINES
                  && UsedChars(Greedy(ranked, lines), lines) <= MAX_CHARS
  {
    var before := ranked[..|ranked| - 1];
    if before != [] {
      GreedyTakesTheTop(before, lines);
      UsedAppend(Greedy(before, lines), ranked[|ranked| - 1].region, lines);
    }
  }

  /** A region that was passed over did not fit when it was tried, and would not fit at the end either:
      no room was wasted. */
  lemma {:induction false} GreedyWastesNothing(ranked: seq<Ranked>, lines: seq<LogLine>, i: nat)
    requires RankedInLog(ranked, |lines|) && i < |ranked|
    ensures ranked[i].region in Greedy(ranked, lines) || !Fits(Greedy(ranked, lines), ranked[i].region, lines)
  {
    var before, last := ranked[..|ranked| - 1], ranked[|ranked| - 1].region;
    if i < |before| {
      GreedyWastesNothing(before, lines, i);
      UsedAppend(Greedy(before, lines), last, lines);
    }
  }

  /** Nothing passed over means that all regions were taken in rank order. */
  lemma {:induction false} GreedyTookAll(ranked: seq<Ranked>, lines: seq<LogLine>)
    requires RankedInLog(ranked, |lines|) && |Greedy(ranked, lines)| == |ranked|
    ensures forall i :: 0 <= i < |ranked| ==> Greedy(ranked, lines)[i] == ranked[i].region
  {
    if ranked != [] {
      GreedyTookAll(ranked[..|ranked| - 1], lines);
    }
  }

  method CountChars(lines: seq<LogLine>, r: Region) returns (chars: nat)
    requires InLog(r, |lines|)
    ensures chars == Chars(lines, r.from, r.to + 1)
  {
    chars := 0;
    var i := r.from;
    while i <= r.to
      invariant r.from <= i <= r.to + 1
      invariant chars == Chars(lines, r.from, i)
    {
      chars := chars + |lines[i].text| + 1;
      i := i + 1;
    }
  }

  lemma GreedyStep(ranked: seq<Ranked>, lines: seq<LogLine>, k: nat)
    requires RankedInLog(ranked, |lines|) && k < |ranked|
    ensures var before, r := Greedy(ranked[..k], lines), ranked[k].region;
            Greedy(ranked[..k + 1], lines) == if Fits(before, r, lines) then before + [r] else before
  {
    assert ranked[..k + 1][..k] == ranked[..k];
  }

  /** The selection loop with its running counters. */
  method PickRegions(ranked: seq<Ranked>, lines: seq<LogLine>) returns (taken: seq<Region>, used: nat, skipped: bool)
    requires RankedInLog(ranked, |lines|)
    ensures taken == Greedy(ranked, lines) && used == UsedLines(taken, |lines|)
    ensures skipped <==> |taken| < |ranked|
  {
    taken, used, skipped := [], 0, false;
    var usedChars := 0;
    var k := 0;
    while k < |ranked|
      invariant 0 <= k <= |ranked|
      invariant AllInLog(taken, |lines|) && taken == Greedy(ranked[..k], lines)
      invariant used == UsedLines(taken, |lines|) && usedChars == UsedChars(taken, lines)
      invariant skipped <==> |taken| < k
    {
      GreedyStep(ranked, lines, k);
      taken, used, usedChars, skipped := TryRegion(ranked[k].region, lines, taken, used, usedChars, skipped);
      k := k + 1;
    }
    assert ranked[..k] == ranked;
  }

  /** One turn of the loop. */
  method TryRegion(r: Region, lines: seq<LogLine>, taken0: seq<Region>, used0: nat, usedChars0: nat, skipped0: bool)
    returns (taken: seq<Region>, used: nat, usedChars: nat, skipped: bool)
    requires AllInLog(taken0, |lines|) && InLog(r, |lines|)
    requires used0 == UsedLines(taken0, |lines|) && usedChars0 == UsedChars(taken0, lines)
    ensures taken == if Fits(taken0, r, lines) then taken0 + [r] else taken0
    ensures AllInLog(taken, |lines|) && used == UsedLines(taken, |lines|) && usedChars == UsedChars(taken, lines)
    ensures skipped == (skipped0 || !Fits(taken0, r, lines))
  {
    taken, used, usedChars, skipped := taken0, used0, usedChars0, skipped0;
    var size := Size(r) + if |taken| > 0 then 1 else 0;
    var chars := CountChars(lines, r);
    chars := chars + if |taken| > 0 then 3 else 0;
    if |taken| > 0 && (used + size > MAX_LINES || usedChars + chars > MAX_CHARS) {
      skipped := true;
      return;
    }
    UsedAppend(taken, r, lines);
    taken, used, usedChars := taken + [r], used + size, usedChars + chars;
  }

  // ---------- Back to log order ----------

  predicate Earlier(a: Region, b: Region) {
    a.from <= b.from
  }

  function SortRegions(s: seq<Region>): seq<Region> {
    Sort(s, Earlier)
  }
}
