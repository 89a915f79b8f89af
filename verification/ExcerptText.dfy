/** Writing the excerpt down: the taken regions in log order with separators between them, runs of equal
    lines collapsed, and the two caps. */
module ExcerptText {
  import opened ExcerptRegions
  import opened FailureExcerpt
  import opened Sorting

  /** One line of the excerpt: a separator or a log line. */
  datatype Slot = Gap | Line(i: nat)

  function RegionSlots(r: Region): (s: seq<Slot>)
    requires r.from <= r.to
    ensures |s| == Size(r) && forall k :: 0 <= k < |s| ==> s[k] == Line(r.from + k)
  {
    seq(Size(r), k requires 0 <= k => Line(r.from + k))
  }

  function Slots(rs: seq<Region>, n: nat): seq<Slot>
    requires AllInLog(rs, n)
  {
    if rs == [] then []
    else Slots(rs[..|rs| - 1], n) + (if |rs| == 1 then [] else [Gap]) + RegionSlots(rs[|rs| - 1])
  }

  function SlotText(s: Slot, lines: seq<LogLine>): string {
    if s.Line? && s.i < |lines| then lines[s.i].text else "..."
  }

  function Texts(slots: seq<Slot>, lines: seq<LogLine>): seq<string> {
    seq(|slots|, k requires 0 <= k < |slots| => SlotText(slots[k], lines))
  }

  lemma TextsAppend(a: seq<Slot>, b: seq<Slot>, lines: seq<LogLine>)
    ensures Texts(a + b, lines) == Texts(a, lines) + Texts(b, lines)
  {
  }

  method AppendRegion(picked0: seq<string>, r: Region, lines: seq<LogLine>) returns (picked: seq<string>)
    requires InLog(r, |lines|)
    ensures picked == picked0 + Texts(RegionSlots(r), lines)
  {
    picked := picked0;
    var i := r.from;
    while i <= r.to
      invariant r.from <= i <= r.to + 1
      invariant picked == picked0 + Texts(RegionSlots(r)[..i - r.from], lines)
    {
      picked := picked + [lines[i].text];
      i := i + 1;
    }
    assert RegionSlots(r)[..i - r.from] == RegionSlots(r);
  }

  method Assemble(taken: seq<Region>, lines: seq<LogLine>) returns (picked: seq<string>)
    requires AllInLog(taken, |lines|)
    ensures picked == Texts(Slots(taken, |lines|), lines)
  {
    picked := [];
    var k := 0;
    while k < |taken|
      invariant 0 <= k <= |taken|
      invariant picked == Texts(Slots(taken[..k], |lines|), lines)
    {
      assert taken[..k + 1][..k] == taken[..k];
      ghost var slots := Slots(taken[..k], |lines|);
      TextsAppend(slots + if k == 0 then [] else [Gap], RegionSlots(taken[k]), lines);
      if k > 0 {
        TextsAppend(slots, [Gap], lines);
        assert Texts([Gap], lines) == ["..."];
        picked := picked + ["..."];
      } else {
        assert slots + [] == slots;
      }
      picked := AppendRegion(picked, taken[k], lines);
      k := k + 1;
    }
    assert taken[..k] == taken;
  }

  // ---------- Every failure line is shown, in log order ----------

  ghost predicate InLogOrder(slots: seq<Slot>) {
    forall a, b :: 0 <= a < b < |slots| && slots[a].Line? && slots[b].Line? ==> slots[a].i < slots[b].i
  }

  /** The lines written down are exactly those the regions cover. */
  lemma {:induction false} ShownIffCovered(rs: seq<Region>, n: nat, i: nat)
    requires AllInLog(rs, n)
    ensures Line(i) in Slots(rs, n) <==> Covered(i, rs)
  {
    if rs != [] {
      var before, last := rs[..|rs| - 1], rs[|rs| - 1];
      assert rs == before + [last];
      ShownIffCovered(before, n, i);
      CoveredAppend(i, before, last);
      assert Line(i) in RegionSlots(last) <==> Inside(i, last) by {
        if Inside(i, last) {
          assert RegionSlots(last)[i - last.from] == Line(i);
        }
      }
    }
  }

  lemma OrderAppend(head: seq<Slot>, r: Region)
    requires r.from <= r.to && InLogOrder(head)
    requires forall k :: 0 <= k < |head| && head[k].Line? ==> head[k].i < r.from
    ensures InLogOrder(head + RegionSlots(r))
  {
    var slots := head + RegionSlots(r);
    forall a, b | 0 <= a < b < |slots| && slots[a].Line? && slots[b].Line? ensures slots[a].i < slots[b].i {
      if b < |head| {
        assert slots[a] == head[a] && slots[b] == head[b];
      } else if a < |head| {
        assert slots[a] == head[a] && slots[b] == RegionSlots(r)[b - |head|];
      }
    }
  }

  lemma {:induction false} SlotsInLogOrder(rs: seq<Region>, n: nat)
    requires AllInLog(rs, n) && Apart(rs, n)
    ensures InLogOrder(Slots(rs, n))
  {
    if rs != [] {
      var before, last := rs[..|rs| - 1], rs[|rs| - 1];
      SlotsInLogOrder(before, n);
      var inner := Slots(before, n);
      var head := inner + if |rs| == 1 then [] else [Gap];
      forall k | 0 <= k < |head| && head[k].Line? ensures head[k].i < last.from {
        assert k < |inner| && inner[k] == head[k] && inner[k] in inner;
        ShownIffCovered(before, n, head[k].i);
        var j :| 0 <= j < |before| && Inside(head[k].i, before[j]);
        assert rs[j].to + 1 < rs[|rs| - 1].from;
      }
      OrderAppend(head, last);
    }
  }

  /** When all regions are written down, every failure line appears, in log order. */
  lemma AllHitsInLogOrder(lines: seq<LogLine>, hits: seq<nat>, regions: seq<Region>)
    requires AreHits(lines, hits) && Apart(regions, |lines|) && AllInLog(regions, |lines|)
             && CoversExactly(regions, hits, |lines|)
    ensures forall i: nat :: IsHit(lines, i) ==> Line(i) in Slots(regions, |lines|)
    ensures InLogOrder(Slots(regions, |lines|))
  {
    SlotsInLogOrder(regions, |lines|);
    forall i: nat | IsHit(lines, i) ensures Line(i) in Slots(regions, |lines|) {
      ShownIffCovered(regions, |lines|, i);
      assert i in hits;
      var k :| 0 <= k < |hits| && hits[k] == i;
      assert Abs(i - hits[k]) <= CONTEXT_LINES && Near(i, hits);
    }
  }

  // ---------- Counting ----------

  ghost function Sum(rs: seq<Region>, f: Region -> nat): nat {
    if rs == [] then 0 else Sum(rs[..|rs| - 1], f) + f(rs[|rs| - 1])
  }

  lemma {:induction false} SumWithout(rs: seq<Region>, f: Region -> nat, i: nat)
    requires i < |rs|
    ensures Sum(rs, f) == Sum(rs[..i] + rs[i + 1..], f) + f(rs[i])
  {
    var rest := rs[..i] + rs[i + 1..];
    if i == |rs| - 1 {
      assert rest == rs[..i];
    } else {
      var shorter := rs[..|rs| - 1];
      SumWithout(shorter, f, i);
      assert rest[..|rest| - 1] == shorter[..i] + shorter[i + 1..];
      assert rest[|rest| - 1] == rs[|rs| - 1];
    }
  }

  lemma {:induction false} SumIgnoresOrder(rs: seq<Region>, ts: seq<Region>, f: Region -> nat)
    requires multiset(rs) == multiset(ts)
    ensures Sum(rs, f) == Sum(ts, f)
    decreases |rs|
  {
    if rs == [] {
      assert |multiset(ts)| == 0;
    } else {
      var shorter, last := rs[..|rs| - 1], rs[|rs| - 1];
      assert rs == shorter + [last];
      assert last in multiset(ts);
      var i := IndexIn(ts, last);
      var rest := ts[..i] + ts[i + 1..];
      SumWithout(ts, f, i);
      WithoutOne(ts, i);
      SumIgnoresOrder(shorter, rest, f);
    }
  }

  ghost function SizeOf(): Region -> nat {
    (r: Region) => if r.from <= r.to then Size(r) else 0
  }

  ghost function CharsOf(lines: seq<LogLine>): Region -> nat {
    (r: Region) => if InLog(r, |lines|) then Chars(lines, r.from, r.to + 1) else 0
  }

  lemma {:induction false} CountersAreSums(rs: seq<Region>, lines: seq<LogLine>)
    requires AllInLog(rs, |lines|)
    ensures UsedLines(rs, |lines|) == Sum(rs, SizeOf()) + if rs == [] then 0 else |rs| - 1
    ensures UsedChars(rs, lines) == Sum(rs, CharsOf(lines)) + if rs == [] then 0 else 3 * (|rs| - 1)
  {
    if rs != [] {
      CountersAreSums(rs[..|rs| - 1], lines);
    }
  }

  lemma {:induction false} SlotCount(rs: seq<Region>, n: nat)
    requires AllInLog(rs, n)
    ensures |Slots(rs, n)| == UsedLines(rs, n)
  {
    if rs != [] {
      SlotCount(rs[..|rs| - 1], n);
    }
  }

  /** Sorting what was taken back into log order changes neither counter, and the number of lines
      written is the line counter. */
  lemma PickedCountIsUsed(taken: seq<Region>, lines: seq<LogLine>)
    requires AllInLog(taken, |lines|)
    ensures AllInLog(SortRegions(taken), |lines|)
    ensures |Slots(SortRegions(taken), |lines|)| == UsedLines(taken, |lines|)
    ensures UsedChars(SortRegions(taken), lines) == UsedChars(taken, lines)
  {
    var sorted := SortRegions(taken);
    SortKeepsElements(taken, Earlier);
    SortedAll(taken, Earlier, (r: Region) => InLog(r, |lines|));
    CountersAreSums(taken, lines);
    CountersAreSums(sorted, lines);
    SumIgnoresOrder(sorted, taken, SizeOf());
    SumIgnoresOrder(sorted, taken, CharsOf(lines));
    SlotCount(sorted, |lines|);
  }
}
