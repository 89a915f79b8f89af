/** What the parts of an excerpt are, said of the log itself: the limits in figures, where the separators
    stand, and what is cut. */
module ExcerptLaws {
  import opened ExcerptRegions
  import opened FailureExcerpt
  import opened ExcerptText
  import opened ExcerptBuilder
  import opened ExcerptLimits
  import opened Text

  /** A line is near the failure lines exactly if one of them is at most six lines away. */
  lemma NearExactly(i: int, hits: seq<nat>)
    ensures Near(i, hits) <==> exists k :: 0 <= k < |hits| && hits[k] - 6 <= i <= hits[k] + 6
  {
  }

  /** A region weighs a thousand for each marker in it and one for each line of vocabulary. */
  lemma WeightExactly(lines: seq<LogLine>, r: Region)
    requires InLog(r, |lines|)
    ensures Weight(lines, r.from, r.to + 1) == 1000 * Markers(lines, r) + WeakLines(lines, r)
  {
    WeightByKind(lines, r.from, r.to + 1);
  }

  /** Ranked means heavier first, and of two of equal weight the one that starts first. */
  lemma RankedExactly(s: seq<Ranked>)
    ensures Descending(s) <==>
              forall i, j :: 0 <= i < j < |s| ==>
                s[i].weight >= s[j].weight && (s[i].weight == s[j].weight ==> s[i].region.from <= s[j].region.from)
  {
  }

  /** A region may follow exactly if it is the first, or both counters then stay within 80 lines and 4000
      characters. */
  lemma FitsExactly(taken: seq<Region>, r: Region, lines: seq<LogLine>)
    requires AllInLog(taken, |lines|) && InLog(r, |lines|)
    ensures AllInLog(taken + [r], |lines|)
    ensures Fits(taken, r, lines)
            <==> taken == [] || (UsedLines(taken + [r], |lines|) <= 80 && UsedChars(taken + [r], lines) <= 4000)
  {
    UsedAppend(taken, r, lines);
  }

  // ---------- Separators ----------

  /** At `k`: after a line comes its neighbour in the log or a separator, and a separator stands between two
      lines between which lines of the log are left out. */
  ghost predicate SpacedAt(slots: seq<Slot>, k: nat)
    requires k < |slots|
  {
    && (k > 0 && slots[k - 1].Line? && slots[k].Line? ==> slots[k].i == slots[k - 1].i + 1)
    && (slots[k] == Gap ==>
          && 0 < k < |slots| - 1 && slots[k - 1].Line? && slots[k + 1].Line?
          && slots[k - 1].i + 1 < slots[k + 1].i)
  }

  ghost predicate WellSpaced(slots: seq<Slot>) {
    forall k :: 0 <= k < |slots| ==> SpacedAt(slots, k)
  }

  lemma SpacedAppend(before: seq<Slot>, r: Region)
    requires r.from <= r.to && WellSpaced(before)
    requires before != [] ==> before[|before| - 1].Line? && before[|before| - 1].i + 1 < r.from
    ensures var slots := before + (if before == [] then [] else [Gap]) + RegionSlots(r);
            WellSpaced(slots) && slots[|slots| - 1] == Line(r.to)
  {
    var n := |before| + if before == [] then 0 else 1;
    var slots := before + (if before == [] then [] else [Gap]) + RegionSlots(r);
    forall k | 0 <= k < |slots| ensures SpacedAt(slots, k) {
      if k < |before| {
        assert SpacedAt(before, k) && slots[k] == before[k];
      } else if k >= n {
        assert slots[k] == RegionSlots(r)[k - n];
      } else {
        assert slots[k + 1] == RegionSlots(r)[0];
      }
    }
  }

  lemma {:induction false} SlotsAreSpaced(rs: seq<Region>, n: nat)
    requires AllInLog(rs, n) && Apart(rs, n)
    ensures WellSpaced(Slots(rs, n))
    ensures rs != [] ==> Slots(rs, n) != [] && Slots(rs, n)[|Slots(rs, n)| - 1] == Line(rs[|rs| - 1].to)
    ensures rs == [] ==> Slots(rs, n) == []
  {
    if rs != [] {
      var before, last := rs[..|rs| - 1], rs[|rs| - 1];
      SlotsAreSpaced(before, n);
      if before != [] {
        assert rs[|rs| - 2].to + 1 < rs[|rs| - 1].from;
      }
      SpacedAppend(Slots(before, n), last);
    }
  }

  /** What is written for regions in log order: all the lines they cover, in log order and each once, as
      they are in the log, with "..." between two of them exactly where lines of the log are left out. */
  lemma WrittenExactly(rs: seq<Region>, lines: seq<LogLine>)
    requires AllInLog(rs, |lines|) && Apart(rs, |lines|)
    ensures var slots := Slots(rs, |lines|);
            && WellSpaced(slots) && InLogOrder(slots)
            && (forall i: nat :: Line(i) in slots <==> Covered(i, rs))
            && |Texts(slots, lines)| == |slots|
            && forall k :: 0 <= k < |slots| ==>
                 (slots[k] == Gap ==> Texts(slots, lines)[k] == "...")
                 && forall i: nat :: slots[k] == Line(i) ==> i < |lines| && Texts(slots, lines)[k] == lines[i].text
  {
    SlotsAreSpaced(rs, |lines|);
    SlotsInLogOrder(rs, |lines|);
    var slots := Slots(rs, |lines|);
    forall i: nat ensures Line(i) in slots <==> Covered(i, rs) {
      ShownIffCovered(rs, |lines|, i);
    }
    forall i: nat | Line(i) in slots ensures i < |lines| {
      ShownIffCovered(rs, |lines|, i);
    }
  }

  // ---------- The tail ----------

  /** The tail has as many lines as the log, but 80 at most, and they are the ones at its
      end, in order. */
  lemma TailExactly(lines: seq<LogLine>)
    ensures |Tail(lines)| == if |lines| < 80 then |lines| else 80
    ensures forall k :: 0 <= k < |Tail(lines)| ==>
              AllTexts(Tail(lines))[k] == lines[|lines| - |Tail(lines)| + k].text
  {
  }

  // ---------- The caps ----------

  /** The excerpt is the beginning of the text of the first 80 lines left by the collapsing: all of it if it
      has no more than 4000 characters, and otherwise its first 4000 but for blanks at the end. */
  lemma CapsExactly(selected: seq<string>, cut: bool) returns (kept: seq<string>, blanks: string)
    ensures kept <= Collapsed(selected) && |kept| == if |Collapsed(selected)| < 80 then |Collapsed(selected)| else 80
    ensures var excerpt, text := Finish(selected, cut).0, Trim(JoinLines(kept));
            && (|text| <= 4000 ==> excerpt == text)
            && (|text| > 4000 ==> excerpt + blanks == text[..4000] && Blank(blanks) && Trimmed(excerpt))
  {
    kept, blanks := Capped(Collapsed(selected)), "";
    var text := Trim(JoinLines(kept));
    if |text| > 4000 {
      var first := text[..4000];
      TrimEndIsPrefix(first);
      blanks := first[|TrimEnd(first)|..];
      BlankIsAllSpace(blanks);
      var k := TrimIsStretch(JoinLines(kept));
      CutIsTrimmed(text, 4000);
    }
  }
}
