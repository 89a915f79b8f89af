/** Which lines of the log the excerpt really holds, after the collapsing and both caps. */
module ExcerptShown {
  import opened ExcerptRegions
  import opened FailureExcerpt
  import opened ExcerptText
  import opened ExcerptBuilder
  import opened ExcerptLimits
  import opened Sorting
  import opened Text

  // ---------- Any selected lines ----------

  /** What is written up to and including the selected line `p`. */
  function UpTo(selected: seq<string>, p: nat): seq<string>
    requires p < |selected|
  {
    Collapsed(selected[..p + 1])
  }

  /** The excerpt goes on at least to the end of the selected line `p`. */
  predicate Shows(excerpt: string, selected: seq<string>, p: nat)
    requires p < |selected|
  {
    Trim(JoinLines(UpTo(selected, p))) <= excerpt
  }

  /** What is written up to and including the selected line `p` keeps both caps. */
  predicate FitsUpTo(selected: seq<string>, p: nat)
    requires p < |selected|
  {
    |UpTo(selected, p)| <= MAX_LINES && |Trim(JoinLines(UpTo(selected, p)))| <= MAX_CHARS
  }

  lemma {:induction false} CollapsedPrefix(s: seq<string>, k: nat)
    requires k <= |s|
    ensures Collapsed(s[..k]) <= Collapsed(s)
    decreases |s|
  {
    if k < |s| {
      assert s[..|s| - 1][..k] == s[..k];
      CollapsedPrefix(s[..|s| - 1], k);
    } else {
      assert s[..k] == s;
    }
  }

  /** Going on writing does not take back what was written. */
  lemma TrimGoesOn(text: string, more: string)
    requires !Blank(text)
    ensures Trim(text) <= Trim(text + more)
    ensures !Blank(more) ==> |Trim(text)| < |Trim(text + more)|
  {
    TrimStartAppend(text, more);
    var start := TrimStart(text);
    TrimEndIsPrefix(start);
    TrimEndIsPrefix(start + more);
    var k := TrimIsStretch(text);
    assert Trim(text) != "" && (start + more)[|Trim(text)| - 1] == Trim(text)[|Trim(text)| - 1];
    if !Blank(more) {
      TrimEndAppend(start, more);
      TrimEndKeepsVisible(start, more);
    }
  }

  /** The text of lines, and of the first of them. */
  lemma TextGoesOn(lines: seq<string>, k: nat) returns (more: string)
    requires 0 < k <= |lines|
    ensures JoinLines(lines) == JoinLines(lines[..k]) + more && (more == "" || more[0] == '\n')
    ensures k < |lines| && !Blank(lines[|lines| - 1]) ==> !Blank(more)
  {
    if k < |lines| {
      JoinSplit(lines[..k], lines[k..]);
      assert lines[..k] + lines[k..] == lines;
      more := "\n" + JoinLines(lines[k..]);
      if !Blank(lines[|lines| - 1]) {
        JoinIsVisible(lines[k..], |lines| - 1 - k);
        BlankIsAllSpace(JoinLines(lines[k..]));
        BlankIsAllSpace(more);
        var i :| 0 <= i < |JoinLines(lines[k..])| && !IsSpace(JoinLines(lines[k..])[i]);
        assert more[i + 1] == JoinLines(lines[k..])[i];
      }
    } else {
      more := "";
      assert lines[..k] == lines;
    }
  }

  /** Cutting a text at a length leaves a beginning of it that ends in something visible exactly if the
      beginning is no longer than that. */
  lemma CutKeepsBeginning(text: string, u: string)
    requires u <= text && u != "" && !IsSpace(u[|u| - 1])
    ensures u <= (if |text| > MAX_CHARS then TrimEnd(text[..MAX_CHARS]) else text)
            <==> |text| <= MAX_CHARS || |u| <= MAX_CHARS
  {
    if |text| > MAX_CHARS {
      var cut := text[..MAX_CHARS];
      TrimEndIsPrefix(cut);
      if |u| <= MAX_CHARS {
        assert cut[|u| - 1] == u[|u| - 1];
      }
    }
  }

  /** A selected line is in the excerpt exactly if what is written up to and including it keeps both caps. */
  lemma ShowsExactly(selected: seq<string>, cut: bool, p: nat)
    requires p < |selected| && !Blank(selected[p])
    ensures Shows(Finish(selected, cut).0, selected, p) <==> FitsUpTo(selected, p)
  {
    var c, head := Collapsed(selected), UpTo(selected, p);
    CollapsedPrefix(selected, p + 1);
    EndsStay(selected[..p + 1]);
    JoinIsVisible(head, |head| - 1);
    var u, capped := Trim(JoinLines(head)), Capped(c);
    var at := TrimIsStretch(JoinLines(head));
    if |head| <= MAX_LINES {
      assert capped[..|head|] == head;
      var more := TextGoesOn(capped, |head|);
      TrimGoesOn(JoinLines(head), more);
      CutKeepsBeginning(Trim(JoinLines(capped)), u);
    } else {
      assert capped == head[..MAX_LINES];
      CappedIsShorter(head);
      TrimEndIsPrefix(Trim(JoinLines(capped))[..if |Trim(JoinLines(capped))| > MAX_CHARS then MAX_CHARS else 0]);
    }
  }

  lemma CappedIsShorter(head: seq<string>)
    requires |head| > MAX_LINES && !Blank(head[|head| - 1])
    ensures |Trim(JoinLines(head[..MAX_LINES]))| < |Trim(JoinLines(head))|
  {
    var more := TextGoesOn(head, MAX_LINES);
    JoinIsVisible(head, |head| - 1);
    if !Blank(JoinLines(head[..MAX_LINES])) {
      TrimGoesOn(JoinLines(head[..MAX_LINES]), more);
    }
  }

  /** The characters of the excerpt come from the lines that collapsing and the line cap leave. */
  lemma CharsOfKeptLines(selected: seq<string>, cut: bool, c: char) returns (l: string)
    requires c != '\n' && c in Finish(selected, cut).0
    ensures c in l && l in Capped(Collapsed(selected)) && l in Collapsed(selected)
  {
    var capped := Capped(Collapsed(selected));
    var whole := JoinLines(capped);
    var k := TrimIsStretch(whole);
    if |Trim(whole)| > MAX_CHARS {
      TrimEndIsPrefix(Trim(whole)[..MAX_CHARS]);
    }
    assert c in Trim(whole);
    var j :| 0 <= j < |Trim(whole)| && Trim(whole)[j] == c;
    assert whole[k + j] == c;
    JoinKeepsChars(capped, c);
    var i :| 0 <= i < |capped| && c in capped[i];
    l := capped[i];
  }

  // ---------- A shown line is a line of the excerpt ----------

  /** The last of some lines in their trimmed text: `a` before it, which ends in a line feed unless it is
      empty, and the line itself, perhaps without white space in front. */
  lemma LastLine(lines: seq<string>) returns (a: string, line: string)
    requires lines != [] && !Blank(lines[|lines| - 1]) && OneLine(lines[|lines| - 1])
    ensures TrimStart(JoinLines(lines)) == a + line && (a == "" || a[|a| - 1] == '\n')
    ensures OneLine(line) && !Blank(line) && Trim(line) == Trim(lines[|lines| - 1])
  {
    var n := |lines| - 1;
    line := lines[n];
    var before := "";
    if n > 0 {
      JoinSplit(lines[..n], [line]);
      assert lines[..n] + [line] == lines;
      before := JoinLines(lines[..n]) + "\n";
    }
    assert JoinLines(lines) == before + line;
    if Blank(before) {
      BlankIsAllSpace(before);
      TrimDropsLeading(before, line);
      line := StartOf(line);
      a := "";
    } else {
      TrimStartAppend(before, line);
      var k := TrimStartIsSuffix(before);
      BlankIsAllSpace(before);
      a := TrimStart(before);
    }
  }

  lemma StartOf(line: string) returns (start: string)
    requires OneLine(line) && !Blank(line)
    ensures start == TrimStart(line) && OneLine(start) && !Blank(start) && Trim(start) == Trim(line)
  {
    start := TrimStart(line);
    var k := TrimStartIsSuffix(line);
    assert TrimStart(start) == start;
  }

  lemma TrimDropsTrailing(s: string, b: string)
    requires !Blank(s) && forall i :: 0 <= i < |b| ==> IsSpace(b[i])
    ensures Trim(s + b) == Trim(s)
  {
    TrimStartAppend(s, b);
    TrimEndDropsTrailing(TrimStart(s), b);
  }

  lemma CutLine(line: string, n: nat)
    requires !Blank(line) && |TrimEnd(line)| <= n <= |line|
    ensures Trim(line[..n]) == Trim(line)
  {
    TrimEndIsPrefix(line);
    var end := TrimEnd(line);
    assert line == end + line[|end|..] && line[..n] == end + line[|end|..n];
    if Blank(end) {
      TrimEndAppend("", line);
      assert "" + line == line;
      BlankIsAllSpace(end);
      BlankIsAllSpace(line);
    }
    TrimDropsTrailing(end, line[|end|..]);
    TrimDropsTrailing(end, line[|end|..n]);
  }

  /** The excerpt is a beginning of the selected text from its first visible character on. */
  lemma ExcerptIsBeginning(selected: seq<string>, cut: bool)
    ensures Finish(selected, cut).0 <= TrimStart(JoinLines(Capped(Collapsed(selected))))
  {
    var start := TrimStart(JoinLines(Capped(Collapsed(selected))));
    TrimEndIsPrefix(start);
    if |TrimEnd(start)| > MAX_CHARS {
      TrimEndIsPrefix(TrimEnd(start)[..MAX_CHARS]);
    }
  }

  lemma CutInLine(a: string, line: string, more: string, excerpt: string)
    requires OneLine(line) && !Blank(line) && (a == "" || a[|a| - 1] == '\n') && (more == "" || more[0] == '\n')
    requires a + TrimEnd(line) <= excerpt <= a + line + more
    ensures exists l :: l in Lines(excerpt) && Trim(l) == Trim(line)
  {
    TrimEndIsPrefix(line);
    var whole, n := a + line + more, |excerpt| - |a|;
    assert excerpt == whole[..|excerpt|];
    if n <= |line| {
      CutLine(line, n);
      assert excerpt == a + line[..n] + "";
      LineBetween(a, line[..n], "");
    } else {
      var rest := more[..n - |line|];
      assert excerpt == a + line + rest;
      LineBetween(a, line, rest);
    }
  }

  /** A shown line is one of the lines of the excerpt, white space around it aside. */
  lemma ShownIsALine(selected: seq<string>, cut: bool, p: nat)
    requires p < |selected| && !Blank(selected[p]) && OneLine(selected[p])
    requires Shows(Finish(selected, cut).0, selected, p)
    ensures exists l :: l in Lines(Finish(selected, cut).0) && Trim(l) == Trim(selected[p])
  {
    var head, capped, excerpt := UpTo(selected, p), Capped(Collapsed(selected)), Finish(selected, cut).0;
    ShowsExactly(selected, cut, p);
    CollapsedPrefix(selected, p + 1);
    EndsStay(selected[..p + 1]);
    assert capped[..|head|] == head;
    var more := TextGoesOn(capped, |head|);
    var a, line := LastLine(head);
    JoinIsVisible(head, |head| - 1);
    TrimStartAppend(JoinLines(head), more);
    TrimEndAppend(a, line);
    ExcerptIsBeginning(selected, cut);
    CutInLine(a, line, more, excerpt);
  }

  // ---------- The lines of a log ----------

  /** What is written down for the regions taken. */
  ghost function Written(lines: seq<LogLine>, sorted: seq<Ranked>): seq<Slot>
    requires RankedInLog(sorted, |lines|) && AllInLog(SortRegions(Greedy(sorted, lines)), |lines|)
  {
    Slots(SortRegions(Greedy(sorted, lines)), |lines|)
  }

  /** The log line `i` is written down at some place, and what is written up to there keeps both caps. */
  ghost predicate Fit(lines: seq<LogLine>, sorted: seq<Ranked>, i: nat)
    requires RankedInLog(sorted, |lines|) && AllInLog(SortRegions(Greedy(sorted, lines)), |lines|)
  {
    var slots := Written(lines, sorted);
    exists p :: 0 <= p < |slots| && slots[p] == Line(i) && FitsUpTo(Texts(slots, lines), p)
  }

  /** The log line `i` is written down at some place up to which the excerpt goes. */
  ghost predicate Shown(lines: seq<LogLine>, sorted: seq<Ranked>, excerpt: string, i: nat)
    requires RankedInLog(sorted, |lines|) && AllInLog(SortRegions(Greedy(sorted, lines)), |lines|)
  {
    var slots := Written(lines, sorted);
    exists p :: 0 <= p < |slots| && slots[p] == Line(i) && Shows(excerpt, Texts(slots, lines), p)
  }

  /** A log line, a failure line for one, is in the excerpt exactly if its region was taken and what is
      written up to and including it keeps both caps. It then is one of the lines of the excerpt. */
  lemma LineShownExactly(lines: seq<LogLine>, hits: seq<nat>, merged: seq<Region>, sorted: seq<Ranked>,
                         excerpt: string, truncated: bool, i: nat)
    requires IsExcerpt(lines, hits, merged, sorted, excerpt, truncated)
    requires i < |lines| && !Blank(lines[i].text) && OneLine(lines[i].text)
    ensures Shown(lines, sorted, excerpt, i) <==> Fit(lines, sorted, i)
    ensures Line(i) in Written(lines, sorted) <==> Covered(i, Greedy(sorted, lines))
    ensures Shown(lines, sorted, excerpt, i) ==> exists l :: l in Lines(excerpt) && Trim(l) == Trim(lines[i].text)
  {
    var slots, cut := Written(lines, sorted), |Greedy(sorted, lines)| < |sorted|;
    var texts := Texts(slots, lines);
    forall p | 0 <= p < |slots| && slots[p] == Line(i) ensures Shows(excerpt, texts, p) <==> FitsUpTo(texts, p) {
      ShowsExactly(texts, cut, p);
    }
    if Shown(lines, sorted, excerpt, i) {
      var p :| 0 <= p < |slots| && slots[p] == Line(i) && Shows(excerpt, texts, p);
      ShownIsALine(texts, cut, p);
    }
    ShownIffCovered(SortRegions(Greedy(sorted, lines)), |lines|, i);
    SortedCover(Greedy(sorted, lines), i);
  }

  lemma SortedCover(taken: seq<Region>, i: int)
    ensures Covered(i, SortRegions(taken)) <==> Covered(i, taken)
  {
    SortKeepsElements(taken, Earlier);
    if Covered(i, taken) {
      CoverIgnoresOrder(taken, SortRegions(taken), i);
    }
    if Covered(i, SortRegions(taken)) {
      CoverIgnoresOrder(SortRegions(taken), taken, i);
    }
  }

  lemma CoverIgnoresOrder(a: seq<Region>, b: seq<Region>, i: int)
    requires multiset(a) == multiset(b) && Covered(i, a)
    ensures Covered(i, b)
  {
    var k :| 0 <= k < |a| && Inside(i, a[k]);
    assert a[k] in multiset(b);
    var j := IndexIn(b, a[k]);
  }

  // ---------- Several regions ----------

  lemma {:induction false} CollapsedIsNoLonger(s: seq<string>)
    ensures TotalChars(Collapsed(s)) <= TotalChars(s)
  {
    if s != [] {
      var shorter, line := s[..|s| - 1], s[|s| - 1];
      CollapsedIsNoLonger(shorter);
      assert s == shorter + [line];
      TotalAppend(shorter, [line]);
      TotalAppend(Collapsed(shorter), [line]);
    }
  }

  lemma BeginningIsNoLonger(s: seq<string>, p: nat)
    requires p < |s|
    ensures |UpTo(s, p)| <= |s| && |Trim(JoinLines(UpTo(s, p)))| <= |JoinLines(s)|
  {
    CollapsedIsNoLonger(s[..p + 1]);
    TotalAppend(s[..p + 1], s[p + 1..]);
    assert s[..p + 1] + s[p + 1..] == s;
    EndsStay(s[..p + 1]);
    JoinLength(UpTo(s, p));
    JoinLength(s);
    var k := TrimIsStretch(JoinLines(UpTo(s, p)));
  }

  /** With two or more regions taken no line is lost to the line cap, and only what lies in the last few
      characters, one for each region beyond the second, can be lost to the character cap. With two, every
      line of them is shown. */
  lemma SeveralRegionsFit(lines: seq<LogLine>, hits: seq<nat>, merged: seq<Region>, sorted: seq<Ranked>,
                          excerpt: string, truncated: bool, p: nat)
    requires IsExcerpt(lines, hits, merged, sorted, excerpt, truncated) && |Greedy(sorted, lines)| > 1
    requires p < |Written(lines, sorted)|
    ensures var texts := Texts(Written(lines, sorted), lines);
            && |UpTo(texts, p)| <= MAX_LINES
            && |Trim(JoinLines(UpTo(texts, p)))| <= MAX_CHARS + |Greedy(sorted, lines)| - 2
            && (|Greedy(sorted, lines)| == 2 ==> FitsUpTo(texts, p))
  {
    var taken, texts := Greedy(sorted, lines), Texts(Written(lines, sorted), lines);
    GreedyTakesTheTop(sorted, lines);
    PickedCountIsUsed(taken, lines);
    SortKeepsElements(taken, Earlier);
    SameElementsSameLength(taken, SortRegions(taken));
    WrittenLength(SortRegions(taken), lines);
    BeginningIsNoLonger(texts, p);
  }
}
