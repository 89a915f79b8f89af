/** Which sections the criteria parser accepts and as what, and that printing undoes parsing. */
module CriteriaPrinting {
  import opened ContractCriteria
  import opened MarkdownLines
  import opened Options
  import opened Text

  // ---------- What is accepted ----------

  function WithoutBlanks(kinds: seq<LineKind>): seq<LineKind> {
    if kinds == [] then []
    else WithoutBlanks(kinds[..|kinds| - 1]) + if kinds[|kinds| - 1] == BlankLine then [] else [kinds[|kinds| - 1]]
  }

  /** A criterion is spelled by its checkbox line and, if it has evidence, an evidence line after it. */
  function SpelledOne(c: Criterion): seq<LineKind> {
    [Checkbox(c.text)] + if c.evidence.Some? then [Evidence(c.evidence.value)] else []
  }

  function Spelled(cs: seq<Criterion>): seq<LineKind> {
    if cs == [] then [] else Spelled(cs[..|cs| - 1]) + SpelledOne(cs[|cs| - 1])
  }

  predicate Stated(c: Criterion) {
    c.text != "" && c.evidence != Some("")
  }

  ghost predicate AllStated(cs: seq<Criterion>) {
    forall i :: 0 <= i < |cs| ==> Stated(cs[i])
  }

  ghost predicate Distinct(cs: seq<Criterion>, lower: string -> string) {
    forall i, j :: 0 <= i < j < |cs| ==> CriterionKey(cs[i].text, lower) != CriterionKey(cs[j].text, lower)
  }

  lemma DistinctAppend(cs: seq<Criterion>, c: Criterion, lower: string -> string)
    ensures Distinct(cs + [c], lower) <==> Distinct(cs, lower) && !HasKey(cs, CriterionKey(c.text, lower), lower)
    ensures AllStated(cs + [c]) <==> AllStated(cs) && Stated(c)
  {
    var all := cs + [c];
    assert all[|cs|] == c && forall i :: 0 <= i < |cs| ==> all[i] == cs[i];
  }

  lemma SpelledAppend(cs: seq<Criterion>, c: Criterion)
    ensures Spelled(cs + [c]) == Spelled(cs) + SpelledOne(c)
  {
    assert (cs + [c])[..|cs|] == cs;
  }

  /** The parser yields `cs` exactly for the sections that spell them, with blank lines anywhere, and
      whose criteria and evidence are stated and tell each other apart. */
  lemma {:induction false} AcceptsExactly(kinds: seq<LineKind>, cs: seq<Criterion>, lower: string -> string)
    ensures CriteriaOf(kinds, lower) == Ok(cs)
            <==> WithoutBlanks(kinds) == Spelled(cs) && AllStated(cs) && Distinct(cs, lower)
    decreases |kinds|
  {
    if kinds == [] {
      SpelledIsEmpty(cs);
    } else {
      var shorter, last := kinds[..|kinds| - 1], kinds[|kinds| - 1];
      match last {
        case BlankLine => AcceptsExactly(shorter, cs, lower);
        case Checkbox(text) => AcceptsCheckbox(kinds, cs, text, lower);
        case Evidence(value) => AcceptsEvidence(kinds, cs, value, lower);
        case Other(bullet) => SpelledEnds(cs);
      }
    }
  }

  lemma SpelledIsEmpty(cs: seq<Criterion>)
    ensures Spelled(cs) == [] <==> cs == []
  {
  }

  /** The last line of a spelling tells the last criterion. */
  lemma SpelledEnds(cs: seq<Criterion>)
    ensures cs != [] ==> Spelled(cs) != [] && Spelled(cs)[|Spelled(cs)| - 1] ==
                           (if cs[|cs| - 1].evidence.Some? then Evidence(cs[|cs| - 1].evidence.value)
                            else Checkbox(cs[|cs| - 1].text))
  {
  }

  lemma SameUpToLast(a: seq<LineKind>, x: LineKind, b: seq<LineKind>, y: LineKind)
    ensures a + [x] == b + [y] <==> a == b && x == y
  {
    if a + [x] == b + [y] {
      assert (a + [x])[..|a|] == a && (b + [y])[..|b|] == b;
      assert (a + [x])[|a|] == x && (b + [y])[|b|] == y;
    }
  }

  lemma {:induction false} AcceptsCheckbox(kinds: seq<LineKind>, cs: seq<Criterion>, text: string,
                                           lower: string -> string)
    requires kinds != [] && kinds[|kinds| - 1] == Checkbox(text)
    ensures CriteriaOf(kinds, lower) == Ok(cs)
            <==> WithoutBlanks(kinds) == Spelled(cs) && AllStated(cs) && Distinct(cs, lower)
    decreases |kinds|, 0
  {
    var shorter := kinds[..|kinds| - 1];
    SpelledEnds(cs);
    if cs != [] && cs[|cs| - 1] == Criterion(text, None) {
      var before := cs[..|cs| - 1];
      assert cs == before + [Criterion(text, None)];
      AcceptsExactly(shorter, before, lower);
      DistinctAppend(before, Criterion(text, None), lower);
      SameUpToLast(WithoutBlanks(shorter), Checkbox(text), Spelled(before), Checkbox(text));
    }
  }

  /** An evidence line turns exactly one state into `before + [c with that evidence]`. */
  lemma EvidenceInverts(xs: seq<Criterion>, before: seq<Criterion>, text: string, value: string,
                        lower: string -> string)
    ensures AddLine(xs, Evidence(value), lower) == Ok(before + [Criterion(text, Some(value))])
            <==> xs == before + [Criterion(text, None)] && value != ""
  {
    var closed := before + [Criterion(text, Some(value))];
    assert closed[..|before|] == before && closed[|before|] == Criterion(text, Some(value));
    if xs != [] {
      var next := xs[..|xs| - 1] + [Criterion(xs[|xs| - 1].text, Some(value))];
      assert next[..|xs| - 1] == xs[..|xs| - 1] && next[|xs| - 1].text == xs[|xs| - 1].text;
      assert xs == xs[..|xs| - 1] + [xs[|xs| - 1]];
    }
  }

  /** An evidence line belongs to the criterion before it, which had none. */
  lemma EvidenceSpells(spelled: seq<LineKind>, before: seq<Criterion>, text: string, value: string,
                       lower: string -> string)
    ensures spelled + [Evidence(value)] == Spelled(before + [Criterion(text, Some(value))])
            <==> spelled == Spelled(before + [Criterion(text, None)])
    ensures AllStated(before + [Criterion(text, Some(value))])
            <==> AllStated(before + [Criterion(text, None)]) && value != ""
    ensures Distinct(before + [Criterion(text, Some(value))], lower)
            <==> Distinct(before + [Criterion(text, None)], lower)
  {
    var plain, full := Criterion(text, None), Criterion(text, Some(value));
    DistinctAppend(before, plain, lower);
    DistinctAppend(before, full, lower);
    SpelledAppend(before, plain);
    SpelledAppend(before, full);
    assert Spelled(before + [full]) == Spelled(before + [plain]) + [Evidence(value)];
    SameUpToLast(spelled, Evidence(value), Spelled(before + [plain]), Evidence(value));
  }

  lemma {:induction false} AcceptsEvidence(kinds: seq<LineKind>, cs: seq<Criterion>, value: string,
                                           lower: string -> string)
    requires kinds != [] && kinds[|kinds| - 1] == Evidence(value)
    ensures CriteriaOf(kinds, lower) == Ok(cs)
            <==> WithoutBlanks(kinds) == Spelled(cs) && AllStated(cs) && Distinct(cs, lower)
    decreases |kinds|, 0
  {
    var shorter := kinds[..|kinds| - 1];
    if cs != [] && cs[|cs| - 1].evidence == Some(value) {
      var before, text := cs[..|cs| - 1], cs[|cs| - 1].text;
      assert cs == before + [Criterion(text, Some(value))];
      AcceptsExactly(shorter, before + [Criterion(text, None)], lower);
      EvidenceSpells(WithoutBlanks(shorter), before, text, value, lower);
      if CriteriaOf(shorter, lower).Ok? {
        EvidenceInverts(CriteriaOf(shorter, lower).value, before, text, value, lower);
      }
    } else {
      SpelledEnds(cs);
    }
  }

  // ---------- Printing ----------

  function RenderedOne(c: Criterion): seq<string> {
    ["- [ ] " + c.text] + if c.evidence.UnwrapOr("") != "" then ["  Evidence: " + c.evidence.value] else []
  }

  function RenderedLines(cs: seq<Criterion>): seq<string> {
    if cs == [] then [] else RenderedLines(cs[..|cs| - 1]) + RenderedOne(cs[|cs| - 1])
  }

  function Rendered(cs: seq<Criterion>): string {
    JoinLines(RenderedLines(cs))
  }

  method RenderContractAcceptanceCriteria(cs: seq<Criterion>) returns (text: string)
    ensures text == Rendered(cs)
  {
    var lines: seq<string> := [];
    var k := 0;
    while k < |cs|
      invariant 0 <= k <= |cs| && lines == RenderedLines(cs[..k])
    {
      assert cs[..k + 1][..k] == cs[..k];
      lines := lines + ["- [ ] " + cs[k].text];
      if cs[k].evidence.Some? && cs[k].evidence.value != "" {
        lines := lines + ["  Evidence: " + cs[k].evidence.value];
      }
      k := k + 1;
    }
    assert cs[..k] == cs;
    text := JoinLines(lines);
  }

  // ---------- The round trip ----------

  /** A text that a line can carry and that reading the line gives back. */
  predicate Carried(s: string) {
    s != "" && Trimmed(s) && Dotted(s)
  }

  predicate CarriedCriterion(c: Criterion) {
    Carried(c.text) && (c.evidence.Some? ==> Carried(c.evidence.value))
  }

  ghost predicate WellFormed(cs: seq<Criterion>, lower: string -> string) {
    cs != [] && Distinct(cs, lower) && forall i :: 0 <= i < |cs| ==> CarriedCriterion(cs[i])
  }

  /** What follows the bullet on the line of a criterion. */
  lemma BoxReads(text: string)
    requires Carried(text)
    ensures var box := "[ ] " + text;
            && AfterSpace(" " + box) == Some(box) && |box| >= 3 && box[0] == '[' && box[1] == ' ' && box[2] == ']'
            && DottedText(AfterSpace(box[3..])) == Some(text)
  {
    var box := "[ ] " + text;
    TrimDropsLeading(" ", box);
    assert box[0] == '[' && TrimStart(box) == box && box[3..] == " " + text;
    TrimDropsLeading(" ", text);
    TrimmedStays(text);
  }

  lemma CheckboxLineReads(text: string)
    requires Carried(text)
    ensures Classify("- [ ] " + text) == Checkbox(text)
  {
    var line := "- [ ] " + text;
    assert line[0] == '-' && TrimStart(line) == line;
    assert line[1..] == " " + ("[ ] " + text);
    BoxReads(text);
    VisibleIsNotBlank(line, 0);
  }

  /** What follows the word `Evidence` on the line. */
  lemma ColonReads(value: string)
    requires Carried(value)
    ensures var rest := ": " + value;
            && TrimStart(rest) == rest && rest[0] == ':'
            && DottedText(Some(TrimStart(rest[1..]))) == Some(value)
  {
    var rest := ": " + value;
    assert rest[0] == ':' && rest[1..] == " " + value;
    TrimDropsLeading(" ", value);
    TrimmedStays(value);
  }

  /** The line from the word on. */
  lemma WordReads(value: string)
    requires Carried(value)
    ensures var word := "Evidence: " + value;
            && word[0] == 'E' && |word| >= 8 && Lower(word[..8]) == "evidence"
            && TrimStart(word[8..]) == ": " + value
               && DottedText(Some(TrimStart(TrimStart(word[8..])[1..]))) == Some(value)
  {
    var word := "Evidence: " + value;
    assert word[..8] == "Evidence" && word[8..] == ": " + value;
    assert Lower("Evidence") == "evidence";
    ColonReads(value);
  }

  lemma EvidenceOfLine(value: string)
    requires Carried(value)
    ensures EvidenceText("  Evidence: " + value) == Some(value)
  {
    var line, word := "  Evidence: " + value, "Evidence: " + value;
    assert TrimStart(line) == word by {
      assert line == "  " + word && word[0] == 'E';
      TrimDropsLeading("  ", word);
    }
    WordReads(value);
    assert (": " + value)[0] == ':';
  }

  lemma EvidenceLineReads(value: string)
    requires Carried(value)
    ensures Classify("  Evidence: " + value) == Evidence(value)
  {
    var line, word := "  Evidence: " + value, "Evidence: " + value;
    EvidenceOfLine(value);
    VisibleIsNotBlank(line, 2);
    assert line == "  " + word && word[0] == 'E';
    TrimDropsLeading("  ", word);
    assert CheckboxText(line) == None;
  }

  lemma KindsAppend(a: seq<string>, b: seq<string>)
    ensures Kinds(a + b) == Kinds(a) + Kinds(b)
  {
  }

  lemma {:induction false} NoBlanks(kinds: seq<LineKind>)
    requires forall i :: 0 <= i < |kinds| ==> kinds[i] != BlankLine
    ensures WithoutBlanks(kinds) == kinds
  {
    if kinds != [] {
      NoBlanks(kinds[..|kinds| - 1]);
    }
  }

  lemma RenderedOneReads(c: Criterion)
    requires CarriedCriterion(c)
    ensures Kinds(RenderedOne(c)) == SpelledOne(c)
    ensures forall l :: l in RenderedOne(c) ==> OneLine(l)
  {
    CheckboxLineReads(c.text);
    if c.evidence.Some? {
      EvidenceLineReads(c.evidence.value);
    }
  }

  lemma {:induction false} RenderedSpells(cs: seq<Criterion>)
    requires forall i :: 0 <= i < |cs| ==> CarriedCriterion(cs[i])
    ensures Kinds(RenderedLines(cs)) == Spelled(cs)
    ensures forall l :: l in RenderedLines(cs) ==> OneLine(l)
    ensures cs != [] ==> RenderedLines(cs) != []
  {
    if cs != [] {
      var before := cs[..|cs| - 1];
      RenderedSpells(before);
      RenderedOneReads(cs[|cs| - 1]);
      KindsAppend(RenderedLines(before), RenderedOne(cs[|cs| - 1]));
    }
  }

  lemma SpelledHasNoBlanks(cs: seq<Criterion>)
    ensures WithoutBlanks(Spelled(cs)) == Spelled(cs)
  {
    forall i | 0 <= i < |Spelled(cs)| ensures Spelled(cs)[i] != BlankLine {
      SpelledAt(cs, i);
    }
    NoBlanks(Spelled(cs));
  }

  lemma {:induction false} SpelledAt(cs: seq<Criterion>, i: nat)
    requires i < |Spelled(cs)|
    ensures Spelled(cs)[i] != BlankLine
  {
    var before := Spelled(cs[..|cs| - 1]);
    if i < |before| {
      SpelledAt(cs[..|cs| - 1], i);
    }
  }

  ghost predicate ReadsCarried(kind: LineKind) {
    match kind
    case Checkbox(text) => text != "" ==> Carried(text)
    case Evidence(value) => value != "" ==> Carried(value)
    case _ => true
  }

  lemma DottedTextIsCarried(text: string)
    requires Dotted(text) && Trim(text) != ""
    ensures Carried(Trim(text))
  {
    var k := TrimIsStretch(text);
    assert forall i :: 0 <= i < |Trim(text)| ==> Trim(text)[i] == text[k + i];
  }

  /** What is read off a line could be carried by a line. */
  lemma LinesReadCarried(line: string)
    ensures ReadsCarried(Classify(line))
  {
    if CheckboxText(line).Some? && CheckboxText(line).value != "" {
      var box := AfterSpace(TrimStart(line)[1..]).value;
      DottedTextIsCarried(AfterSpace(box[3..]).value);
    } else if EvidenceText(line).Some? && EvidenceText(line).value != "" {
      var s := TrimStart(line);
      var e := if s != "" && IsBullet(s[0]) then AfterSpace(s[1..]).UnwrapOr("") else s;
      DottedTextIsCarried(TrimStart(TrimStart(e[8..])[1..]));
    }
  }

  lemma {:induction false} WithoutBlanksKeeps(kinds: seq<LineKind>, x: LineKind)
    requires x in WithoutBlanks(kinds)
    ensures x in kinds
  {
    if x in WithoutBlanks(kinds[..|kinds| - 1]) {
      WithoutBlanksKeeps(kinds[..|kinds| - 1], x);
    }
  }

  lemma {:induction false} SpelledContains(cs: seq<Criterion>, i: nat)
    requires i < |cs|
    ensures Checkbox(cs[i].text) in Spelled(cs)
    ensures cs[i].evidence.Some? ==> Evidence(cs[i].evidence.value) in Spelled(cs)
  {
    if i < |cs| - 1 {
      SpelledContains(cs[..|cs| - 1], i);
    } else {
      var one := SpelledOne(cs[i]);
      assert one[0] == Checkbox(cs[i].text);
      assert cs[i].evidence.Some? ==> one[1] == Evidence(cs[i].evidence.value);
    }
  }

  lemma ReadOffLines(lines: seq<string>, kind: LineKind)
    requires kind in WithoutBlanks(Kinds(lines))
    ensures ReadsCarried(kind)
  {
    WithoutBlanksKeeps(Kinds(lines), kind);
    var k :| 0 <= k < |lines| && Kinds(lines)[k] == kind;
    LinesReadCarried(lines[k]);
  }

  /** Everything the parser can ever return is well-formed. */
  lemma AcceptedIsWellFormed(body: string, cs: seq<Criterion>, lower: string -> string)
    requires ParsedCriteria(body, lower) == Ok(cs)
    ensures WellFormed(cs, lower)
  {
    var kinds := Kinds(Lines(body));
    AcceptsExactly(kinds, cs, lower);
    forall i | 0 <= i < |cs| ensures CarriedCriterion(cs[i]) {
      SpelledContains(cs, i);
      ReadOffLines(Lines(body), Checkbox(cs[i].text));
      assert Stated(cs[i]);
      if cs[i].evidence.Some? {
        ReadOffLines(Lines(body), Evidence(cs[i].evidence.value));
      }
    }
  }

  /** Printing and parsing give back exactly the well-formed lists, which are all the lists that parsing
      ever yields. */
  lemma CriteriaRoundTrip(cs: seq<Criterion>, lower: string -> string)
    ensures ParsedCriteria(Rendered(cs), lower) == Ok(cs) <==> WellFormed(cs, lower)
  {
    if WellFormed(cs, lower) {
      RenderedSpells(cs);
      LinesOfJoin(RenderedLines(cs));
      SpelledHasNoBlanks(cs);
      AcceptsExactly(Kinds(RenderedLines(cs)), cs, lower);
    }
    if ParsedCriteria(Rendered(cs), lower) == Ok(cs) {
      AcceptedIsWellFormed(Rendered(cs), cs, lower);
    }
  }

  /** Two printed criteria read back exactly if lower-casing tells their texts apart, blanks aside; otherwise
      the second is a duplicate of the first. */
  lemma TwoTextsExactly(a: string, b: string, lower: string -> string)
    requires Carried(a) && Carried(b)
    ensures var both := [Criterion(a, None), Criterion(b, None)];
            ParsedCriteria(Rendered(both), lower)
            == if lower(Squeeze(a, IsSpace)) == lower(Squeeze(b, IsSpace)) then Err(Duplicate) else Ok(both)
  {
    var both := [Criterion(a, None), Criterion(b, None)];
    TwoAreSpelled(both);
    RenderedSpells(both);
    LinesOfJoin(RenderedLines(both));
    TwoCheckboxes(a, b, lower);
    TrimmedStays(a);
    TrimmedStays(b);
  }

  lemma {:induction false} TwoAreSpelled(both: seq<Criterion>)
    requires |both| == 2 && both[0].evidence == None && both[1].evidence == None
    ensures Spelled(both) == [Checkbox(both[0].text), Checkbox(both[1].text)]
  {
    SpelledAppend([], both[0]);
    SpelledAppend([both[0]], both[1]);
    assert [] + [both[0]] == [both[0]] && [both[0]] + [both[1]] == both;
  }

  lemma TwoCheckboxes(a: string, b: string, lower: string -> string)
    requires a != "" && b != ""
    ensures CriteriaOf([Checkbox(a), Checkbox(b)], lower)
            == if CriterionKey(a, lower) == CriterionKey(b, lower) then Err(Duplicate)
                else Ok([Criterion(a, None), Criterion(b, None)])
  {
    var kinds, cs := [Checkbox(a), Checkbox(b)], [Criterion(a, None)];
    CriteriaStep(kinds, 0, lower);
    CriteriaStep(kinds, 1, lower);
    assert kinds[..2] == kinds;
    assert [] + cs == cs && cs + [Criterion(b, None)] == [Criterion(a, None), Criterion(b, None)];
    KeyAppend([], cs[0], lower);
  }
}
