/** What the line patterns of the contract parser match, said of the parts of a line. */
module LinePatterns {
  import opened ContractCriteria
  import opened ContractParts
  import opened MarkdownLines
  import opened Options
  import opened Text
  import opened Words

  /** The characters of each class, written out: line terminators, digits and bullets. */
  lemma ClassesExactly(c: char)
    ensures IsTerminator(c) <==> c in ['\n', '\r', '\U{2028}', '\U{2029}']
    ensures IsDigit(c) <==> c in ['0', '1', '2', '3', '4', '5', '6', '7', '8', '9']
    ensures IsBullet(c) <==> c in ['-', '*', '+']
  {
    assert IsDigit(c) ==> c == ['0', '1', '2', '3', '4', '5', '6', '7', '8', '9'][c as int - '0' as int];
  }

  lemma SpacesGo(lead: string, s: string)
    requires AllOf(lead, IsSpace) && (s != "" ==> !IsSpace(s[0]))
    ensures TrimStart(lead + s) == s
  {
    TrimDropsLeading(lead, s);
  }

  lemma Spaces(s: string) returns (lead: string)
    ensures AllOf(lead, IsSpace) && s == lead + TrimStart(s)
    ensures TrimStart(s) != "" ==> !IsSpace(TrimStart(s)[0])
    ensures AfterSpace(s).Some? ==> lead != ""
  {
    var k := TrimStartIsSuffix(s);
    lead := s[..k];
    assert AfterSpace(s).Some? ==> |TrimStart(s)| < |s|;
  }

  /** Text that follows white space, with the terminators among it. */
  lemma DottedAfter(space: string, text: string)
    requires AllOf(space, IsSpace) && Dotted(text)
    ensures DottedText(Some(TrimStart(space + text))) == Some(Trim(text))
  {
    TrimDropsLeading(space, text);
    var k := TrimStartIsSuffix(text);
    assert forall i :: 0 <= i < |text| - k ==> text[k..][i] == text[k + i];
    assert TrimStart(TrimStart(text)) == TrimStart(text);
  }

  lemma DottedIsAfter(rest: string) returns (space: string, text: string)
    requires DottedText(Some(TrimStart(rest))).Some?
    ensures AllOf(space, IsSpace) && Dotted(text) && rest == space + text
    ensures DottedText(Some(TrimStart(rest))) == Some(Trim(text))
    ensures AfterSpace(rest).Some? ==> space != ""
  {
    space := Spaces(rest);
    text := TrimStart(rest);
  }

  // ---------- Checkboxes ----------

  /** White space, a bullet, white space, a box, white space, and a text on the line. */
  datatype Boxed = Boxed(lead: string, bullet: char, gap: string, tick: char, space: string, text: string)

  function BoxLine(b: Boxed): string {
    b.lead + ([b.bullet] + (b.gap + (['[', b.tick, ']'] + (b.space + b.text))))
  }

  ghost predicate IsBoxed(b: Boxed) {
    && AllOf(b.lead, IsSpace) && b.bullet in {'-', '*'} && b.gap != "" && AllOf(b.gap, IsSpace)
    && b.tick in {' ', 'x', 'X'} && b.space != "" && AllOf(b.space, IsSpace) && Dotted(b.text)
  }

  lemma BoxIsRead(b: Boxed)
    requires IsBoxed(b)
    ensures CheckboxText(BoxLine(b)) == Some(Trim(b.text))
  {
    var box := ['[', b.tick, ']'] + (b.space + b.text);
    var s := [b.bullet] + (b.gap + box);
    assert s[0] == b.bullet && s[1..] == b.gap + box;
    SpacesGo(b.lead, s);
    assert box[0] == '[' && box[1] == b.tick && box[2] == ']' && box[3..] == b.space + b.text;
    SpacesGo(b.gap, box);
    DottedAfter(b.space, b.text);
  }

  lemma ReadIsBoxed(line: string) returns (b: Boxed)
    requires CheckboxText(line).Some?
    ensures IsBoxed(b) && line == BoxLine(b)
  {
    var lead := Spaces(line);
    var s := TrimStart(line);
    var gap := Spaces(s[1..]);
    var box := TrimStart(s[1..]);
    assert AfterSpace(s[1..]) == Some(box);
    var space, text := DottedIsAfter(box[3..]);
    b := Boxed(lead, s[0], gap, box[1], space, text);
    assert box == ['[', b.tick, ']'] + box[3..];
    assert s == [s[0]] + s[1..];
  }

  /** A line is a checkbox with a text exactly if it has these parts. */
  lemma CheckboxExactly(line: string, text: string)
    ensures CheckboxText(line) == Some(text) <==> exists b :: IsBoxed(b) && line == BoxLine(b) && text == Trim(b.text)
  {
    if CheckboxText(line) == Some(text) {
      var b := ReadIsBoxed(line);
      BoxIsRead(b);
    }
    if b :| IsBoxed(b) && line == BoxLine(b) && text == Trim(b.text) {
      BoxIsRead(b);
    }
  }

  // ---------- Evidence ----------

  /** White space, perhaps a bullet with white space after it, the word, white space, a colon, white space,
      and a text on the line. */
  datatype Noted = Noted(lead: string, bullet: Option<char>, gap: string, word: string, before: string, space: string,
                         text: string)

  function NoteLine(n: Noted): string {
    n.lead + ((if n.bullet.Some? then [n.bullet.value] + n.gap else "")
              + (n.word + (n.before + (":" + (n.space + n.text)))))
  }

  ghost predicate IsNoted(n: Noted) {
    && AllOf(n.lead, IsSpace) && (n.bullet.Some? ==> n.bullet.value in {'-', '*', '+'})
    && n.gap != "" && AllOf(n.gap, IsSpace) && SpeltLike(n.word, "evidence")
    && AllOf(n.before, IsSpace) && AllOf(n.space, IsSpace) && Dotted(n.text)
  }

  lemma WordStarts(word: string)
    requires SpeltLike(word, "evidence")
    ensures |word| == 8 && Lower(word) == "evidence" && !IsSpace(word[0]) && !IsBullet(word[0])
  {
    LowerExactly(word, "evidence");
    assert "evidence"[0] == 'e';
  }

  lemma WordIsRead(n: Noted)
    requires IsNoted(n)
    ensures var e := n.word + (n.before + (":" + (n.space + n.text)));
            && |e| >= 8 && e != "" && !IsSpace(e[0]) && !IsBullet(e[0]) && Lower(e[..8]) == "evidence"
            && var colon := TrimStart(e[8..]);
               colon != "" && colon[0] == ':' && DottedText(Some(TrimStart(colon[1..]))) == Some(Trim(n.text))
  {
    WordStarts(n.word);
    var colon := ":" + (n.space + n.text);
    var e := n.word + (n.before + colon);
    assert e[..8] == n.word && e[8..] == n.before + colon && e[0] == n.word[0];
    SpacesGo(n.before, colon);
    assert colon[1..] == n.space + n.text;
    DottedAfter(n.space, n.text);
  }

  lemma NoteAfter(line: string, s: string, e: string, lead: string, bullet: Option<char>, gap: string, text: string)
    requires AllOf(lead, IsSpace) && line == lead + s && e != "" && !IsSpace(e[0]) && !IsBullet(e[0])
    requires gap != "" && AllOf(gap, IsSpace) && (bullet.Some? ==> bullet.value in {'-', '*', '+'})
    requires s == if bullet.Some? then [bullet.value] + (gap + e) else e
    requires |e| >= 8 && Lower(e[..8]) == "evidence"
    requires var colon := TrimStart(e[8..]);
             colon != "" && colon[0] == ':' && DottedText(Some(TrimStart(colon[1..]))) == Some(text)
    ensures EvidenceText(line) == Some(text)
  {
    SpacesGo(lead, s);
    if bullet.Some? {
      assert s[1..] == gap + e;
      SpacesGo(gap, e);
    }
  }

  lemma NoteIsRead(n: Noted)
    requires IsNoted(n)
    ensures EvidenceText(NoteLine(n)) == Some(Trim(n.text))
  {
    var e := n.word + (n.before + (":" + (n.space + n.text)));
    var s := if n.bullet.Some? then [n.bullet.value] + (n.gap + e) else e;
    WordIsRead(n);
    NotedAgain(n.lead + s, s, e, n);
    NoteAfter(NoteLine(n), s, e, n.lead, n.bullet, n.gap, Trim(n.text));
  }

  /** The parts of the line from the word on. */
  lemma ReadWord(e: string) returns (before: string, space: string, text: string)
    requires |e| >= 8 && Lower(e[..8]) == "evidence"
    requires var colon := TrimStart(e[8..]);
             colon != "" && colon[0] == ':' && DottedText(Some(TrimStart(colon[1..]))).Some?
    ensures SpeltLike(e[..8], "evidence") && AllOf(before, IsSpace) && AllOf(space, IsSpace) && Dotted(text)
    ensures e == e[..8] + (before + (":" + (space + text)))
  {
    before := Spaces(e[8..]);
    var colon := TrimStart(e[8..]);
    space, text := DottedIsAfter(colon[1..]);
    LowerExactly(e[..8], "evidence");
    assert colon == ":" + colon[1..];
    assert e == e[..8] + e[8..];
  }

  lemma ReadIsNoted(line: string) returns (n: Noted)
    requires EvidenceText(line).Some?
    ensures IsNoted(n) && line == NoteLine(n)
  {
    var lead := Spaces(line);
    var s := TrimStart(line);
    var e, gap, bullet := s, " ", None;
    if s != "" && IsBullet(s[0]) {
      e, bullet := AfterSpace(s[1..]).UnwrapOr(""), Some(s[0]);
      gap := Spaces(s[1..]);
      assert s == [s[0]] + s[1..];
    }
    var before, space, text := ReadWord(e);
    n := Noted(lead, bullet, gap, e[..8], before, space, text);
    NotedAgain(line, s, e, n);
  }

  lemma NotedAgain(line: string, s: string, e: string, n: Noted)
    requires line == n.lead + s && e == n.word + (n.before + (":" + (n.space + n.text)))
    requires s == if n.bullet.Some? then [n.bullet.value] + (n.gap + e) else e
    ensures line == NoteLine(n)
  {
    assert n.bullet.Some? ==> [n.bullet.value] + (n.gap + e) == ([n.bullet.value] + n.gap) + e;
    assert "" + e == e;
  }

  /** A line is an evidence line with a text exactly if it has these parts. */
  lemma EvidenceExactly(line: string, text: string)
    ensures EvidenceText(line) == Some(text) <==> exists n :: IsNoted(n) && line == NoteLine(n) && text == Trim(n.text)
  {
    if EvidenceText(line) == Some(text) {
      var n := ReadIsNoted(line);
      NoteIsRead(n);
    }
    if n :| IsNoted(n) && line == NoteLine(n) && text == Trim(n.text) {
      NoteIsRead(n);
    }
  }

  // ---------- Items ----------

  /** White space, a bullet or a number with a full stop or bracket, and the rest of the line. */
  ghost predicate IsItem(line: string, lead: string, marker: string, rest: string) {
    AllOf(lead, IsSpace) && BareMarker(marker) && line == lead + (marker + rest)
  }

  lemma {:induction false} SkipDigits(digits: string, s: string)
    requires AllOf(digits, IsDigit) && (s != "" ==> !IsDigit(s[0]))
    ensures SkipRun(digits + s, IsDigit) == s
  {
    if digits == "" {
      assert digits + s == s;
    } else {
      assert (digits + s)[1..] == digits[1..] + s;
      SkipDigits(digits[1..], s);
    }
  }

  lemma MarkerIsRead(line: string, lead: string, marker: string, rest: string)
    requires IsItem(line, lead, marker, rest) && (rest != "" ==> IsSpace(rest[0]))
    ensures ItemText(line) == Title(rest) && (IsBulletLine(line) <==> rest != "")
  {
    var s := marker + rest;
    assert !IsSpace(marker[0]) by {
      if IsSpace(marker[0]) {
        MarkerIsVisible(marker, 0);
      }
    }
    SpacesGo(lead, s);
    if |marker| == 1 {
      assert s[0] == marker[0] && s[1..] == rest;
    } else {
      var n := |marker| - 1;
      var digits := marker[..n];
      assert s == digits + ([marker[n]] + rest) && IsDigit(s[0]);
      SkipDigits(digits, [marker[n]] + rest);
      assert ([marker[n]] + rest)[1..] == rest;
      assert |s| > |rest| + 1;
    }
  }

  lemma BulletIsItem(line: string) returns (lead: string, marker: string, rest: string)
    requires IsBulletLine(line)
    ensures IsItem(line, lead, marker, rest) && rest != "" && IsSpace(rest[0])
  {
    lead := Spaces(line);
    var s := TrimStart(line);
    var k: nat := 0;
    if !IsBullet(s[0]) {
      k := SkipRunIsSuffix(s, IsDigit);
    }
    marker, rest := s[..k + 1], s[k + 1..];
    assert k > 0 ==> s[k..][1..] == rest;
    assert s == marker + rest;
  }

  /** An item of a list, with a text or as a plain bullet, is exactly a marker with white space after it. */
  lemma ItemExactly(line: string, text: string)
    ensures ItemText(line) == Some(text)
            <==> exists lead, marker, rest :: IsItem(line, lead, marker, rest) && Title(rest) == Some(text)
    ensures IsBulletLine(line)
            <==> exists lead, marker, rest :: IsItem(line, lead, marker, rest) && rest != "" && IsSpace(rest[0])
  {
    if ItemText(line) == Some(text) {
      var marker, rest := ItemSplits(line);
      var lead := Spaces(line);
      assert IsItem(line, lead, marker, rest);
    }
    if lead, marker, rest :| IsItem(line, lead, marker, rest) && Title(rest) == Some(text) {
      MarkerIsRead(line, lead, marker, rest);
    }
    if IsBulletLine(line) {
      var lead, marker, rest := BulletIsItem(line);
    }
    if lead, marker, rest :| IsItem(line, lead, marker, rest) && rest != "" && IsSpace(rest[0]) {
      MarkerIsRead(line, lead, marker, rest);
    }
  }

  // ---------- Lines of criteria ----------

  ghost predicate HasBox(line: string, text: string) {
    exists b :: IsBoxed(b) && line == BoxLine(b) && text == Trim(b.text)
  }

  ghost predicate HasNote(line: string, text: string) {
    exists n :: IsNoted(n) && line == NoteLine(n) && text == Trim(n.text)
  }

  ghost predicate HasBullet(line: string) {
    exists lead, marker, rest :: IsItem(line, lead, marker, rest) && rest != "" && IsSpace(rest[0])
  }

  /** What a line of the criteria section counts as: blank exactly if it is all white space, a checkbox or
      evidence exactly if it has their parts, and otherwise a plain bullet or anything else. */
  lemma ClassifyExactly(line: string, text: string)
    ensures Classify(line) == BlankLine <==> forall i :: 0 <= i < |line| ==> IsSpace(line[i])
    ensures Classify(line) == Checkbox(text) <==> HasBox(line, text)
    ensures Classify(line) == Evidence(text) <==> HasNote(line, text) && forall x :: !HasBox(line, x)
    ensures Classify(line).Other? ==> Classify(line) == Other(HasBullet(line))
    ensures Classify(line).Other? ==> forall x :: !HasBox(line, x) && !HasNote(line, x)
  {
    BlankIsAllSpace(line);
    forall x ensures CheckboxText(line) == Some(x) <==> HasBox(line, x) {
      CheckboxExactly(line, x);
    }
    forall x ensures EvidenceText(line) == Some(x) <==> HasNote(line, x) {
      EvidenceExactly(line, x);
    }
    ItemExactly(line, text);
    if Blank(line) {
      BlankReadsAsNothing(line);
    }
  }

  lemma BlankReadsAsNothing(line: string)
    requires Blank(line)
    ensures CheckboxText(line) == None && EvidenceText(line) == None
  {
    var k := TrimStartIsSuffix(line);
    BlankIsAllSpace(line);
    assert TrimStart(line) == "" by {
      if TrimStart(line) != "" {
        assert TrimStart(line)[0] == line[k];
      }
    }
  }
}
