/** Reading the five sections of an execution contract, one by one. */
module ContractParts {
  import opened ContractCriteria
  import opened ContractSections
  import opened MarkdownLines
  import opened Options
  import opened SectionTable
  import opened Text
  import opened Words

  datatype ExecutionMode = Feature | BugFix | Refactor | Investigation | SplitChild

  datatype ContractError =
    | DuplicateSection(key: Key)
    | MissingSection(key: Key)
    | ModeLines(count: nat)
    | UnknownMode
    | NotAList
    | NoNonGoals
    | EmptyExit
    | ManyParagraphs
    | EmptyStop
    | BadCriteria(error: CriteriaError)

  // ---------- The single sections ----------

  predicate IsTrailing(c: char) {
    c in {'.', '\U{3002}', '!', '?', ';', ':', ',', '\'', '"', ')', ']'}
  }

  function WithoutTrailing(s: string): string {
    if s != "" && IsTrailing(s[|s| - 1]) then WithoutTrailing(s[..|s| - 1]) else s
  }

  function NormalizedMode(raw: string): Option<ExecutionMode> {
    ModeNamed(Trim(WithoutTrailing(Normalized(raw))))
  }

  /** The table of the modes. */
  function ModeNamed(name: string): Option<ExecutionMode> {
    if name == "bugfix" || name == "bug fix" then Some(BugFix)
    else if name == "feature" then Some(Feature)
    else if name == "refactor" then Some(Refactor)
    else if name == "investigation" then Some(Investigation)
    else if name == "split child" then Some(SplitChild)
    else None
  }

  /** The lines with something on them. */
  function Visible(lines: seq<string>): seq<string> {
    if lines == [] then []
    else Visible(lines[..|lines| - 1]) + if Blank(lines[|lines| - 1]) then [] else [lines[|lines| - 1]]
  }

  function ModeOf(body: string): Result<ExecutionMode, ContractError> {
    var lines := Visible(Lines(body));
    if |lines| != 1 then Err(ModeLines(|lines|))
    else
      var mode := NormalizedMode(Trim(lines[0]));
      if mode == None then Err(UnknownMode) else Ok(mode.value)
  }

  /** The items of a list without blank lines. */
  function ItemsOf(lines: seq<string>): Option<seq<string>> {
    if lines == [] then Some([])
    else
      var before, item := ItemsOf(lines[..|lines| - 1]), ItemText(lines[|lines| - 1]);
      if before.Some? && item.Some? then Some(before.value + [item.value]) else None
  }

  function NonGoalsOf(body: string): Result<seq<string>, ContractError> {
    var items := ItemsOf(Visible(Lines(body)));
    if items == None then Err(NotAList)
    else if items.value == [] then Err(NoNonGoals)
    else Ok(items.value)
  }

  lemma {:induction false} ItemsOfStops(lines: seq<string>, k: nat)
    requires k <= |lines| && ItemsOf(lines[..k]) == None
    ensures ItemsOf(lines) == None
  {
    if k < |lines| {
      assert lines[..|lines| - 1][..k] == lines[..k];
      ItemsOfStops(lines[..|lines| - 1], k);
    } else {
      assert lines[..k] == lines;
    }
  }

  lemma {:induction false} VisibleStep(lines: seq<string>, k: nat) returns (rest: seq<string>)
    requires k < |lines|
    ensures Visible(lines[..k + 1]) == Visible(lines[..k]) + if Blank(lines[k]) then [] else [lines[k]]
    ensures Visible(lines) == Visible(lines[..k + 1]) + rest
    decreases |lines|
  {
    assert lines[..k + 1][..k] == lines[..k];
    if k + 1 == |lines| {
      rest := [];
      assert lines[..k + 1] == lines;
    } else {
      var shorter := lines[..|lines| - 1];
      rest := VisibleStep(shorter, k);
      assert shorter[..k + 1] == lines[..k + 1];
      rest := rest + if Blank(lines[|lines| - 1]) then [] else [lines[|lines| - 1]];
    }
  }

  lemma NonGoalStep(lines: seq<string>, k: nat, items: seq<string>)
    requires k < |lines| && ItemsOf(Visible(lines[..k])) == Some(items)
    ensures Blank(lines[k]) ==> ItemsOf(Visible(lines[..k + 1])) == Some(items)
    ensures !Blank(lines[k]) && ItemText(lines[k]).Some?
            ==> ItemsOf(Visible(lines[..k + 1])) == Some(items + [ItemText(lines[k]).value])
    ensures !Blank(lines[k]) && ItemText(lines[k]) == None ==> ItemsOf(Visible(lines)) == None
  {
    var before := Visible(lines[..k]);
    var rest := VisibleStep(lines, k);
    if Blank(lines[k]) {
      assert before + [] == before;
    } else {
      var longer := before + [lines[k]];
      assert longer[..|longer| - 1] == before && longer[|longer| - 1] == lines[k];
      assert Visible(lines)[..|longer|] == longer;
      if ItemText(lines[k]) == None {
        ItemsOfStops(Visible(lines), |longer|);
      }
    }
  }

  /** parseNonGoals, with its loop. */
  method ParseNonGoals(body: string) returns (r: Result<seq<string>, ContractError>)
    ensures r == NonGoalsOf(body)
  {
    var lines := Lines(body);
    var items: seq<string> := [];
    var k := 0;
    while k < |lines|
      invariant 0 <= k <= |lines| && ItemsOf(Visible(lines[..k])) == Some(items)
    {
      NonGoalStep(lines, k, items);
      if !Blank(lines[k]) {
        var item := ItemText(lines[k]);
        if item == None {
          return Err(NotAList);
        }
        items := items + [item.value];
      }
      k := k + 1;
    }
    assert lines[..k] == lines;
    if |items| == 0 {
      return Err(NoNonGoals);
    }
    return Ok(items);
  }

  /** `\n\s*\n`: a line feed, white space, a line feed. */
  predicate ParagraphBreak(s: string) {
    exists i :: 0 <= i < |s| && s[i] == '\n' && BreaksFrom(s[i + 1..])
  }

  predicate BreaksFrom(s: string) {
    s != "" && (s[0] == '\n' || (IsSpace(s[0]) && BreaksFrom(s[1..])))
  }

  function ExitOf(body: string): Result<string, ContractError> {
    if Trim(body) == "" then Err(EmptyExit)
    else if ParagraphBreak(Trim(body)) then Err(ManyParagraphs)
    else Ok(Trim(body))
  }

  function StopOf(body: string): Result<string, ContractError> {
    if Trim(body) == "" then Err(EmptyStop) else Ok(Trim(body))
  }

  function CriteriaSection(body: string, lower: string -> string): Result<seq<Criterion>, ContractError> {
    match ParsedCriteria(body, lower)
    case Ok(cs) => Ok(cs)
    case Err(e) => Err(BadCriteria(e))
  }

  // ---------- What the readings mean ----------

  lemma {:induction false} TrailingGoes(s: string, marks: string)
    requires forall i :: 0 <= i < |marks| ==> IsTrailing(marks[i])
    requires s != "" && !IsTrailing(s[|s| - 1])
    ensures WithoutTrailing(s + marks) == s
    decreases |marks|
  {
    if marks == "" {
      assert s + marks == s;
    } else {
      assert (s + marks)[..|s + marks| - 1] == s + marks[..|marks| - 1];
      TrailingGoes(s, marks[..|marks| - 1]);
    }
  }

  lemma MarksArePlain(marks: string)
    requires AllOf(marks, IsTrailing)
    ensures NoneOf(marks, IsJoin) && Lower(marks) == marks
  {
    forall i | 0 <= i < |marks| ensures !IsJoin(marks[i]) && Lower(marks)[i] == marks[i] {
      TrailingIsPlain(marks[i]);
    }
  }

  lemma TrailingIsPlain(c: char)
    ensures IsTrailing(c) ==> !IsJoin(c) && LowerChar(c) == c
    ensures IsTrailing(LowerChar(c)) <==> IsTrailing(c)
  {
  }

  /** The five modes by name, `bugfix` besides `bug fix`. */
  ghost predicate Spells(name: string, mode: ExecutionMode) {
    match mode
    case Feature => name == "feature"
    case BugFix => name == "bugfix" || name == "bug fix"
    case Refactor => name == "refactor"
    case Investigation => name == "investigation"
    case SplitChild => name == "split child"
  }

  lemma ModesAreNamed(name: string, mode: ExecutionMode)
    ensures ModeNamed(name) == Some(mode) <==> Spells(name, mode)
  {
    assert "feature"[0] == 'f' && "bugfix"[0] == "bug fix"[0] == 'b' && "refactor"[0] == 'r';
    assert "investigation"[0] == 'i' && "split child"[0] == 's';
  }

  /** The words of the modes, one word or two for a bug fix. */
  ghost predicate SpeltMode(words: seq<string>, mode: ExecutionMode) {
    match mode
    case Feature => SpeltWords(words, ["feature"])
    case BugFix => SpeltWords(words, ["bugfix"]) || SpeltWords(words, ["bug", "fix"])
    case Refactor => SpeltWords(words, ["refactor"])
    case Investigation => SpeltWords(words, ["investigation"])
    case SplitChild => SpeltWords(words, ["split", "child"])
  }

  lemma OneWordMode(words: seq<string>, name: string)
    requires AreWords(words, IsJoin) && name != "" && ' ' !in name && IsLower(name)
    ensures Spaced(Lowered(words)) == name <==> SpeltWords(words, [name])
  {
    SpellingIsRead(words, [name]);
  }

  lemma TwoWordMode(words: seq<string>, first: string, second: string, name: string)
    requires AreWords(words, IsJoin) && first != "" && ' ' !in first && IsLower(first)
    requires second != "" && ' ' !in second && IsLower(second) && first + " " + second == name
    ensures Spaced(Lowered(words)) == name <==> SpeltWords(words, [first, second])
  {
    TwoWords(first, second, name);
    SpellingIsRead(words, [first, second]);
  }

  lemma ModesAreSpelt(words: seq<string>, mode: ExecutionMode)
    requires AreWords(words, IsJoin)
    ensures ModeNamed(Spaced(Lowered(words))) == Some(mode) <==> SpeltMode(words, mode)
  {
    ModesAreNamed(Spaced(Lowered(words)), mode);
    match mode
    case Feature => OneWordMode(words, "feature");
    case BugFix =>
      OneWordMode(words, "bugfix");
      TwoWordMode(words, "bug", "fix", "bug fix");
    case Refactor => OneWordMode(words, "refactor");
    case Investigation => OneWordMode(words, "investigation");
    case SplitChild => TwoWordMode(words, "split", "child", "split child");
  }

  /** The name of a mode with punctuation after it, with or without something in between. */
  lemma MarksAreDropped(words: seq<string>, gap: string, marks: string)
    requires AreWords(words, IsJoin) && AllOf(marks, IsTrailing) && gap in {"", " "}
    requires var last := words[|words| - 1]; !IsTrailing(last[|last| - 1])
    ensures Trim(WithoutTrailing(Spaced(Lowered(words)) + (gap + marks))) == Spaced(Lowered(words))
  {
    var s, last := Spaced(Lowered(words)), words[|words| - 1];
    LoweredAreWords(words, []);
    WeaveEnds(Lowered(words), Blanks(|words| - 1));
    SpacedIsTrimmed(Lowered(words));
    TrailingIsPlain(last[|last| - 1]);
    assert Lowered(words)[|words| - 1] == Lower(last);
    MarksGo(s, gap, marks);
  }

  lemma MarksGo(s: string, gap: string, marks: string)
    requires s != "" && Trimmed(s) && !IsTrailing(s[|s| - 1]) && AllOf(marks, IsTrailing) && gap in {"", " "}
    ensures Trim(WithoutTrailing(s + (gap + marks))) == s
  {
    assert s + (gap + marks) == (s + gap) + marks;
    TrailingGoes(s + gap, marks);
    TrimmedInside("", s, gap);
    assert "" + (s + gap) == s + gap;
  }

  lemma MarkedIsNormalized(lead: string, words: seq<string>, joins: seq<string>, marks: string, trail: string)
    requires AllOf(lead, IsJoin) && AllOf(trail, IsJoin) && AllOf(marks, IsTrailing)
    requires AreWords(words, IsJoin) && AreJoins(joins, IsJoin) && |joins| == |words| - 1
    ensures Normalized(lead + ((Weave(words, joins) + marks) + trail)) == Spaced(Lowered(words)) + marks
  {
    MarksArePlain(marks);
    WeaveMarked(words, joins, marks);
    WeaveMarked(Lowered(words), Blanks(|words| - 1), marks);
    NormalizedExactly(lead, Marked(words, marks), joins, trail);
    LowerAppend(words[|words| - 1], marks);
    assert Lowered(Marked(words, marks)) == Marked(Lowered(words), marks);
  }

  lemma SpacedMarks(lead: string, words: seq<string>, joins: seq<string>, gap: string, marks: string, trail: string)
    requires AllOf(lead, IsJoin) && AllOf(trail, IsJoin) && AllOf(gap, IsJoin) && AllOf(marks, IsTrailing)
    requires AreWords(words, IsJoin) && AreJoins(joins, IsJoin) && |joins| == |words| - 1 && gap != "" && marks != ""
    ensures Normalized(lead + ((Weave(words, joins) + (gap + marks)) + trail))
            == Spaced(Lowered(words)) + (" " + marks)
  {
    MarksArePlain(marks);
    WeaveOneMore(words, joins, gap, marks);
    WeaveOneMore(Lowered(words), Blanks(|words| - 1), " ", marks);
    NormalizedExactly(lead, words + [marks], joins + [gap], trail);
    assert Lowered(words + [marks]) == Lowered(words) + [marks];
    assert Blanks(|words| - 1) + [" "] == Blanks(|words|);
  }

  /** A mode is read exactly if it is spelt in its words, in any case, whatever blanks, dashes and underscores
      join them, and whatever punctuation follows them, directly or not. */
  lemma ModesAreRead(lead: string, words: seq<string>, joins: seq<string>, gap: string, marks: string, trail: string,
                     mode: ExecutionMode)
    requires AllOf(lead, IsJoin) && AllOf(trail, IsJoin) && AllOf(gap, IsJoin) && AllOf(marks, IsTrailing)
    requires AreWords(words, IsJoin) && AreJoins(joins, IsJoin) && |joins| == |words| - 1
    requires var last := words[|words| - 1]; !IsTrailing(last[|last| - 1])
    requires marks == "" ==> gap == ""
    ensures NormalizedMode(lead + ((Weave(words, joins) + (gap + marks)) + trail)) == Some(mode)
            <==> SpeltMode(words, mode)
  {
    ModesAreSpelt(words, mode);
    if gap == "" {
      assert gap + marks == marks;
      MarkedIsNormalized(lead, words, joins, marks, trail);
      MarksAreDropped(words, "", marks);
      assert "" + marks == marks;
    } else {
      SpacedMarks(lead, words, joins, gap, marks, trail);
      MarksAreDropped(words, " ", marks);
    }
  }

  lemma TrimmedInside(lead: string, s: string, trail: string)
    requires AllOf(lead, IsSpace) && AllOf(trail, IsSpace) && s != "" && Trimmed(s)
    ensures Trim(lead + (s + trail)) == s
  {
    BlankIsAllSpace(lead);
    BlankIsAllSpace(trail);
    var l, t := TrimFrame(lead, s, trail, IsSpace);
    assert "" + (s + "") == s;
  }

  /** Criteria are told apart by their words: what a text is compared by are its words with one blank between
      any two, in lower case, whatever white space joins or surrounds them. */
  lemma CriterionKeyExactly(lead: string, words: seq<string>, joins: seq<string>, trail: string,
                            lower: string -> string)
    requires AllOf(lead, IsSpace) && AllOf(trail, IsSpace)
    requires AreWords(words, IsSpace) && AreJoins(joins, IsSpace) && |joins| == |words| - 1
    ensures CriterionKey(lead + (Weave(words, joins) + trail), lower) == lower(Spaced(words))
  {
    var s := Weave(words, joins);
    WeaveEnds(words, joins);
    TrimmedInside(lead, s, trail);
    SqueezeIsSpaced(words, joins, "", IsSpace);
    assert s + "" == s && Spaced(words) + "" == Spaced(words);
  }

  /** The punctuation that may follow a mode. */
  lemma TrailingExactly(c: char)
    ensures IsTrailing(c) <==> c in ".\U{3002}!?;:,'\")]"
  {
    var marks := ".\U{3002}!?;:,'\")]";
    assert marks[0] == '.' && marks[1] == '\U{3002}' && marks[2] == '!' && marks[3] == '?' && marks[4] == ';';
    assert marks[5] == ':' && marks[6] == ',' && marks[7] == '\'' && marks[8] == '"';
    assert marks[9] == ')' && marks[10] == ']';
  }

  /** A list of non-goals is read item by item, in order, and not at all if one line is no item. */
  lemma {:induction false} ItemsExactly(lines: seq<string>, items: seq<string>)
    ensures ItemsOf(lines) == Some(items)
            <==> |items| == |lines| && forall i :: 0 <= i < |lines| ==> ItemText(lines[i]) == Some(items[i])
  {
    if lines == [] {
    } else if items != [] {
      var n := |items| - 1;
      ItemsExactly(lines[..|lines| - 1], items[..n]);
      assert items == items[..n] + [items[n]];
    }
  }

  // ---------- Items without text ----------

  /** A bullet, or a number with its full stop or bracket, and nothing else. */
  predicate BareMarker(m: string) {
    && m != ""
    && var last := m[|m| - 1];
       if |m| == 1 then IsBullet(last)
       else (last == '.' || last == ')') && forall i :: 0 <= i < |m| - 1 ==> IsDigit(m[i])
  }

  lemma MarkerIsVisible(m: string, i: nat)
    requires i < |m| && IsSpace(m[i])
    ensures !BareMarker(m)
  {
  }

  /** An item is its marker, and the title is looked for in what follows. */
  lemma ItemSplits(line: string) returns (m: string, t: string)
    requires ItemText(line).Some?
    ensures BareMarker(m) && TrimStart(line) == m + t && ItemText(line) == Title(t)
  {
    var s := TrimStart(line);
    var k: nat := 0;
    if !IsBullet(s[0]) {
      k := SkipRunIsSuffix(s, IsDigit);
    }
    m, t := s[..k + 1], s[k + 1..];
    assert k > 0 ==> s[k..][1..] == t;
  }

  /** A title is blank exactly if there is nothing but white space where it is looked for. */
  lemma BlankTitle(t: string)
    requires Title(t).Some?
    ensures Blank(Title(t).value) <==> Blank(t)
  {
    if Blank(t) {
      BlankIsAllSpace(t);
      var k := LastDottedIsLast(t[1..]);
      BlankIsAllSpace(Title(t).value);
    } else {
      var k := TrimIsStretch(t);
      TrimmedStays(Trim(t));
    }
  }

  /** The text of an item is blank exactly if its line holds a marker and nothing else. */
  lemma BlankItemExactly(line: string)
    requires ItemText(line).Some?
    ensures Blank(ItemText(line).value) <==> BareMarker(Trim(line))
  {
    var m, t := ItemSplits(line);
    BlankTitle(t);
    if Blank(t) {
      BlankIsAllSpace(t);
      if IsSpace(m[|m| - 1]) {
        MarkerIsVisible(m, |m| - 1);
      }
      TrimEndDropsTrailing(m, t);
      TrimEndStays(m);
    } else {
      TrimEndKeepsVisible(m, t);
      MarkerIsVisible(Trim(line), |m|);
    }
  }

  lemma {:induction false} VisibleExactly(lines: seq<string>, l: string)
    ensures l in Visible(lines) <==> l in lines && !Blank(l)
  {
    if lines != [] {
      VisibleExactly(lines[..|lines| - 1], l);
      assert lines == lines[..|lines| - 1] + [lines[|lines| - 1]];
    }
  }

  /** An accepted list holds an item without text exactly if one of its lines is a bare marker. */
  lemma BlankNonGoalsExactly(body: string)
    requires NonGoalsOf(body).Ok?
    ensures (exists x :: x in NonGoalsOf(body).value && Blank(x))
            <==> exists l :: l in Lines(body) && BareMarker(Trim(l))
  {
    var lines, items := Visible(Lines(body)), NonGoalsOf(body).value;
    ItemsExactly(lines, items);
    if x :| x in items && Blank(x) {
      var i :| 0 <= i < |items| && items[i] == x;
      BlankItemExactly(lines[i]);
      VisibleExactly(Lines(body), lines[i]);
    }
    if l :| l in Lines(body) && BareMarker(Trim(l)) {
      VisibleExactly(Lines(body), l);
      var i :| 0 <= i < |lines| && lines[i] == l;
      BlankItemExactly(l);
      assert items[i] in items;
    }
  }

  lemma VisibleOne(line: string)
    requires !Blank(line)
    ensures Visible([line]) == [line]
  {
    assert Visible([line][..0]) == [];
  }

  lemma BareBulletText()
    ensures ItemText("-  ") == Some(" ")
  {
    assert "-  "[1..] == "  " && "  "[1..] == " ";
    BlankIsAllSpace("  ");
  }

  /** There are such lists: a bullet with two blanks after it is one. */
  lemma BareBulletIsAnItem()
    ensures NonGoalsOf("-  ") == Ok([" "])
  {
    var line := "-  ";
    BareBulletText();
    SplitOfFirst(line, "", '\n');
    VisibleIsNotBlank(line, 0);
    VisibleOne(line);
    ItemsExactly([line], [" "]);
  }

  // ---------- One paragraph ----------

  /** Some line, other than the first and the last, is blank. */
  ghost predicate BlankBetween(lines: seq<string>) {
    exists k :: 0 < k < |lines| - 1 && Blank(lines[k])
  }

  lemma BlankCons(c: char, s: string)
    ensures Blank([c] + s) <==> IsSpace(c) && Blank(s)
  {
    BlankIsAllSpace([c] + s);
    BlankIsAllSpace(s);
    assert ([c] + s)[0] == c && forall i :: 0 <= i < |s| ==> ([c] + s)[i + 1] == s[i];
  }

  lemma {:induction false} BreaksFromFirstLine(s: string)
    ensures BreaksFrom(s) <==> |Lines(s)| > 1 && Blank(Lines(s)[0])
  {
    if s == "" {
    } else if s[0] == '\n' {
    } else {
      BreaksFromFirstLine(s[1..]);
      BlankCons(s[0], Lines(s[1..])[0]);
    }
  }

  lemma BreakStep(s: string)
    requires s != ""
    ensures ParagraphBreak(s) <==> (s[0] == '\n' && BreaksFrom(s[1..])) || ParagraphBreak(s[1..])
  {
    var t := s[1..];
    if ParagraphBreak(t) {
      var i :| 0 <= i < |t| && t[i] == '\n' && BreaksFrom(t[i + 1..]);
      assert s[i + 1] == '\n' && s[i + 1 + 1..] == t[i + 1..];
    }
    if ParagraphBreak(s) {
      var i :| 0 <= i < |s| && s[i] == '\n' && BreaksFrom(s[i + 1..]);
      if i > 0 {
        assert t[i - 1] == '\n' && t[i - 1 + 1..] == s[i + 1..];
      }
    }
  }

  lemma {:induction false} BreakIsBlankLine(s: string)
    ensures ParagraphBreak(s) <==> BlankBetween(Lines(s))
  {
    if s != "" {
      BreakStep(s);
      BreakIsBlankLine(s[1..]);
      BreaksFromFirstLine(s[1..]);
      ShiftBlank(s);
    }
  }

  lemma ShiftBlank(s: string)
    requires s != ""
    ensures var rest := Lines(s[1..]);
            BlankBetween(Lines(s)) <==> BlankBetween(rest) || (s[0] == '\n' && |rest| > 1 && Blank(rest[0]))
  {
    var lines, rest := Lines(s), Lines(s[1..]);
    if s[0] == '\n' {
      assert forall k :: 0 <= k < |rest| ==> lines[k + 1] == rest[k];
      if BlankBetween(lines) {
        var k :| 0 < k < |lines| - 1 && Blank(lines[k]);
        assert lines[k] == rest[k - 1];
      }
    } else {
      assert forall k :: 0 < k < |rest| ==> lines[k] == rest[k];
    }
  }

  lemma EndLinesVisible(s: string)
    requires s != "" && Trimmed(s)
    ensures !Blank(Lines(s)[0]) && !Blank(Lines(s)[|Lines(s)| - 1])
  {
    LastLineVisible(s);
    BlankCons(s[0], Lines(s[1..])[0]);
  }

  lemma {:induction false} LastLineVisible(s: string)
    requires s != "" && !IsSpace(s[|s| - 1])
    ensures !Blank(Lines(s)[|Lines(s)| - 1])
  {
    if |s| == 1 {
      assert s[0] != '\n' && s == [s[0]] + "";
      SplitOfFirst(s, "", '\n');
      BlankCons(s[0], "");
    } else {
      LastLineVisible(s[1..]);
      BlankCons(s[0], Lines(s[1..])[0]);
    }
  }

  /** An exit predicate is accepted exactly if, white space around it aside, it has a line and no blank
      line. */
  lemma ExitIsOneParagraph(body: string)
    ensures ExitOf(body).Ok? <==> Trim(body) != "" && forall l :: l in Lines(Trim(body)) ==> !Blank(l)
    ensures ExitOf(body).Ok? ==> ExitOf(body).value == Trim(body)
  {
    var text := Trim(body);
    if text != "" {
      var k := TrimIsStretch(body);
      EndLinesVisible(text);
      BreakIsBlankLine(text);
      if exists l :: l in Lines(text) && Blank(l) {
        var i :| 0 <= i < |Lines(text)| && Blank(Lines(text)[i]);
        assert 0 < i < |Lines(text)| - 1;
      }
    }
  }
}
