/** The `##` sections of a ticket description, and the table of the five canonical headings. */
module ContractSections {
  import opened LineSections
  import opened MarkdownLines
  import opened Options
  import opened SectionTable
  import opened Text
  import opened Words

  predicate IsHeading(line: string) {
    HeadingText(line).Some?
  }

  function SectionName(s: Section): string {
    Trim(HeadingText(s.head).UnwrapOr(""))
  }

  method SplitSections(description: string) returns (sections: seq<Section>)
    ensures sections == Sections(Lines(description), IsHeading)
  {
    var lines := Lines(description);
    sections := [];
    var current: Option<Section> := None;
    var k := 0;
    while k < |lines|
      invariant 0 <= k <= |lines|
      invariant current == None ==> sections == []
      invariant Sections(lines[..k], IsHeading) == sections + if current.Some? then [current.value] else []
    {
      assert lines[..k + 1] == lines[..k] + [lines[k]];
      SplitStep(lines[..k], lines[k], IsHeading);
      if IsHeading(lines[k]) {
        if current.Some? {
          sections := sections + [current.value];
        }
        current := Some(Section(lines[k], []));
      } else if current.Some? {
        current := Some(Section(current.value.head, current.value.body + [lines[k]]));
      }
      k := k + 1;
    }
    assert lines[..k] == lines;
    if current.Some? {
      sections := sections + [current.value];
    }
  }

  // ---------- The five headings ----------

  predicate IsDash(c: char) {
    c == '-' || c == '_'
  }

  function Normalized(raw: string): string {
    Trim(Squeeze(Squeeze(Lower(Trim(raw)), IsDash), IsSpace))
  }

  /** The table of the five canonical names. */
  function KeyNamed(name: string): Option<Key> {
    if name == "builder execution mode" then Some(ExecutionModeKey)
    else if name == "non goals" then Some(NonGoalsKey)
    else if name == "exit predicate" then Some(ExitPredicateKey)
    else if name == "one pr stopping point" then Some(StoppingPointKey)
    else if name == "acceptance criteria" then Some(CriteriaKey)
    else None
  }

  function KeyOf(s: Section): Option<Key> {
    KeyNamed(Normalized(SectionName(s)))
  }

  // ---------- How names are read ----------

  /** What may stand between the words of a name. */
  predicate IsJoin(c: char) {
    IsSpace(c) || IsDash(c)
  }

  lemma JoinExactly(c: char)
    ensures IsJoin(c) <==> IsSpace(c) || c == '-' || c == '_'
    ensures IsJoin(LowerChar(c)) <==> IsJoin(c)
  {
  }

  function Lowered(words: seq<string>): seq<string> {
    seq(|words|, i requires 0 <= i < |words| => Lower(words[i]))
  }

  lemma {:induction false} LowerWeave(words: seq<string>, joins: seq<string>)
    requires words != [] && |joins| == |words| - 1
    ensures Lower(Weave(words, joins)) == Weave(Lowered(words), Lowered(joins))
  {
    if |words| > 1 {
      LowerWeave(words[1..], joins[1..]);
      assert Lowered(words)[1..] == Lowered(words[1..]) && Lowered(joins)[1..] == Lowered(joins[1..]);
      LowerAppend(joins[0], Weave(words[1..], joins[1..]));
      LowerAppend(words[0], joins[0] + Weave(words[1..], joins[1..]));
    }
  }

  lemma LowerAppend(a: string, b: string)
    ensures Lower(a + b) == Lower(a) + Lower(b)
  {
  }

  lemma LowerKeepsJoins(s: string)
    ensures NoneOf(s, IsJoin) ==> NoneOf(Lower(s), IsJoin)
    ensures AllOf(s, IsJoin) ==> AllOf(Lower(s), IsJoin)
  {
    forall i | 0 <= i < |s| ensures IsJoin(Lower(s)[i]) <==> IsJoin(s[i]) {
      JoinExactly(s[i]);
    }
  }

  lemma LoweredAreWords(words: seq<string>, joins: seq<string>)
    requires AreWords(words, IsJoin) && AreJoins(joins, IsJoin)
    ensures AreWords(Lowered(words), IsJoin) && AreJoins(Lowered(joins), IsJoin)
  {
    forall i | 0 <= i < |words| ensures NoneOf(Lower(words[i]), IsJoin) {
      LowerKeepsJoins(words[i]);
    }
    forall i | 0 <= i < |joins| ensures AllOf(Lower(joins[i]), IsJoin) {
      LowerKeepsJoins(joins[i]);
    }
  }

  /** Squeezing first the dashes and then the blanks leaves one blank between any two words, and nothing but
      blanks around them. */
  lemma JoinsAreSqueezed(lead: string, words: seq<string>, joins: seq<string>, trail: string)
    returns (l: string, t: string)
    requires AllOf(lead, IsJoin) && AllOf(trail, IsJoin)
    requires AreWords(words, IsJoin) && AreJoins(joins, IsJoin) && |joins| == |words| - 1
    ensures Squeeze(Squeeze(lead + (Weave(words, joins) + trail), IsDash), IsSpace) == l + (Spaced(words) + t)
    ensures AllOf(l, IsSpace) && AllOf(t, IsSpace)
  {
    assert AreWords(words, IsDash) && AreWords(words, IsSpace);
    WeaveEnds(words, joins);
    SqueezeWeave(words, joins, trail, IsDash);
    SqueezeAppend(lead, Weave(words, joins) + trail, IsDash);
    var single := SqueezeEach(joins, IsDash);
    forall i | 0 <= i < |single| ensures single[i] != "" && AllOf(single[i], IsSpace) {
      SqueezeKeeps(joins[i], IsDash, IsSpace);
    }
    var before, after := Squeeze(lead, IsDash), Squeeze(trail, IsDash);
    SqueezeKeeps(lead, IsDash, IsSpace);
    SqueezeKeeps(trail, IsDash, IsSpace);
    WeaveEnds(words, single);
    SqueezeIsSpaced(words, single, after, IsSpace);
    SqueezeAppend(before, Weave(words, single) + after, IsSpace);
    l, t := Squeeze(before, IsSpace), Squeeze(after, IsSpace);
    SqueezeAll(before, IsSpace);
    SqueezeAll(after, IsSpace);
  }

  lemma SpacedIsTrimmed(words: seq<string>)
    requires AreWords(words, IsJoin)
    ensures Spaced(words) != "" && Trimmed(Spaced(words))
  {
    WeaveEnds(words, Blanks(|words| - 1));
  }

  /** A name is its words in lower case with one blank between any two: case does not matter, nor how many
      blanks, dashes and underscores join the words or stand around them. */
  lemma NormalizedExactly(lead: string, words: seq<string>, joins: seq<string>, trail: string)
    requires AllOf(lead, IsJoin) && AllOf(trail, IsJoin)
    requires AreWords(words, IsJoin) && AreJoins(joins, IsJoin) && |joins| == |words| - 1
    ensures Normalized(lead + (Weave(words, joins) + trail)) == Spaced(Lowered(words))
  {
    WeaveEnds(words, joins);
    var l, t := TrimFrame(lead, Weave(words, joins), trail, IsJoin);
    LowerAppend(Weave(words, joins), t);
    LowerAppend(l, Weave(words, joins) + t);
    LowerWeave(words, joins);
    LowerKeepsJoins(l);
    LowerKeepsJoins(t);
    LoweredAreWords(words, joins);
    var l2, t2 := JoinsAreSqueezed(Lower(l), Lowered(words), Lowered(joins), Lower(t));
    SpacedIsTrimmed(Lowered(words));
    BlankIsAllSpace(l2);
    BlankIsAllSpace(t2);
    var l3, t3 := TrimFrame(l2, Spaced(Lowered(words)), t2, IsSpace);
    assert "" + (Spaced(Lowered(words)) + "") == Spaced(Lowered(words));
  }

  lemma HeadingOf(s: string)
    requires s != "" && Trimmed(s) && Dotted(s)
    ensures HeadingText("## " + s) == Some(s)
  {
    var line := "## " + s;
    assert line[2..] == " " + s && (" " + s)[0] == ' ';
    TrimDropsLeading(" ", s);
    TrimmedStays(s);
  }

  /** The words of the five headings. */
  function KeyWords(key: Key): seq<string> {
    match key
    case ExecutionModeKey => ["builder", "execution", "mode"]
    case NonGoalsKey => ["non", "goals"]
    case ExitPredicateKey => ["exit", "predicate"]
    case StoppingPointKey => ["one", "pr", "stopping", "point"]
    case CriteriaKey => ["acceptance", "criteria"]
  }

  lemma SpacedOnce(word: string, words: seq<string>, rest: string)
    requires words != [] && Spaced(words) == rest
    ensures Spaced([word] + words) == word + " " + rest
  {
    SpacedStarts([word] + words);
    assert ([word] + words)[1..] == words;
  }

  function NameOf(key: Key): string {
    match key
    case ExecutionModeKey => "builder execution mode"
    case NonGoalsKey => "non goals"
    case ExitPredicateKey => "exit predicate"
    case StoppingPointKey => "one pr stopping point"
    case CriteriaKey => "acceptance criteria"
  }

  lemma ModeName()
    ensures Spaced(["builder", "execution", "mode"]) == "builder execution mode"
  {
    SpacedOnce("execution", ["mode"], "mode");
    assert "execution" + " " + "mode" == "execution mode";
    SpacedOnce("builder", ["execution", "mode"], "execution mode");
    assert "builder" + " " + "execution mode" == "builder execution mode";
  }

  lemma StoppingName()
    ensures Spaced(["one", "pr", "stopping", "point"]) == "one pr stopping point"
  {
    SpacedOnce("stopping", ["point"], "point");
    assert "stopping" + " " + "point" == "stopping point";
    SpacedOnce("pr", ["stopping", "point"], "stopping point");
    assert "pr" + " " + "stopping point" == "pr stopping point";
    SpacedOnce("one", ["pr", "stopping", "point"], "pr stopping point");
    assert "one" + " " + "pr stopping point" == "one pr stopping point";
  }

  lemma TwoWords(a: string, b: string, name: string)
    requires a + " " + b == name
    ensures Spaced([a, b]) == name
  {
    SpacedOnce(a, [b], b);
  }

  lemma NameIsSpaced(key: Key)
    ensures Spaced(KeyWords(key)) == NameOf(key)
  {
    match key
    case ExecutionModeKey => ModeName();
    case NonGoalsKey => TwoWords("non", "goals", "non goals");
    case ExitPredicateKey => TwoWords("exit", "predicate", "exit predicate");
    case StoppingPointKey => StoppingName();
    case CriteriaKey => TwoWords("acceptance", "criteria", "acceptance criteria");
  }

  lemma TableIsNames(name: string, key: Key)
    ensures KeyNamed(name) == Some(key) <==> name == NameOf(key)
  {
    assert "builder execution mode"[0] == 'b' && "non goals"[0] == 'n' && "exit predicate"[0] == 'e';
    assert "one pr stopping point"[0] == 'o' && "acceptance criteria"[0] == 'a';
  }

  /** The words are spelt like the names, one by one and in any case. */
  ghost predicate SpeltWords(words: seq<string>, names: seq<string>) {
    |words| == |names| && forall i :: 0 <= i < |words| ==> SpeltLike(words[i], names[i])
  }

  lemma LoweredExactly(words: seq<string>, names: seq<string>)
    requires forall i :: 0 <= i < |names| ==> IsLower(names[i])
    ensures Lowered(words) == names <==> SpeltWords(words, names)
  {
    forall i | 0 <= i < |words| && i < |names|
      ensures Lowered(words)[i] == names[i] <==> SpeltLike(words[i], names[i])
    {
      LowerExactly(words[i], names[i]);
    }
  }

  /** Words are read as the names exactly if they are spelt like them. */
  lemma SpellingIsRead(words: seq<string>, names: seq<string>)
    requires AreWords(words, IsJoin) && AreWords(names, c => c == ' ')
    requires forall i :: 0 <= i < |names| ==> IsLower(names[i])
    ensures Spaced(Lowered(words)) == Spaced(names) <==> SpeltWords(words, names)
  {
    LoweredAreWords(words, []);
    LoweredExactly(words, names);
    assert forall i :: 0 <= i < |words| ==> NoneOf(Lowered(words)[i], c => c == ' ');
    if Spaced(Lowered(words)) == Spaced(names) {
      SpacedTellsApart(Lowered(words), names);
    }
  }

  lemma KeyWordsAreLower(key: Key)
    ensures forall i :: 0 <= i < |KeyWords(key)| ==> IsLower(KeyWords(key)[i])
  {
  }

  lemma KeyWordsAreWords(key: Key)
    ensures AreWords(KeyWords(key), c => c == ' ')
  {
  }

  /** A heading is that of a section exactly if its words are the words of that section's heading, in any
      case, whatever blanks, dashes and underscores join them. */
  lemma HeadingsAreNamed(lead: string, words: seq<string>, joins: seq<string>, trail: string, body: seq<string>,
                         key: Key)
    requires AllOf(lead, IsJoin) && AllOf(trail, IsJoin)
    requires AreWords(words, IsJoin) && AreJoins(joins, IsJoin) && |joins| == |words| - 1
    requires var s := lead + (Weave(words, joins) + trail); Trimmed(s) && Dotted(s)
    ensures var s := lead + (Weave(words, joins) + trail);
            IsHeading("## " + s) && (KeyOf(Section("## " + s, body)) == Some(key) <==> SpeltWords(words, KeyWords(key)))
  {
    var s := lead + (Weave(words, joins) + trail);
    WeaveEnds(words, joins);
    HeadingOf(s);
    TrimmedStays(s);
    NormalizedExactly(lead, words, joins, trail);
    NameIsSpaced(key);
    TableIsNames(Spaced(Lowered(words)), key);
    KeyWordsAreLower(key);
    KeyWordsAreWords(key);
    SpellingIsRead(words, KeyWords(key));
  }

  method FindSections(sections: seq<Section>) returns (r: Result<map<Key, string>, Key>)
    ensures r == Find(Entries(sections, KeyOf))
  {
    var found: map<Key, string> := map[];
    var k := 0;
    while k < |sections|
      invariant 0 <= k <= |sections| && Find(Entries(sections[..k], KeyOf)) == Ok(found)
    {
      FindAppend(sections, k, KeyOf);
      var key := KeyOf(sections[k]);
      if key.Some? {
        if key.value in found {
          return Err(key.value);
        }
        found := found[key.value := JoinLines(sections[k].body)];
      }
      k := k + 1;
    }
    assert sections[..k] == sections;
    return Ok(found);
  }
}
