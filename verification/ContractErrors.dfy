/** Why a description does not compile: each error with what is wrong where. */
module ContractErrors {
  import opened ContractCriteria
  import opened ContractParts
  import opened CriteriaPrinting
  import opened ExecutionContract
  import opened LineSections
  import opened MarkdownLines
  import opened Options
  import opened SectionTable
  import opened Text

  // ---------- Criteria ----------

  /** The lines spell these criteria, stated and told apart. */
  ghost predicate Accepted(kinds: seq<LineKind>, cs: seq<Criterion>, lower: string -> string) {
    WithoutBlanks(kinds) == Spelled(cs) && AllStated(cs) && Distinct(cs, lower)
  }

  /** What is wrong with a line after the criteria `cs`. */
  ghost predicate LineFault(cs: seq<Criterion>, kind: LineKind, e: CriteriaError, lower: string -> string) {
    || (kind == Checkbox("") && e == NoText)
    || (kind.Checkbox? && kind.text != "" && e == Duplicate
        && exists c :: c in cs && CriterionKey(c.text, lower) == CriterionKey(kind.text, lower))
    || (kind.Evidence? && cs == [] && e == EvidenceFirst)
    || (kind.Evidence? && cs != [] && cs[|cs| - 1].evidence.Some? && e == SecondEvidence)
    || (kind == Evidence("") && cs != [] && cs[|cs| - 1].evidence == None && e == EmptyEvidence)
    || (kind == Other(true) && e == PlainBullet)
    || (kind == Other(false) && e == Unexpected)
  }

  lemma LineFaultExactly(cs: seq<Criterion>, kind: LineKind, e: CriteriaError, lower: string -> string)
    ensures AddLine(cs, kind, lower) == Err(e) <==> LineFault(cs, kind, e, lower)
  {
    if kind.Checkbox? {
      var key := CriterionKey(kind.text, lower);
      assert HasKey(cs, key, lower) <==> exists c :: c in cs && CriterionKey(c.text, lower) == key by {
        if c :| c in cs && CriterionKey(c.text, lower) == key {
          var i :| 0 <= i < |cs| && cs[i] == c;
        }
      }
    }
  }

  /** The line `k` is the first that does not go with those before it. */
  ghost predicate FaultAt(kinds: seq<LineKind>, k: nat, cs: seq<Criterion>, e: CriteriaError, lower: string -> string) {
    k < |kinds| && Accepted(kinds[..k], cs, lower) && LineFault(cs, kinds[k], e, lower)
  }

  /** Criteria are refused with the error of the first line that does not go with those before it. */
  lemma {:induction false} CriteriaErrorsExactly(kinds: seq<LineKind>, e: CriteriaError, lower: string -> string)
    ensures CriteriaOf(kinds, lower) == Err(e) <==> exists k: nat, cs :: FaultAt(kinds, k, cs, e, lower)
  {
    if kinds != [] {
      var n := |kinds| - 1;
      var shorter := kinds[..n];
      CriteriaErrorsExactly(shorter, e, lower);
      assert forall k: nat, cs :: FaultAt(shorter, k, cs, e, lower) ==> FaultAt(kinds, k, cs, e, lower) by {
        forall k: nat, cs | FaultAt(shorter, k, cs, e, lower) ensures FaultAt(kinds, k, cs, e, lower) {
          assert shorter[..k] == kinds[..k];
        }
      }
      if CriteriaOf(shorter, lower).Ok? {
        var before := CriteriaOf(shorter, lower).value;
        AcceptsExactly(shorter, before, lower);
        LineFaultExactly(before, kinds[n], e, lower);
        if LineFault(before, kinds[n], e, lower) {
          assert FaultAt(kinds, n, before, e, lower);
        }
      }
      forall k: nat, cs | FaultAt(kinds, k, cs, e, lower) ensures CriteriaOf(kinds, lower) == Err(e) {
        FaultStays(kinds, k, cs, e, lower);
      }
    }
  }

  lemma {:induction false} FaultStays(kinds: seq<LineKind>, k: nat, cs: seq<Criterion>, e: CriteriaError,
                                      lower: string -> string)
    requires FaultAt(kinds, k, cs, e, lower)
    ensures CriteriaOf(kinds, lower) == Err(e)
  {
    if k == |kinds| - 1 {
      AcceptsExactly(kinds[..k], cs, lower);
      LineFaultExactly(cs, kinds[k], e, lower);
    } else {
      var shorter := kinds[..|kinds| - 1];
      assert shorter[..k] == kinds[..k];
      FaultStays(shorter, k, cs, e, lower);
    }
  }

  // ---------- The parts ----------

  /** What is wrong with the text of a section. */
  ghost predicate Fault(key: Key, body: string, e: ContractError, lower: string -> string) {
    match key
    case ExecutionModeKey =>
      || (|Visible(Lines(body))| != 1 && e == ModeLines(|Visible(Lines(body))|))
      || (e == UnknownMode && exists line :: Visible(Lines(body)) == [line] && NormalizedMode(Trim(line)) == None)
    case NonGoalsKey =>
      || (e == NotAList && exists l :: l in Lines(body) && !Blank(l) && ItemText(l) == None)
      || (e == NoNonGoals && forall l :: l in Lines(body) ==> Blank(l))
    case ExitPredicateKey =>
      || (e == EmptyExit && Blank(body))
      || (e == ManyParagraphs && !Blank(body) && exists l :: l in Lines(Trim(body)) && Blank(l))
    case StoppingPointKey => e == EmptyStop && Blank(body)
    case CriteriaKey =>
      || (e.BadCriteria? && exists k: nat, cs :: FaultAt(Kinds(Lines(body)), k, cs, e.error, lower))
      || (e == BadCriteria(NoCriteria) && Accepted(Kinds(Lines(body)), [], lower))
  }

  /** What the parser of the section makes of its text is this error. */
  ghost predicate Refuses(key: Key, body: string, e: ContractError, lower: string -> string) {
    match key
    case ExecutionModeKey => ModeOf(body) == Err(e)
    case NonGoalsKey => NonGoalsOf(body) == Err(e)
    case ExitPredicateKey => ExitOf(body) == Err(e)
    case StoppingPointKey => StopOf(body) == Err(e)
    case CriteriaKey => CriteriaSection(body, lower) == Err(e)
  }

  lemma NoItemsExactly(lines: seq<string>)
    ensures ItemsOf(lines) == None <==> exists l :: l in lines && ItemText(l) == None
    ensures ItemsOf(lines) == Some([]) <==> lines == []
  {
    ItemsExactly(lines, []);
    ItemsExactly(lines, seq(|lines|, i requires 0 <= i < |lines| => ItemText(lines[i]).UnwrapOr("")));
    if ItemsOf(lines).Some? {
      ItemsExactly(lines, ItemsOf(lines).value);
    }
  }

  lemma VisibleLines(all: seq<string>)
    ensures Visible(all) == [] <==> forall l :: l in all ==> Blank(l)
    ensures (exists l :: l in Visible(all) && ItemText(l) == None)
            <==> exists l :: l in all && !Blank(l) && ItemText(l) == None
  {
    forall l ensures l in Visible(all) <==> l in all && !Blank(l) {
      VisibleExactly(all, l);
    }
    assert Visible(all) != [] ==> Visible(all)[0] in Visible(all);
  }

  lemma NonGoalFaults(body: string, e: ContractError, lower: string -> string)
    ensures NonGoalsOf(body) == Err(e) <==> Fault(NonGoalsKey, body, e, lower)
  {
    VisibleLines(Lines(body));
    NoItemsExactly(Visible(Lines(body)));
  }

  lemma ModeFaults(body: string, e: ContractError, lower: string -> string)
    ensures ModeOf(body) == Err(e) <==> Fault(ExecutionModeKey, body, e, lower)
  {
    var lines := Visible(Lines(body));
    assert |lines| == 1 ==> lines == [lines[0]];
  }

  lemma CriteriaFaults(body: string, e: ContractError, lower: string -> string)
    ensures CriteriaSection(body, lower) == Err(e) <==> Fault(CriteriaKey, body, e, lower)
  {
    AcceptsExactly(Kinds(Lines(body)), [], lower);
    if e.BadCriteria? {
      CriteriaErrorsExactly(Kinds(Lines(body)), e.error, lower);
    }
    CriteriaOrNone(Kinds(Lines(body)), lower);
  }

  lemma {:induction false} CriteriaOrNone(kinds: seq<LineKind>, lower: string -> string)
    ensures CriteriaOf(kinds, lower) != Err(NoCriteria)
  {
    if kinds != [] {
      CriteriaOrNone(kinds[..|kinds| - 1], lower);
    }
  }

  /** A section is refused with an error exactly if that is what is wrong with its text. */
  lemma FaultExactly(key: Key, body: string, e: ContractError, lower: string -> string)
    ensures Refuses(key, body, e, lower) <==> Fault(key, body, e, lower)
  {
    match key {
      case ExecutionModeKey => ModeFaults(body, e, lower);
      case NonGoalsKey => NonGoalFaults(body, e, lower);
      case ExitPredicateKey => ExitIsOneParagraph(body);
      case StoppingPointKey =>
      case CriteriaKey => CriteriaFaults(body, e, lower);
    }
  }

  // ---------- The first error ----------

  /** The order in which the sections are read. */
  function Nth(n: nat): Key {
    if n == 0 then ExecutionModeKey else if n == 1 then NonGoalsKey else if n == 2 then ExitPredicateKey
    else if n == 3 then StoppingPointKey else CriteriaKey
  }

  ghost predicate TableFault(found: map<Key, string>, key: Key, e: ContractError, lower: string -> string) {
    if key in found then Refuses(key, found[key], e, lower) else e == MissingSection(key)
  }

  ghost predicate FirstFault(found: map<Key, string>, n: nat, e: ContractError, lower: string -> string) {
    && n < 5 && TableFault(found, Nth(n), e, lower)
    && forall m: nat, x :: m < n ==> !TableFault(found, Nth(m), x, lower)
  }

  lemma PartFails<T>(found: map<Key, string>, key: Key, parse: string -> Result<T, ContractError>, e: ContractError)
    ensures Part(found, key, parse) == Err(e)
            <==> if key in found then parse(found[key]) == Err(e) else e == MissingSection(key)
  {
  }

  lemma PartsFail(found: map<Key, string>, e: ContractError, lower: string -> string)
    ensures TableFault(found, Nth(0), e, lower) <==> Part(found, ExecutionModeKey, ModeOf) == Err(e)
    ensures TableFault(found, Nth(1), e, lower) <==> Part(found, NonGoalsKey, NonGoalsOf) == Err(e)
    ensures TableFault(found, Nth(2), e, lower) <==> Part(found, ExitPredicateKey, ExitOf) == Err(e)
    ensures TableFault(found, Nth(3), e, lower) <==> Part(found, StoppingPointKey, StopOf) == Err(e)
    ensures TableFault(found, Nth(4), e, lower) <==> CriteriaPart(found, lower) == Err(e)
  {
    PartFails(found, ExecutionModeKey, ModeOf, e);
    PartFails(found, NonGoalsKey, NonGoalsOf, e);
    PartFails(found, ExitPredicateKey, ExitOf, e);
    PartFails(found, StoppingPointKey, StopOf, e);
  }

  lemma AllPartsFail(found: map<Key, string>, lower: string -> string)
    ensures forall x :: TableFault(found, Nth(0), x, lower) <==> Part(found, ExecutionModeKey, ModeOf) == Err(x)
    ensures forall x :: TableFault(found, Nth(1), x, lower) <==> Part(found, NonGoalsKey, NonGoalsOf) == Err(x)
    ensures forall x :: TableFault(found, Nth(2), x, lower) <==> Part(found, ExitPredicateKey, ExitOf) == Err(x)
    ensures forall x :: TableFault(found, Nth(3), x, lower) <==> Part(found, StoppingPointKey, StopOf) == Err(x)
    ensures forall x :: TableFault(found, Nth(4), x, lower) <==> CriteriaPart(found, lower) == Err(x)
  {
    forall x
      ensures TableFault(found, Nth(0), x, lower) <==> Part(found, ExecutionModeKey, ModeOf) == Err(x)
      ensures TableFault(found, Nth(1), x, lower) <==> Part(found, NonGoalsKey, NonGoalsOf) == Err(x)
      ensures TableFault(found, Nth(2), x, lower) <==> Part(found, ExitPredicateKey, ExitOf) == Err(x)
      ensures TableFault(found, Nth(3), x, lower) <==> Part(found, StoppingPointKey, StopOf) == Err(x)
      ensures TableFault(found, Nth(4), x, lower) <==> CriteriaPart(found, lower) == Err(x)
    {
      PartsFail(found, x, lower);
    }
  }

  lemma FailsFirst(found: map<Key, string>, n: nat, e: ContractError, lower: string -> string)
    requires FirstFault(found, n, e, lower)
    ensures CompileContract(found, lower) == Err(e)
  {
    AllPartsFail(found, lower);
    assert n == 0 || n == 1 || n == 2 || n == 3 || n == 4;
    assert n > 0 ==> Part(found, ExecutionModeKey, ModeOf).Ok?;
    assert n > 1 ==> Part(found, NonGoalsKey, NonGoalsOf).Ok?;
    assert n > 2 ==> Part(found, ExitPredicateKey, ExitOf).Ok?;
    assert n > 3 ==> Part(found, StoppingPointKey, StopOf).Ok?;
  }

  lemma FirstFails(found: map<Key, string>, e: ContractError, lower: string -> string) returns (n: nat)
    requires CompileContract(found, lower) == Err(e)
    ensures FirstFault(found, n, e, lower)
  {
    PartsFail(found, e, lower);
    n := if Part(found, ExecutionModeKey, ModeOf).Err? then 0
         else if Part(found, NonGoalsKey, NonGoalsOf).Err? then 1
         else if Part(found, ExitPredicateKey, ExitOf).Err? then 2
         else if Part(found, StoppingPointKey, StopOf).Err? then 3 else 4;
    forall m: nat, x | m < n ensures !TableFault(found, Nth(m), x, lower) {
      PartsFail(found, x, lower);
      assert m == 0 || m == 1 || m == 2 || m == 3;
    }
  }

  // ---------- Descriptions ----------

  /** The section with this heading is missing, or there is something wrong with its text. */
  ghost predicate SectionFault(sections: seq<Section>, keyOf: Section -> Option<Key>, key: Key, e: ContractError,
                               lower: string -> string)
  {
    || (e == MissingSection(key) && !HasHeading(sections, key, keyOf))
    || exists i :: Heads(sections, i, key, keyOf) && Fault(key, JoinLines(sections[i].body), e, lower)
  }

  lemma FaultInTable(sections: seq<Section>, found: map<Key, string>, key: Key, e: ContractError,
                     keyOf: Section -> Option<Key>, lower: string -> string)
    requires Find(Entries(sections, keyOf)) == Ok(found)
    ensures SectionFault(sections, keyOf, key, e, lower) <==> TableFault(found, key, e, lower)
  {
    FindsExactly(Entries(sections, keyOf));
    EntriesAreHeadings(sections, key, keyOf);
    forall i | Heads(sections, i, key, keyOf) ensures key in found && found[key] == JoinLines(sections[i].body) {
      var j := HeadingIsEntry(sections, i, key, keyOf);
    }
    if key in found {
      FaultExactly(key, found[key], e, lower);
    }
  }

  /** The first of the five sections that is missing or faulty, in the order in which they are read. */
  ghost predicate FirstSectionFault(sections: seq<Section>, keyOf: Section -> Option<Key>, n: nat, e: ContractError,
                                    lower: string -> string)
  {
    && n < 5 && SectionFault(sections, keyOf, Nth(n), e, lower)
    && forall m: nat, x :: m < n ==> !SectionFault(sections, keyOf, Nth(m), x, lower)
  }

  lemma FoundOf(sections: seq<Section>, keyOf: Section -> Option<Key>, lower: string -> string)
    returns (found: map<Key, string>)
    requires NoneTwice(sections, keyOf) && Signals(sections, keyOf)
    ensures Find(Entries(sections, keyOf)) == Ok(found)
    ensures forall e :: CompileSections(sections, keyOf, lower) == Err(e) <==> CompileContract(found, lower) == Err(e)
  {
    TableExactly(sections, keyOf);
    FindsExactly(Entries(sections, keyOf));
    found := Find(Entries(sections, keyOf)).value;
    SignalsInTable(sections, found, keyOf);
    assert HasSignal(found) && found != map[];
  }

  /** With a signal heading and no heading twice, compiling fails exactly with what is wrong with the first
      section that is missing or faulty. */
  lemma ErrorsExactly(sections: seq<Section>, keyOf: Section -> Option<Key>, lower: string -> string, e: ContractError)
    requires NoneTwice(sections, keyOf) && Signals(sections, keyOf)
    ensures CompileSections(sections, keyOf, lower) == Err(e)
            <==> exists n :: FirstSectionFault(sections, keyOf, n, e, lower)
  {
    var found := FoundOf(sections, keyOf, lower);
    forall key, x ensures SectionFault(sections, keyOf, key, x, lower) <==> TableFault(found, key, x, lower) {
      FaultInTable(sections, found, key, x, keyOf, lower);
    }
    if CompileContract(found, lower) == Err(e) {
      var n := FirstFails(found, e, lower);
      assert FirstSectionFault(sections, keyOf, n, e, lower);
    }
    if n :| FirstSectionFault(sections, keyOf, n, e, lower) {
      assert FirstFault(found, n, e, lower);
      FailsFirst(found, n, e, lower);
    }
  }

  // ---------- Headings that come twice ----------

  /** The section `j` has the heading of an earlier one. */
  ghost predicate ComesAgain(sections: seq<Section>, keyOf: Section -> Option<Key>, j: int, key: Key) {
    Heads(sections, j, key, keyOf) && exists i :: i < j && Heads(sections, i, key, keyOf)
  }

  ghost predicate FirstAgain(sections: seq<Section>, keyOf: Section -> Option<Key>, j: int, key: Key) {
    ComesAgain(sections, keyOf, j, key) && forall i, x :: i < j ==> !ComesAgain(sections, keyOf, i, x)
  }

  lemma TwiceIsAgain(sections: seq<Section>, keyOf: Section -> Option<Key>)
    ensures NoneTwice(sections, keyOf) <==> forall j, key :: !ComesAgain(sections, keyOf, j, key)
  {
    forall i, j, key | Heads(sections, i, key, keyOf) && Heads(sections, j, key, keyOf) && i != j
      ensures ComesAgain(sections, keyOf, i, key) || ComesAgain(sections, keyOf, j, key) {
    }
  }

  lemma AgainInPrefix(sections: seq<Section>, n: nat, keyOf: Section -> Option<Key>, j: int, key: Key)
    requires j < n <= |sections|
    ensures ComesAgain(sections[..n], keyOf, j, key) <==> ComesAgain(sections, keyOf, j, key)
    ensures FirstAgain(sections[..n], keyOf, j, key) <==> FirstAgain(sections, keyOf, j, key)
  {
    forall i, x | i < n ensures Heads(sections[..n], i, x, keyOf) <==> Heads(sections, i, x, keyOf) {
    }
    forall i, x | i < n ensures ComesAgain(sections[..n], keyOf, i, x) <==> ComesAgain(sections, keyOf, i, x) {
    }
  }

  /** The heading that is named as the duplicate is that of the first section with the heading of an earlier
      one. */
  lemma {:induction false} DuplicateIsFirst(sections: seq<Section>, keyOf: Section -> Option<Key>)
    ensures forall key :: Find(Entries(sections, keyOf)) == Err(key) ==> exists j :: FirstAgain(sections, keyOf, j, key)
  {
    if sections != [] {
      var n := |sections| - 1;
      var shorter := sections[..n];
      if Find(Entries(shorter, keyOf)).Err? {
        FindStep(Entries(shorter, keyOf), EntryOf(sections[n], keyOf));
        DuplicateIsFirst(shorter, keyOf);
        var key := Find(Entries(shorter, keyOf)).error;
        var j :| FirstAgain(shorter, keyOf, j, key);
        AgainInPrefix(sections, n, keyOf, j, key);
      } else if Find(Entries(sections, keyOf)).Err? {
        AgainAtTheEnd(sections, keyOf);
      }
    }
  }

  lemma AgainAtTheEnd(sections: seq<Section>, keyOf: Section -> Option<Key>)
    requires sections != [] && Find(Entries(sections[..|sections| - 1], keyOf)).Ok?
    requires Find(Entries(sections, keyOf)).Err?
    ensures FirstAgain(sections, keyOf, |sections| - 1, Find(Entries(sections, keyOf)).error)
  {
    var n := |sections| - 1;
    var shorter := sections[..n];
    TableExactly(shorter, keyOf);
    TwiceIsAgain(shorter, keyOf);
    assert sections[..n + 1] == sections;
    FindAppend(sections, n, keyOf);
    var key := Find(Entries(sections, keyOf)).error;
    FindsExactly(Entries(shorter, keyOf));
    EntriesAreHeadings(shorter, key, keyOf);
    var i :| Heads(shorter, i, key, keyOf);
    assert Heads(sections, i, key, keyOf);
    forall i, x | i < n ensures !ComesAgain(sections, keyOf, i, x) {
      AgainInPrefix(sections, n, keyOf, i, x);
    }
  }

  /** So a description with a heading that comes twice is refused for the first one that does. */
  lemma DuplicatesAreNamed(sections: seq<Section>, keyOf: Section -> Option<Key>, lower: string -> string)
    requires !NoneTwice(sections, keyOf)
    ensures exists j, key ::
              FirstAgain(sections, keyOf, j, key)
                  && CompileSections(sections, keyOf, lower) == Err(DuplicateSection(key))
  {
    TableExactly(sections, keyOf);
    DuplicateIsFirst(sections, keyOf);
    var key := Find(Entries(sections, keyOf)).error;
    var j :| FirstAgain(sections, keyOf, j, key);
  }

  lemma FirstAgainIsUnique(sections: seq<Section>, keyOf: Section -> Option<Key>, i: int, x: Key, j: int, y: Key)
    requires FirstAgain(sections, keyOf, i, x) && FirstAgain(sections, keyOf, j, y)
    ensures i == j && x == y
  {
  }
}
