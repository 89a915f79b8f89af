/** Compiling a ticket description into its execution contract. */
module ExecutionContract {
  import opened ContractCriteria
  import opened ContractParts
  import opened ContractSections
  import opened CriteriaPrinting
  import opened LineSections
  import opened MarkdownLines
  import opened Options
  import opened SectionTable
  import opened Text

  datatype Contract = Contract(mode: ExecutionMode, nonGoals: seq<string>, exitPredicate: string,
                               stoppingPoint: string, criteria: seq<Criterion>)

  datatype Compiled = Compiled(contract: Option<Contract>, acceptanceCriteria: Option<string>,
                               hasContractHeadings: bool)

  // ---------- The whole ----------

  function Part<T>(found: map<Key, string>, key: Key,
                   parse: string -> Result<T, ContractError>): Result<T, ContractError>
  {
    if key !in found then Err(MissingSection(key)) else parse(found[key])
  }

  /** The contract of its five parts, or the first of their errors. */
  function Assembled(mode: Result<ExecutionMode, ContractError>, nonGoals: Result<seq<string>, ContractError>,
                     exit: Result<string, ContractError>, stop: Result<string, ContractError>,
                     criteria: Result<seq<Criterion>, ContractError>): Result<Contract, ContractError> {
    if mode.Err? then Err(mode.error)
    else if nonGoals.Err? then Err(nonGoals.error)
    else if exit.Err? then Err(exit.error)
    else if stop.Err? then Err(stop.error)
    else if criteria.Err? then Err(criteria.error)
    else Ok(Contract(mode.value, nonGoals.value, exit.value, stop.value, criteria.value))
  }

  function CriteriaPart(found: map<Key, string>, lower: string -> string): Result<seq<Criterion>, ContractError> {
    if CriteriaKey !in found then Err(MissingSection(CriteriaKey)) else CriteriaSection(found[CriteriaKey], lower)
  }

  function CompileContract(found: map<Key, string>, lower: string -> string): Result<Contract, ContractError> {
    Assembled(Part(found, ExecutionModeKey, ModeOf), Part(found, NonGoalsKey, NonGoalsOf),
              Part(found, ExitPredicateKey, ExitOf),
              Part(found, StoppingPointKey, StopOf), CriteriaPart(found, lower))
  }

  function CompileFound(found: map<Key, string>, lower: string -> string): Result<Compiled, ContractError> {
    if found == map[] then Ok(Compiled(None, None, false))
    else if !HasSignal(found) then
      var raw := if CriteriaKey in found then Trim(found[CriteriaKey]) else "";
      Ok(Compiled(None, if raw == "" then None else Some(raw), true))
    else
      match CompileContract(found, lower)
      case Err(e) => Err(e)
      case Ok(contract) => Ok(Compiled(Some(contract), Some(Rendered(contract.criteria)), true))
  }

  function SectionsOf(description: string): seq<Section> {
    Sections(Lines(description), IsHeading)
  }

  function CompileSections(sections: seq<Section>, keyOf: Section -> Option<Key>,
                           lower: string -> string): Result<Compiled, ContractError>
  {
    match Find(Entries(sections, keyOf))
    case Err(key) => Err(DuplicateSection(key))
    case Ok(found) => CompileFound(found, lower)
  }

  function CompileText(description: string, lower: string -> string): Result<Compiled, ContractError> {
    CompileSections(SectionsOf(description), KeyOf, lower)
  }

  method CompileExecutionContract(description: Option<string>, lower: string -> string)
    returns (r: Result<Compiled, ContractError>)
    ensures r == CompileText(description.UnwrapOr(""), lower)
  {
    if Blank(description.UnwrapOr("")) {
      BlankHasNoSections(description.UnwrapOr(""));
      return Ok(Compiled(None, None, false));
    }
    var sections := SplitSections(description.value);
    var found := FindSections(sections);
    if found.Err? {
      return Err(DuplicateSection(found.error));
    }
    return CompileFound(found.value, lower);
  }

  /** Without anything visible there is no heading. */
  lemma BlankHasNoSections(description: string)
    requires Blank(description)
    ensures SectionsOf(description) == []
  {
    BlankIsAllSpace(description);
    var lines := Lines(description);
    forall i | 0 <= i < |lines| ensures !IsHeading(lines[i]) {
      if lines[i] != "" {
        LinesKeepChars(description, lines[i], lines[i][0]);
      }
    }
    SplitPreamble(lines, IsHeading);
  }

  // ---------- What compiling promises ----------

  method HasExecutionContractSignal(description: Option<string>) returns (r: bool)
    ensures r <==> Signals(SectionsOf(description.UnwrapOr("")), KeyOf)
  {
    if Blank(description.UnwrapOr("")) {
      BlankHasNoSections(description.UnwrapOr(""));
      return false;
    }
    var sections := SplitSections(description.value);
    r := AnySignal(sections, KeyOf);
  }

  method AnySignal(sections: seq<Section>, keyOf: Section -> Option<Key>) returns (r: bool)
    ensures r <==> Signals(sections, keyOf)
  {
    var k := 0;
    while k < |sections|
      invariant 0 <= k <= |sections|
      invariant forall i :: 0 <= i < k ==> !IsSignalHeading(keyOf(sections[i]))
    {
      if IsSignalHeading(keyOf(sections[k])) {
        return true;
      }
      k := k + 1;
    }
    return false;
  }

  lemma ContractErrorsAreTheirOwn(found: map<Key, string>, lower: string -> string)
    ensures CompileContract(found, lower).Err? ==> !CompileContract(found, lower).error.DuplicateSection?
  {
  }

  lemma CompileKinds(sections: seq<Section>, keyOf: Section -> Option<Key>, lower: string -> string)
    ensures var r := CompileSections(sections, keyOf, lower);
            && (r.Ok? ==> (r.value.contract.Some? <==> Signals(sections, keyOf)))
            && (r.Err? ==> Signals(sections, keyOf) || !NoneTwice(sections, keyOf))
            && (r.Err? && r.error.DuplicateSection? <==> !NoneTwice(sections, keyOf))
            && (r.Ok? ==> (r.value.hasContractHeadings <==> exists key :: HasHeading(sections, key, keyOf)))
  {
    FindsExactly(Entries(sections, keyOf));
    TableExactly(sections, keyOf);
    if Find(Entries(sections, keyOf)).Ok? {
      var found := Find(Entries(sections, keyOf)).value;
      SignalsInTable(sections, found, keyOf);
      ContractErrorsAreTheirOwn(found, lower);
    }
  }

  /** Compiling yields a contract exactly for the descriptions with a signal heading that compile, and
      fails only for those and, always, where a canonical heading comes twice: a legacy description is
      never blocked. */
  lemma ContractExactlyOnSignal(description: string, lower: string -> string)
    ensures var sections, r := SectionsOf(description), CompileText(description, lower);
            && (r.Ok? ==> (r.value.contract.Some? <==> Signals(sections, KeyOf)))
            && (r.Err? ==> Signals(sections, KeyOf) || !NoneTwice(sections, KeyOf))
            && (r.Err? && r.error.DuplicateSection? <==> !NoneTwice(sections, KeyOf))
            && (r.Ok? ==> (r.value.hasContractHeadings <==> exists key :: HasHeading(sections, key, KeyOf)))
  {
    CompileKinds(SectionsOf(description), KeyOf, lower);
  }

  /** A description without a signal heading always compiles, if no heading comes twice, and never to a
      contract. Its criteria are the text of the section headed for them, trimmed; there are none if there
      is no such section or nothing in it. */
  lemma LegacyExactly(sections: seq<Section>, keyOf: Section -> Option<Key>, lower: string -> string)
    requires NoneTwice(sections, keyOf) && !Signals(sections, keyOf)
    ensures var r := CompileSections(sections, keyOf, lower);
            && r.Ok? && r.value.contract == None
            && (forall x :: r.value.acceptanceCriteria == Some(x) <==> LegacyText(sections, keyOf, x))
            && (r.value.hasContractHeadings <==> HasHeading(sections, CriteriaKey, keyOf))
  {
    FindsExactly(Entries(sections, keyOf));
    TableExactly(sections, keyOf);
    var found := Find(Entries(sections, keyOf)).value;
    SignalsInTable(sections, found, keyOf);
    forall key ensures key in found <==> HasHeading(sections, key, keyOf) {
      EntriesAreHeadings(sections, key, keyOf);
    }
    assert found != map[] ==> CriteriaKey in found by {
      if key :| key in found {
        assert !IsSignal(key);
      }
    }
    forall i | Heads(sections, i, CriteriaKey, keyOf) ensures found[CriteriaKey] == JoinLines(sections[i].body) {
      var j := HeadingIsEntry(sections, i, CriteriaKey, keyOf);
    }
  }

  ghost predicate LegacyText(sections: seq<Section>, keyOf: Section -> Option<Key>, x: string) {
    x != "" && exists i :: Heads(sections, i, CriteriaKey, keyOf) && x == Trim(JoinLines(sections[i].body))
  }

  /** The sections of a description may stand in any order, with any other sections among them and any
      text before them: success gives the same contract and criteria, and failure stays failure. */
  lemma OrderDoesNotMatter(a: seq<Section>, b: seq<Section>, keyOf: Section -> Option<Key>, lower: string -> string)
    requires multiset(Entries(a, keyOf)) == multiset(Entries(b, keyOf))
    ensures CompileSections(a, keyOf, lower).Ok? <==> CompileSections(b, keyOf, lower).Ok?
    ensures CompileSections(a, keyOf, lower).Ok?
            ==> CompileSections(a, keyOf, lower) == CompileSections(b, keyOf, lower)
  {
    FindIgnoresOrder(Entries(a, keyOf), Entries(b, keyOf));
  }

  function Written(preamble: seq<string>, sections: seq<Section>): string {
    JoinLines(preamble + Flat(sections))
  }

  ghost predicate Writable(preamble: seq<string>, sections: seq<Section>, heads: string -> bool) {
    && NoHeading(preamble, heads) && AllProper(sections, heads)
    && forall l :: l in preamble + Flat(sections) ==> OneLine(l)
  }

  /** Every description is its preamble and its sections written one after the other, and what is written
      that way splits into just these sections. */
  lemma DescriptionsAreWritten(description: string, heads: string -> bool)
    ensures var preamble, sections := Preamble(Lines(description), heads), Sections(Lines(description), heads);
            Writable(preamble, sections, heads) && Written(preamble, sections) == description
  {
    SplitIsLossless(Lines(description), heads);
    LinesAreOneLine(description);
    JoinOfLines(description);
  }

  lemma WrittenSections(preamble: seq<string>, sections: seq<Section>, heads: string -> bool)
    requires Writable(preamble, sections, heads) && !heads("")
    ensures Sections(Lines(Written(preamble, sections)), heads) == sections
  {
    var lines := preamble + Flat(sections);
    SplitOfFlat(preamble, sections, heads);
    if lines == [] {
      assert Lines("") == [""];
      SplitPreamble([""], heads);
    } else {
      LinesOfJoin(lines);
    }
  }

  /** Rewriting a description with its sections in another order, or with another preamble. */
  lemma Reordered(p: seq<string>, a: seq<Section>, q: seq<string>, b: seq<Section>, lower: string -> string)
    requires Writable(p, a, IsHeading) && Writable(q, b, IsHeading) && multiset(a) == multiset(b)
    ensures CompileText(Written(p, a), lower).Ok? <==> CompileText(Written(q, b), lower).Ok?
    ensures CompileText(Written(p, a), lower).Ok?
            ==> CompileText(Written(p, a), lower) == CompileText(Written(q, b), lower)
  {
    WrittenSections(p, a, IsHeading);
    WrittenSections(q, b, IsHeading);
    EntriesIgnoreOrder(a, b, KeyOf);
    OrderDoesNotMatter(a, b, KeyOf, lower);
  }

  /** Taking out, or putting in, a section under any other heading changes nothing. */
  lemma OtherSectionsDoNotMatter(p: seq<string>, a: seq<Section>, i: nat, lower: string -> string)
    requires i < |a| && KeyOf(a[i]) == None && Writable(p, a, IsHeading) && Writable(p, a[..i] + a[i + 1..], IsHeading)
    ensures CompileText(Written(p, a), lower) == CompileText(Written(p, a[..i] + a[i + 1..]), lower)
  {
    WrittenSections(p, a, IsHeading);
    WrittenSections(p, a[..i] + a[i + 1..], IsHeading);
    OtherSectionsAddNothing(a, i, KeyOf);
  }

  // ---------- Which descriptions carry which contract ----------

  /** What the text of a section must say for the contract `c`. */
  ghost predicate States(key: Key, body: string, c: Contract, lower: string -> string) {
    match key
    case ExecutionModeKey => exists line :: Visible(Lines(body)) == [line] && NormalizedMode(Trim(line)) == Some(c.mode)
    case NonGoalsKey => ListsExactly(Visible(Lines(body)), c.nonGoals)
    case ExitPredicateKey => c.exitPredicate == Trim(body) != "" && forall l :: l in Lines(Trim(body)) ==> !Blank(l)
    case StoppingPointKey => c.stoppingPoint == Trim(body) != ""
    case CriteriaKey =>
      c.criteria != [] && WithoutBlanks(Kinds(Lines(body))) == Spelled(c.criteria) && AllStated(c.criteria)
          && Distinct(c.criteria, lower)
  }

  /** Every line is an item, and these are their texts. */
  ghost predicate ListsExactly(lines: seq<string>, items: seq<string>) {
    lines != [] && |items| == |lines| && forall i :: 0 <= i < |lines| ==> ItemText(lines[i]) == Some(items[i])
  }

  /** What the five parsers make of the text of a section agrees with the contract. */
  ghost predicate Reads(key: Key, body: string, c: Contract, lower: string -> string) {
    match key
    case ExecutionModeKey => ModeOf(body) == Ok(c.mode)
    case NonGoalsKey => NonGoalsOf(body) == Ok(c.nonGoals)
    case ExitPredicateKey => ExitOf(body) == Ok(c.exitPredicate)
    case StoppingPointKey => StopOf(body) == Ok(c.stoppingPoint)
    case CriteriaKey => ParsedCriteria(body, lower) == Ok(c.criteria)
  }

  lemma ModeExactly(body: string, mode: ExecutionMode)
    ensures ModeOf(body) == Ok(mode)
            <==> exists line :: Visible(Lines(body)) == [line] && NormalizedMode(Trim(line)) == Some(mode)
  {
    var lines := Visible(Lines(body));
    assert |lines| == 1 ==> lines == [lines[0]];
  }

  lemma NonGoalsExactly(body: string, items: seq<string>)
    ensures NonGoalsOf(body) == Ok(items) <==> ListsExactly(Visible(Lines(body)), items)
  {
    ItemsExactly(Visible(Lines(body)), items);
  }

  lemma CriteriaExactly(body: string, criteria: seq<Criterion>, lower: string -> string)
    ensures ParsedCriteria(body, lower) == Ok(criteria)
            <==> && criteria != [] && WithoutBlanks(Kinds(Lines(body))) == Spelled(criteria)
                 && AllStated(criteria) && Distinct(criteria, lower)
  {
    AcceptsExactly(Kinds(Lines(body)), criteria, lower);
  }

  lemma ReadsExactly(key: Key, body: string, c: Contract, lower: string -> string)
    ensures Reads(key, body, c, lower) <==> States(key, body, c, lower)
  {
    match key {
      case ExecutionModeKey => ModeExactly(body, c.mode);
      case NonGoalsKey => NonGoalsExactly(body, c.nonGoals);
      case ExitPredicateKey => ExitIsOneParagraph(body);
      case StoppingPointKey =>
      case CriteriaKey => CriteriaExactly(body, c.criteria, lower);
    }
  }

  ghost predicate TableReads(found: map<Key, string>, key: Key, c: Contract, lower: string -> string) {
    key in found && Reads(key, found[key], c, lower)
  }

  lemma AllParts(mode: Result<ExecutionMode, ContractError>, nonGoals: Result<seq<string>, ContractError>,
                 exit: Result<string, ContractError>, stop: Result<string, ContractError>,
                 criteria: Result<seq<Criterion>, ContractError>, c: Contract)
    ensures Assembled(mode, nonGoals, exit, stop, criteria) == Ok(c)
            <==> && mode == Ok(c.mode) && nonGoals == Ok(c.nonGoals) && exit == Ok(c.exitPredicate)
                 && stop == Ok(c.stoppingPoint) && criteria == Ok(c.criteria)
  {
  }

  lemma PartIs<T>(found: map<Key, string>, key: Key, parse: string -> Result<T, ContractError>, value: T)
    ensures Part(found, key, parse) == Ok(value) <==> key in found && parse(found[key]) == Ok(value)
  {
  }

  lemma PartsRead(found: map<Key, string>, c: Contract, lower: string -> string)
    ensures TableReads(found, ExecutionModeKey, c, lower) <==> Part(found, ExecutionModeKey, ModeOf) == Ok(c.mode)
    ensures TableReads(found, NonGoalsKey, c, lower) <==> Part(found, NonGoalsKey, NonGoalsOf) == Ok(c.nonGoals)
    ensures TableReads(found, ExitPredicateKey, c, lower)
            <==> Part(found, ExitPredicateKey, ExitOf) == Ok(c.exitPredicate)
    ensures TableReads(found, StoppingPointKey, c, lower)
            <==> Part(found, StoppingPointKey, StopOf) == Ok(c.stoppingPoint)
  {
    PartIs(found, ExecutionModeKey, ModeOf, c.mode);
    PartIs(found, NonGoalsKey, NonGoalsOf, c.nonGoals);
    PartIs(found, ExitPredicateKey, ExitOf, c.exitPredicate);
    PartIs(found, StoppingPointKey, StopOf, c.stoppingPoint);
  }

  lemma CriteriaPartReads(found: map<Key, string>, c: Contract, lower: string -> string)
    ensures TableReads(found, CriteriaKey, c, lower) <==> CriteriaPart(found, lower) == Ok(c.criteria)
  {
  }

  lemma CompilesExactly(found: map<Key, string>, c: Contract, lower: string -> string)
    ensures CompileContract(found, lower) == Ok(c) <==> forall key :: TableReads(found, key, c, lower)
  {
    AllParts(Part(found, ExecutionModeKey, ModeOf), Part(found, NonGoalsKey, NonGoalsOf),
             Part(found, ExitPredicateKey, ExitOf),
             Part(found, StoppingPointKey, StopOf), CriteriaPart(found, lower), c);
    PartsRead(found, c, lower);
    CriteriaPartReads(found, c, lower);
    forall key | CompileContract(found, lower) == Ok(c) ensures TableReads(found, key, c, lower) {
      match key {
        case ExecutionModeKey =>
        case NonGoalsKey =>
        case ExitPredicateKey =>
        case StoppingPointKey =>
        case CriteriaKey =>
      }
    }
  }

  /** One of the sections is headed by the key, and says what the contract has there. */
  ghost predicate SectionStates(sections: seq<Section>, key: Key, c: Contract, keyOf: Section -> Option<Key>,
                                lower: string -> string)
  {
    exists i :: Heads(sections, i, key, keyOf) && States(key, JoinLines(sections[i].body), c, lower)
  }

  /** A description compiles to the contract `c`, and to its criteria as text, exactly if no canonical
      heading comes twice and each of the five heads a section that states its part of `c`. */
  lemma ContractExactly(sections: seq<Section>, keyOf: Section -> Option<Key>, lower: string -> string, c: Contract)
    ensures CompileSections(sections, keyOf, lower) == Ok(Compiled(Some(c), Some(Rendered(c.criteria)), true))
            <==> NoneTwice(sections, keyOf) && forall key :: SectionStates(sections, key, c, keyOf, lower)
    ensures CompileSections(sections, keyOf, lower).Ok?
            && CompileSections(sections, keyOf, lower).value.contract == Some(c)
            ==> CompileSections(sections, keyOf, lower) == Ok(Compiled(Some(c), Some(Rendered(c.criteria)), true))
  {
    TableExactly(sections, keyOf);
    if NoneTwice(sections, keyOf) {
      var found := Find(Entries(sections, keyOf)).value;
      forall key ensures SectionStates(sections, key, c, keyOf, lower) <==> TableReads(found, key, c, lower) {
        StatedInTable(sections, found, key, c, keyOf, lower);
      }
      CompilesExactly(found, c, lower);
      if forall key :: TableReads(found, key, c, lower) {
        assert TableReads(found, ExecutionModeKey, c, lower);
      }
    }
  }

  lemma StatedInTable(sections: seq<Section>, found: map<Key, string>, key: Key, c: Contract,
                      keyOf: Section -> Option<Key>, lower: string -> string)
    requires Find(Entries(sections, keyOf)) == Ok(found)
    ensures SectionStates(sections, key, c, keyOf, lower) <==> TableReads(found, key, c, lower)
  {
    FindsExactly(Entries(sections, keyOf));
    EntriesAreHeadings(sections, key, keyOf);
    forall i | Heads(sections, i, key, keyOf) ensures key in found && found[key] == JoinLines(sections[i].body) {
      var j := HeadingIsEntry(sections, i, key, keyOf);
    }
    if key in found {
      ReadsExactly(key, found[key], c, lower);
    }
  }

  /** The criteria text of a compiled contract reads back as the criteria of the contract. */
  lemma CompiledCriteriaReadBack(sections: seq<Section>, keyOf: Section -> Option<Key>, lower: string -> string)
    requires CompileSections(sections, keyOf, lower).Ok? && CompileSections(sections, keyOf, lower).value.contract.Some?
    ensures var compiled := CompileSections(sections, keyOf, lower).value;
            && compiled.acceptanceCriteria.Some?
            && ParsedCriteria(compiled.acceptanceCriteria.value, lower) == Ok(compiled.contract.value.criteria)
  {
    var found := Find(Entries(sections, keyOf)).value;
    var criteria := CompileContract(found, lower).value.criteria;
    CompilesExactly(found, CompileContract(found, lower).value, lower);
    assert TableReads(found, CriteriaKey, CompileContract(found, lower).value, lower);
    AcceptedIsWellFormed(found[CriteriaKey], criteria, lower);
    CriteriaRoundTrip(criteria, lower);
  }
}
