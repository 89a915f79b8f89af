/** The acceptance criteria of an execution contract: parsing the section, and printing it again. */
module ContractCriteria {
  import opened MarkdownLines
  import opened Options
  import opened Text

  datatype Criterion = Criterion(text: string, evidence: Option<string>)

  datatype CriteriaError =
    | NoText | Duplicate | EvidenceFirst | SecondEvidence | EmptyEvidence | PlainBullet | Unexpected | NoCriteria

  type Parsed = Result<seq<Criterion>, CriteriaError>

  // ---------- Lines ----------

  datatype LineKind = BlankLine | Checkbox(text: string) | Evidence(value: string) | Other(bullet: bool)

  /** `^\s*(?:[-*+]|\d+[.)])\s+` */
  predicate IsBulletLine(line: string) {
    var s := TrimStart(line);
    && s != ""
    && if IsBullet(s[0]) then AfterSpace(s[1..]).Some?
       else
         var rest := SkipRun(s, IsDigit);
         rest != s && rest != "" && (rest[0] == '.' || rest[0] == ')') && AfterSpace(rest[1..]).Some?
  }

  function Classify(line: string): LineKind {
    if Blank(line) then BlankLine
    else if CheckboxText(line).Some? then Checkbox(CheckboxText(line).value)
    else if EvidenceText(line).Some? then Evidence(EvidenceText(line).value)
    else Other(IsBulletLine(line))
  }

  function Kinds(lines: seq<string>): (kinds: seq<LineKind>)
    ensures |kinds| == |lines|
  {
    seq(|lines|, k requires 0 <= k < |lines| => Classify(lines[k]))
  }

  // ---------- The parser ----------

  /** The text under which a criterion counts as a duplicate; `lower` is `toLowerCase`, of which nothing is
      asked. */
  function CriterionKey(text: string, lower: string -> string): string {
    lower(Squeeze(Trim(text), IsSpace))
  }

  predicate HasKey(cs: seq<Criterion>, key: string, lower: string -> string) {
    exists i :: 0 <= i < |cs| && CriterionKey(cs[i].text, lower) == key
  }

  /** The criteria of these lines, the last one being the one under construction. */
  function CriteriaOf(kinds: seq<LineKind>, lower: string -> string): Parsed {
    if kinds == [] then Ok([])
    else
      var before := CriteriaOf(kinds[..|kinds| - 1], lower);
      if before.Err? then before else AddLine(before.value, kinds[|kinds| - 1], lower)
  }

  function AddLine(cs: seq<Criterion>, kind: LineKind, lower: string -> string): Parsed {
    match kind
    case BlankLine => Ok(cs)
    case Checkbox(text) =>
      if text == "" then Err(NoText)
      else if HasKey(cs, CriterionKey(text, lower), lower) then Err(Duplicate)
      else Ok(cs + [Criterion(text, None)])
    case Evidence(value) =>
      if cs == [] then Err(EvidenceFirst)
      else if cs[|cs| - 1].evidence.Some? then Err(SecondEvidence)
      else if value == "" then Err(EmptyEvidence)
      else Ok(cs[..|cs| - 1] + [Criterion(cs[|cs| - 1].text, Some(value))])
    case Other(bullet) => Err(if bullet then PlainBullet else Unexpected)
  }

  function ParsedCriteria(body: string, lower: string -> string): Parsed {
    var r := CriteriaOf(Kinds(Lines(body)), lower);
    if r.Ok? && r.value == [] then Err(NoCriteria) else r
  }

  /** The local variables agree with each other. */
  ghost predicate InStep(criteria: seq<Criterion>, current: Option<Criterion>, hasEvidence: bool,
                         seen: map<string, string>, lower: string -> string)
  {
    && hasEvidence == (current.Some? && current.value.evidence.Some?)
    && (current == None ==> criteria == [])
    && (forall key :: key in seen <==> HasKey(Flushed(criteria, current), key, lower))
  }

  /** parseAcceptanceCriteria, with its accumulator, its current item and its table of seen texts. */
  method ParseAcceptanceCriteria(body: string, lower: string -> string) returns (r: Parsed)
    ensures r == ParsedCriteria(body, lower)
  {
    var lines := Lines(body);
    var kinds := Kinds(lines);
    var criteria: seq<Criterion>, current: Option<Criterion>, hasEvidence := [], None, false;
    var seen: map<string, string> := map[];
    var k := 0;
    while k < |lines|
      invariant 0 <= k <= |lines| == |kinds|
      invariant CriteriaOf(kinds[..k], lower) == Ok(Flushed(criteria, current))
      invariant InStep(criteria, current, hasEvidence, seen, lower)
    {
      CriteriaStep(kinds, k, lower);
      var error;
      error, criteria, current, hasEvidence, seen := TakeLine(kinds[k], criteria, current, hasEvidence, seen, lower);
      if error.Some? {
        return Err(error.value);
      }
      k := k + 1;
    }
    assert kinds[..k] == kinds;
    criteria := Flushed(criteria, current);
    if |criteria| == 0 {
      return Err(NoCriteria);
    }
    return Ok(criteria);
  }

  /** One turn of the loop. */
  method TakeLine(kind: LineKind, criteria0: seq<Criterion>, current0: Option<Criterion>, hasEvidence0: bool,
                  seen0: map<string, string>, lower: string -> string)
    returns (error: Option<CriteriaError>, criteria: seq<Criterion>, current: Option<Criterion>, hasEvidence: bool,
             seen: map<string, string>)
    requires InStep(criteria0, current0, hasEvidence0, seen0, lower)
    ensures AddLine(Flushed(criteria0, current0), kind, lower)
            == if error.Some? then Err(error.value) else Ok(Flushed(criteria, current))
    ensures error == None ==> InStep(criteria, current, hasEvidence, seen, lower)
  {
    error, criteria, current, hasEvidence, seen := None, criteria0, current0, hasEvidence0, seen0;
    match kind {
      case BlankLine =>
      case Checkbox(text) =>
        criteria, current, hasEvidence := Flushed(criteria, current), None, false;
        if text == "" {
          error := Some(NoText);
        } else if CriterionKey(text, lower) in seen {
          error := Some(Duplicate);
        } else {
          seen := seen[CriterionKey(text, lower) := text];
          current := Some(Criterion(text, None));
          KeyAppend(criteria, Criterion(text, None), lower);
        }
      case Evidence(value) =>
        if current == None {
          error := Some(EvidenceFirst);
        } else if hasEvidence {
          error := Some(SecondEvidence);
        } else if value == "" {
          error := Some(EmptyEvidence);
        } else {
          KeyAppend(criteria, current.value, lower);
          current, hasEvidence := Some(Criterion(current.value.text, Some(value))), true;
          KeyAppend(criteria, current.value, lower);
        }
      case Other(bullet) =>
        error := Some(if bullet then PlainBullet else Unexpected);
    }
  }

  function Flushed(criteria: seq<Criterion>, current: Option<Criterion>): seq<Criterion> {
    if current.Some? then criteria + [current.value] else criteria
  }

  lemma KeyAppend(cs: seq<Criterion>, c: Criterion, lower: string -> string)
    ensures forall key :: HasKey(cs + [c], key, lower) <==> HasKey(cs, key, lower) || CriterionKey(c.text, lower) == key
  {
    var all := cs + [c];
    assert all[|cs|] == c && forall i :: 0 <= i < |cs| ==> all[i] == cs[i];
  }

  lemma CriteriaStep(kinds: seq<LineKind>, k: nat, lower: string -> string)
    requires k < |kinds| && CriteriaOf(kinds[..k], lower).Ok?
    ensures CriteriaOf(kinds[..k + 1], lower) == AddLine(CriteriaOf(kinds[..k], lower).value, kinds[k], lower)
    ensures CriteriaOf(kinds[..k + 1], lower).Err? ==> CriteriaOf(kinds, lower) == CriteriaOf(kinds[..k + 1], lower)
  {
    assert kinds[..k + 1][..k] == kinds[..k];
    StopsAtError(kinds, k + 1, lower);
  }

  lemma {:induction false} StopsAtError(kinds: seq<LineKind>, k: nat, lower: string -> string)
    requires k <= |kinds|
    ensures CriteriaOf(kinds[..k], lower).Err? ==> CriteriaOf(kinds, lower) == CriteriaOf(kinds[..k], lower)
    decreases |kinds|
  {
    if k < |kinds| {
      var shorter := kinds[..|kinds| - 1];
      assert shorter[..k] == kinds[..k];
      StopsAtError(shorter, k, lower);
    } else {
      assert kinds[..k] == kinds;
    }
  }
}
