/** Waiting for the checks of a pull request: what one read of the rollup means, and the bounded poll. */
module CheckPolling {
  import opened Options
  import opened Text

  // ---------- One read ----------

  /** The three places a provider may report a check's state; "" where it reports nothing. */
  datatype RawCheck = RawCheck(conclusion: string, state: string, status: string)

  datatype Snapshot = Success | Failure | Pending | NoChecks

  const FAILURE_STATES := {"failure", "error", "cancelled", "timed_out", "action_required", "stale", "startup_failure"}
  const PENDING_STATES := {"pending", "queued", "in_progress", "expected", "waiting", "requested"}
  const SUCCESS_STATES := {"success", "neutral", "skipped"}

  function StateOf(c: RawCheck): string {
    Lower(if c.conclusion != "" then c.conclusion else if c.state != "" then c.state else c.status)
  }

  predicate SomeIn(rollup: seq<RawCheck>, states: set<string>) {
    exists i :: 0 <= i < |rollup| && StateOf(rollup[i]) in states
  }

  predicate AllIn(rollup: seq<RawCheck>, states: set<string>) {
    forall i :: 0 <= i < |rollup| ==> StateOf(rollup[i]) in states
  }

  function SummarizeChecks(rollup: seq<RawCheck>): Snapshot {
    if rollup == [] then NoChecks
    else if SomeIn(rollup, FAILURE_STATES) then Failure
    else if SomeIn(rollup, PENDING_STATES) then Pending
    else if AllIn(rollup, SUCCESS_STATES) then Success
    else Failure
  }

  /** Closed against every vocabulary: success means that each check, one by one, is known to be fine, and
      one more check can never turn a failure or a wait into a success. */
  lemma FailsClosed(rollup: seq<RawCheck>, more: seq<RawCheck>)
    ensures SummarizeChecks(rollup) == Success <==> rollup != [] && AllIn(rollup, SUCCESS_STATES)
    ensures SummarizeChecks(rollup + more) == Success && rollup != [] ==> SummarizeChecks(rollup) == Success
    ensures SummarizeChecks(rollup) == Failure && SummarizeChecks(rollup + more) != Failure ==>
              !SomeIn(rollup, FAILURE_STATES) && SummarizeChecks(rollup + more) == Pending
                  && SomeIn(more, PENDING_STATES)
  {
    var all := rollup + more;
    assert forall i :: 0 <= i < |rollup| ==> all[i] == rollup[i];
    assert forall i :: |rollup| <= i < |all| ==> all[i] == more[i - |rollup|];
    assert forall s :: s in SUCCESS_STATES ==> s !in FAILURE_STATES && s !in PENDING_STATES;
  }

  // ---------- Which words count ----------

  ghost predicate SpeltAs(word: string, names: seq<string>) {
    exists k :: 0 <= k < |names| && SpeltLike(word, names[k])
  }

  /** What the check says: its conclusion; its state only if it has no conclusion; and its status only if it
      has neither. */
  ghost predicate Says(c: RawCheck, names: seq<string>) {
    && (c.conclusion != "" ==> SpeltAs(c.conclusion, names))
    && (c.conclusion == "" && c.state != "" ==> SpeltAs(c.state, names))
    && (c.conclusion == "" && c.state == "" ==> SpeltAs(c.status, names))
  }

  const FINE := ["success", "neutral", "skipped"]
  const RUNNING := ["pending", "queued", "in_progress", "expected", "waiting", "requested"]
  const FAILED := ["failure", "error", "cancelled", "timed_out", "action_required", "stale", "startup_failure"]

  lemma SaysExactly(c: RawCheck, names: seq<string>, states: set<string>)
    requires forall k :: 0 <= k < |names| ==> IsLower(names[k])
    requires forall x :: x in states <==> x in names
    ensures StateOf(c) in states <==> Says(c, names)
  {
    var word := if c.conclusion != "" then c.conclusion else if c.state != "" then c.state else c.status;
    forall k | 0 <= k < |names| ensures Lower(word) == names[k] <==> SpeltLike(word, names[k]) {
      LowerExactly(word, names[k]);
    }
    if StateOf(c) in states {
      var k :| 0 <= k < |names| && names[k] == StateOf(c);
    }
    if Says(c, names) {
      var k :| 0 <= k < |names| && SpeltLike(word, names[k]);
      assert names[k] in names;
    }
  }

  lemma WordsAreLower()
    ensures forall k :: 0 <= k < |FINE| ==> IsLower(FINE[k])
    ensures forall k :: 0 <= k < |RUNNING| ==> IsLower(RUNNING[k])
    ensures forall k :: 0 <= k < |FAILED| ==> IsLower(FAILED[k])
  {
  }

  lemma WordsAreTheSets()
    ensures forall x :: x in SUCCESS_STATES <==> x in FINE
    ensures forall x :: x in PENDING_STATES <==> x in RUNNING
    ensures forall x :: x in FAILURE_STATES <==> x in FAILED
  {
    assert FINE[0] == "success" && FINE[1] == "neutral" && FINE[2] == "skipped";
    assert RUNNING[0] == "pending" && RUNNING[1] == "queued" && RUNNING[2] == "in_progress";
    assert RUNNING[3] == "expected" && RUNNING[4] == "waiting" && RUNNING[5] == "requested";
    assert FAILED[0] == "failure" && FAILED[1] == "error" && FAILED[2] == "cancelled" && FAILED[3] == "timed_out";
    assert FAILED[4] == "action_required" && FAILED[5] == "stale" && FAILED[6] == "startup_failure";
  }

  ghost predicate SomeSay(rollup: seq<RawCheck>, names: seq<string>) {
    exists i :: 0 <= i < |rollup| && Says(rollup[i], names)
  }

  ghost predicate AllSay(rollup: seq<RawCheck>, names: seq<string>) {
    forall i :: 0 <= i < |rollup| ==> Says(rollup[i], names)
  }

  lemma ListSays(rollup: seq<RawCheck>, names: seq<string>, states: set<string>)
    requires forall k :: 0 <= k < |names| ==> IsLower(names[k])
    requires forall x :: x in states <==> x in names
    ensures SomeIn(rollup, states) <==> SomeSay(rollup, names)
    ensures AllIn(rollup, states) <==> AllSay(rollup, names)
  {
    forall i | 0 <= i < |rollup| ensures StateOf(rollup[i]) in states <==> Says(rollup[i], names) {
      SaysExactly(rollup[i], names, states);
    }
  }

  lemma InWords(rollup: seq<RawCheck>)
    ensures SomeIn(rollup, FAILURE_STATES) <==> SomeSay(rollup, FAILED)
    ensures SomeIn(rollup, PENDING_STATES) <==> SomeSay(rollup, RUNNING)
    ensures AllIn(rollup, SUCCESS_STATES) <==> AllSay(rollup, FINE)
  {
    WordsAreLower();
    WordsAreTheSets();
    ListSays(rollup, FAILED, FAILURE_STATES);
    ListSays(rollup, RUNNING, PENDING_STATES);
    ListSays(rollup, FINE, SUCCESS_STATES);
  }

  /** What a rollup comes to, in words: fine if there are checks and every one says so; failed if one says
      failed, or none says running and one says nothing known; running if none says failed and one says
      running. */
  lemma SummaryExactly(rollup: seq<RawCheck>)
    ensures SummarizeChecks(rollup) == NoChecks <==> rollup == []
    ensures SummarizeChecks(rollup) == Success <==> rollup != [] && AllSay(rollup, FINE)
    ensures SummarizeChecks(rollup) == Pending <==> SomeSay(rollup, RUNNING) && !SomeSay(rollup, FAILED)
    ensures SummarizeChecks(rollup) == Failure <==>
              SomeSay(rollup, FAILED) || (!AllSay(rollup, FINE) && !SomeSay(rollup, RUNNING))
  {
    InWords(rollup);
    FailsClosed(rollup, []);
  }

  /** A check run that is over is judged by its conclusion, whatever else it reports; a commit status by its
      state; and the status of a check counts only while there is nothing else. */
  lemma FieldsInOrder(rollup: seq<RawCheck>, i: nat, word: string, x: string, y: string)
    requires i < |rollup| && word != ""
    ensures SummarizeChecks(rollup[i := RawCheck(word, x, y)]) == SummarizeChecks(rollup[i := RawCheck(word, "", "")])
    ensures SummarizeChecks(rollup[i := RawCheck("", word, y)]) == SummarizeChecks(rollup[i := RawCheck(word, "", "")])
    ensures SummarizeChecks(rollup[i := RawCheck("", "", word)]) == SummarizeChecks(rollup[i := RawCheck(word, "", "")])
  {
    SameStates(rollup[i := RawCheck(word, x, y)], rollup[i := RawCheck(word, "", "")]);
    SameStates(rollup[i := RawCheck("", word, y)], rollup[i := RawCheck(word, "", "")]);
    SameStates(rollup[i := RawCheck("", "", word)], rollup[i := RawCheck(word, "", "")]);
  }

  lemma SameStates(a: seq<RawCheck>, b: seq<RawCheck>)
    requires |a| == |b| && forall i :: 0 <= i < |a| ==> StateOf(a[i]) == StateOf(b[i])
    ensures SummarizeChecks(a) == SummarizeChecks(b)
  {
    assert SomeIn(a, FAILURE_STATES) == SomeIn(b, FAILURE_STATES);
    assert SomeIn(a, PENDING_STATES) == SomeIn(b, PENDING_STATES);
  }

  /** Finished check runs are fine exactly if each concluded so, and failed if one concluded otherwise. */
  lemma ConclusionsDecide(rollup: seq<RawCheck>)
    requires rollup != [] && forall i :: 0 <= i < |rollup| ==> rollup[i].conclusion != ""
    ensures SummarizeChecks(rollup) == Success
            <==> forall i :: 0 <= i < |rollup| ==> SpeltAs(rollup[i].conclusion, FINE)
    ensures (exists i :: 0 <= i < |rollup| && SpeltAs(rollup[i].conclusion, FAILED))
            ==> SummarizeChecks(rollup) == Failure
  {
    SummaryExactly(rollup);
    if i :| 0 <= i < |rollup| && SpeltAs(rollup[i].conclusion, FAILED) {
      assert Says(rollup[i], FAILED);
    }
  }

  // ---------- The poll ----------

  /** What a read finds: the checks of the pull request, that there is no such pull request, or an
      exception. */
  datatype Read = Found(rollup: seq<RawCheck>) | NotFound | Throws

  /** One turn of the poll: whether the lease is gone when it starts, its read, and the clock after it. */
  datatype Turn = Turn(aborted: bool, read: Read, now: int)

  datatype PollResult = PollSuccess | PollFailure | PollTimeout | PollNone

  datatype Detail = Detail(result: PollResult, lastSnapshot: Option<Snapshot>, aborted: bool)

  const NONE_STREAK_REQUIRED := 2

  /** A pull request that is not found reads like one without checks. */
  function ChecksSnapshot(read: Read): Option<Snapshot> {
    match read
    case Found(rollup) => Some(SummarizeChecks(rollup))
    case NotFound => Some(SummarizeChecks([]))
    case Throws => None
  }

  type World = nat -> Turn

  function ReadAt(world: World, k: nat): Option<Snapshot> {
    ChecksSnapshot(world(k).read)
  }

  /** The second of two reads in a row without any check. */
  predicate NoneTwice(world: World, k: nat) {
    k > 0 && ReadAt(world, k - 1) == Some(NoChecks) && ReadAt(world, k) == Some(NoChecks)
  }

  predicate Conclusive(world: World, k: nat) {
    ReadAt(world, k) == Some(Success) || ReadAt(world, k) == Some(Failure) || NoneTwice(world, k)
  }

  predicate Stops(world: World, deadline: int, k: nat) {
    world(k).aborted || world(k).read == Throws || Conclusive(world, k) || world(k).now >= deadline
  }

  /** The poll stops in turn `k` and in none before. */
  ghost predicate StopsFirst(world: World, deadline: int, k: nat) {
    Stops(world, deadline, k) && forall j: nat :: j < k ==> !Stops(world, deadline, j)
  }

  /** What is reported when the poll stops in turn `k`; nothing if its read throws. */
  function Outcome(world: World, k: nat): Option<Detail> {
    var s := ReadAt(world, k);
    if world(k).aborted then Some(Detail(PollTimeout, if k == 0 then None else ReadAt(world, k - 1), true))
    else if s == None then None
    else if s.value == Success then Some(Detail(PollSuccess, s, false))
    else if s.value == Failure then Some(Detail(PollFailure, s, false))
    else if NoneTwice(world, k) then Some(Detail(PollNone, s, false))
    else Some(Detail(PollTimeout, s, false))
  }

  /** Waiting moves the clock on. */
  ghost predicate Advances(world: World) {
    forall k: nat :: world(k).now < world(k + 1).now
  }

  /** pollPrChecksDetailed. `turns` is the number of turns begun before the last one; no detail means that
      the exception of a read left the poll. */
  method PollPrChecksDetailed(world: World, start: int, timeoutMs: int) returns (d: Option<Detail>, turns: nat)
    requires Advances(world)
    ensures StopsFirst(world, start + timeoutMs, turns) && d == Outcome(world, turns)
    ensures turns > 0 ==> world(0).now + turns - 1 < start + timeoutMs
  {
    var deadline := start + timeoutMs;
    var noneStreak := 0;
    var lastSnapshot: Option<Snapshot> := None;
    turns := 0;
    while true
      invariant forall j: nat :: j < turns ==> !Stops(world, deadline, j)
      invariant lastSnapshot == if turns == 0 then None else ReadAt(world, turns - 1)
      invariant noneStreak == if turns > 0 && ReadAt(world, turns - 1) == Some(NoChecks) then 1 else 0
      invariant turns > 0 ==> world(0).now + turns - 1 <= world(turns - 1).now < deadline
      decreases deadline - world(turns).now
    {
      if world(turns).aborted {
        return Some(Detail(PollTimeout, lastSnapshot, true)), turns;
      }
      var snapshot := ChecksSnapshot(world(turns).read);
      if snapshot == None {
        return None, turns;
      }
      lastSnapshot := snapshot;
      if snapshot.value == Failure || snapshot.value == Success {
        return Some(Detail(if snapshot.value == Success then PollSuccess else PollFailure, lastSnapshot, false)), turns;
      }
      if snapshot.value == NoChecks {
        noneStreak := noneStreak + 1;
        if noneStreak >= NONE_STREAK_REQUIRED {
          return Some(Detail(PollNone, lastSnapshot, false)), turns;
        }
      } else {
        noneStreak := 0;
      }
      if world(turns).now >= deadline {
        return Some(Detail(PollTimeout, lastSnapshot, false)), turns;
      }
      turns := turns + 1;
    }
  }

  /** The clock, the reads and the abort signal determine the outcome. */
  lemma OutcomeIsUnique(world: World, deadline: int, j: nat, k: nat)
    requires StopsFirst(world, deadline, j) && StopsFirst(world, deadline, k)
    ensures j == k
  {
    assert j < k ==> !Stops(world, deadline, j);
    assert k < j ==> !Stops(world, deadline, k);
  }

  predicate Reports(d: Option<Detail>, result: PollResult) {
    d.Some? && d.value.result == result
  }

  /** What a reported result says about the reads: nothing conclusive was passed over, success is the first
      read with every check fine, `none` the first two reads in a row without a check, and a timeout
      that is not an abort leaves checks running or one read without any. */
  lemma ResultsMeanWhatTheySay(world: World, deadline: int, k: nat)
    requires StopsFirst(world, deadline, k)
    ensures var d, read := Outcome(world, k), world(k).read;
            && (forall j: nat :: j < k ==> !Conclusive(world, j) && !world(j).aborted && world(j).read != Throws)
            && (d == None <==> !world(k).aborted && read == Throws)
            && (Reports(d, PollSuccess)
                <==> !world(k).aborted && read.Found? && read.rollup != [] && AllIn(read.rollup, SUCCESS_STATES))
            && (Reports(d, PollNone) <==> !world(k).aborted && NoneTwice(world, k))
            && (Reports(d, PollFailure) <==> !world(k).aborted && ReadAt(world, k) == Some(Failure))
            && (Reports(d, PollTimeout) && !d.value.aborted
                ==> world(k).now >= deadline && d.value.lastSnapshot in {Some(Pending), Some(NoChecks)})
            && (d.Some? ==> (d.value.aborted <==> world(k).aborted))
            && (d.Some? && !d.value.aborted ==> d.value.lastSnapshot == ReadAt(world, k))
            && (d.Some? && d.value.aborted ==> d.value.lastSnapshot == if k == 0 then None else ReadAt(world, k - 1))
  {
    FailsClosed(if world(k).read.Found? then world(k).read.rollup else [], []);
    forall j: nat | j < k ensures !Conclusive(world, j) && !world(j).aborted && world(j).read != Throws {
      assert !Stops(world, deadline, j);
    }
  }

  /** In words: the poll succeeds exactly on a read in which there are checks and each says it is fine, and
      fails exactly on one in which a check says it failed, or says nothing known while none is running. */
  lemma PollSays(world: World, k: nat)
    ensures Reports(Outcome(world, k), PollSuccess) <==>
              !world(k).aborted && world(k).read.Found? && world(k).read.rollup != []
                  && AllSay(world(k).read.rollup, FINE)
    ensures Reports(Outcome(world, k), PollFailure) <==>
              && !world(k).aborted && world(k).read.Found?
              && (SomeSay(world(k).read.rollup, FAILED)
                  || (!AllSay(world(k).read.rollup, FINE) && !SomeSay(world(k).read.rollup, RUNNING)))
  {
    SummaryExactly(if world(k).read.Found? then world(k).read.rollup else []);
  }

  /** The poll goes on exactly while no turn is aborted, throws or is conclusive, and the clock is before the
      deadline after each read; in the turn that reaches it, it gives up. */
  lemma GivesUpExactly(world: World, deadline: int, k: nat)
    requires StopsFirst(world, deadline, k)
    ensures forall j: nat :: j < k ==> world(j).now < deadline && ReadAt(world, j) in {Some(Pending), Some(NoChecks)}
    ensures Reports(Outcome(world, k), PollTimeout) <==>
              || world(k).aborted
              || (world(k).read != Throws && !Conclusive(world, k) && world(k).now >= deadline)
  {
    forall j: nat | j < k ensures world(j).now < deadline && ReadAt(world, j) in {Some(Pending), Some(NoChecks)} {
      assert !Stops(world, deadline, j);
    }
  }

  /** A conclusive read is reported unless the poll stopped before it. */
  lemma ConclusiveReadsAreReported(world: World, deadline: int, k: nat, j: nat)
    requires StopsFirst(world, deadline, k) && Conclusive(world, j) && !world(j).aborted
    ensures k <= j
    ensures k == j ==> Outcome(world, k).Some? && Outcome(world, k).value.result != PollTimeout
  {
    assert Stops(world, deadline, j);
  }

  /** What `none` is meant to say: there is a pull request, and it has no checks, twice in a row. */
  predicate SeenWithoutChecks(world: World, k: nat) {
    k > 0 && world(k - 1).read == Found([]) && world(k).read == Found([])
  }

  /** `none` says so exactly if the pull request was found by both reads, and the poll reports `none` just
      as well for one that is never found. */
  lemma NoneIsMeantExactly(world: World, deadline: int, k: nat)
    requires StopsFirst(world, deadline, k) && Reports(Outcome(world, k), PollNone)
    ensures k > 0
    ensures SeenWithoutChecks(world, k) <==> world(k - 1).read.Found? && world(k).read.Found?
    ensures !SeenWithoutChecks(world, k) <==> world(k - 1).read == NotFound || world(k).read == NotFound
  {
    forall j: nat | j == k - 1 || j == k ensures world(j).read == NotFound || world(j).read == Found([]) {
      assert ReadAt(world, j) == Some(NoChecks);
    }
  }

  /** The world in which there is no pull request. */
  function Nowhere(): World {
    (k: nat) => Turn(false, NotFound, k)
  }

  lemma NotFoundIsReportedAsNone(deadline: int)
    requires deadline > 0
    ensures Advances(Nowhere()) && StopsFirst(Nowhere(), deadline, 1)
    ensures Outcome(Nowhere(), 1) == Some(Detail(PollNone, Some(NoChecks), false)) && !SeenWithoutChecks(Nowhere(), 1)
  {
    assert NoneTwice(Nowhere(), 1);
  }
}
