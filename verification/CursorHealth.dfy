/** Agent health: the soft-failure streak of the Cursor probe, and the cache in front of it. Times are in
    milliseconds; calls run one after another. */
module CursorHealth {
  import opened Options

  const RUNTIME_CACHE_MS := 60_000
  const SOFT_PROBE_CACHE_MS := 15_000
  const SOFT_FAIL_STREAK_TO_UNHEALTHY := 2
  const HEALTHY_GRACE_MS := 300_000

  datatype Issue = CliMissing | LoggedOut | Unconfirmed | UsageCapped | OtherIssue(id: nat)

  /** One run of the status command: its exit, whether its output says that the program is absent or that
      nobody is logged in, and the clock after it. */
  datatype Attempt = Attempt(ok: bool, missing: bool, loggedOut: bool, at: int)

  datatype Round = Healthy(at: int) | Hard(issue: Issue) | Soft(at: int)

  // ---------- One round ----------

  /** What one attempt settles, if anything. */
  function Verdict(a: Attempt): Option<Round> {
    if !a.ok && a.missing then Some(Hard(CliMissing))
    else if a.loggedOut then Some(Hard(LoggedOut))
    else if a.ok then Some(Healthy(a.at))
    else None
  }

  predicate SettledBy(attempts: nat -> Attempt, k: nat) {
    Verdict(attempts(k)).Some?
  }

  ghost predicate SettlesFirst(attempts: nat -> Attempt, k: nat, round: Round) {
    Verdict(attempts(k)) == Some(round) && forall j: nat :: j < k ==> !SettledBy(attempts, j)
  }

  /** `round` is the verdict of the first attempt that settles anything, or soft if none of the first `n` does. */
  ghost predicate IsRound(attempts: nat -> Attempt, n: nat, end: int, round: Round) {
    || (round == Soft(end) && forall k: nat :: k < n ==> !SettledBy(attempts, k))
    || exists k: nat :: k < n && SettlesFirst(attempts, k, round)
  }

  lemma RoundIsUnique(attempts: nat -> Attempt, n: nat, end: int, a: Round, b: Round)
    requires IsRound(attempts, n, end, a) && IsRound(attempts, n, end, b)
    ensures a == b
  {
    if j: nat :| j < n && SettlesFirst(attempts, j, a) {
      assert SettledBy(attempts, j);
      var k: nat :| k < n && SettlesFirst(attempts, k, b);
      assert SettledBy(attempts, k);
    } else if k: nat :| k < n && SettlesFirst(attempts, k, b) {
      assert SettledBy(attempts, k);
    }
  }

  /** The attempt settles the round: it succeeds, or says that the program is absent or nobody logged in. */
  ghost predicate Telling(a: Attempt) {
    a.ok || a.missing || a.loggedOut
  }

  /** The attempt `k` is the first that settles anything. */
  ghost predicate TellsFirst(attempts: nat -> Attempt, n: nat, k: nat) {
    k < n && Telling(attempts(k)) && forall j: nat :: j < k ==> !Telling(attempts(j))
  }

  lemma SettledIsTelling(attempts: nat -> Attempt, k: nat)
    ensures SettledBy(attempts, k) <==> Telling(attempts(k))
  {
  }

  /** A round in terms of what its attempts report. It is soft exactly if none of them succeeds, misses the
      program or says that nobody is logged in. Otherwise the first one that does decides: a failed one that
      misses the program says so whatever else it reports; one that says that nobody is logged in is a hard
      failure even if it succeeds; and any other success is healthy, as of the clock after it. */
  lemma RoundExactly(attempts: nat -> Attempt, n: nat, end: int, round: Round, k: nat)
    requires IsRound(attempts, n, end, round)
    ensures round.Soft? <==> forall j: nat :: j < n ==> !Telling(attempts(j))
    ensures round.Soft? ==> round.at == end
    ensures TellsFirst(attempts, n, k) && !attempts(k).ok && attempts(k).missing ==> round == Hard(CliMissing)
    ensures TellsFirst(attempts, n, k) && attempts(k).loggedOut && (attempts(k).ok || !attempts(k).missing) ==>
              round == Hard(LoggedOut)
    ensures TellsFirst(attempts, n, k) && attempts(k).ok && !attempts(k).loggedOut ==> round == Healthy(attempts(k).at)
  {
    forall j: nat ensures SettledBy(attempts, j) <==> Telling(attempts(j)) {
      SettledIsTelling(attempts, j);
    }
    if j: nat :| j < n && SettlesFirst(attempts, j, round) {
      assert SettledBy(attempts, j) && Telling(attempts(j));
      assert TellsFirst(attempts, n, k) ==> k == j;
    }
  }

  // ---------- The history of rounds ----------

  function TrailingSoft(rounds: seq<Round>): nat {
    if rounds == [] || !rounds[|rounds| - 1].Soft? then 0 else TrailingSoft(rounds[..|rounds| - 1]) + 1
  }

  function LastHealthy(rounds: seq<Round>): Option<int> {
    if rounds == [] then None
    else
      match rounds[|rounds| - 1]
      case Healthy(at) => Some(at)
      case Hard(_) => None
      case Soft(_) => LastHealthy(rounds[..|rounds| - 1])
  }

  /** The streak is the length of the run of soft rounds at the end: these are soft, and the one before
      them is not. */
  lemma {:induction false} StreakIsTheRun(rounds: seq<Round>, n: nat)
    ensures TrailingSoft(rounds) == n <==>
              && n <= |rounds|
              && (forall i :: |rounds| - n <= i < |rounds| ==> rounds[i].Soft?)
              && (n < |rounds| ==> !rounds[|rounds| - n - 1].Soft?)
  {
    if rounds == [] || !rounds[|rounds| - 1].Soft? {
    } else if n > 0 {
      StreakIsTheRun(rounds[..|rounds| - 1], n - 1);
    }
  }

  /** A success at `j`, and nothing but soft rounds since. */
  ghost predicate SuccessStands(rounds: seq<Round>, j: int) {
    0 <= j < |rounds| && rounds[j].Healthy? && forall k :: j < k < |rounds| ==> rounds[k].Soft?
  }

  /** The remembered time is that of the last success that no hard failure has followed. */
  lemma {:induction false} LastHealthyStands(rounds: seq<Round>) returns (j: int)
    ensures LastHealthy(rounds).Some? ==> SuccessStands(rounds, j) && LastHealthy(rounds) == Some(rounds[j].at)
    ensures LastHealthy(rounds) == None ==> forall i :: !SuccessStands(rounds, i)
    ensures forall i :: SuccessStands(rounds, i) ==> i == j
  {
    j := |rounds| - 1;
    if rounds != [] && rounds[j].Soft? {
      var shorter := rounds[..j];
      forall i | SuccessStands(rounds, i) ensures SuccessStands(shorter, i) {
        assert i < |shorter|;
      }
      j := LastHealthyStands(shorter);
    }
  }

  /** What a round publishes, given the rounds before it. */
  function Published(before: seq<Round>, round: Round): seq<Issue> {
    match round
    case Healthy(_) => []
    case Hard(issue) => [issue]
    case Soft(at) =>
      var last := LastHealthy(before);
      if last.Some? && at - last.value < HEALTHY_GRACE_MS
         && TrailingSoft(before + [round]) < SOFT_FAIL_STREAK_TO_UNHEALTHY
      then []
      else [Unconfirmed]
  }

  /** The unconfirmed-login issue is published exactly when no standing success lies within five minutes
      or this is at least the second soft round in a row. */
  lemma SoftIssueExactly(before: seq<Round>, at: int)
    ensures Published(before, Soft(at)) == [Unconfirmed] <==>
              || (forall j :: SuccessStands(before, j) ==> at - before[j].at >= 300_000)
              || (before != [] && before[|before| - 1].Soft?)
  {
    var j := LastHealthyStands(before);
    var rounds := before + [Soft(at)];
    assert rounds[..|before|] == before;
    assert TrailingSoft(rounds) == TrailingSoft(before) + 1;
    assert LastHealthy(before).Some? ==> SuccessStands(before, j);
  }

  /** A hard failure is published at once and forgets every success, and no round publishes anything
      after a success but a failure. */
  lemma HardFailuresForget(before: seq<Round>, issue: Issue, at: int)
    ensures Published(before, Hard(issue)) == [issue]
    ensures Published(before + [Hard(issue)], Soft(at)) == [Unconfirmed]
  {
    assert (before + [Hard(issue)])[|before|] == Hard(issue);
  }

  // ---------- The cache ----------

  datatype Runtime = Claude | Cursor | Codex

  datatype Entry = Entry(at: int, issues: seq<Issue>, softProbeFailure: bool)

  function Ttl(e: Entry): int {
    if e.softProbeFailure then SOFT_PROBE_CACHE_MS else RUNTIME_CACHE_MS
  }

  predicate Serves(cache: map<Runtime, Entry>, runtime: Runtime, now: int) {
    runtime in cache && now - cache[runtime].at < Ttl(cache[runtime])
  }

  function NotCapped(issues: seq<Issue>): seq<Issue> {
    if issues == [] then []
    else NotCapped(issues[..|issues| - 1]) + if issues[|issues| - 1] == UsageCapped then [] else [issues[|issues| - 1]]
  }

  /** Every issue but the usage cap stays. */
  lemma {:induction false} NotCappedExactly(issues: seq<Issue>, issue: Issue)
    ensures issue in NotCapped(issues) <==> issue in issues && issue != UsageCapped
  {
    if issues != [] {
      NotCappedExactly(issues[..|issues| - 1], issue);
      assert issues == issues[..|issues| - 1] + [issues[|issues| - 1]];
    }
  }

  /** Where there is no cap, nothing is dropped. */
  lemma {:induction false} NothingCapped(issues: seq<Issue>)
    requires UsageCapped !in issues
    ensures NotCapped(issues) == issues
  {
    if issues != [] {
      assert issues == issues[..|issues| - 1] + [issues[|issues| - 1]];
      NothingCapped(issues[..|issues| - 1]);
    }
  }

  /** The order stays. */
  lemma {:induction false} NotCappedAppend(a: seq<Issue>, b: seq<Issue>)
    ensures NotCapped(a + b) == NotCapped(a) + NotCapped(b)
    decreases |b|
  {
    if b == [] {
      assert a + b == a;
    } else {
      assert (a + b)[..|a + b| - 1] == a + b[..|b| - 1];
      NotCappedAppend(a, b[..|b| - 1]);
    }
  }

  /** Whether an entry is served, in figures: it is younger than a minute, or than a quarter of a minute if
      it is marked soft. */
  lemma ServesExactly(cache: map<Runtime, Entry>, runtime: Runtime, now: int)
    ensures Serves(cache, runtime, now) <==>
              && runtime in cache && now - cache[runtime].at < 60_000
              && (cache[runtime].softProbeFailure ==> now - cache[runtime].at < 15_000)
  {
  }

  function CapIssues(capped: bool): seq<Issue> {
    if capped then [UsageCapped] else []
  }

  /** The usage cap is reported exactly while it lasts, first and once, whatever has been stored; and of the
      other issues exactly those that were found. */
  lemma CapIsReported(capped: bool, found: seq<Issue>, issue: Issue)
    ensures var issues := CapIssues(capped) + NotCapped(found);
            && (UsageCapped in issues <==> capped)
               && (capped ==> issues[0] == UsageCapped && UsageCapped !in issues[1..])
            && (issue != UsageCapped ==> (issue in issues <==> issue in found))
            && (!capped ==> issues == NotCapped(found))
  {
    NotCappedExactly(found, issue);
    NotCappedExactly(found, UsageCapped);
    assert (CapIssues(true) + NotCapped(found))[1..] == NotCapped(found);
  }

  /** The Cursor entry holds what the last of the first `n` rounds published, and is marked soft exactly
      if that round was soft, whether or not it published anything. */
  ghost predicate EntryOf(e: Entry, rounds: seq<Round>, n: nat) {
    && 0 < n <= |rounds|
    && e.issues == Published(rounds[..n - 1], rounds[n - 1])
    && (e.softProbeFailure <==> rounds[n - 1].Soft?)
  }

  /** The variables tell the history: the streak, the last standing success and the Cursor entry. */
  ghost predicate Tells(streak: nat, lastHealthyAt: Option<int>, cache: map<Runtime, Entry>, rounds: seq<Round>,
                        storedAfter: nat)
  {
    && streak == TrailingSoft(rounds) && lastHealthyAt == LastHealthy(rounds)
    && (Cursor in cache ==> EntryOf(cache[Cursor], rounds, storedAfter))
  }

  lemma Recorded(streak: nat, lastHealthyAt: Option<int>, cache: map<Runtime, Entry>, rounds: seq<Round>,
                 storedAfter: nat, round: Round)
    requires Tells(streak, lastHealthyAt, cache, rounds, storedAfter)
    ensures Tells(if round.Soft? then streak + 1 else 0, if round.Healthy? then Some(round.at)
                  else if round.Hard? then None else lastHealthyAt,
                  cache, rounds + [round], storedAfter)
  {
    var longer := rounds + [round];
    assert longer[..|rounds|] == rounds;
    if Cursor in cache {
      assert longer[..storedAfter - 1] == rounds[..storedAfter - 1];
    }
  }

  lemma FirstVerdict(attempts: nat -> Attempt, n: nat, end: int, k: nat, round: Round)
    requires k < n && Verdict(attempts(k)) == Some(round) && forall j: nat :: j < k ==> !SettledBy(attempts, j)
    ensures IsRound(attempts, n, end, round)
  {
    assert SettlesFirst(attempts, k, round);
  }

  class HealthMonitor {
    var streak: nat
    var lastHealthyAt: Option<int>
    var cache: map<Runtime, Entry>
    const retries: nat
    /** All rounds so far, and how many there were when the Cursor entry was stored. */
    ghost var rounds: seq<Round>
    ghost var storedAfter: nat

    ghost predicate Valid()
      reads this
    {
      Tells(streak, lastHealthyAt, cache, rounds, storedAfter)
    }

    constructor (retries: nat)
      ensures Valid() && this.retries == retries && rounds == [] && cache == map[]
    {
      this.retries := retries;
      streak, lastHealthyAt, cache, rounds, storedAfter := 0, None, map[], [], 0;
    }

    /** cursorRuntimeIssues: up to one attempt more than there are retries. */
    method CursorRuntimeIssues(attempts: nat -> Attempt, end: int) returns (issues: seq<Issue>, ghost round: Round)
      requires Valid()
      modifies this`streak, this`lastHealthyAt, this`rounds
      ensures Valid() && rounds == old(rounds) + [round]
      ensures IsRound(attempts, retries + 1, end, round) && issues == Published(old(rounds), round)
    {
      ghost var before := rounds;
      for i := 0 to retries + 1
        invariant forall k: nat :: k < i ==> !SettledBy(attempts, k)
        invariant rounds == before && Valid()
      {
        var a := attempts(i);
        if !a.ok && a.missing {
          round := Hard(CliMissing);
          FirstVerdict(attempts, retries + 1, end, i, round);
          Recorded(streak, lastHealthyAt, cache, rounds, storedAfter, round);
          streak, lastHealthyAt, rounds := 0, None, before + [round];
          return [CliMissing], round;
        }
        if a.loggedOut {
          round := Hard(LoggedOut);
          FirstVerdict(attempts, retries + 1, end, i, round);
          Recorded(streak, lastHealthyAt, cache, rounds, storedAfter, round);
          streak, lastHealthyAt, rounds := 0, None, before + [round];
          return [LoggedOut], round;
        }
        if a.ok {
          round := Healthy(a.at);
          FirstVerdict(attempts, retries + 1, end, i, round);
          Recorded(streak, lastHealthyAt, cache, rounds, storedAfter, round);
          streak, lastHealthyAt, rounds := 0, Some(a.at), before + [round];
          return [], round;
        }
      }
      round := Soft(end);
      Recorded(streak, lastHealthyAt, cache, rounds, storedAfter, round);
      streak, rounds := streak + 1, before + [round];
      if lastHealthyAt.Some? && end - lastHealthyAt.value < HEALTHY_GRACE_MS && streak < SOFT_FAIL_STREAK_TO_UNHEALTHY {
        return [], round;
      }
      return [Unconfirmed], round;
    }

    /** runtimeIssues. `readAt` and `storedAt` are the clock when the cache is read and written; `others` is
        what probing another runtime yields. */
    method RuntimeIssues(runtime: Runtime, capped: bool, readAt: int, attempts: nat -> Attempt, end: int,
                         others: seq<Issue>, storedAt: int)
      returns (issues: seq<Issue>, ghost round: Round)
      requires Valid()
      modifies this
      ensures Valid()
      ensures Serves(old(cache), runtime, readAt) ==> issues == CapIssues(capped) + old(cache)[runtime].issues
      ensures Serves(old(cache), runtime, readAt) ==> cache == old(cache) && rounds == old(rounds)
      ensures !Serves(old(cache), runtime, readAt) && runtime != Cursor ==>
                Stored(old(cache), cache, runtime, storedAt, NotCapped(others), issues, capped) && rounds == old(rounds)
                && (cache[runtime].softProbeFailure <==> Unconfirmed in others)
      ensures !Serves(old(cache), runtime, readAt) && runtime == Cursor ==>
                Stored(old(cache), cache, runtime, storedAt, Published(old(rounds), round), issues, capped)
                && rounds == old(rounds) + [round] && IsRound(attempts, retries + 1, end, round)
                   && storedAfter == |rounds|
    {
      if Serves(cache, runtime, readAt) {
        return CapIssues(capped) + cache[runtime].issues, Soft(0);
      }
      if runtime == Cursor {
        var found;
        found, round := CursorRuntimeIssues(attempts, end);
        var nonCap := NotCapped(found);
        assert nonCap == found by {
          NothingCapped(found);
        }
        var soft := Unconfirmed in nonCap || streak > 0;
        StreakMarks(old(rounds), round, streak);
        cache := cache[Cursor := Entry(storedAt, nonCap, soft)];
        storedAfter := |rounds|;
        issues := CapIssues(capped) + nonCap;
      } else {
        round := Soft(0);
        var nonCap := NotCapped(others);
        var soft := Unconfirmed in nonCap;
        assert soft <==> Unconfirmed in others by {
          NotCappedExactly(others, Unconfirmed);
        }
        cache := cache[runtime := Entry(storedAt, nonCap, soft)];
        issues := CapIssues(capped) + nonCap;
      }
    }
  }

  /** A fresh answer has been stored, for this runtime only, and is what is returned. */
  ghost predicate Stored(before: map<Runtime, Entry>, after: map<Runtime, Entry>, runtime: Runtime, at: int,
                         found: seq<Issue>, issues: seq<Issue>, capped: bool)
  {
    && runtime in after && after == before[runtime := after[runtime]]
    && after[runtime].at == at && after[runtime].issues == found && issues == CapIssues(capped) + found
  }

  /** The mark put on the entry says whether the round just made was soft. */
  lemma StreakMarks(before: seq<Round>, round: Round, streak: nat)
    requires streak == TrailingSoft(before + [round]) && round != Hard(Unconfirmed)
    ensures round.Soft? <==> Unconfirmed in Published(before, round) || streak > 0
    ensures (before + [round])[..|before|] == before
  {
    assert round.Hard? ==> Published(before, round) == [round.issue];
  }

  /** So the cache never serves an answer that is a minute old, and none of a soft round, published or held
      back, that is a quarter of a minute old. */
  lemma ServedIsYoung(cache: map<Runtime, Entry>, rounds: seq<Round>, n: nat, runtime: Runtime, now: int)
    requires Serves(cache, runtime, now)
    requires Cursor in cache ==> EntryOf(cache[Cursor], rounds, n)
    ensures now - cache[runtime].at < 60_000
    ensures runtime == Cursor && rounds[n - 1].Soft? ==> now - cache[runtime].at < 15_000
    ensures runtime == Cursor && cache[runtime].issues == [] && now - cache[runtime].at >= 15_000
            ==> rounds[n - 1].Healthy?
  {
  }
}
