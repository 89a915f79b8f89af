/** Publishing a branch: a plain push, and after a rejection at most one push pinned to the remote tip
    that was last verified, and only when nothing of value would be dropped. */
module GitPush {
  import opened CommitGraph
  import opened GitRepository
  import opened Options

  /** What is pushed: a checkout's HEAD (pushBranch) or a local branch (pushBranchRef). */
  datatype LocalRef = HeadOf(path: Path) | TipOf(branch: Branch)

  datatype Facts = Facts(local: Sha, remote: Sha, ahead: nat, behind: nat, diverged: bool)

  datatype PushResult =
    | Pushed(lease: Option<(Sha, Sha)>)
    | NotPushed(rejected: bool, facts: Option<Facts>)

  function LocalTip(refs: map<Branch, Sha>, worktrees: seq<Worktree>, ref: LocalRef): Option<Sha> {
    match ref
    case TipOf(b) => Lookup(refs, b)
    case HeadOf(path) =>
      if worktrees == [] then None
      else if worktrees[0].path == path then HeadSha(refs, worktrees[0].head)
      else LocalTip(refs, worktrees[1..], ref)
  }

  /** The checkout `i` is the first at this path. */
  ghost predicate FirstAt(worktrees: seq<Worktree>, i: nat, path: Path)
    requires i < |worktrees|
  {
    worktrees[i].path == path && forall j :: 0 <= j < i ==> worktrees[j].path != path
  }

  /** The HEAD of a checkout is that of the checkout at this path: of the first one, and there is none at a
      path of no checkout. */
  lemma {:induction false} LocalTipExactly(refs: map<Branch, Sha>, worktrees: seq<Worktree>, path: Path)
    ensures forall i :: 0 <= i < |worktrees| && FirstAt(worktrees, i, path) ==>
              LocalTip(refs, worktrees, HeadOf(path)) == HeadSha(refs, worktrees[i].head)
    ensures (forall w :: w in worktrees ==> w.path != path) ==> LocalTip(refs, worktrees, HeadOf(path)) == None
  {
    if worktrees != [] && worktrees[0].path != path {
      var rest := worktrees[1..];
      LocalTipExactly(refs, rest, path);
      forall i | 0 <= i < |worktrees| && FirstAt(worktrees, i, path)
        ensures LocalTip(refs, worktrees, HeadOf(path)) == HeadSha(refs, worktrees[i].head)
      {
        assert forall j :: 0 <= j < i ==> rest[j] == worktrees[j + 1];
        assert FirstAt(rest, i - 1, path);
      }
    }
  }

  ghost predicate DistinctPaths(worktrees: seq<Worktree>) {
    forall i, j :: 0 <= i < j < |worktrees| ==> worktrees[i].path != worktrees[j].path
  }

  /** What is pushed: for a branch its tip; for a checkout the tip of the branch it is on, or its commit if
      it is detached. */
  ghost predicate IsPushed(refs: map<Branch, Sha>, worktrees: seq<Worktree>, ref: LocalRef, local: Option<Sha>) {
    match ref
    case TipOf(b) => local == if b in refs then Some(refs[b]) else None
    case HeadOf(path) =>
      && (forall w :: w in worktrees && w.path == path && w.head.Detached? ==> local == Some(w.head.sha))
      && (forall w :: w in worktrees && w.path == path && w.head.OnBranch? ==>
            local == if w.head.branch in refs then Some(refs[w.head.branch]) else None)
      && ((forall w :: w in worktrees ==> w.path != path) ==> local == None)
  }

  lemma LocalTipIsPushed(refs: map<Branch, Sha>, worktrees: seq<Worktree>, ref: LocalRef)
    requires DistinctPaths(worktrees)
    ensures IsPushed(refs, worktrees, ref, LocalTip(refs, worktrees, ref))
  {
    if ref.HeadOf? {
      LocalTipExactly(refs, worktrees, ref.path);
      forall w | w in worktrees && w.path == ref.path
        ensures LocalTip(refs, worktrees, ref) == HeadSha(refs, w.head)
      {
        var i :| 0 <= i < |worktrees| && worktrees[i] == w;
        assert FirstAt(worktrees, i, w.path);
      }
    }
  }

  lemma {:induction false} LocalTipIsACommit(repo: GitRepo, worktrees: seq<Worktree>, ref: LocalRef)
    requires repo.Valid() && forall w :: w in worktrees ==> w in repo.worktrees
    ensures var tip := LocalTip(repo.refs, worktrees, ref); tip.Some? ==> tip.value in repo.commits
  {
    if ref.HeadOf? && worktrees != [] && worktrees[0].path != ref.path {
      LocalTipIsACommit(repo, worktrees[1..], ref);
    }
  }

  // ---------- When may a diverged remote be replaced ----------

  /** leasePushExpectedRemoteSha: the remote tip to pin the forced push to, if forcing is allowed. */
  function LeasePin(g: Graph, local: Sha, remote: Sha, lastKnown: Option<Sha>): Option<Sha>
    requires WellFormed(g)
  {
    if lastKnown != Some(remote) then None
    else
      var lines := Cherry(g, local, remote);
      if lines == {} then None
      else if exists l <- lines :: !l.equivalent then None
      else if exists c <- Only(g, remote, local) :: c in g && IsMerge(g[c]) then None
      else Some(remote)
  }

  /** The three tests on git's output together mean: the tip is the last verified one, the remote does
      have commits of its own, none of them is a merge, and each has its patch in the local history. */
  lemma LeasePinExactly(g: Graph, local: Sha, remote: Sha, lastKnown: Option<Sha>)
    requires WellFormed(g)
    ensures LeasePin(g, local, remote, lastKnown).Some? <==>
              && lastKnown == Some(remote)
              && Only(g, remote, local) != {}
              && (forall c :: c in Only(g, remote, local) ==>
                    !IsMerge(g[c]) && HasEquivalent(g, Only(g, local, remote), c))
    ensures LeasePin(g, local, remote, lastKnown).Some? ==>
              LeasePin(g, local, remote, lastKnown) == Some(remote) && DropsOnlyEquivalent(g, remote, local)
  {
    var lines := Cherry(g, local, remote);
    if LeasePin(g, local, remote, lastKnown).Some? {
      var l :| l in lines;
      assert l.sha in Only(g, remote, local);
      forall c | c in Only(g, remote, local)
        ensures !IsMerge(g[c]) && HasEquivalent(g, Only(g, local, remote), c)
      {
        assert !IsMerge(g[c]);
        assert CherryLine(c, HasEquivalent(g, Only(g, local, remote), c)) in lines;
      }
    } else if lastKnown == Some(remote) && Only(g, remote, local) != {}
        && forall c :: c in Only(g, remote, local) ==> !IsMerge(g[c]) && HasEquivalent(g, Only(g, local, remote), c) {
      var c :| c in Only(g, remote, local);
      assert CherryLine(c, HasEquivalent(g, Only(g, local, remote), c)) in lines;
    }
  }

  lemma LeasePinStable(g: Graph, h: Graph, local: Sha, remote: Sha, lastKnown: Option<Sha>)
    requires WellFormed(g) && WellFormed(h) && Extends(g, h) && local in g && remote in g
    ensures LeasePin(g, local, remote, lastKnown) == LeasePin(h, local, remote, lastKnown)
  {
    HistoryStable(g, h, local);
    HistoryStable(g, h, remote);
    assert Only(g, remote, local) == Only(h, remote, local) && Only(g, local, remote) == Only(h, local, remote);
    assert Cherry(g, local, remote) == Cherry(h, local, remote);
  }

  // ---------- What a write to origin may do ----------

  predicate FastForward(g: Graph, w: RemoteWrite)
    requires WellFormed(g)
  {
    w.now.Some? && (w.was.None? || Reaches(g, w.now.value, w.was.value))
  }

  ghost predicate ProvenReplacement(g: Graph, w: RemoteWrite, lastKnown: Option<Sha>)
    requires WellFormed(g)
  {
    w.now.Some? && w.was.Some? && w.was == lastKnown && DropsOnlyEquivalent(g, w.was.value, w.now.value)
  }

  ghost predicate Justified(g: Graph, w: RemoteWrite, branch: Branch, local: Sha, lastKnown: Option<Sha>)
    requires WellFormed(g)
  {
    w.branch == branch && w.now == Some(local) && (FastForward(g, w) || ProvenReplacement(g, w, lastKnown))
  }

  /** A replacement proven for one local tip stays proven for every tip ahead of it, so commits made on HEAD
      between the proof and the push do no harm. */
  lemma AheadKeepsProof(g: Graph, was: Sha, proven: Sha, pushed: Sha)
    requires WellFormed(g) && was in g && Reaches(g, pushed, proven) && DropsOnlyEquivalent(g, was, proven)
    ensures DropsOnlyEquivalent(g, was, pushed)
  {
    forall c | Reaches(g, proven, c) ensures Reaches(g, pushed, c) {
      ReachesTransitive(g, pushed, proven, c);
    }
    assert History(g, proven) <= History(g, pushed);
    assert Only(g, was, pushed) <= Only(g, was, proven);
  }

  lemma JustifiedStable(g: Graph, h: Graph, w: RemoteWrite, branch: Branch, local: Sha, lastKnown: Option<Sha>)
    requires WellFormed(g) && WellFormed(h) && Extends(g, h) && local in g && (w.was.Some? ==> w.was.value in g)
    requires Justified(g, w, branch, local, lastKnown)
    ensures Justified(h, w, branch, local, lastKnown)
    ensures FastForward(g, w) ==> FastForward(h, w)
  {
    if w.was.Some? {
      ReachesStable(g, h, local, w.was.value);
      if ProvenReplacement(g, w, lastKnown) {
        DropsStable(g, h, w.was.value, local);
      }
    }
  }

  /** Our writes in the log from position `from` on: each justified, and only the last one can be a
      replacement. */
  ghost predicate SafeLog(g: Graph, writes: seq<RemoteWrite>, from: nat, branch: Branch, local: Sha,
                          lastKnown: Option<Sha>)
    requires WellFormed(g)
  {
    && (forall i :: from <= i < |writes| && writes[i].ours ==> Justified(g, writes[i], branch, local, lastKnown))
    && (forall i, j :: from <= i < j < |writes| && writes[i].ours && writes[j].ours ==> FastForward(g, writes[i]))
  }

  /** Our writes from `from` on are all fast-forwards to `local`. */
  ghost predicate OnlyFastForwards(g: Graph, writes: seq<RemoteWrite>, from: nat, branch: Branch, local: Sha)
    requires WellFormed(g)
  {
    forall i :: from <= i < |writes| && writes[i].ours ==>
      writes[i].branch == branch && writes[i].now == Some(local) && FastForward(g, writes[i])
  }

  ghost predicate WasAt(writes: seq<RemoteWrite>, from: nat, branch: Branch, tip: Sha) {
    exists k :: from <= k <= |writes| && TipAt(writes, k, branch) == Some(tip)
  }

  lemma WasAtEarlier(writes: seq<RemoteWrite>, from: nat, later: nat, branch: Branch, tip: Sha)
    requires from <= later && WasAt(writes, later, branch, tip)
    ensures WasAt(writes, from, branch, tip)
  {
    var k :| later <= k <= |writes| && TipAt(writes, k, branch) == Some(tip);
  }

  lemma ReachedLocalWasThere(writes: seq<RemoteWrite>, from: nat, seen: nat, branch: Branch, local: Sha)
    requires from <= seen <= |writes| && ReachedLocal(writes, seen, branch, local)
    ensures WasAt(writes, from, branch, local)
  {
    if TipAt(writes, seen, branch) != Some(local) {
      TipAtStep(writes, seen, branch);
    }
  }

  // ---------- The procedures ----------

  /** What may go wrong in one call, besides others pushing: the connection of the plain push, the fetch
      and the later commands that gather the facts, the comparison of the histories, the connection of the
      forced push and reading the local tip after it, and the fetch and commands that gather fresh facts. */
  datatype PushEnv = PushEnv(plain: Line, fetchWorks: bool, factsWork: bool, pinWorks: bool, lease: Line,
                             tipReads: bool, refetchWorks: bool, refactsWork: bool)

  /** The facts about `local` against `remote`: the commits on each side, counted. */
  function FactsOf(g: Graph, local: Sha, remote: Sha): Facts
    requires WellFormed(g)
  {
    var ahead, behind := |Only(g, local, remote)|, |Only(g, remote, local)|;
    Facts(local, remote, ahead, behind, ahead > 0 && behind > 0)
  }

  lemma FactsStand(g: Graph, h: Graph, local: Sha, remote: Sha)
    requires WellFormed(g) && WellFormed(h) && Extends(g, h) && local in g && remote in g
    ensures FactsOf(g, local, remote) == FactsOf(h, local, remote)
  {
    HistoryStable(g, h, local);
    HistoryStable(g, h, remote);
    assert Only(g, local, remote) == Only(h, local, remote) && Only(g, remote, local) == Only(h, remote, local);
  }

  /** The tracking ref after a fetch: the tip of the moment `at` if the fetch worked and there was one. */
  function AfterFetch(writes: seq<RemoteWrite>, at: nat, branch: Branch, works: bool, before: Option<Sha>): Option<Sha>
    requires at <= |writes|
  {
    var tip := TipAt(writes, at, branch);
    if works && tip.Some? then tip else before
  }

  /** gatherPushRejectionFacts: a fetch, whose failure is ignored, then the two counts against the
      tracking ref. None when any command after the fetch fails, or there is no tip on either side. */
  method GatherPushRejectionFacts(repo: GitRepo, branch: Branch, ref: LocalRef, fetchWorks: bool, factsWork: bool)
    returns (facts: Option<Facts>, ghost at: nat)
    requires repo.Valid()
    modifies repo`commits, repo`remote, repo`writes, repo`tracking
    ensures repo.Valid() && Extends(old(repo.commits), repo.commits) && old(repo.writes) <= repo.writes
    ensures forall i :: |old(repo.writes)| <= i < |repo.writes| ==> !repo.writes[i].ours
    ensures |old(repo.writes)| <= at <= |repo.writes|
    ensures Lookup(repo.tracking, branch)
            == AfterFetch(repo.writes, at, branch, fetchWorks, Lookup(old(repo.tracking), branch))
    ensures var local, remote := LocalTip(repo.refs, repo.worktrees, ref), Lookup(repo.tracking, branch);
            facts == if factsWork && local.Some? && remote.Some?
                     then Some(FactsOf(repo.commits, local.value, remote.value)) else None
  {
    var report;
    report, at := repo.Fetch(branch, fetchWorks);
    var local := LocalTip(repo.refs, repo.worktrees, ref);
    if !factsWork || branch !in repo.tracking || local.None? {
      return None, at;
    }
    var remote := repo.tracking[branch];
    var ahead, behind := |Only(repo.commits, local.value, remote)|, |Only(repo.commits, remote, local.value)|;
    return Some(Facts(local.value, remote, ahead, behind, ahead > 0 && behind > 0)), at;
  }

  ghost predicate NoneOurs(writes: seq<RemoteWrite>, from: nat) {
    forall i :: from <= i < |writes| ==> !writes[i].ours
  }

  /** The moments at which origin decided on the plain push, answered the fetch, decided on the forced push
      and answered the fetch after it; `rejected` is when the plain push was over. */
  datatype Moments = Moments(decided: nat, rejected: nat, fetched: nat, pinned: nat, refetched: nat)

  /** When the second push is due: the gathered facts show a divergence and the pin is granted. */
  predicate ShouldRetry(g: Graph, facts: Option<Facts>, lastKnown: Option<Sha>, env: PushEnv)
    requires WellFormed(g)
  {
    && facts.Some? && facts.value.diverged && env.pinWorks
    && LeasePin(g, facts.value.local, facts.value.remote, lastKnown).Some?
  }

  /** The forced push over the tip of the facts `f`, and the answer: done, or fresh facts if they can be
      had, and the ones at hand if not. */
  ghost predicate Retried(g: Graph, writes: seq<RemoteWrite>, from: nat, branch: Branch, f: Facts, env: PushEnv,
                          pinned: nat, refetched: nat, r: PushResult)
    requires WellFormed(g)
  {
    && DecidedAt(g, writes, from, pinned, branch, f.local, Some(f.remote), env.lease.arrives)
    && var report := Report(env.lease, Accepts(g, TipAt(writes, pinned, branch), f.local, Some(f.remote)));
       if report == Accepted && env.tipReads then r == Pushed(Some((f.remote, f.local)))
       else
         && pinned <= refetched <= |writes|
         && var seen := AfterFetch(writes, refetched, branch, env.refetchWorks,
                                   Some(if report == Accepted then f.local else f.remote));
            r == NotPushed(true, Some(if env.refactsWork then FactsOf(g, f.local, seen.value) else f))
  }

  /** What follows a rejection, `tracked` being the tracking ref before it. */
  ghost predicate Recovered(g: Graph, writes: seq<RemoteWrite>, from: nat, branch: Branch, local: Sha,
                            tracked: Option<Sha>, lastKnown: Option<Sha>, env: PushEnv, m: Moments, r: PushResult)
    requires WellFormed(g)
  {
    && from <= m.fetched <= |writes|
    && var remote := AfterFetch(writes, m.fetched, branch, env.fetchWorks, tracked);
       var facts := if env.factsWork && remote.Some? then Some(FactsOf(g, local, remote.value)) else None;
       if ShouldRetry(g, facts, lastKnown, env) then
         m.fetched <= m.pinned && Retried(g, writes, from, branch, facts.value, env, m.pinned, m.refetched, r)
       else r == NotPushed(true, facts) && NoneOurs(writes, from)
  }

  /** One push call of the local tip `local`, from position `from` of the log on. */
  ghost predicate PushOutcome(g: Graph, writes: seq<RemoteWrite>, from: nat, branch: Branch, local: Sha,
                              tracked: Option<Sha>, lastKnown: Option<Sha>, env: PushEnv, m: Moments, r: PushResult)
    requires WellFormed(g)
  {
    && from <= m.rejected <= |writes|
    && DecidedAt(g, writes[..m.rejected], from, m.decided, branch, local, None, env.plain.arrives)
    && match Report(env.plain, Accepts(g, TipAt(writes, m.decided, branch), local, None))
       case Accepted => r == Pushed(None) && NoneOurs(writes, m.rejected)
       case Failed => r == NotPushed(false, None) && NoneOurs(writes, m.rejected)
       case Rejected => Recovered(g, writes, m.rejected, branch, local, tracked, lastKnown, env, m, r)
  }

  /** The retry, once the histories are known to have diverged and the pin is granted. */
  method RetryWithLease(repo: GitRepo, branch: Branch, ref: LocalRef, f: Facts, env: PushEnv)
    returns (r: PushResult, ghost pinned: nat, ghost refetched: nat)
    requires repo.Valid() && f.local in repo.commits && f.remote in repo.commits
    requires LocalTip(repo.refs, repo.worktrees, ref) == Some(f.local)
             && Lookup(repo.tracking, branch) == Some(f.remote)
    modifies repo`commits, repo`remote, repo`writes, repo`tracking
    ensures repo.Valid() && Extends(old(repo.commits), repo.commits) && old(repo.writes) <= repo.writes
    ensures Retried(repo.commits, repo.writes, |old(repo.writes)|, branch, f, env, pinned, refetched, r)
  {
    ghost var from := |repo.writes|;
    var report;
    report, pinned := repo.Push(branch, f.local, Some(f.remote), env.lease);
    refetched := |repo.writes|;
    if report.Accepted? && env.tipReads {
      r := Pushed(Some((f.remote, f.local)));
      return;
    }
    ghost var known, log := repo.commits, repo.writes;
    var again;
    again, refetched := GatherPushRejectionFacts(repo, branch, ref, env.refetchWorks, env.refactsWork);
    r := NotPushed(true, if again.Some? then again else Some(f));
    RetryFails(known, repo.commits, log, repo.writes, from, branch, f, env, pinned, refetched, r);
  }

  /** A forced push that was not reported as done, the log then being `log`, and the facts after it. */
  lemma RetryFails(g: Graph, h: Graph, log: seq<RemoteWrite>, writes: seq<RemoteWrite>, from: nat, branch: Branch,
                   f: Facts, env: PushEnv, pinned: nat, refetched: nat, r: PushResult)
    requires WellFormed(g) && WellFormed(h) && Extends(g, h) && f.local in g
    requires log <= writes && NoneOurs(writes, |log|) && |log| <= refetched <= |writes|
    requires DecidedAt(g, log, from, pinned, branch, f.local, Some(f.remote), env.lease.arrives)
    requires var report := Report(env.lease, Accepts(g, TipAt(log, pinned, branch), f.local, Some(f.remote)));
             var seen := AfterFetch(writes, refetched, branch, env.refetchWorks,
                                    Some(if report == Accepted then f.local else f.remote));
             && !(report == Accepted && env.tipReads)
             && r == NotPushed(true, Some(if env.refactsWork then FactsOf(h, f.local, seen.value) else f))
    ensures Retried(h, writes, from, branch, f, env, pinned, refetched, r)
  {
    DecisionStands(g, h, log, writes, from, pinned, branch, f.local, Some(f.remote), env.lease.arrives);
  }

  lemma RetriedEarlier(g: Graph, writes: seq<RemoteWrite>, from: nat, later: nat, branch: Branch, f: Facts,
                       env: PushEnv, pinned: nat, refetched: nat, r: PushResult)
    requires WellFormed(g) && from <= later <= |writes| && forall i :: from <= i < later ==> !writes[i].ours
    requires Retried(g, writes, later, branch, f, env, pinned, refetched, r)
    ensures Retried(g, writes, from, branch, f, env, pinned, refetched, r)
  {
  }

  /** The facts gathered in `log` stand while the retry goes on to `writes`, and with them the decision. */
  lemma RetryRecovers(g: Graph, h: Graph, log: seq<RemoteWrite>, writes: seq<RemoteWrite>, from: nat, branch: Branch,
                      local: Sha, tracked: Option<Sha>, lastKnown: Option<Sha>, env: PushEnv, m: Moments, r: PushResult)
    requires WellFormed(g) && WellFormed(h) && Extends(g, h) && log <= writes
    requires from <= m.fetched <= |log| && NoneOurs(log, from)
    requires var remote := AfterFetch(log, m.fetched, branch, env.fetchWorks, tracked);
             && local in g && remote.Some? && remote.value in g && env.factsWork
             && ShouldRetry(g, Some(FactsOf(g, local, remote.value)), lastKnown, env)
             && Retried(h, writes, |log|, branch, FactsOf(g, local, remote.value), env, m.pinned, m.refetched, r)
    ensures Recovered(h, writes, from, branch, local, tracked, lastKnown, env, m, r)
  {
    var remote := AfterFetch(log, m.fetched, branch, env.fetchWorks, tracked).value;
    var f := FactsOf(g, local, remote);
    assert AfterFetch(writes, m.fetched, branch, env.fetchWorks, tracked) == Some(remote) by {
      assert writes[..m.fetched] == log[..m.fetched];
    }
    assert f == FactsOf(h, local, remote) by {
      FactsStand(g, h, local, remote);
    }
    assert ShouldRetry(h, Some(f), lastKnown, env) by {
      LeasePinStable(g, h, local, remote, lastKnown);
    }
    assert Retried(h, writes, from, branch, f, env, m.pinned, m.refetched, r) by {
      assert forall i :: from <= i < |log| ==> writes[i] == log[i];
      RetriedEarlier(h, writes, from, |log|, branch, f, env, m.pinned, m.refetched, r);
    }
  }

  /** pushFailureResult after a rejection. */
  method RecoverRejectedPush(repo: GitRepo, branch: Branch, ref: LocalRef, local: Sha, lastKnown: Option<Sha>,
                             env: PushEnv)
    returns (r: PushResult, ghost m: Moments)
    requires repo.Valid() && LocalTip(repo.refs, repo.worktrees, ref) == Some(local) && local in repo.commits
    modifies repo`commits, repo`remote, repo`writes, repo`tracking
    ensures repo.Valid() && Extends(old(repo.commits), repo.commits) && old(repo.writes) <= repo.writes
    ensures Recovered(repo.commits, repo.writes, |old(repo.writes)|, branch, local, Lookup(old(repo.tracking), branch),
                      lastKnown, env, m, r)
  {
    var facts;
    ghost var at;
    facts, at := GatherPushRejectionFacts(repo, branch, ref, env.fetchWorks, env.factsWork);
    m := Moments(0, 0, at, 0, 0);
    if facts.None? || !facts.value.diverged || !env.pinWorks
       || LeasePin(repo.commits, facts.value.local, facts.value.remote, lastKnown).None? {
      return NotPushed(true, facts), m;
    }
    var f := facts.value;
    assert f.remote in repo.tracking.Values;
    ghost var known, log := repo.commits, repo.writes;
    ghost var pinned, refetched;
    r, pinned, refetched := RetryWithLease(repo, branch, ref, f, env);
    m := Moments(0, 0, at, pinned, refetched);
    RetryRecovers(known, repo.commits, log, repo.writes, |old(repo.writes)|, branch, local,
                  Lookup(old(repo.tracking), branch), lastKnown, env, m, r);
  }

  method PlainPush(repo: GitRepo, branch: Branch, local: Sha, line: Line)
    returns (plain: PushReport, ghost decided: nat)
    requires repo.Valid() && local in repo.commits
    modifies repo`commits, repo`remote, repo`writes, repo`tracking
    ensures repo.Valid() && Extends(old(repo.commits), repo.commits) && old(repo.writes) <= repo.writes
    ensures DecidedAt(repo.commits, repo.writes, |old(repo.writes)|, decided, branch, local, None, line.arrives)
    ensures plain == Report(line, Accepts(repo.commits, TipAt(repo.writes, decided, branch), local, None))
    ensures plain != Accepted ==> repo.tracking == old(repo.tracking)
  {
    plain, decided := repo.Push(branch, local, None, line);
  }

  /** One push of a local tip. */
  method PushLocal(repo: GitRepo, branch: Branch, ref: LocalRef, local: Sha, lastKnown: Option<Sha>, env: PushEnv)
    returns (r: PushResult, ghost m: Moments)
    requires repo.Valid() && LocalTip(repo.refs, repo.worktrees, ref) == Some(local) && local in repo.commits
    modifies repo`commits, repo`remote, repo`writes, repo`tracking
    ensures repo.Valid() && Extends(old(repo.commits), repo.commits) && old(repo.writes) <= repo.writes
    ensures PushOutcome(repo.commits, repo.writes, |old(repo.writes)|, branch, local,
                        Lookup(old(repo.tracking), branch),
                        lastKnown, env, m, r)
  {
    var plain;
    ghost var decided;
    plain, decided := PlainPush(repo, branch, local, env.plain);
    ghost var from, known, log := |old(repo.writes)|, repo.commits, repo.writes;
    m := Moments(decided, |log|, 0, 0, 0);
    if plain == Accepted {
      r := Pushed(None);
      PlainEnds(known, log, from, branch, local, Lookup(old(repo.tracking), branch), lastKnown, env, m, r);
    } else if plain == Failed {
      r := NotPushed(false, None);
      PlainEnds(known, log, from, branch, local, Lookup(old(repo.tracking), branch), lastKnown, env, m, r);
    } else {
      r, m := RecoverRejectedPush(repo, branch, ref, local, lastKnown, env);
      m := m.(decided := decided, rejected := |log|);
      RejectionRecovers(known, repo.commits, log, repo.writes, from, branch, local, Lookup(old(repo.tracking), branch),
                        lastKnown, env, m, r);
    }
  }

  lemma PlainEnds(g: Graph, log: seq<RemoteWrite>, from: nat, branch: Branch, local: Sha, tracked: Option<Sha>,
                  lastKnown: Option<Sha>, env: PushEnv, m: Moments, r: PushResult)
    requires WellFormed(g) && m.rejected == |log| && from <= |log|
    requires DecidedAt(g, log, from, m.decided, branch, local, None, env.plain.arrives)
    requires var plain := Report(env.plain, Accepts(g, TipAt(log, m.decided, branch), local, None));
             (plain == Accepted && r == Pushed(None)) || (plain == Failed && r == NotPushed(false, None))
    ensures PushOutcome(g, log, from, branch, local, tracked, lastKnown, env, m, r)
  {
    assert log[..|log|] == log;
  }

  lemma RejectionRecovers(g: Graph, h: Graph, log: seq<RemoteWrite>, writes: seq<RemoteWrite>, from: nat,
                          branch: Branch, local: Sha, tracked: Option<Sha>, lastKnown: Option<Sha>, env: PushEnv,
                          m: Moments, r: PushResult)
    requires WellFormed(g) && WellFormed(h) && Extends(g, h) && local in g && log <= writes
    requires m.rejected == |log| && from <= |log|
    requires DecidedAt(g, log, from, m.decided, branch, local, None, env.plain.arrives)
    requires Report(env.plain, Accepts(g, TipAt(log, m.decided, branch), local, None)) == Rejected
    requires Recovered(h, writes, |log|, branch, local, tracked, lastKnown, env, m, r)
    ensures PushOutcome(h, writes, from, branch, local, tracked, lastKnown, env, m, r)
  {
    assert writes[..|log|] == log && writes[..m.decided] == log[..m.decided];
    RejectionStands(g, h, log, from, m.decided, branch, local, env);
  }

  lemma RejectionStands(g: Graph, h: Graph, log: seq<RemoteWrite>, from: nat, decided: nat, branch: Branch, local: Sha,
                        env: PushEnv)
    requires WellFormed(g) && WellFormed(h) && Extends(g, h) && local in g
    requires DecidedAt(g, log, from, decided, branch, local, None, env.plain.arrives)
    ensures DecidedAt(h, log, from, decided, branch, local, None, env.plain.arrives)
    ensures Accepts(h, TipAt(log, decided, branch), local, None) == Accepts(g, TipAt(log, decided, branch), local, None)
  {
    DecisionStands(g, h, log, log, from, decided, branch, local, None, env.plain.arrives);
  }

  /** pushBranch and pushBranchRef, while anybody else may push to origin at any moment.
      Every write this call makes to origin is a creation, a fast-forward, or the replacement of
      exactly `lastKnown` by a history that still carries every dropped patch; a tip somebody moved
      after it was fetched is never overwritten. Nothing local changes. `local` is the commit pushed. */
  method PushBranch(repo: GitRepo, branch: Branch, ref: LocalRef, lastKnown: Option<Sha>, env: PushEnv)
    returns (r: PushResult, ghost local: Option<Sha>, ghost m: Moments)
    requires repo.Valid()
    modifies repo`commits, repo`remote, repo`writes, repo`tracking
    ensures repo.Valid() && Extends(old(repo.commits), repo.commits) && old(repo.writes) <= repo.writes
    ensures DistinctPaths(repo.worktrees) ==> IsPushed(repo.refs, repo.worktrees, ref, local)
    ensures local == None ==> r == NotPushed(env.plain.word, None) && NoneOurs(repo.writes, |old(repo.writes)|)
    ensures local.Some? ==>
              && PushOutcome(repo.commits, repo.writes, |old(repo.writes)|, branch, local.value,
                             Lookup(old(repo.tracking), branch), lastKnown, env, m, r)
              && SafeLog(repo.commits, repo.writes, |old(repo.writes)|, branch, local.value, lastKnown)
  {
    var tip := LocalTip(repo.refs, repo.worktrees, ref);
    local, m := tip, Moments(0, 0, 0, 0, 0);
    if DistinctPaths(repo.worktrees) {
      LocalTipIsPushed(repo.refs, repo.worktrees, ref);
    }
    if tip.None? {
      r := NotPushed(env.plain.word, None);
      if env.plain.word {
        var facts;
        ghost var at;
        facts, at := GatherPushRejectionFacts(repo, branch, ref, env.fetchWorks, env.factsWork);
        r := NotPushed(true, facts);
      }
      return;
    }
    LocalTipIsACommit(repo, repo.worktrees, ref);
    ghost var tracked := Lookup(repo.tracking, branch);
    r, m := PushLocal(repo, branch, ref, tip.value, lastKnown, env);
    PushIsSafe(repo.commits, repo.writes, |old(repo.writes)|, branch, tip.value, tracked, lastKnown, env, m, r);
  }

  /** What the outcome of a call means: its writes are safe; if it says that the branch was pushed, the branch
      was at the local tip at some moment of the call, by force only over the last known tip. */
  lemma PushIsSafe(g: Graph, writes: seq<RemoteWrite>, from: nat, branch: Branch, local: Sha, tracked: Option<Sha>,
                   lastKnown: Option<Sha>, env: PushEnv, m: Moments, r: PushResult)
    requires WellFormed(g) && PushOutcome(g, writes, from, branch, local, tracked, lastKnown, env, m, r)
    ensures SafeLog(g, writes, from, branch, local, lastKnown)
    ensures r.Pushed? ==> WasAt(writes, from, branch, local)
    ensures r.Pushed? && r.lease.Some? ==> lastKnown == Some(r.lease.value.0) && r.lease.value.1 == local
    ensures r.NotPushed? && r.facts.Some? ==> r.rejected && r.facts.value.local == local
  {
    PlainIsSafe(g, writes, m.rejected, from, m.decided, branch, local, env);
    var report := Report(env.plain, Accepts(g, TipAt(writes, m.decided, branch), local, None));
    if report == Rejected {
      RecoveryIsSafe(g, writes, m.rejected, branch, local, tracked, lastKnown, env, m, r);
      if r.Pushed? {
        WasAtEarlier(writes, from, m.rejected, branch, local);
      }
    }
  }

  lemma PlainIsSafe(g: Graph, writes: seq<RemoteWrite>, cut: nat, from: nat, decided: nat, branch: Branch, local: Sha,
                    env: PushEnv)
    requires WellFormed(g) && from <= cut <= |writes|
    requires DecidedAt(g, writes[..cut], from, decided, branch, local, None, env.plain.arrives)
    ensures OnlyFastForwards(g, writes[..cut], from, branch, local)
    ensures forall i :: from <= i < cut ==> writes[i] == writes[..cut][i]
    ensures Report(env.plain, Accepts(g, TipAt(writes, decided, branch), local, None)) == Accepted
            ==> WasAt(writes, from, branch, local)
  {
    assert writes[..cut][..decided] == writes[..decided];
    if Report(env.plain, Accepts(g, TipAt(writes, decided, branch), local, None)) == Accepted {
      AcceptedIsReached(g, writes[..cut], from, decided, branch, local, None);
      if TipAt(writes, decided, branch) != Some(local) {
        assert writes[decided] == writes[..cut][decided];
      }
      ReachedLocalWasThere(writes, from, decided, branch, local);
    }
  }

  lemma RecoveryIsSafe(g: Graph, writes: seq<RemoteWrite>, from: nat, branch: Branch, local: Sha, tracked: Option<Sha>,
                       lastKnown: Option<Sha>, env: PushEnv, m: Moments, r: PushResult)
    requires WellFormed(g) && Recovered(g, writes, from, branch, local, tracked, lastKnown, env, m, r)
    ensures SafeLog(g, writes, from, branch, local, lastKnown)
    ensures r.Pushed? ==> WasAt(writes, from, branch, local)
    ensures r.Pushed? ==> r.lease.Some? && lastKnown == Some(r.lease.value.0) && r.lease.value.1 == local
    ensures r.NotPushed? ==> r.rejected && (r.facts.Some? ==> r.facts.value.local == local)
  {
    var remote := AfterFetch(writes, m.fetched, branch, env.fetchWorks, tracked);
    if env.factsWork && remote.Some? && ShouldRetry(g, Some(FactsOf(g, local, remote.value)), lastKnown, env) {
      LeasePinExactly(g, local, remote.value, lastKnown);
      if r.Pushed? {
        AcceptedIsReached(g, writes, from, m.pinned, branch, local, remote);
        ReachedLocalWasThere(writes, from, m.pinned, branch, local);
      }
    }
  }

  /** A plain push that nothing hinders is made: if its request arrives while origin has no such branch or one
      that the local tip is ahead of, the branch is at the local tip then, and if the answer comes back too
      the call says so. */
  lemma PushGoesThrough(g: Graph, writes: seq<RemoteWrite>, from: nat, branch: Branch, local: Sha, tracked: Option<Sha>,
                        lastKnown: Option<Sha>, env: PushEnv, m: Moments, r: PushResult)
    requires WellFormed(g) && PushOutcome(g, writes, from, branch, local, tracked, lastKnown, env, m, r)
    requires var tip := TipAt(writes, m.decided, branch);
             env.plain.arrives && (tip.None? || Reaches(g, local, tip.value))
    ensures WasAt(writes, from, branch, local)
    ensures env.plain.heard ==> r == Pushed(None)
  {
    assert writes[..m.rejected][..m.decided] == writes[..m.decided];
    AcceptedIsReached(g, writes[..m.rejected], from, m.decided, branch, local, None);
    if TipAt(writes, m.decided, branch) != Some(local) {
      assert writes[m.decided] == writes[..m.rejected][m.decided];
    }
    ReachedLocalWasThere(writes, from, m.decided, branch, local);
  }

  /** So is the forced push: after a rejection, with the fetched tip the last known one, some commits on the
      remote side, none of them a merge and each with its patch on the local side, and with commits on the
      local side too, the request replaces the tip unless origin was moved once more. */
  lemma ForcedPushGoesThrough(g: Graph, writes: seq<RemoteWrite>, from: nat, branch: Branch, local: Sha,
                              tracked: Option<Sha>, lastKnown: Option<Sha>, env: PushEnv, m: Moments, r: PushResult)
    requires WellFormed(g) && PushOutcome(g, writes, from, branch, local, tracked, lastKnown, env, m, r)
    requires m.fetched <= |writes| && m.pinned <= |writes| && lastKnown.Some?
    requires !(env.plain.heard && env.plain.arrives && Accepts(g, TipAt(writes, m.decided, branch), local, None))
    requires env.plain.word && env.factsWork && env.pinWorks && env.lease.arrives
    requires AfterFetch(writes, m.fetched, branch, env.fetchWorks, tracked) == lastKnown
    requires Only(g, local, lastKnown.value) != {} && Only(g, lastKnown.value, local) != {}
    requires forall c :: c in Only(g, lastKnown.value, local) ==>
               !IsMerge(g[c]) && HasEquivalent(g, Only(g, local, lastKnown.value), c)
    requires TipAt(writes, m.pinned, branch) == lastKnown
    ensures WasAt(writes, from, branch, local)
    ensures env.lease.heard && env.tipReads ==> r == Pushed(Some((lastKnown.value, local)))
  {
    var remote := lastKnown.value;
    LeasePinExactly(g, local, remote, lastKnown);
    assert |Only(g, local, remote)| > 0 && |Only(g, remote, local)| > 0;
    assert ShouldRetry(g, Some(FactsOf(g, local, remote)), lastKnown, env);
    AcceptedIsReached(g, writes, m.rejected, m.pinned, branch, local, lastKnown);
    ReachedLocalWasThere(writes, m.rejected, m.pinned, branch, local);
    WasAtEarlier(writes, from, m.rejected, branch, local);
  }

  // ---------- What a call reports ----------

  /** The facts tell the two tips, how many commits each has that the other has not, and that the histories
      have diverged exactly if both have some. */
  ghost predicate Compares(g: Graph, f: Facts, local: Sha, remote: Sha)
    requires WellFormed(g)
  {
    && f.local == local && f.remote == remote
    && (forall mine :: IsOnly(g, local, remote, mine) ==> f.ahead == |mine|)
    && (forall theirs :: IsOnly(g, remote, local, theirs) ==> f.behind == |theirs|)
    && (f.diverged <==> (exists c :: Reaches(g, local, c) && !Reaches(g, remote, c))
                        && exists c :: Reaches(g, remote, c) && !Reaches(g, local, c))
  }

  /** These are the commits that `to` reaches and `from` does not. */
  ghost predicate IsOnly(g: Graph, to: Sha, from: Sha, commits: set<Sha>)
    requires WellFormed(g)
  {
    forall c :: c in commits <==> Reaches(g, to, c) && !Reaches(g, from, c)
  }

  lemma OnlyIsOnly(g: Graph, to: Sha, from: Sha, commits: set<Sha>)
    requires WellFormed(g)
    ensures IsOnly(g, to, from, Only(g, to, from))
    ensures IsOnly(g, to, from, commits) ==> commits == Only(g, to, from)
  {
  }

  lemma FactsExactly(g: Graph, local: Sha, remote: Sha)
    requires WellFormed(g)
    ensures Compares(g, FactsOf(g, local, remote), local, remote)
  {
    forall mine | IsOnly(g, local, remote, mine) ensures mine == Only(g, local, remote) {
      OnlyIsOnly(g, local, remote, mine);
    }
    forall theirs | IsOnly(g, remote, local, theirs) ensures theirs == Only(g, remote, local) {
      OnlyIsOnly(g, remote, local, theirs);
    }
    OnlyIsOnly(g, local, remote, {});
    OnlyIsOnly(g, remote, local, {});
    SomeOnly(g, local, remote);
    SomeOnly(g, remote, local);
  }

  lemma SomeOnly(g: Graph, to: Sha, from: Sha)
    requires WellFormed(g)
    ensures |Only(g, to, from)| > 0 <==> exists c :: Reaches(g, to, c) && !Reaches(g, from, c)
  {
    var only := Only(g, to, from);
    assert forall c :: c in only <==> Reaches(g, to, c) && !Reaches(g, from, c);
    assert |only| > 0 <==> only != {};
    if only != {} {
      var c :| c in only;
      assert Reaches(g, to, c) && !Reaches(g, from, c);
    }
  }

  /** The remote tip is the last verified one, each side has commits of its own, and each of the remote ones
      is no merge and has its patch among the local ones. */
  ghost predicate MayForce(g: Graph, local: Sha, remote: Sha, lastKnown: Option<Sha>)
    requires WellFormed(g)
  {
    && lastKnown == Some(remote) && Only(g, remote, local) != {} && Only(g, local, remote) != {}
    && forall c :: c in Only(g, remote, local) ==> !IsMerge(g[c]) && HasEquivalent(g, Only(g, local, remote), c)
  }

  lemma ForceExactly(g: Graph, local: Sha, remote: Sha, lastKnown: Option<Sha>, env: PushEnv)
    requires WellFormed(g)
    ensures ShouldRetry(g, Some(FactsOf(g, local, remote)), lastKnown, env)
            <==> env.pinWorks && MayForce(g, local, remote, lastKnown)
  {
    LeasePinExactly(g, local, remote, lastKnown);
    assert |Only(g, local, remote)| > 0 <==> Only(g, local, remote) != {};
    assert |Only(g, remote, local)| > 0 <==> Only(g, remote, local) != {};
  }

  /** The tip a fetch at the moment `at` brings, if it works and there is one, and else the one known before. */
  ghost predicate Learnt(writes: seq<RemoteWrite>, at: nat, branch: Branch, works: bool, before: Option<Sha>,
                         tip: Option<Sha>)
  {
    at <= |writes| && tip == if works && TipAt(writes, at, branch).Some? then TipAt(writes, at, branch) else before
  }

  lemma NotPushedRecovers(g: Graph, writes: seq<RemoteWrite>, from: nat, branch: Branch, local: Sha,
                          tracked: Option<Sha>, lastKnown: Option<Sha>, env: PushEnv, m: Moments, r: PushResult)
    requires WellFormed(g) && PushOutcome(g, writes, from, branch, local, tracked, lastKnown, env, m, r) && r.NotPushed?
    ensures if env.plain.word
            then r.rejected && Recovered(g, writes, m.rejected, branch, local, tracked, lastKnown, env, m, r)
            else r == NotPushed(false, None)
  {
  }

  lemma ForcedSays(g: Graph, writes: seq<RemoteWrite>, from: nat, branch: Branch, local: Sha, tip: Sha, env: PushEnv,
                   m: Moments, r: PushResult, later: Option<Sha>)
    requires WellFormed(g) && r.NotPushed? && m.pinned <= |writes|
    requires Retried(g, writes, from, branch, FactsOf(g, local, tip), env, m.pinned, m.refetched, r)
    requires var done := && env.lease.arrives && env.lease.heard
                         && Accepts(g, TipAt(writes, m.pinned, branch), local, Some(tip));
             Learnt(writes, m.refetched, branch, env.refetchWorks, Some(if done then local else tip), later)
    ensures later.Some?
    ensures r == NotPushed(true, Some(FactsOf(g, local, if env.refactsWork then later.value else tip)))
  {
  }

  /** A call that does not push says whether it was rejected, and if it was, how the local tip compares with
      the remote tip it learnt, if it could find out. It forces exactly if it may, and only over that tip. */
  lemma RejectionSays(g: Graph, writes: seq<RemoteWrite>, from: nat, branch: Branch, local: Sha, tracked: Option<Sha>,
                      lastKnown: Option<Sha>, env: PushEnv, m: Moments, r: PushResult, tip: Option<Sha>)
    requires WellFormed(g) && PushOutcome(g, writes, from, branch, local, tracked, lastKnown, env, m, r) && r.NotPushed?
    requires Learnt(writes, m.fetched, branch, env.fetchWorks, tracked, tip)
    ensures r.rejected <==> env.plain.word
    ensures r.facts.Some? <==> r.rejected && env.factsWork && tip.Some?
    ensures r.facts.Some? && !(env.pinWorks && MayForce(g, local, tip.value, lastKnown)) ==>
              Compares(g, r.facts.value, local, tip.value) && NoneOurs(writes, m.rejected)
    ensures r.facts.Some? && env.pinWorks && MayForce(g, local, tip.value, lastKnown) ==>
              DecidedAt(g, writes, m.rejected, m.pinned, branch, local, tip, env.lease.arrives)
  {
    NotPushedRecovers(g, writes, from, branch, local, tracked, lastKnown, env, m, r);
    if tip.Some? {
      ForceExactly(g, local, tip.value, lastKnown, env);
      FactsExactly(g, local, tip.value);
    }
  }

  /** If forcing fails too, the call compares with the tip it learns after that, the local one being known to
      be there if the forced push was done, or again with the first if it cannot find out. */
  lemma FailedForceSays(g: Graph, writes: seq<RemoteWrite>, from: nat, branch: Branch, local: Sha,
                        tracked: Option<Sha>, lastKnown: Option<Sha>, env: PushEnv, m: Moments, r: PushResult, tip: Sha,
                        later: Option<Sha>)
    requires WellFormed(g) && PushOutcome(g, writes, from, branch, local, tracked, lastKnown, env, m, r)
    requires r.NotPushed? && r.facts.Some? && Learnt(writes, m.fetched, branch, env.fetchWorks, tracked, Some(tip))
    requires env.pinWorks && MayForce(g, local, tip, lastKnown) && m.pinned <= |writes|
    requires var done := && env.lease.arrives && env.lease.heard
                         && Accepts(g, TipAt(writes, m.pinned, branch), local, Some(tip));
             Learnt(writes, m.refetched, branch, env.refetchWorks, Some(if done then local else tip), later)
    ensures later.Some? && Compares(g, r.facts.value, local, if env.refactsWork then later.value else tip)
  {
    NotPushedRecovers(g, writes, from, branch, local, tracked, lastKnown, env, m, r);
    ForceExactly(g, local, tip, lastKnown, env);
    ForcedSays(g, writes, m.rejected, branch, local, tip, env, m, r, later);
    FactsExactly(g, local, if env.refactsWork then later.value else tip);
  }

  // ---------- No work is lost at origin ----------

  /** The history of `tip` contains the commit, or, for a non-merge commit, one with the same patch. */
  ghost predicate Carries(g: Graph, tip: Sha, c: Sha)
    requires WellFormed(g) && c in g
  {
    || Reaches(g, tip, c)
    || (!IsMerge(g[c]) && exists u :: u in History(g, tip) && !IsMerge(g[u]) && g[u].patch == g[c].patch)
  }

  lemma JustifiedWriteCarries(g: Graph, w: RemoteWrite, branch: Branch, local: Sha, lastKnown: Option<Sha>, c: Sha)
    requires WellFormed(g) && c in g && Justified(g, w, branch, local, lastKnown)
    requires w.was.Some? && Carries(g, w.was.value, c)
    ensures Carries(g, local, c)
  {
    var was := w.was.value;
    var u :=
      if Reaches(g, was, c) then c
      else var v :| v in History(g, was) && !IsMerge(g[v]) && g[v].patch == g[c].patch; v;
    if FastForward(g, w) {
      ReachesTransitive(g, local, was, u);
    } else if u !in History(g, local) {
      assert u in Only(g, was, local);
    }
    assert u in History(g, local) ==> Reaches(g, local, u);
  }

  /** One write of ours by some call, each with a local tip and a last verified head of its own. */
  ghost predicate JustifiedByACall(g: Graph, w: RemoteWrite, branch: Branch)
    requires WellFormed(g)
  {
    w.ours && exists local, lastKnown :: Justified(g, w, branch, local, lastKnown)
  }

  /** A write to the branch by one of our calls, or a fast-forward by anybody. */
  ghost predicate KeepsWork(g: Graph, w: RemoteWrite, branch: Branch)
    requires WellFormed(g)
  {
    JustifiedByACall(g, w, branch) || FastForward(g, w)
  }

  lemma OneWriteLosesNoWork(g: Graph, w: RemoteWrite, branch: Branch, c: Sha)
    requires WellFormed(g) && c in g && w.branch == branch && KeepsWork(g, w, branch)
    requires w.was.Some? && Carries(g, w.was.value, c)
    ensures w.now.Some? && Carries(g, w.now.value, c)
  {
    if FastForward(g, w) {
      JustifiedWriteCarries(g, w, branch, w.now.value, None, c);
    } else {
      var local, lastKnown :| Justified(g, w, branch, local, lastKnown);
      JustifiedWriteCarries(g, w, branch, local, lastKnown, c);
    }
  }

  /** MAIN: over any stretch of the log in which the branch is touched by writes of ours, by however many
      calls, and by fast-forwards of anybody else, no commit the branch ever held is lost: it is still
      there, or its patch is. */
  lemma {:induction false} OurPushesLoseNoWork(g: Graph, writes: seq<RemoteWrite>, from: nat, to: nat,
                                               branch: Branch, c: Sha)
    requires WellFormed(g) && Truthful(writes) && from <= to <= |writes|
    requires forall i :: from <= i < to && writes[i].branch == branch ==> KeepsWork(g, writes[i], branch)
    requires c in g && TipAt(writes, from, branch).Some? && Carries(g, TipAt(writes, from, branch).value, c)
    ensures TipAt(writes, to, branch).Some? && Carries(g, TipAt(writes, to, branch).value, c)
  {
    if from < to {
      OurPushesLoseNoWork(g, writes, from, to - 1, branch, c);
      TipAtStep(writes, to - 1, branch);
      if writes[to - 1].branch == branch {
        OneWriteLosesNoWork(g, writes[to - 1], branch, c);
      }
    }
  }

  /** The writes of one call are such writes, also in the graph `h` of any later time. */
  lemma CallsJustify(g: Graph, h: Graph, writes: seq<RemoteWrite>, from: nat, i: nat, branch: Branch, local: Sha,
                     lastKnown: Option<Sha>)
    requires WellFormed(g) && WellFormed(h) && Extends(g, h) && local in g
    requires from <= i < |writes| && writes[i].ours && (writes[i].was.Some? ==> writes[i].was.value in g)
    requires SafeLog(g, writes, from, branch, local, lastKnown)
    ensures JustifiedByACall(h, writes[i], branch)
  {
    JustifiedStable(g, h, writes[i], branch, local, lastKnown);
  }

  /** A replacement only ever hits the verified tip: if the branch stood anywhere else when our write
      arrived, that write was a fast-forward. */
  lemma MovedTipIsNeverOverwritten(g: Graph, writes: seq<RemoteWrite>, from: nat, i: nat, branch: Branch, local: Sha,
                                   lastKnown: Option<Sha>)
    requires WellFormed(g) && Truthful(writes) && from <= i < |writes| && writes[i].ours
    requires SafeLog(g, writes, from, branch, local, lastKnown)
    requires TipAt(writes, i, branch) != lastKnown
    ensures TipAt(writes, i, branch).Some? ==> Reaches(g, local, TipAt(writes, i, branch).value)
    ensures TipAt(writes, i + 1, branch) == Some(local)
  {
    assert Justified(g, writes[i], branch, local, lastKnown);
    TipAtStep(writes, i, branch);
  }
}
