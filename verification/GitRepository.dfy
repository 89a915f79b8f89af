/** A clone, its worktrees and its `origin`, with the git commands the coordinator runs on them. */
module GitRepository {
  import opened CommitGraph
  import opened Options

  type Branch = string
  type Path = string

  datatype Head = OnBranch(branch: Branch) | Detached(sha: Sha)

  /** One entry of `git worktree list`. `present`: its directory exists. `readable`: `git status`
      works in it. `files` are the working files git does not ignore. `inProgress`: MERGE_HEAD,
      CHERRY_PICK_HEAD or REVERT_HEAD exists. */
  datatype Worktree = Worktree(
    path: Path, head: Head, present: bool, locked: bool, readable: bool,
    index: Tree, files: Tree, unmerged: bool, inProgress: bool)

  /** One change of a branch tip at origin, by this coordinator or by anybody else. */
  datatype RemoteWrite = RemoteWrite(ours: bool, branch: Branch, was: Option<Sha>, now: Option<Sha>)

  /** How `git push` ended: done, or failed with or without one of the rejection words in its output. */
  datatype PushReport = Accepted | Rejected | Failed

  datatype FetchReport = Fetched(tip: Sha) | NoSuchBranch | FetchFailed

  function HeadSha(refs: map<Branch, Sha>, head: Head): Option<Sha> {
    match head
    case OnBranch(b) => Lookup(refs, b)
    case Detached(sha) => Some(sha)
  }

  /** What origin's branches are after these writes. */
  function Tips(writes: seq<RemoteWrite>): map<Branch, Sha> {
    if writes == [] then map[]
    else Apply(Tips(writes[..|writes| - 1]), writes[|writes| - 1])
  }

  function Apply(tips: map<Branch, Sha>, w: RemoteWrite): map<Branch, Sha> {
    if w.now.Some? then tips[w.branch := w.now.value] else tips - {w.branch}
  }

  /** The tip of `b` at origin when the first `k` writes had happened. */
  function TipAt(writes: seq<RemoteWrite>, k: nat, b: Branch): Option<Sha>
    requires k <= |writes|
  {
    Lookup(Tips(writes[..k]), b)
  }

  /** Every entry of the log names the tip it really replaced. */
  ghost predicate Truthful(writes: seq<RemoteWrite>) {
    forall i :: 0 <= i < |writes| ==> writes[i].was == TipAt(writes, i, writes[i].branch)
  }

  lemma TipsAppend(writes: seq<RemoteWrite>, w: RemoteWrite)
    ensures Tips(writes + [w]) == Apply(Tips(writes), w)
    ensures Truthful(writes) && w.was == Lookup(Tips(writes), w.branch) ==> Truthful(writes + [w])
  {
    var longer := writes + [w];
    assert longer[..|writes|] == writes;
    if Truthful(writes) && w.was == Lookup(Tips(writes), w.branch) {
      forall i | 0 <= i < |longer| ensures longer[i].was == TipAt(longer, i, longer[i].branch) {
        assert i < |writes| ==> longer[..i] == writes[..i];
      }
    }
  }

  lemma TipAtStep(writes: seq<RemoteWrite>, i: nat, b: Branch)
    requires i < |writes|
    ensures TipAt(writes, i + 1, b) == if writes[i].branch == b then writes[i].now else TipAt(writes, i, b)
  {
    assert writes[..i + 1] == writes[..i] + [writes[i]];
    TipsAppend(writes[..i], writes[i]);
  }

  /** Origin's rule: a plain push only creates or fast-forwards; a push with a lease only replaces
      exactly the tip the lease names. */
  predicate MayReplace(g: Graph, tip: Option<Sha>, local: Sha, lease: Option<Sha>)
    requires WellFormed(g)
  {
    if lease.Some? then tip == lease else tip.None? || Reaches(g, local, tip.value)
  }

  /** Origin agrees: there is nothing to do, or its rule allows the update. */
  predicate Accepts(g: Graph, tip: Option<Sha>, local: Sha, lease: Option<Sha>)
    requires WellFormed(g)
  {
    tip == Some(local) || MayReplace(g, tip, local, lease)
  }

  /** The connection during one push: whether the request arrives at origin, whether the answer comes back,
      and whether the output of a push that is not reported as done has one of the rejection words. */
  datatype Line = Line(arrives: bool, heard: bool, word: bool)

  function Report(line: Line, accepted: bool): PushReport {
    if line.arrives && line.heard && accepted then Accepted else if line.word then Rejected else Failed
  }

  /** Since position `from` we wrote exactly if the request arrived, and origin, with the tip it had at
      `seen`, had something to do and was allowed to; the write is the one at `seen`. */
  ghost predicate DecidedAt(g: Graph, writes: seq<RemoteWrite>, from: nat, seen: nat, branch: Branch, local: Sha,
                            lease: Option<Sha>, arrives: bool)
    requires WellFormed(g)
  {
    && from <= seen <= |writes|
    && (forall i :: from <= i < |writes| && writes[i].ours ==> i == seen)
    && var tip := TipAt(writes, seen, branch);
       && (seen < |writes| && writes[seen].ours <==> arrives && tip != Some(local) && MayReplace(g, tip, local, lease))
       && (seen < |writes| && writes[seen].ours ==> writes[seen] == RemoteWrite(true, branch, tip, Some(local)))
  }

  /** After the decision the branch was at `local`, either by this write or already. */
  ghost predicate ReachedLocal(writes: seq<RemoteWrite>, seen: nat, branch: Branch, local: Sha)
    requires seen <= |writes|
  {
    || TipAt(writes, seen, branch) == Some(local)
    || (seen < |writes| && writes[seen] == RemoteWrite(true, branch, TipAt(writes, seen, branch), Some(local)))
  }

  lemma AcceptedIsReached(g: Graph, writes: seq<RemoteWrite>, from: nat, seen: nat, branch: Branch, local: Sha,
                          lease: Option<Sha>)
    requires WellFormed(g) && DecidedAt(g, writes, from, seen, branch, local, lease, true)
    requires Accepts(g, TipAt(writes, seen, branch), local, lease)
    ensures ReachedLocal(writes, seen, branch, local)
  {
  }

  /** What others do later changes nothing about a decision already taken. */
  lemma DecisionStands(g: Graph, h: Graph, writes: seq<RemoteWrite>, longer: seq<RemoteWrite>, from: nat, seen: nat,
                       branch: Branch, local: Sha, lease: Option<Sha>, arrives: bool)
    requires WellFormed(g) && WellFormed(h) && Extends(g, h) && local in g
    requires DecidedAt(g, writes, from, seen, branch, local, lease, arrives)
    requires writes <= longer && forall i :: |writes| <= i < |longer| ==> !longer[i].ours
    ensures DecidedAt(h, longer, from, seen, branch, local, lease, arrives)
    ensures TipAt(longer, seen, branch) == TipAt(writes, seen, branch)
    ensures Accepts(h, TipAt(longer, seen, branch), local, lease)
            == Accepts(g, TipAt(writes, seen, branch), local, lease)
  {
    assert longer[..seen] == writes[..seen];
    if TipAt(writes, seen, branch).Some? {
      ReachesStable(g, h, local, TipAt(writes, seen, branch).value);
    }
  }

  class GitRepo {
    var commits: Graph                 // every commit that exists anywhere
    var refs: map<Branch, Sha>         // refs/heads of the clone
    var tracking: map<Branch, Sha>     // refs/remotes/origin of the clone
    var worktrees: seq<Worktree>       // in `git worktree list` order
    var remote: map<Branch, Sha>       // refs/heads of origin
    ghost var writes: seq<RemoteWrite> // all that ever happened to `remote`

    ghost predicate Valid()
      reads this
    {
      && WellFormed(commits)
      && refs.Values <= commits.Keys
      && tracking.Values <= commits.Keys
      && remote.Values <= commits.Keys
      && (forall w :: w in worktrees && w.head.Detached? ==> w.head.sha in commits)
      && (forall i :: 0 <= i < |writes| && writes[i].was.Some? ==> writes[i].was.value in commits)
      && remote == Tips(writes)
      && Truthful(writes)
    }

    /** A commit nobody had before, made on known parents. */
    method AddCommit(c: Commit) returns (sha: Sha)
      requires WellFormed(commits) && forall p :: p in c.parents ==> p in commits
      modifies this`commits
      ensures sha !in old(commits) && commits == old(commits)[sha := c]
      ensures WellFormed(commits) && Extends(old(commits), commits)
    {
      ghost var above := FreshShaExists(commits.Keys);
      assert above !in commits && forall k :: k in commits ==> k < above;
      sha :| sha !in commits && forall k :: k in commits ==> k < sha;
      commits := commits[sha := c];
    }

    /** One branch of origin changes. */
    method WriteRemote(ours: bool, branch: Branch, now: Option<Sha>)
      requires Valid() && (now.Some? ==> now.value in commits)
      modifies this`remote, this`writes
      ensures Valid()
      ensures writes == old(writes) + [RemoteWrite(ours, branch, Lookup(old(remote), branch), now)]
    {
      ghost var w := RemoteWrite(ours, branch, Lookup(remote, branch), now);
      TipsAppend(writes, w);
      remote := if now.Some? then remote[branch := now.value] else remote - {branch};
      writes := writes + [w];
    }

    /** One new commit and one created, moved, forced or deleted branch by somebody else. */
    method SomebodyMoves()
      requires Valid()
      modifies this`commits, this`remote, this`writes
      ensures Valid() && Extends(old(commits), commits)
      ensures old(writes) <= writes
      ensures forall i :: |old(writes)| <= i < |writes| ==> !writes[i].ours
    {
      var c: Commit := *;
      if forall p <- c.parents :: p in commits {
        var sha := AddCommit(c);
      }
      var branch: Branch := *;
      var sha: Sha := *;
      var deleted: bool := *;
      if deleted {
        WriteRemote(false, branch, None);
      } else if sha in commits {
        WriteRemote(false, branch, Some(sha));
      }
    }

    /** Other pushers, any number of times. */
    method OthersMove()
      requires Valid()
      modifies this`commits, this`remote, this`writes
      ensures Valid() && Extends(old(commits), commits)
      ensures old(writes) <= writes
      ensures forall i :: |old(writes)| <= i < |writes| ==> !writes[i].ours
    {
      var moves: nat := *;
      while moves > 0
        invariant Valid() && Extends(old(commits), commits)
        invariant old(writes) <= writes
        invariant forall i :: |old(writes)| <= i < |writes| ==> !writes[i].ours
      {
        SomebodyMoves();
        moves := moves - 1;
      }
    }

    /** Origin's side of a push: it compares its current tip and replaces it in one step. */
    method Receive(branch: Branch, local: Sha, lease: Option<Sha>) returns (accepted: bool)
      requires Valid() && local in commits
      modifies this`remote, this`writes
      ensures Valid()
      ensures var tip := Lookup(old(remote), branch);
              && accepted == Accepts(commits, tip, local, lease)
              && writes == old(writes)
                 + if accepted && tip != Some(local) then [RemoteWrite(true, branch, tip, Some(local))] else []
    {
      var tip := Lookup(remote, branch);
      accepted := tip == Some(local) || MayReplace(commits, tip, local, lease);
      if accepted && tip != Some(local) {
        WriteRemote(true, branch, Some(local));
      }
    }

    /** A push arrives at origin, or the connection breaks first; others may push before it. */
    method Deliver(branch: Branch, local: Sha, lease: Option<Sha>, arrives: bool)
      returns (accepted: bool, ghost seen: nat)
      requires Valid() && local in commits
      modifies this`commits, this`remote, this`writes
      ensures Valid() && Extends(old(commits), commits) && old(writes) <= writes
      ensures DecidedAt(commits, writes, |old(writes)|, seen, branch, local, lease, arrives)
      ensures accepted <==> arrives && Accepts(commits, TipAt(writes, seen, branch), local, lease)
    {
      OthersMove();
      seen := |writes|;
      ghost var decided := writes;
      accepted := false;
      if arrives {
        accepted := Receive(branch, local, lease);
      }
      assert writes[..seen] == decided == decided[..seen];
    }

    /** `git push -u origin <local>:refs/heads/<branch>`, with `--force-with-lease=<branch>:<sha>` when
        a lease is given. Others may push before and after. `seen` is the moment origin decided, or would
        have. */
    method Push(branch: Branch, local: Sha, lease: Option<Sha>, line: Line)
      returns (report: PushReport, ghost seen: nat)
      requires Valid() && local in commits
      modifies this`commits, this`remote, this`writes, this`tracking
      ensures Valid() && Extends(old(commits), commits) && old(writes) <= writes
      ensures DecidedAt(commits, writes, |old(writes)|, seen, branch, local, lease, line.arrives)
      ensures report == Report(line, Accepts(commits, TipAt(writes, seen, branch), local, lease))
      ensures tracking == if report.Accepted? then old(tracking)[branch := local] else old(tracking)
    {
      var accepted;
      accepted, seen := Deliver(branch, local, lease, line.arrives);
      ghost var known, log := commits, writes;
      OthersMove();
      DecisionStands(known, commits, log, writes, |old(writes)|, seen, branch, local, lease, line.arrives);
      if accepted && line.heard {
        report := Accepted;
        tracking := tracking[branch := local];
      } else {
        report := if line.word then Rejected else Failed;
      }
    }

    /** `git fetch origin <branch>`. `seen` is the moment origin answers, or would have. */
    method Fetch(branch: Branch, works: bool) returns (report: FetchReport, ghost seen: nat)
      requires Valid()
      modifies this`commits, this`remote, this`writes, this`tracking
      ensures Valid() && Extends(old(commits), commits) && old(writes) <= writes
      ensures forall i :: |old(writes)| <= i < |writes| ==> !writes[i].ours
      ensures |old(writes)| <= seen <= |writes|
      ensures report == if !works then FetchFailed
                        else if TipAt(writes, seen, branch).Some? then Fetched(TipAt(writes, seen, branch).value)
                        else NoSuchBranch
      ensures tracking == if report.Fetched? then old(tracking)[branch := report.tip] else old(tracking)
    {
      OthersMove();
      seen := |writes|;
      ghost var decided := writes;
      assert writes[..seen] == writes;
      if !works {
        report := FetchFailed;
      } else if branch !in remote {
        report := NoSuchBranch;
      } else {
        report := Fetched(remote[branch]);
        tracking := tracking[branch := remote[branch]];
      }
      OthersMove();
      assert writes[..seen] == decided;
    }
  }
}
