/** Deciding where a developer session works: adopt, salvage, refuse or create a checkout, without ever
    losing a commit. */
module GitWorktree {
  import opened CommitGraph
  import opened GitRepository
  import opened GitSalvage
  import opened Options

  /** Who owns a leftover checkout. `Dead(None)`: no session is known to have owned it. */
  datatype Owner = Alive(sessionId: string) | Dead(known: Option<string>)

  datatype ResolveOpts = ResolveOpts(
    branch: Branch, base: Branch, reuse: bool, path: Path, managedRoot: Path, owner: Path -> Owner)

  datatype Salvage = Salvage(sha: Sha, predecessor: string, recovered: bool)

  datatype Cause = OutsideRoot | DirtyUnknownOwner | SalvageFailed | SalvagedButDirty | Unreadable

  datatype Resolution =
    | Created(path: Path, baseSha: Option<Sha>)
    | Reused(path: Path, salvage: Option<Salvage>)
    | Conflict(path: Path, cause: Cause)
    | LiveOwner(path: Path, sessionId: string)
    | BaseUnavailable
    | Failure          // an exception left the procedure

  // ---------- What must survive ----------

  /** The local side at one moment. */
  datatype Snapshot = Snapshot(commits: Graph, refs: map<Branch, Sha>, tracking: map<Branch, Sha>,
                               worktrees: seq<Worktree>)

  ghost function Now(repo: GitRepo): Snapshot
    reads repo
  {
    Snapshot(repo.commits, repo.refs, repo.tracking, repo.worktrees)
  }

  ghost predicate Consistent(s: Snapshot) {
    && WellFormed(s.commits)
    && s.refs.Values <= s.commits.Keys
    && (forall w :: w in s.worktrees && w.head.Detached? ==> w.head.sha in s.commits)
  }

  /** The checkouts whose directory exists, and where their HEADs point. */
  ghost function Checkouts(s: Snapshot): set<(Path, Head)> {
    set w | w in s.worktrees && w.present :: (w.path, w.head)
  }

  /** Every branch stays or moves forward, and every existing checkout stays where it was. */
  ghost predicate KeepsHistory(s: Snapshot, t: Snapshot)
    requires WellFormed(t.commits)
  {
    && Extends(s.commits, t.commits)
    && (forall b :: b in s.refs ==> b in t.refs && Reaches(t.commits, t.refs[b], s.refs[b]))
    && Checkouts(s) <= Checkouts(t)
  }

  lemma KeepsHistoryTransitive(s: Snapshot, t: Snapshot, u: Snapshot)
    requires Consistent(s) && Consistent(t) && Consistent(u) && KeepsHistory(s, t) && KeepsHistory(t, u)
    ensures KeepsHistory(s, u)
  {
    forall b | b in s.refs ensures b in u.refs && Reaches(u.commits, u.refs[b], s.refs[b]) {
      assert t.refs[b] in t.refs.Values;
      ReachesStable(t.commits, u.commits, t.refs[b], s.refs[b]);
      ReachesTransitive(u.commits, u.refs[b], t.refs[b], s.refs[b]);
    }
  }

  /** A commit that a branch or the HEAD of an existing checkout reaches. */
  ghost predicate Protected(s: Snapshot, c: Sha)
    requires WellFormed(s.commits)
  {
    || (exists b :: b in s.refs && Reaches(s.commits, s.refs[b], c))
    || (exists p: Path, h: Head ::
          && (p, h) in Checkouts(s) && HeadSha(s.refs, h).Some?
          && Reaches(s.commits, HeadSha(s.refs, h).value, c))
  }

  /** Keeping history means that no commit anybody could still find becomes unreachable. */
  lemma NothingBecomesUnreachable(s: Snapshot, t: Snapshot, c: Sha)
    requires Consistent(s) && Consistent(t) && KeepsHistory(s, t) && Protected(s, c)
    ensures Protected(t, c)
  {
    if b :| b in s.refs && Reaches(s.commits, s.refs[b], c) {
      BranchKeeps(s, t, b, c);
    } else {
      var p: Path, h: Head :| (p, h) in Checkouts(s) && HeadSha(s.refs, h).Some?
          && Reaches(s.commits, HeadSha(s.refs, h).value, c);
      assert h.Detached?;
      var w :| w in s.worktrees && w.present && (w.path, w.head) == (p, h);
      ReachesStable(s.commits, t.commits, h.sha, c);
      assert (p, h) in Checkouts(t);
    }
  }

  lemma BranchKeeps(s: Snapshot, t: Snapshot, b: Branch, c: Sha)
    requires Consistent(s) && Consistent(t) && KeepsHistory(s, t)
    requires b in s.refs && Reaches(s.commits, s.refs[b], c)
    ensures b in t.refs && Reaches(t.commits, t.refs[b], c)
  {
    assert s.refs[b] in s.refs.Values;
    ReachesStable(s.commits, t.commits, s.refs[b], c);
    ReachesTransitive(t.commits, t.refs[b], s.refs[b], c);
  }

  // ---------- Worktree list ----------

  /** `git worktree prune`: registrations of vanished directories go, unless locked. */
  function Pruned(ws: seq<Worktree>): (r: seq<Worktree>)
    ensures forall w :: w in r <==> w in ws && (w.present || w.locked)
  {
    if ws == [] then []
    else if ws[0].present || ws[0].locked then [ws[0]] + Pruned(ws[1..])
    else Pruned(ws[1..])
  }

  /** The first entry that holds `branch`: where `git worktree list` is searched for it. */
  function Holder(ws: seq<Worktree>, branch: Branch): (found: Option<nat>)
    ensures found.Some? ==> found.value < |ws| && ws[found.value].head == OnBranch(branch)
    ensures forall j :: 0 <= j < (if found.Some? then found.value else |ws|) ==> ws[j].head != OnBranch(branch)
  {
    if ws == [] then None
    else if ws[0].head == OnBranch(branch) then Some(0)
    else
      var rest := Holder(ws[1..], branch);
      if rest.Some? then Some(rest.value + 1) else None
  }

  method FindWorktreeForBranch(ws: seq<Worktree>, branch: Branch) returns (found: Option<nat>)
    ensures found == Holder(ws, branch)
  {
    var i := 0;
    while i < |ws|
      invariant 0 <= i <= |ws|
      invariant forall j :: 0 <= j < i ==> ws[j].head != OnBranch(branch)
    {
      if ws[i].head == OnBranch(branch) {
        return Some(i);
      }
      i := i + 1;
    }
    return None;
  }

  predicate UnderRoot(path: Path, root: Path) {
    (root + "/") <= path
  }

  // ---------- Fetching ----------

  /** What origin answers during one call: whether the clone has one, and where the issue branch and the
      base stand at the moment each is fetched. Others move origin as they like, so these are any commits. */
  datatype Origin = Origin(configured: bool, branch: Option<Sha>, base: Option<Sha>)

  ghost predicate Known(origin: Origin, g: Graph) {
    (origin.branch.Some? ==> origin.branch.value in g) && (origin.base.Some? ==> origin.base.value in g)
  }

  datatype Fetch = Usable(tip: Option<Sha>) | Unusable

  /** The tip that the fetch of the issue branch brings into the clone, if any. */
  function FetchedBranch(origin: Origin, o: ResolveOpts, env: Env): Option<Sha> {
    if o.reuse && origin.configured && env.fails !! {RemoteUrl, FetchBranch} then origin.branch else None
  }

  /** fetchReusedBranch: `Usable(None)` when there is nothing to catch up to, `Unusable` when the fetch
      failed, or its tip cannot be resolved afterwards, and the start must be deferred. */
  function ReuseFetch(origin: Origin, o: ResolveOpts, env: Env): Fetch {
    if !o.reuse || !origin.configured || RemoteUrl in env.fails then Usable(None)
    else if FetchBranch in env.fails then Unusable
    else if origin.branch.Some? && ResolveBranch in env.fails then Unusable
    else Usable(origin.branch)
  }

  function FetchedBase(origin: Origin, env: Env): Option<Sha> {
    if origin.configured && env.fails !! {RemoteUrl, FetchBase} then origin.base else None
  }

  /** fetchFreshBase: the fetched base tip, or the local base of a clone without origin. */
  function FreshBase(origin: Origin, refs: map<Branch, Sha>, o: ResolveOpts, env: Env): Option<Sha> {
    if ResolveBase in env.fails then None
    else if !origin.configured || RemoteUrl in env.fails then Lookup(refs, o.base)
    else FetchedBase(origin, env)
  }

  function Tracking(tracking: map<Branch, Sha>, branch: Branch, fetched: Option<Sha>): map<Branch, Sha> {
    if fetched.Some? then tracking[branch := fetched.value] else tracking
  }

  method FetchReusedBranch(repo: GitRepo, origin: Origin, o: ResolveOpts, env: Env) returns (r: Fetch)
    requires repo.Valid() && Known(origin, repo.commits)
    modifies repo`tracking
    ensures repo.Valid() && r == ReuseFetch(origin, o, env)
    ensures repo.tracking == Tracking(old(repo.tracking), o.branch, FetchedBranch(origin, o, env))
    ensures r.Usable? && r.tip.Some? ==> r.tip.value in repo.commits
  {
    if !o.reuse || !origin.configured || RemoteUrl in env.fails {
      return Usable(None);
    }
    if FetchBranch in env.fails {
      return Unusable;
    }
    if origin.branch.None? {
      return Usable(None);
    }
    repo.tracking := repo.tracking[o.branch := origin.branch.value];
    return if ResolveBranch in env.fails then Unusable else Usable(origin.branch);
  }

  method FetchFreshBase(repo: GitRepo, origin: Origin, o: ResolveOpts, env: Env) returns (sha: Option<Sha>)
    requires repo.Valid() && Known(origin, repo.commits)
    modifies repo`tracking
    ensures repo.Valid() && sha == FreshBase(origin, repo.refs, o, env)
    ensures repo.tracking == Tracking(old(repo.tracking), o.base, FetchedBase(origin, env))
    ensures sha.Some? ==> sha.value in repo.commits
  {
    if !origin.configured || RemoteUrl in env.fails {
      assert o.base in repo.refs ==> repo.refs[o.base] in repo.refs.Values;
      return if ResolveBase in env.fails then None else Lookup(repo.refs, o.base);
    }
    if FetchBase in env.fails || origin.base.None? {
      return None;
    }
    repo.tracking := repo.tracking[o.base := origin.base.value];
    return if ResolveBase in env.fails then None else origin.base;
  }

  /** isAncestor, where a failing command counts as "no". */
  predicate KnownAncestor(g: Graph, a: Sha, d: Sha, env: Env)
    requires WellFormed(g)
  {
    Ancestry !in env.fails && Reaches(g, d, a)
  }

  // ---------- Fast-forward of a local branch ----------

  /** Moving or creating one branch is harmless when its old tip, if any, stays reachable. */
  lemma MovingForwardKeepsHistory(s: Snapshot, t: Snapshot, branch: Branch, sha: Sha)
    requires Consistent(s) && sha in s.commits && t.commits == s.commits
    requires t.refs == s.refs[branch := sha] && Checkouts(s) <= Checkouts(t)
    requires branch in s.refs ==> Reaches(s.commits, sha, s.refs[branch])
    ensures KeepsHistory(s, t)
  {
    forall b | b in s.refs ensures b in t.refs && Reaches(t.commits, t.refs[b], s.refs[b]) {
      assert s.refs[b] in s.refs.Values;
    }
  }

  /** fastForwardLocalBranchToSha: creates the branch or moves it forward, and answers false whenever
      it did neither. */
  method FastForwardLocalBranchToSha(repo: GitRepo, branch: Branch, sha: Sha, env: Env) returns (ok: bool)
    requires repo.Valid() && sha in repo.commits
    modifies repo`refs
    ensures repo.Valid() && KeepsHistory(old(Now(repo)), Now(repo))
    ensures repo.refs == if ok then old(repo.refs)[branch := sha] else old(repo.refs)
    ensures ok ==> branch !in old(repo.refs) || Reaches(repo.commits, sha, old(repo.refs)[branch])
    ensures env.fails !! {BranchExistsFirst, AddCheckout, LocalSha, Ancestry, UpdateRef}
            ==> (ok <==> branch !in old(repo.refs) || Reaches(repo.commits, sha, old(repo.refs)[branch]))
  {
    var known := BranchExistsFirst !in env.fails && branch in repo.refs;
    assert forall b :: b in repo.refs ==> repo.refs[b] in repo.refs.Values;
    if !known {
      // `git branch` refuses a name that is taken
      if AddCheckout in env.fails || branch in repo.refs {
        return false;
      }
      repo.refs := repo.refs[branch := sha];
      return true;
    }
    if LocalSha in env.fails {
      return false;
    }
    var local := repo.refs[branch];
    if local == sha {
      return true;
    }
    if !KnownAncestor(repo.commits, local, sha, env) || UpdateRef in env.fails {
      return false;
    }
    repo.refs := repo.refs[branch := sha];
    MovingForwardKeepsHistory(old(Now(repo)), Now(repo), branch, sha);
    return true;
  }

  // ---------- Adopting a leftover checkout ----------

  /** `git merge --ff-only` would overwrite an untracked file. */
  predicate Collides(w: Worktree, target: Tree) {
    exists f <- w.files :: f !in w.index && f in target
  }

  /** Whether the clean leftover `w` advances to the fetched tip `r`: strictly behind, no failing
      command, no untracked file in the way. */
  predicate Advances(commits: Graph, refs: map<Branch, Sha>, w: Worktree, branch: Branch, r: Sha, env: Env)
    requires WellFormed(commits)
  {
    && branch in refs && refs[branch] != r && r in commits
    && env.fails !! {LocalSha, Merge} && KnownAncestor(commits, refs[branch], r, env)
    && !Collides(w, commits[r].tree)
  }

  /** The checkout after a fast-forward to a commit with this tree: untracked files stay. */
  function Updated(w: Worktree, target: Tree): Worktree {
    w.(index := target, files := (map f | f in w.files && f !in w.index :: w.files[f]) + target)
  }

  method MergeFastForward(repo: GitRepo, i: nat, branch: Branch, target: Sha, env: Env)
    requires repo.Valid() && i < |repo.worktrees| && repo.worktrees[i].head == OnBranch(branch)
    requires CleanAt(repo.commits, repo.refs, repo.worktrees[i])
    requires Advances(repo.commits, repo.refs, repo.worktrees[i], branch, target, env)
    modifies repo`refs, repo`worktrees
    ensures repo.Valid()
    ensures repo.refs == old(repo.refs)[branch := target]
    ensures repo.worktrees == old(repo.worktrees)[i := Updated(old(repo.worktrees)[i], repo.commits[target].tree)]
    ensures CleanAt(repo.commits, repo.refs, repo.worktrees[i])
  {
    repo.refs := repo.refs[branch := target];
    repo.worktrees := repo.worktrees[i := Updated(repo.worktrees[i], repo.commits[target].tree)];
  }

  /** Replacing the contents of one checkout leaves every checkout where it was. */
  lemma SameCheckouts(s: Snapshot, t: Snapshot, i: nat)
    requires i < |s.worktrees| == |t.worktrees|
    requires s.worktrees[i].(index := t.worktrees[i].index, files := t.worktrees[i].files,
                             unmerged := t.worktrees[i].unmerged) == t.worktrees[i]
    requires t.worktrees == s.worktrees[i := t.worktrees[i]]
    ensures Checkouts(s) == Checkouts(t)
  {
    forall x | x in Checkouts(s) ensures x in Checkouts(t) {
      var j :| 0 <= j < |s.worktrees| && s.worktrees[j].present && (s.worktrees[j].path, s.worktrees[j].head) == x;
      assert t.worktrees[j] in t.worktrees;
    }
    forall x | x in Checkouts(t) ensures x in Checkouts(s) {
      var j :| 0 <= j < |t.worktrees| && t.worktrees[j].present && (t.worktrees[j].path, t.worktrees[j].head) == x;
      assert s.worktrees[j] in s.worktrees;
    }
  }

  /** Adopting the clean leftover `i`, from `s` to `t`: with the fetched tip `r`, the branch and the
      checkout move to `r` exactly when they advance, and otherwise nothing local moves. */
  ghost predicate Adopted(s: Snapshot, t: Snapshot, origin: Origin, i: nat, o: ResolveOpts, env: Env)
    requires WellFormed(s.commits) && i < |s.worktrees|
  {
    var fetch := ReuseFetch(origin, o, env);
    && t.commits == s.commits
    && (if fetch.Usable? && fetch.tip.Some?
        && Advances(s.commits, s.refs, s.worktrees[i], o.branch, fetch.tip.value, env) then
          && t.refs == s.refs[o.branch := fetch.tip.value]
          && t.worktrees == s.worktrees[i := Updated(s.worktrees[i], s.commits[fetch.tip.value].tree)]
        else t.refs == s.refs && t.worktrees == s.worktrees)
    && t.tracking == Tracking(s.tracking, o.branch, FetchedBranch(origin, o, env))
  }

  function AdoptionResult(origin: Origin, w: Worktree, o: ResolveOpts, salvage: Option<Salvage>, env: Env): Resolution {
    if ReuseFetch(origin, o, env).Unusable? then BaseUnavailable else Reused(w.path, salvage)
  }

  /** The clean leftover `i` is adopted, after catching up with origin where that loses nothing. */
  method AdoptClean(repo: GitRepo, origin: Origin, i: nat, o: ResolveOpts, salvage: Option<Salvage>, env: Env)
    returns (r: Resolution)
    requires repo.Valid() && i < |repo.worktrees| && repo.worktrees[i].head == OnBranch(o.branch)
    requires CleanAt(repo.commits, repo.refs, repo.worktrees[i]) && Known(origin, repo.commits)
    modifies repo`refs, repo`tracking, repo`worktrees
    ensures repo.Valid()
    ensures Adopted(old(Now(repo)), Now(repo), origin, i, o, env)
    ensures r == AdoptionResult(origin, old(repo.worktrees)[i], o, salvage, env)
    ensures CleanAt(repo.commits, repo.refs, repo.worktrees[i])
  {
    var fetch := FetchReusedBranch(repo, origin, o, env);
    if fetch.Unusable? {
      return BaseUnavailable;
    }
    var w := repo.worktrees[i];
    if fetch.tip.Some? && Advances(repo.commits, repo.refs, w, o.branch, fetch.tip.value, env) {
      MergeFastForward(repo, i, o.branch, fetch.tip.value, env);
    }
    return Reused(w.path, salvage);
  }

  lemma AdoptionKeepsHistory(s: Snapshot, t: Snapshot, origin: Origin, i: nat, o: ResolveOpts, env: Env)
    requires Consistent(s) && i < |s.worktrees| && Adopted(s, t, origin, i, o, env)
    ensures KeepsHistory(s, t)
  {
    forall b | b in s.refs ensures b in t.refs && Reaches(t.commits, t.refs[b], s.refs[b]) {
      assert s.refs[b] in s.refs.Values;
    }
    if t.worktrees != s.worktrees {
      SameCheckouts(s, t, i);
    }
  }

  // ---------- A leftover checkout of the branch ----------

  datatype Leftover = Outside | LookupThrows | OwnedBy(sessionId: string) | Vanished | Opaque | ForeignDirt |
      DeadDirt(sessionId: string) | Clean

  /** What the leftover `w` is, in the order the code asks. */
  function Classify(commits: Graph, refs: map<Branch, Sha>, w: Worktree, o: ResolveOpts, env: Env): Leftover {
    if !UnderRoot(w.path, o.managedRoot) then Outside
    else if OwnerLookup in env.fails then LookupThrows
    else match o.owner(w.path)
      case Alive(sid) => OwnedBy(sid)
      case Dead(known) =>
        if !StatusWorks(w, env, StatusInspect) then if w.present then Opaque else Vanished
        else if CleanAt(commits, refs, w) then Clean
        else if known.None? then ForeignDirt
        else DeadDirt(known.value)
  }

  /** The salvage commit a restarted resolution finds already landed. */
  function LandedBefore(commits: Graph, refs: map<Branch, Sha>, w: Worktree, o: ResolveOpts,
                        env: Env): Option<Salvage>
  {
    var owner, tip := o.owner(w.path), HeadSha(refs, w.head);
    if owner.Dead? && owner.known.Some? && LogSubject !in env.fails && tip.Some? && tip.value in commits
        && commits[tip.value].subject == RESUME_MESSAGE
    then Some(Salvage(tip.value, owner.known.value, true))
    else None
  }

  /** Nothing local moved. */
  ghost predicate Untouched(s: Snapshot, t: Snapshot) {
    s == t
  }

  /** A salvage ran in checkout `i`: at most its staging or its one commit is there afterwards. */
  ghost predicate SalvageTraces(s: Snapshot, t: Snapshot, i: nat, branch: Branch, files: Tree)
    requires i < |s.worktrees|
  {
    && t.tracking == s.tracking && |t.worktrees| == |s.worktrees|
    && t.worktrees == s.worktrees[i := t.worktrees[i]]
    && t.worktrees[i]
       == s.worktrees[i].(index := t.worktrees[i].index, files := t.worktrees[i].files,
                          unmerged := t.worktrees[i].unmerged)
    && (|| (t.commits == s.commits && t.refs == s.refs)
        || (branch in t.refs
            && OneCommitOnTop(s.commits, s.refs, t.commits, t.refs, branch, t.refs[branch], files, Resume)))
  }

  /** What a salvage that does not succeed leaves: nothing if the inspection fails; the commit if it landed
      but was not confirmed; and otherwise what `AfterFailure` says of the staging. */
  ghost predicate DirtKept(s: Snapshot, t: Snapshot, i: nat, branch: Branch, env: Env)
    requires i < |s.worktrees|
  {
    var w := s.worktrees[i];
    if !Inspected(s.refs, w, branch, env) then Untouched(s, t)
    else if Commits(s.commits, s.refs, w, env) then
      && branch in t.refs && t.tracking == s.tracking
      && OneCommitOnTop(s.commits, s.refs, t.commits, t.refs, branch, t.refs[branch], w.files, Resume)
      && t.worktrees == s.worktrees[i := Committed(w, env)]
    else
      && t.commits == s.commits && t.refs == s.refs && t.tracking == s.tracking
      && exists staged :: StagedBy(w, staged, env) && t.worktrees == s.worktrees[i := AfterFailure(w, staged, env)]
  }

  lemma KeptLeavesTraces(s: Snapshot, t: Snapshot, i: nat, branch: Branch, env: Env)
    requires i < |s.worktrees| && DirtKept(s, t, i, branch, env)
    ensures SalvageTraces(s, t, i, branch, s.worktrees[i].files)
    ensures t.commits == s.commits && env.fails !! {HeadAfter, ReadTree} ==> Untouched(s, t)
  {
    var w := s.worktrees[i];
    if !Inspected(s.refs, w, branch, env) {
      assert s.worktrees[i := w] == s.worktrees;
    } else if !Commits(s.commits, s.refs, w, env) {
      var staged :| StagedBy(w, staged, env) && t.worktrees == s.worktrees[i := AfterFailure(w, staged, env)];
      assert env.fails !! {HeadAfter, ReadTree} ==> s.worktrees[i := w] == s.worktrees;
    }
  }

  lemma SalvageKeepsHistory(s: Snapshot, t: Snapshot, i: nat, branch: Branch, files: Tree)
    requires Consistent(s) && Consistent(t) && i < |s.worktrees| && SalvageTraces(s, t, i, branch, files)
    ensures KeepsHistory(s, t)
  {
    SameCheckouts(s, t, i);
    forall b | b in s.refs ensures b in t.refs && Reaches(t.commits, t.refs[b], s.refs[b]) {
      assert s.refs[b] in s.refs.Values;
      if b == branch && t.refs != s.refs {
        assert s.refs[b] in t.commits[t.refs[b]].parents;
      }
    }
  }

  /** What nobody had a moment ago, nothing that existed then can have as an ancestor. */
  lemma NewCommitIsNobodysAncestor(g: Graph, h: Graph, r: Sha, sha: Sha)
    requires WellFormed(g) && WellFormed(h) && Extends(g, h) && r in g && sha !in g
    ensures !Reaches(h, r, sha)
  {
    ReachesStable(g, h, r, sha);
    ReachedIsKnown(g, r);
  }

  function AfterStraggler(w: Worktree, env: Env): Worktree {
    w.(files := if env.straggler.Some? then env.straggler.value else w.files)
  }

  /** The checkout after a salvage that landed, when the next status is read. */
  function Salvaged(w: Worktree, env: Env): Worktree {
    AfterStraggler(Committed(w, env), env)
  }

  /** Where the salvage of a dead session's dirt leads, from `s` to `t`. If it landed: exactly one new
      commit on top of the branch with all the dirty files, and the checkout is adopted, or reported
      when its status fails or a straggler dirtied it again. If not: a conflict, and nothing moved
      unless a commit landed late or the restoring commands failed. */
  ghost predicate DirtSalvaged(s: Snapshot, t: Snapshot, origin: Origin, i: nat, o: ResolveOpts, sid: string,
                               env: Env, r: Resolution)
    requires WellFormed(s.commits) && i < |s.worktrees|
  {
    var w := s.worktrees[i];
    if Salvageable(s.commits, s.refs, w, o.branch, env) then
      && o.branch in t.refs
      && OneCommitOnTop(s.commits, s.refs, t.commits, t.refs, o.branch, t.refs[o.branch], w.files, Resume)
      && t.worktrees == s.worktrees[i := Salvaged(w, env)]
      && r == (if !StatusWorks(w, env, StatusAgain) then Conflict(w.path, Unreadable)
               else if !IsClean(Salvaged(w, env), w.files) then Conflict(w.path, SalvagedButDirty)
               else AdoptionResult(origin, w, o, Some(Salvage(t.refs[o.branch], sid, false)), env))
      && t.tracking == (if r.Conflict? then s.tracking
                        else Tracking(s.tracking, o.branch, FetchedBranch(origin, o, env)))
    else
      && r == (if SalvageThrows(s.refs, w, o.branch, env) then Failure else Conflict(w.path, SalvageFailed))
      && DirtKept(s, t, i, o.branch, env)
  }

  /** Second half: the salvage has landed, the branch tip is a commit origin cannot know. `known` are the
      commits from before the salvage. */
  method AdoptSalvaged(repo: GitRepo, origin: Origin, i: nat, o: ResolveOpts, salvage: Salvage, env: Env,
                       ghost known: Graph) returns (r: Resolution)
    requires repo.Valid() && i < |repo.worktrees| && repo.worktrees[i].head == OnBranch(o.branch)
    requires WellFormed(known) && Extends(known, repo.commits) && Known(origin, known)
    requires o.branch in repo.refs && repo.refs[o.branch] !in known
    modifies repo`refs, repo`tracking, repo`worktrees
    ensures repo.Valid() && repo.refs == old(repo.refs)
    ensures repo.worktrees == old(repo.worktrees)[i := AfterStraggler(old(repo.worktrees)[i], env)]
    ensures var w := AfterStraggler(old(repo.worktrees)[i], env);
            r == (if !StatusWorks(w, env, StatusAgain) then Conflict(w.path, Unreadable)
                  else if !CleanAt(repo.commits, old(repo.refs), w) then Conflict(w.path, SalvagedButDirty)
                  else AdoptionResult(origin, w, o, Some(salvage), env))
    ensures repo.tracking == if r.Conflict? then old(repo.tracking)
                             else Tracking(old(repo.tracking), o.branch, FetchedBranch(origin, o, env))
  {
    repo.worktrees := repo.worktrees[i := AfterStraggler(repo.worktrees[i], env)];
    var state := repo.worktrees[i];
    if !StatusWorks(state, env, StatusAgain) {
      return Conflict(state.path, Unreadable);
    }
    if !CleanAt(repo.commits, repo.refs, state) {
      return Conflict(state.path, SalvagedButDirty);
    }
    ghost var t := Now(repo);
    r := AdoptClean(repo, origin, i, o, Some(salvage), env);
    SalvagedTipStays(known, t, Now(repo), origin, i, o, env);
  }

  /** The salvage of checkout `i` took `s` to `t`. */
  ghost predicate DirtAttempted(s: Snapshot, t: Snapshot, i: nat, branch: Branch, env: Env, r: SalvageResult)
    requires i < |s.worktrees|
  {
    var w := s.worktrees[i];
    && t.tracking == s.tracking
    && if Salvageable(s.commits, s.refs, w, branch, env) then
         && branch in t.refs && r == Landed(t.refs[branch])
         && OneCommitOnTop(s.commits, s.refs, t.commits, t.refs, branch, t.refs[branch], w.files, Resume)
         && t.worktrees == s.worktrees[i := Committed(w, env)]
       else
         r == (if SalvageThrows(s.refs, w, branch, env) then Threw else NotSalvaged) && DirtKept(s, t, i, branch, env)
  }

  method SalvageDirt(repo: GitRepo, i: nat, branch: Branch, env: Env) returns (r: SalvageResult)
    requires repo.Valid() && i < |repo.worktrees|
    modifies repo`commits, repo`refs, repo`worktrees
    ensures repo.Valid() && Extends(old(repo.commits), repo.commits)
    ensures DirtAttempted(old(Now(repo)), Now(repo), i, branch, env, r)
  {
    ghost var staged;
    r, staged := SalvagePredecessorWorktree(repo, i, branch, env);
  }

  method SalvageAndAdopt(repo: GitRepo, origin: Origin, i: nat, o: ResolveOpts, sid: string, env: Env)
    returns (r: Resolution)
    requires repo.Valid() && i < |repo.worktrees| && repo.worktrees[i].head == OnBranch(o.branch)
             && Known(origin, repo.commits)
    modifies repo`commits, repo`refs, repo`tracking, repo`worktrees
    ensures repo.Valid()
    ensures DirtSalvaged(old(Now(repo)), Now(repo), origin, i, o, sid, env, r)
  {
    var w := repo.worktrees[i];
    ghost var known := repo.commits;
    var salvaged := SalvageDirt(repo, i, o.branch, env);
    if salvaged.Threw? {
      return Failure;
    }
    if salvaged.NotSalvaged? {
      return Conflict(w.path, SalvageFailed);
    }
    r := AdoptSalvaged(repo, origin, i, o, Salvage(salvaged.sha, sid, false), env, known);
  }

  /** A tip that was committed a moment ago cannot be behind origin, so adoption leaves it alone. */
  lemma SalvagedTipStays(known: Graph, t: Snapshot, u: Snapshot, origin: Origin, i: nat, o: ResolveOpts, env: Env)
    requires WellFormed(known) && WellFormed(t.commits) && i < |t.worktrees|
    requires Known(origin, known)
    requires o.branch in t.refs && t.refs[o.branch] !in known && Extends(known, t.commits)
    requires Adopted(t, u, origin, i, o, env)
    ensures u.refs == t.refs && u.worktrees == t.worktrees && u.commits == t.commits
  {
    var fetch := ReuseFetch(origin, o, env);
    if fetch.Usable? && fetch.tip.Some? {
      NewCommitIsNobodysAncestor(known, t.commits, fetch.tip.value, t.refs[o.branch]);
    }
  }

  /** What resolving the leftover `i` does and answers; None means that it was only a stale entry. */
  ghost predicate LeftoverResolved(s: Snapshot, t: Snapshot, origin: Origin, i: nat, o: ResolveOpts, env: Env,
                                   out: Option<Resolution>)
    requires WellFormed(s.commits) && i < |s.worktrees|
  {
    var w := s.worktrees[i];
    match Classify(s.commits, s.refs, w, o, env)
    case Outside => Untouched(s, t) && out == Some(Conflict(w.path, OutsideRoot))
    case LookupThrows => Untouched(s, t) && out == Some(Failure)
    case OwnedBy(sid) => Untouched(s, t) && out == Some(LiveOwner(w.path, sid))
    case Opaque => Untouched(s, t) && out == Some(Conflict(w.path, Unreadable))
    case Vanished => Untouched(s, t) && out == None
    case ForeignDirt => Untouched(s, t) && out == Some(Conflict(w.path, DirtyUnknownOwner))
    case Clean =>
      && Adopted(s, t, origin, i, o, env)
      && out == Some(AdoptionResult(origin, w, o, LandedBefore(s.commits, s.refs, w, o, env), env))
    case DeadDirt(sid) => out.Some? && DirtSalvaged(s, t, origin, i, o, sid, env, out.value)
  }

  method ResolveLeftover(repo: GitRepo, origin: Origin, i: nat, o: ResolveOpts, env: Env)
    returns (out: Option<Resolution>)
    requires repo.Valid() && i < |repo.worktrees| && repo.worktrees[i].head == OnBranch(o.branch)
             && Known(origin, repo.commits)
    modifies repo`commits, repo`refs, repo`tracking, repo`worktrees
    ensures repo.Valid()
    ensures LeftoverResolved(old(Now(repo)), Now(repo), origin, i, o, env, out)
  {
    var w := repo.worktrees[i];
    if !UnderRoot(w.path, o.managedRoot) {
      return Some(Conflict(w.path, OutsideRoot));
    }
    if OwnerLookup in env.fails {
      return Some(Failure);
    }
    var owner := o.owner(w.path);
    if owner.Alive? {
      return Some(LiveOwner(w.path, owner.sessionId));
    }
    if !StatusWorks(w, env, StatusInspect) {
      return if w.present then Some(Conflict(w.path, Unreadable)) else None;
    }
    var r;
    if CleanAt(repo.commits, repo.refs, w) {
      r := AdoptClean(repo, origin, i, o, LandedBefore(repo.commits, repo.refs, w, o, env), env);
    } else if owner.known.Some? {
      r := SalvageAndAdopt(repo, origin, i, o, owner.known.value, env);
    } else {
      r := Conflict(w.path, DirtyUnknownOwner);
    }
    return Some(r);
  }

  lemma LeftoverKeepsHistory(s: Snapshot, t: Snapshot, origin: Origin, i: nat, o: ResolveOpts, env: Env,
                             out: Option<Resolution>)
    requires Consistent(s) && Consistent(t) && i < |s.worktrees|
    requires LeftoverResolved(s, t, origin, i, o, env, out)
    ensures KeepsHistory(s, t)
  {
    match Classify(s.commits, s.refs, s.worktrees[i], o, env)
    case Clean => AdoptionKeepsHistory(s, t, origin, i, o, env);
    case DeadDirt(sid) => DirtKeepsHistory(s, t, origin, i, o, sid, env, out.value);
    case _ =>
      forall b | b in s.refs ensures Reaches(s.commits, s.refs[b], s.refs[b]) {
        assert s.refs[b] in s.refs.Values;
      }
  }

  lemma DirtKeepsHistory(s: Snapshot, t: Snapshot, origin: Origin, i: nat, o: ResolveOpts, sid: string, env: Env,
                         r: Resolution)
    requires Consistent(s) && Consistent(t) && i < |s.worktrees|
    requires DirtSalvaged(s, t, origin, i, o, sid, env, r)
    ensures KeepsHistory(s, t)
  {
    var u := t.(tracking := s.tracking);
    if !Salvageable(s.commits, s.refs, s.worktrees[i], o.branch, env) {
      KeptLeavesTraces(s, t, i, o.branch, env);
    }
    assert SalvageTraces(s, u, i, o.branch, s.worktrees[i].files);
    SalvageKeepsHistory(s, u, i, o.branch, s.worktrees[i].files);
    assert Checkouts(u) == Checkouts(t);
  }
}
