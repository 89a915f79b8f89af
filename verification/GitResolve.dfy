/** The whole resolution of a developer worktree, and what follows from it over every outcome. */
module GitResolve {
  import opened CommitGraph
  import opened GitRepository
  import opened GitSalvage
  import opened GitWorktree
  import opened Options

  /** Where a new checkout will stand: deferred, broken off by a failing command, cut from the base,
      cut at the fetched branch, or on the existing local branch. */
  datatype Start = Defer | Breaks | FromBase(sha: Sha) | FromRemote(sha: Sha) | OnLocal(sha: Sha)

  function BaseStart(origin: Origin, refs: map<Branch, Sha>, o: ResolveOpts, env: Env): Start {
    var base := FreshBase(origin, refs, o, env);
    if base.Some? then FromBase(base.value) else Defer
  }

  function PlanStart(commits: Graph, refs: map<Branch, Sha>, origin: Origin, o: ResolveOpts, env: Env): Start
    requires WellFormed(commits)
  {
    var fetch := ReuseFetch(origin, o, env);
    if fetch.Unusable? then Defer
    else if !o.reuse then BaseStart(origin, refs, o, env)
    else if BranchExistsFirst in env.fails || o.branch !in refs then
      if fetch.tip.Some? then FromRemote(fetch.tip.value) else BaseStart(origin, refs, o, env)
    else if fetch.tip.Some? && BranchExistsAgain !in env.fails then
      if LocalSha in env.fails then Breaks
      else if refs[o.branch] != fetch.tip.value && KnownAncestor(commits, refs[o.branch], fetch.tip.value, env) then
        if UpdateRef in env.fails then Breaks else OnLocal(fetch.tip.value)
      else OnLocal(refs[o.branch])
    else OnLocal(refs[o.branch])
  }

  /** The base is fetched as well: for a new branch, or one that exists nowhere. */
  predicate AsksForBase(refs: map<Branch, Sha>, origin: Origin, o: ResolveOpts, env: Env) {
    var fetch := ReuseFetch(origin, o, env);
    fetch.Usable? && (!o.reuse || (fetch.tip.None? && (BranchExistsFirst in env.fails || o.branch !in refs)))
  }

  /** The tracking refs after the fetches of a creation. */
  function StartTracking(s: Snapshot, origin: Origin, o: ResolveOpts, env: Env): map<Branch, Sha> {
    var first := Tracking(s.tracking, o.branch, FetchedBranch(origin, o, env));
    if AsksForBase(s.refs, origin, o, env) then Tracking(first, o.base, FetchedBase(origin, env)) else first
  }

  predicate Stands(start: Start) {
    start.FromBase? || start.FromRemote? || start.OnLocal?
  }

  function TreeOf(commits: Graph, sha: Sha): Tree {
    if sha in commits then commits[sha].tree else map[]
  }

  function NewCheckout(path: Path, branch: Branch, tree: Tree): Worktree {
    Worktree(path, OnBranch(branch), true, false, true, tree, tree, false, false)
  }

  /** `git worktree add` accepts: the name is free for a new branch, no checkout holds an existing one,
      and the path is not taken. */
  predicate AddAccepted(refs: map<Branch, Sha>, ws: seq<Worktree>, o: ResolveOpts, start: Start, env: Env) {
    && AddCheckout !in env.fails
    && (if start.OnLocal? then Holder(ws, o.branch).None? else o.branch !in refs)
    && (forall w <- ws :: w.path != o.path)
  }

  /** The branches once the start is prepared: an existing branch has caught up. */
  function PreparedRefs(refs: map<Branch, Sha>, o: ResolveOpts, start: Start): map<Branch, Sha> {
    if start.OnLocal? then refs[o.branch := start.sha] else refs
  }

  /** The last step, from branches `refs` and registrations `ws` to `t`: the checkout appears on its
      branch at the start, or git refuses and at most the new branch was left behind. */
  ghost predicate Placed(refs: map<Branch, Sha>, ws: seq<Worktree>, t: Snapshot, o: ResolveOpts, start: Start,
                         env: Env, r: Resolution)
    requires Stands(start)
  {
    if AddAccepted(refs, ws, o, start, env) then
      && r == Created(o.path, if start.FromBase? then Some(start.sha) else None)
      && t.refs == refs[o.branch := start.sha]
      && t.worktrees == ws + [NewCheckout(o.path, o.branch, TreeOf(t.commits, start.sha))]
    else
      && r.Failure?
      && (t.refs == refs || (o.branch !in refs && t.refs == refs[o.branch := start.sha]))
      && t.worktrees == ws
  }

  /** Creating a checkout, from `s` to `t`. */
  ghost predicate CheckoutCreated(s: Snapshot, t: Snapshot, origin: Origin, o: ResolveOpts, env: Env, r: Resolution)
    requires Consistent(s) && Known(origin, s.commits)
  {
    var start := PlanStart(s.commits, s.refs, origin, o, env);
    && t.commits == s.commits
    && (PruneLate !in env.fails ==> t.tracking == StartTracking(s, origin, o, env))
    && if PruneLate in env.fails then r.Failure? && t == s
       else if start.Defer? then r.BaseUnavailable? && t.refs == s.refs && t.worktrees == Pruned(s.worktrees)
       else if start.Breaks? then r.Failure? && t.refs == s.refs && t.worktrees == Pruned(s.worktrees)
       else Placed(PreparedRefs(s.refs, o, start), Pruned(s.worktrees), t, o, start, env, r)
  }

  lemma StartIsKnown(s: Snapshot, origin: Origin, o: ResolveOpts, env: Env)
    requires Consistent(s) && Known(origin, s.commits)
    ensures var start := PlanStart(s.commits, s.refs, origin, o, env);
            && (Stands(start) ==> start.sha in s.commits)
            && (start.OnLocal? ==> o.branch in s.refs && Reaches(s.commits, start.sha, s.refs[o.branch]))
  {
    assert forall b :: b in s.refs ==> s.refs[b] in s.refs.Values;
  }

  lemma CreationKeepsHistory(s: Snapshot, t: Snapshot, origin: Origin, o: ResolveOpts, env: Env, r: Resolution)
    requires Consistent(s) && Known(origin, s.commits)
    requires CheckoutCreated(s, t, origin, o, env, r)
    ensures KeepsHistory(s, t)
  {
    var start := PlanStart(s.commits, s.refs, origin, o, env);
    StartIsKnown(s, origin, o, env);
    assert Checkouts(s) <= Checkouts(t) by {
      forall x | x in Checkouts(s) ensures x in Checkouts(t) {
        var w :| w in s.worktrees && w.present && (w.path, w.head) == x;
        assert w in Pruned(s.worktrees);
        assert w in t.worktrees;
      }
    }
    forall b | b in s.refs ensures Reaches(s.commits, s.refs[b], s.refs[b]) {
      assert s.refs[b] in s.refs.Values;
    }
  }

  /** `git worktree add`, with `-b` unless the branch is checked out as it is. A failing one may already
      have created the new branch. */
  method AddWorktree(repo: GitRepo, o: ResolveOpts, start: Start, env: Env) returns (r: Resolution)
    requires repo.Valid() && Stands(start) && start.sha in repo.commits
    requires start.OnLocal? ==> o.branch in repo.refs && repo.refs[o.branch] == start.sha
    modifies repo`refs, repo`worktrees
    ensures repo.Valid()
    ensures Placed(old(repo.refs), old(repo.worktrees), Now(repo), o, start, env, r)
  {
    if AddAccepted(repo.refs, repo.worktrees, o, start, env) {
      repo.refs := repo.refs[o.branch := start.sha];
      repo.worktrees := repo.worktrees + [NewCheckout(o.path, o.branch, TreeOf(repo.commits, start.sha))];
      return Created(o.path, if start.FromBase? then Some(start.sha) else None);
    }
    var leftBehind: bool := *;
    if leftBehind && o.branch !in repo.refs {
      repo.refs := repo.refs[o.branch := start.sha];
    }
    return Failure;
  }

  /** Choosing the start: fetch, decide, and move a local branch that is strictly behind to the tip
      that was fetched. */
  method PrepareStart(repo: GitRepo, origin: Origin, o: ResolveOpts, env: Env) returns (start: Start)
    requires repo.Valid() && Known(origin, repo.commits)
    modifies repo`refs, repo`tracking
    ensures repo.Valid() && start == PlanStart(repo.commits, old(repo.refs), origin, o, env)
    ensures Stands(start) ==> start.sha in repo.commits
    ensures repo.refs == PreparedRefs(old(repo.refs), o, start)
    ensures repo.tracking == StartTracking(old(Now(repo)), origin, o, env)
  {
    var fetch := FetchReusedBranch(repo, origin, o, env);
    if fetch.Unusable? {
      return Defer;
    }
    var known := BranchExistsFirst !in env.fails && o.branch in repo.refs;
    if !o.reuse || (fetch.tip.None? && !known) {
      var baseTip := FetchFreshBase(repo, origin, o, env);
      return if baseTip.Some? then FromBase(baseTip.value) else Defer;
    }
    if !known {
      return FromRemote(fetch.tip.value);
    }
    assert repo.refs[o.branch] in repo.refs.Values;
    if fetch.tip.Some? && BranchExistsAgain !in env.fails {
      if LocalSha in env.fails {
        return Breaks;
      }
      var local := repo.refs[o.branch];
      if local != fetch.tip.value && KnownAncestor(repo.commits, local, fetch.tip.value, env) {
        if UpdateRef in env.fails {
          return Breaks;
        }
        repo.refs := repo.refs[o.branch := fetch.tip.value];
      }
    }
    return OnLocal(repo.refs[o.branch]);
  }

  method CreateCheckout(repo: GitRepo, origin: Origin, o: ResolveOpts, env: Env) returns (r: Resolution)
    requires repo.Valid() && Known(origin, repo.commits)
    modifies repo`refs, repo`tracking, repo`worktrees
    ensures repo.Valid() && CheckoutCreated(old(Now(repo)), Now(repo), origin, o, env, r)
  {
    StartIsKnown(Now(repo), origin, o, env);
    if PruneLate in env.fails {
      return Failure;
    }
    repo.worktrees := Pruned(repo.worktrees);
    var start := PrepareStart(repo, origin, o, env);
    if start.Defer? {
      return BaseUnavailable;
    }
    if start.Breaks? {
      return Failure;
    }
    r := AddWorktree(repo, o, start, env);
  }

  // ---------- The whole procedure ----------

  function Cleared(s: Snapshot): Snapshot {
    s.(worktrees := Pruned(s.worktrees))
  }

  /** From the leftover lookup on: adopt or report the leftover, or create a checkout. */
  ghost predicate ResolvedFrom(s: Snapshot, t: Snapshot, origin: Origin, o: ResolveOpts, env: Env, r: Resolution)
    requires Consistent(s) && Known(origin, s.commits)
  {
    var held := Holder(s.worktrees, o.branch);
    if held.Some? && !Classify(s.commits, s.refs, s.worktrees[held.value], o, env).Vanished? then
      LeftoverResolved(s, t, origin, held.value, o, env, Some(r))
    else CheckoutCreated(s, t, origin, o, env, r)
  }

  ghost predicate Resolved(s: Snapshot, t: Snapshot, origin: Origin, o: ResolveOpts, env: Env, r: Resolution)
    requires Consistent(s) && Known(origin, s.commits)
  {
    var held := Holder(s.worktrees, o.branch);
    if FindFirst in env.fails then r.Failure? && t == s
    else if held.None? || s.worktrees[held.value].present then ResolvedFrom(s, t, origin, o, env, r)
    else if PruneVanished in env.fails then r.Failure? && t == s
    else if FindAgain in env.fails then r.Failure? && t == Cleared(s)
    else ResolvedFrom(Cleared(s), t, origin, o, env, r)
  }

  method ResolveFrom(repo: GitRepo, origin: Origin, held: Option<nat>, o: ResolveOpts, env: Env) returns (r: Resolution)
    requires repo.Valid() && Known(origin, repo.commits) && held == Holder(repo.worktrees, o.branch)
    modifies repo`commits, repo`refs, repo`tracking, repo`worktrees
    ensures repo.Valid() && ResolvedFrom(old(Now(repo)), Now(repo), origin, o, env, r)
  {
    if held.Some? {
      var out := ResolveLeftover(repo, origin, held.value, o, env);
      if out.Some? {
        return out.value;
      }
    }
    r := CreateCheckout(repo, origin, o, env);
  }

  /** resolveDeveloperWorktree. */
  method ResolveDeveloperWorktree(repo: GitRepo, origin: Origin, o: ResolveOpts, env: Env) returns (r: Resolution)
    requires repo.Valid() && Known(origin, repo.commits)
    modifies repo`commits, repo`refs, repo`tracking, repo`worktrees
    ensures repo.Valid() && Resolved(old(Now(repo)), Now(repo), origin, o, env, r)
    ensures KeepsHistory(old(Now(repo)), Now(repo))
  {
    ghost var s := Now(repo);
    if FindFirst in env.fails {
      ResolutionKeepsHistory(s, Now(repo), origin, o, env, Failure);
      return Failure;
    }
    var held := FindWorktreeForBranch(repo.worktrees, o.branch);
    if held.Some? && !repo.worktrees[held.value].present {
      if PruneVanished in env.fails {
        ResolutionKeepsHistory(s, Now(repo), origin, o, env, Failure);
        return Failure;
      }
      repo.worktrees := Pruned(repo.worktrees);
      if FindAgain in env.fails {
        ResolutionKeepsHistory(s, Now(repo), origin, o, env, Failure);
        return Failure;
      }
      held := FindWorktreeForBranch(repo.worktrees, o.branch);
    }
    r := ResolveFrom(repo, origin, held, o, env);
    ResolutionKeepsHistory(s, Now(repo), origin, o, env, r);
  }

  // ---------- What follows, over every outcome ----------

  lemma PruningKeepsHistory(s: Snapshot)
    requires Consistent(s)
    ensures Consistent(Cleared(s)) && KeepsHistory(s, Cleared(s)) && KeepsHistory(s, s)
  {
    forall b | b in s.refs ensures Reaches(s.commits, s.refs[b], s.refs[b]) {
      assert s.refs[b] in s.refs.Values;
    }
    forall x | x in Checkouts(s) ensures x in Checkouts(Cleared(s)) {
      var w :| w in s.worktrees && w.present && (w.path, w.head) == x;
      assert w in Cleared(s).worktrees;
    }
  }

  lemma StageKeepsHistory(s: Snapshot, t: Snapshot, origin: Origin, o: ResolveOpts, env: Env, r: Resolution)
    requires Consistent(s) && Consistent(t) && Known(origin, s.commits)
    requires ResolvedFrom(s, t, origin, o, env, r)
    ensures KeepsHistory(s, t)
  {
    var held := Holder(s.worktrees, o.branch);
    if held.Some? && !Classify(s.commits, s.refs, s.worktrees[held.value], o, env).Vanished? {
      LeftoverKeepsHistory(s, t, origin, held.value, o, env, Some(r));
    } else {
      CreationKeepsHistory(s, t, origin, o, env, r);
    }
  }

  /** MAIN: whatever happens, each existing branch ends at its old tip or a descendant of it, and every
      existing checkout stays in place. */
  lemma ResolutionKeepsHistory(s: Snapshot, t: Snapshot, origin: Origin, o: ResolveOpts, env: Env, r: Resolution)
    requires Consistent(s) && Consistent(t) && Known(origin, s.commits)
    requires Resolved(s, t, origin, o, env, r)
    ensures KeepsHistory(s, t)
  {
    PruningKeepsHistory(s);
    if t != s && t != Cleared(s) {
      var held := Holder(s.worktrees, o.branch);
      if held.None? || s.worktrees[held.value].present {
        StageKeepsHistory(s, t, origin, o, env, r);
      } else {
        StageKeepsHistory(Cleared(s), t, origin, o, env, r);
        KeepsHistoryTransitive(s, Cleared(s), t);
      }
    }
  }

  /** The moment the leftover lookup is settled: the stale entry of a vanished leftover is gone. */
  function Settled(s: Snapshot, branch: Branch): Snapshot {
    var held := Holder(s.worktrees, branch);
    if held.None? || s.worktrees[held.value].present then s else Cleared(s)
  }

  lemma LookupSettles(s: Snapshot, t: Snapshot, origin: Origin, o: ResolveOpts, env: Env, r: Resolution)
    requires Consistent(s) && Known(origin, s.commits)
    requires Resolved(s, t, origin, o, env, r) && !r.Failure?
    ensures Consistent(Settled(s, o.branch)) && ResolvedFrom(Settled(s, o.branch), t, origin, o, env, r)
  {
    PruningKeepsHistory(s);
  }

  lemma LeftoversCreateNothing(m: Snapshot, t: Snapshot, origin: Origin, i: nat, o: ResolveOpts, env: Env,
                               r: Resolution)
    requires Consistent(m) && i < |m.worktrees| && LeftoverResolved(m, t, origin, i, o, env, Some(r))
    ensures !r.Created?
  {
    var c := Classify(m.commits, m.refs, m.worktrees[i], o, env);
    if c.DeadDirt? {
      assert DirtSalvaged(m, t, origin, i, o, c.sessionId, env, r);
    }
  }

  /** Every answer except a failure comes from one of two places. */
  lemma WhereAnswersComeFrom(s: Snapshot, t: Snapshot, origin: Origin, o: ResolveOpts, env: Env, r: Resolution)
    requires Consistent(s) && Known(origin, s.commits)
    requires Resolved(s, t, origin, o, env, r) && !r.Failure?
    ensures var m := Settled(s, o.branch);
            var held := Holder(m.worktrees, o.branch);
            && Consistent(m)
            && (r.Created? ==> CheckoutCreated(m, t, origin, o, env, r))
            && (r.Conflict? || r.LiveOwner? || r.Reused?
                ==> held.Some? && LeftoverResolved(m, t, origin, held.value, o, env, Some(r)))
            && (!(held.Some? && LeftoverResolved(m, t, origin, held.value, o, env, Some(r)))
                ==> CheckoutCreated(m, t, origin, o, env, r))
  {
    LookupSettles(s, t, origin, o, env, r);
    var m := Settled(s, o.branch);
    var held := Holder(m.worktrees, o.branch);
    if held.Some? && !Classify(m.commits, m.refs, m.worktrees[held.value], o, env).Vanished? {
      LeftoversCreateNothing(m, t, origin, held.value, o, env, r);
    }
  }

  /** Refusals by their reason: a live owner, or a conflict before anything was tried. */
  predicate Refuses(r: Resolution) {
    r.LiveOwner? || (r.Conflict? && r.cause in {OutsideRoot, DirtyUnknownOwner, Unreadable})
  }

  /** The status of the leftover cannot be read when it is first inspected. */
  predicate FirstStatusFails(s: Snapshot, o: ResolveOpts, env: Env) {
    var m := Settled(s, o.branch);
    var held := Holder(m.worktrees, o.branch);
    StatusInspect in env.fails || (held.Some? && !m.worktrees[held.value].readable)
  }

  /** A refusal moves nothing: not a ref, not an index, not a file. At most entries of vanished
      directories are gone from the worktree list. For an unreadable checkout that is so exactly if its
      status already failed at the first inspection; otherwise a salvage had landed before. */
  lemma RefusalsTouchNothing(s: Snapshot, t: Snapshot, origin: Origin, o: ResolveOpts, env: Env, r: Resolution)
    requires Consistent(s) && Consistent(t) && Known(origin, s.commits)
    requires Resolved(s, t, origin, o, env, r) && Refuses(r)
    ensures t == s || t == Cleared(s) <==> r.LiveOwner? || r.cause != Unreadable || FirstStatusFails(s, o, env)
    ensures t == s || t == Cleared(s) ==> forall w :: w in s.worktrees && w.present ==> w in t.worktrees
    ensures t != s && t != Cleared(s)
            ==> o.branch in t.refs && t.refs[o.branch] !in s.commits && StatusAgain in env.fails
  {
    WhereAnswersComeFrom(s, t, origin, o, env, r);
    var m := Settled(s, o.branch);
    LeftoverRefusal(m, t, origin, Holder(m.worktrees, o.branch).value, o, env, r);
  }

  lemma LeftoverRefusal(m: Snapshot, t: Snapshot, origin: Origin, i: nat, o: ResolveOpts, env: Env, r: Resolution)
    requires Consistent(m) && i < |m.worktrees|
    requires LeftoverResolved(m, t, origin, i, o, env, Some(r)) && Refuses(r)
    ensures var first := StatusInspect in env.fails || !m.worktrees[i].readable;
            && (r.LiveOwner? || r.cause != Unreadable || first ==> t == m)
            && (r.Conflict? && r.cause == Unreadable && !first ==>
                  t.commits != m.commits && o.branch in t.refs && t.refs[o.branch] !in m.commits
                      && StatusAgain in env.fails)
  {
    var c := Classify(m.commits, m.refs, m.worktrees[i], o, env);
    if c.DeadDirt? {
      assert DirtSalvaged(m, t, origin, i, o, c.sessionId, env, r);
    }
  }

  /** One issue branch on one empty commit, checked out at `/m/w` with one uncommitted file. */
  function DirtyCheckout(): Snapshot {
    Snapshot(map[0 := Commit([], map[], 0, "first")], map["b" := 0], map[],
             [Worktree("/m/w", OnBranch("b"), true, false, true, map[], map["f" := "x"], false, false)])
  }

  function Orphaned(): ResolveOpts {
    ResolveOpts("b", "main", true, "/m/v", "/m", _ => Dead(Some("gone")))
  }

  /** The input for which an unreadable answer is no clean refusal: a dead session's dirt, and a status
      that fails only after the salvage. */
  lemma UnreadableAfterSalvage() returns (t: Snapshot)
    ensures Consistent(DirtyCheckout()) && Consistent(t)
    ensures Resolved(DirtyCheckout(), t, Origin(false, None, None), Orphaned(), Env({StatusAgain}, None, None),
                     Conflict("/m/w", Unreadable))
    ensures t.refs["b"] == 1 && 1 !in DirtyCheckout().commits && t.commits[1].tree == map["f" := "x"]
  {
    var s, env := DirtyCheckout(), Env({StatusAgain}, None, None);
    var w := s.worktrees[0];
    t := Snapshot(s.commits[1 := Commit([0], w.files, 0, RESUME_MESSAGE)], map["b" := 1], map[],
                  [w.(index := w.files)]);
    assert HeadTree(s.commits, s.refs, w) == map[];
    assert "f" in w.files && w.files != map[];
    assert Salvageable(s.commits, s.refs, w, "b", env);
    assert UnderRoot("/m/w", "/m");
    assert t.worktrees == s.worktrees[0 := Salvaged(w, env)];
    assert Classify(s.commits, s.refs, w, Orphaned(), env) == DeadDirt("gone");
    assert DirtSalvaged(s, t, Origin(false, None, None), 0, Orphaned(), "gone", env, Conflict("/m/w", Unreadable));
  }

  /** A deferred start creates neither a branch nor a checkout. */
  lemma DeferredStartCreatesNothing(s: Snapshot, t: Snapshot, origin: Origin, o: ResolveOpts, env: Env)
    requires Consistent(s) && Consistent(t) && Known(origin, s.commits)
    requires Resolved(s, t, origin, o, env, BaseUnavailable)
    ensures t.refs.Keys == s.refs.Keys
    ensures forall w :: w in t.worktrees ==> exists v :: v in s.worktrees && v.path == w.path && v.head == w.head
  {
    WhereAnswersComeFrom(s, t, origin, o, env, BaseUnavailable);
    var m := Settled(s, o.branch);
    var held := Holder(m.worktrees, o.branch);
    if held.Some? && LeftoverResolved(m, t, origin, held.value, o, env, Some(BaseUnavailable)) {
      DeferredAdoption(m, t, origin, held.value, o, env);
      SamePlaces(s, m, t);
    } else {
      assert forall w :: w in t.worktrees ==> w in s.worktrees;
    }
  }

  lemma SamePlaces(s: Snapshot, m: Snapshot, t: Snapshot)
    requires forall w :: w in m.worktrees ==> w in s.worktrees
    requires |t.worktrees| == |m.worktrees|
    requires forall j :: 0 <= j < |m.worktrees| ==>
               t.worktrees[j].path == m.worktrees[j].path && t.worktrees[j].head == m.worktrees[j].head
    ensures forall w :: w in t.worktrees ==> exists v :: v in s.worktrees && v.path == w.path && v.head == w.head
  {
    forall w | w in t.worktrees ensures exists v :: v in s.worktrees && v.path == w.path && v.head == w.head {
      var j :| 0 <= j < |t.worktrees| && t.worktrees[j] == w;
      assert m.worktrees[j] in m.worktrees;
    }
  }

  lemma DeferredAdoption(m: Snapshot, t: Snapshot, origin: Origin, i: nat, o: ResolveOpts, env: Env)
    requires Consistent(m) && i < |m.worktrees|
    requires LeftoverResolved(m, t, origin, i, o, env, Some(BaseUnavailable))
    ensures t.refs.Keys == m.refs.Keys && |t.worktrees| == |m.worktrees|
    ensures forall j :: 0 <= j < |m.worktrees| ==>
              t.worktrees[j].path == m.worktrees[j].path && t.worktrees[j].head == m.worktrees[j].head
  {
    var c := Classify(m.commits, m.refs, m.worktrees[i], o, env);
    if c.DeadDirt? {
      assert DirtSalvaged(m, t, origin, i, o, c.sessionId, env, BaseUnavailable);
    } else {
      assert Adopted(m, t, origin, i, o, env);
    }
  }

  /** The lookups whose failure is taken for an answer, so that the start may differ. */
  predicate LookupsWork(env: Env) {
    env.fails !! {RemoteUrl, Ancestry, BranchExistsFirst, BranchExistsAgain}
  }

  /** Where a created checkout stands. The branch is reused and origin has it at `r`: at `r` exactly when
      the local branch was missing or behind `r`, else on the local tip as it was. The branch exists
      nowhere, or a new one is asked for: at the base, whose tip is reported. */
  lemma CreatedCheckoutTip(s: Snapshot, t: Snapshot, origin: Origin, o: ResolveOpts, env: Env, base: Option<Sha>)
    requires Consistent(s) && Consistent(t) && Known(origin, s.commits) && LookupsWork(env)
    requires Resolved(s, t, origin, o, env, Created(o.path, base))
    ensures o.branch in t.refs && t.commits == s.commits
    ensures |t.worktrees| > 0
            && t.worktrees[|t.worktrees| - 1] == NewCheckout(o.path, o.branch, TreeOf(t.commits, t.refs[o.branch]))
    ensures forall b :: b in t.refs && b != o.branch ==> b in s.refs && t.refs[b] == s.refs[b]
    ensures var published := o.reuse && origin.configured && origin.branch.Some?;
            && (published ==>
                  && base == None
                  && (t.refs[o.branch] == origin.branch.value <==>
                        o.branch !in s.refs || Reaches(s.commits, origin.branch.value, s.refs[o.branch]))
                  && (t.refs[o.branch] != origin.branch.value ==> t.refs[o.branch] == s.refs[o.branch]))
            && (o.reuse && !published && o.branch in s.refs ==> base == None && t.refs[o.branch] == s.refs[o.branch])
            && (!o.reuse || (!published && o.branch !in s.refs) ==>
                  && o.branch !in s.refs && base == Some(t.refs[o.branch])
                  && base == (if origin.configured then origin.base else Lookup(s.refs, o.base)))
  {
    WhereAnswersComeFrom(s, t, origin, o, env, Created(o.path, base));
    var m := Settled(s, o.branch);
    PlannedTip(m, origin, o, env);
  }

  lemma PlannedTip(s: Snapshot, origin: Origin, o: ResolveOpts, env: Env)
    requires Consistent(s) && Known(origin, s.commits) && LookupsWork(env)
    ensures var start := PlanStart(s.commits, s.refs, origin, o, env);
            var published := o.reuse && origin.configured && origin.branch.Some?;
            Stands(start) ==>
              && (published ==> !start.FromBase?)
              && (published ==>
                    (start.sha == origin.branch.value <==>
                       o.branch !in s.refs || Reaches(s.commits, origin.branch.value, s.refs[o.branch])))
              && (published && start.sha != origin.branch.value ==> start.sha == s.refs[o.branch])
              && (o.reuse && !published && o.branch in s.refs ==> start == OnLocal(s.refs[o.branch]))
              && (!o.reuse || (!published && o.branch !in s.refs) ==>
                    start.FromBase?
                        && Some(start.sha) == (if origin.configured then origin.base else Lookup(s.refs, o.base)))
  {
    assert forall b :: b in s.refs ==> s.refs[b] in s.refs.Values;
  }

  /** Catching up works: none of the commands fails whose failure leaves the checkout where it is, and no
      untracked file is in the way. */
  predicate CatchesUp(commits: Graph, w: Worktree, r: Sha, env: Env) {
    env.fails !! {LocalSha, Ancestry, Merge} && !Collides(w, TreeOf(commits, r))
  }

  /** Where an adopted clean checkout stands after origin's tip was fetched: there exactly when the local
      branch was behind or at it, else unmoved. */
  lemma AdoptedCheckoutTip(s: Snapshot, t: Snapshot, origin: Origin, i: nat, o: ResolveOpts, env: Env, r: Sha)
    requires Consistent(s) && i < |s.worktrees| && o.branch in s.refs && Known(origin, s.commits)
    requires s.worktrees[i].head == OnBranch(o.branch) && Adopted(s, t, origin, i, o, env)
    requires ReuseFetch(origin, o, env) == Usable(Some(r)) && CatchesUp(s.commits, s.worktrees[i], r, env)
    ensures t.refs[o.branch] == r <==> Reaches(s.commits, r, s.refs[o.branch])
    ensures t.refs[o.branch] != r ==> t.refs == s.refs && t.worktrees == s.worktrees
    ensures CleanAt(s.commits, s.refs, s.worktrees[i]) ==> CleanAt(t.commits, t.refs, t.worktrees[i])
  {
    assert s.refs[o.branch] in s.refs.Values;
  }

  /** The branch of the reused leftover `w` stands on the salvage commit just made, if one was; else at
      origin's tip exactly when it was behind or at it; and where it was otherwise. */
  ghost predicate ReusedTip(s: Snapshot, t: Snapshot, w: Worktree, origin: Origin, o: ResolveOpts, env: Env,
                            salvage: Option<Salvage>)
    requires WellFormed(s.commits)
  {
    var published := o.reuse && origin.configured && origin.branch.Some?;
    if salvage.Some? && !salvage.value.recovered then
      && o.branch in s.refs && t.refs == s.refs[o.branch := salvage.value.sha]
      && salvage.value.sha in t.commits && t.commits[salvage.value.sha].parents == [s.refs[o.branch]]
    else if o.branch !in s.refs || !published then t.refs == s.refs
    else if CatchesUp(s.commits, w, origin.branch.value, env) then
      && o.branch in t.refs
      && (t.refs[o.branch] == origin.branch.value <==> Reaches(s.commits, origin.branch.value, s.refs[o.branch]))
      && (t.refs[o.branch] != origin.branch.value ==> t.refs == s.refs)
    else t.refs == s.refs || t.refs == s.refs[o.branch := origin.branch.value]
  }

  lemma ReusedLeftoverTip(m: Snapshot, t: Snapshot, origin: Origin, i: nat, o: ResolveOpts, env: Env, path: Path,
                          salvage: Option<Salvage>)
    requires Consistent(m) && i < |m.worktrees| && m.worktrees[i].head == OnBranch(o.branch)
             && Known(origin, m.commits) && RemoteUrl !in env.fails
    requires LeftoverResolved(m, t, origin, i, o, env, Some(Reused(path, salvage)))
    ensures m.worktrees[i].path == path && ReusedTip(m, t, m.worktrees[i], origin, o, env, salvage)
  {
    var c := Classify(m.commits, m.refs, m.worktrees[i], o, env);
    if c.DeadDirt? {
      assert DirtSalvaged(m, t, origin, i, o, c.sessionId, env, Reused(path, salvage));
    } else {
      assert Adopted(m, t, origin, i, o, env);
      if o.branch in m.refs && o.reuse && origin.configured && origin.branch.Some?
          && CatchesUp(m.commits, m.worktrees[i], origin.branch.value, env) {
        AdoptedCheckoutTip(m, t, origin, i, o, env, origin.branch.value);
      }
    }
  }

  lemma ReusedCheckoutTip(s: Snapshot, t: Snapshot, origin: Origin, o: ResolveOpts, env: Env, path: Path,
                          salvage: Option<Salvage>)
    requires Consistent(s) && Consistent(t) && Known(origin, s.commits) && RemoteUrl !in env.fails
    requires Resolved(s, t, origin, o, env, Reused(path, salvage))
    ensures var m := Settled(s, o.branch); var held := Holder(m.worktrees, o.branch);
            held.Some? && m.worktrees[held.value].path == path
                && ReusedTip(s, t, m.worktrees[held.value], origin, o, env, salvage)
  {
    WhereAnswersComeFrom(s, t, origin, o, env, Reused(path, salvage));
    var m := Settled(s, o.branch);
    ReusedLeftoverTip(m, t, origin, Holder(m.worktrees, o.branch).value, o, env, path, salvage);
  }

  lemma {:induction false} HolderReadsHeads(ws: seq<Worktree>, vs: seq<Worktree>, branch: Branch)
    requires |ws| == |vs| && forall j :: 0 <= j < |ws| ==> ws[j].head == vs[j].head
    ensures Holder(ws, branch) == Holder(vs, branch)
  {
    if ws != [] {
      HolderReadsHeads(ws[1..], vs[1..], branch);
    }
  }

  /** The commands on which finding a landed salvage again depends. */
  predicate Recovers(origin: Origin, o: ResolveOpts, env: Env) {
    env.fails !! {FindFirst, OwnerLookup, StatusInspect, LogSubject} && ReuseFetch(origin, o, env).Usable?
  }

  /** Resolving again after a landed salvage: whatever fails, no second commit is made, and the first is
      reported as recovered exactly if it can be found again and origin does not defer the start. */
  lemma SalvageIsRecoveredNotRepeated(s: Snapshot, t: Snapshot, u: Snapshot, first: Origin, second: Origin,
                                      o: ResolveOpts,
                                      env: Env, again: Env, path: Path, salvage: Salvage, r: Resolution)
    requires Consistent(s) && Consistent(t) && Consistent(u)
    requires Known(first, s.commits) && Known(second, t.commits)
    requires Resolved(s, t, first, o, env, Reused(path, Some(salvage))) && !salvage.recovered
    requires Resolved(t, u, second, o, again, r)
    ensures u.commits == t.commits
    ensures r == Reused(path, Some(salvage.(recovered := true))) <==> Recovers(second, o, again)
    ensures salvage.sha !in s.commits && salvage.sha in t.commits
  {
    WhereAnswersComeFrom(s, t, first, o, env, Reused(path, Some(salvage)));
    var m := Settled(s, o.branch);
    var i := Holder(m.worktrees, o.branch).value;
    LandedSalvageState(m, t, first, i, o, env, path, salvage);
    HolderReadsHeads(m.worktrees, t.worktrees, o.branch);
    RecoveringState(t, u, second, i, o, again, r);
  }

  lemma LandedSalvageState(m: Snapshot, t: Snapshot, origin: Origin, i: nat, o: ResolveOpts, env: Env, path: Path,
                           salvage: Salvage)
    requires Consistent(m) && i < |m.worktrees| && m.worktrees[i].head == OnBranch(o.branch)
    requires LeftoverResolved(m, t, origin, i, o, env, Some(Reused(path, Some(salvage)))) && !salvage.recovered
    ensures |t.worktrees| == |m.worktrees|
            && forall j :: 0 <= j < |m.worktrees| ==> t.worktrees[j].head == m.worktrees[j].head
    ensures var w := t.worktrees[i];
            && w.path == path && w.present && w.readable && UnderRoot(path, o.managedRoot)
            && o.owner(path) == Dead(Some(salvage.predecessor)) && CleanAt(t.commits, t.refs, w)
    ensures o.branch in t.refs && t.refs[o.branch] == salvage.sha && salvage.sha in t.commits
            && salvage.sha !in m.commits
    ensures t.commits[salvage.sha].subject == RESUME_MESSAGE
  {
    var c := Classify(m.commits, m.refs, m.worktrees[i], o, env);
    assert c.DeadDirt?;
    assert DirtSalvaged(m, t, origin, i, o, c.sessionId, env, Reused(path, Some(salvage)));
    assert HeadTree(t.commits, t.refs, t.worktrees[i]) == m.worktrees[i].files;
  }

  lemma RecoveringState(t: Snapshot, u: Snapshot, origin: Origin, i: nat, o: ResolveOpts, env: Env, r: Resolution)
    requires Consistent(t) && Known(origin, t.commits)
    requires Holder(t.worktrees, o.branch) == Some(i)
    requires var w := t.worktrees[i];
             && w.present && w.readable && UnderRoot(w.path, o.managedRoot) && CleanAt(t.commits, t.refs, w)
             && o.owner(w.path).Dead? && o.owner(w.path).known.Some?
    requires o.branch in t.refs && t.refs[o.branch] in t.commits
             && t.commits[t.refs[o.branch]].subject == RESUME_MESSAGE
    requires Resolved(t, u, origin, o, env, r)
    ensures u.commits == t.commits
    ensures var path := t.worktrees[i].path;
            r == Reused(path, Some(Salvage(t.refs[o.branch], o.owner(path).known.value, true)))
            <==> Recovers(origin, o, env)
  {
    var w := t.worktrees[i];
    if FindFirst !in env.fails {
      assert LeftoverResolved(t, u, origin, i, o, env, Some(r));
    }
  }
}
