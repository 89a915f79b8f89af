/** Which answer a resolution gives when: each kind of answer with its exact condition, in terms of the
    worktree list, the owner of the leftover, its files and the failing commands. */
module GitAnswers {
  import opened CommitGraph
  import opened GitRepository
  import opened GitResolve
  import opened GitSalvage
  import opened GitWorktree
  import opened Options

  // ---------- The conditions ----------

  /** The worktree list can be read as often as the search for a leftover needs. */
  predicate Looks(s: Snapshot, o: ResolveOpts, env: Env) {
    var held := Holder(s.worktrees, o.branch);
    && FindFirst !in env.fails
    && (held.Some? && !s.worktrees[held.value].present ==> PruneVanished !in env.fails && FindAgain !in env.fails)
  }

  /** `w` is the leftover, after entries of vanished directories were cleared away. */
  predicate IsLeftover(s: Snapshot, o: ResolveOpts, w: Worktree) {
    var m := Settled(s, o.branch);
    var held := Holder(m.worktrees, o.branch);
    held.Some? && m.worktrees[held.value] == w
  }

  /** The path lies below the directory. */
  ghost predicate Below(path: Path, root: Path) {
    exists rest :: path == root + "/" + rest
  }

  lemma BelowExactly(path: Path, root: Path)
    ensures UnderRoot(path, root) <==> Below(path, root)
  {
    if UnderRoot(path, root) {
      assert path == root + "/" + path[|root + "/"|..];
    }
  }

  /** Its owner is asked for, and nothing throws. */
  ghost predicate OwnerIs(w: Worktree, o: ResolveOpts, env: Env, owner: Owner) {
    Below(w.path, o.managedRoot) && OwnerLookup !in env.fails && o.owner(w.path) == owner
  }

  /** The first look at its status succeeds. */
  predicate StatusRead(w: Worktree, env: Env) {
    w.present && w.readable && StatusInspect !in env.fails
  }

  /** Fetching the issue branch fails in a way that defers the start. */
  predicate Defers(origin: Origin, o: ResolveOpts, env: Env) {
    && o.reuse && origin.configured && RemoteUrl !in env.fails
    && (FetchBranch in env.fails || (origin.branch.Some? && ResolveBranch in env.fails))
  }

  lemma DefersExactly(origin: Origin, o: ResolveOpts, env: Env)
    ensures ReuseFetch(origin, o, env).Unusable? <==> Defers(origin, o, env)
    ensures ReuseFetch(origin, o, env).Usable? ==>
              ReuseFetch(origin, o, env).tip
              == if o.reuse && origin.configured && RemoteUrl !in env.fails then origin.branch else None
  {
  }

  // ---------- Looking for the leftover ----------

  /** Where the list cannot be read, nothing is done but the clearing that came before. */
  lemma LookupFails(s: Snapshot, t: Snapshot, origin: Origin, o: ResolveOpts, env: Env, r: Resolution)
    requires Consistent(s) && Known(origin, s.commits) && Resolved(s, t, origin, o, env, r) && !Looks(s, o, env)
    ensures r == Failure && (t == s || (t == Cleared(s) && FindAgain in env.fails))
  {
  }

  lemma LookedFrom(s: Snapshot, t: Snapshot, origin: Origin, o: ResolveOpts, env: Env, r: Resolution)
    requires Consistent(s) && Known(origin, s.commits) && Resolved(s, t, origin, o, env, r) && Looks(s, o, env)
    ensures Consistent(Settled(s, o.branch)) && ResolvedFrom(Settled(s, o.branch), t, origin, o, env, r)
  {
    PruningKeepsHistory(s);
  }

  /** What settling clears: nothing unless the first holder of the branch is gone from disk, and then exactly
      the entries of vanished directories that are not locked, the others keeping their order. */
  lemma SettledExactly(s: Snapshot, branch: Branch)
    ensures var held, m := Holder(s.worktrees, branch), Settled(s, branch);
            && m.commits == s.commits && m.refs == s.refs && m.tracking == s.tracking
            && (held.None? || s.worktrees[held.value].present ==> m == s)
            && (held.Some? && !s.worktrees[held.value].present ==>
                  forall w :: w in m.worktrees <==> w in s.worktrees && (w.present || w.locked))
            && forall a, b :: a + b == s.worktrees && m != s ==> m.worktrees == Pruned(a) + Pruned(b)
  {
    forall a, b | a + b == s.worktrees ensures Pruned(a + b) == Pruned(a) + Pruned(b) {
      PrunedParts(a, b);
    }
  }

  lemma {:induction false} PrunedParts(a: seq<Worktree>, b: seq<Worktree>)
    ensures Pruned(a + b) == Pruned(a) + Pruned(b)
  {
    if a == [] {
      assert a + b == b;
    } else {
      assert (a + b)[1..] == a[1..] + b;
      PrunedParts(a[1..], b);
    }
  }

  // ---------- A leftover that is refused ----------

  /** The leftover decides, unless it is gone. */
  lemma LeftoverDecides(s: Snapshot, t: Snapshot, origin: Origin, o: ResolveOpts, env: Env, r: Resolution, w: Worktree)
    returns (i: nat)
    requires Consistent(s) && Known(origin, s.commits) && Resolved(s, t, origin, o, env, r)
    requires Looks(s, o, env) && IsLeftover(s, o, w)
    ensures var m := Settled(s, o.branch);
            && Consistent(m) && i < |m.worktrees| && m.worktrees[i] == w && w.head == OnBranch(o.branch)
            && (!Classify(m.commits, m.refs, w, o, env).Vanished?
                ==> LeftoverResolved(m, t, origin, i, o, env, Some(r)))
            && (Classify(m.commits, m.refs, w, o, env).Vanished? ==> CheckoutCreated(m, t, origin, o, env, r))
  {
    LookedFrom(s, t, origin, o, env, r);
    i := Holder(Settled(s, o.branch).worktrees, o.branch).value;
  }

  /** In this order: a leftover elsewhere, a lookup that throws, a live owner, a status that cannot be read
      although the directory is there, and dirt of nobody known. Each is answered as such and nothing
      moves. */
  lemma RefusedLeftover(s: Snapshot, t: Snapshot, origin: Origin, o: ResolveOpts, env: Env, r: Resolution, w: Worktree)
    requires Consistent(s) && Known(origin, s.commits) && Resolved(s, t, origin, o, env, r)
    requires Looks(s, o, env) && IsLeftover(s, o, w)
    ensures var m := Settled(s, o.branch);
            && (!Below(w.path, o.managedRoot) ==> r == Conflict(w.path, OutsideRoot) && t == m)
            && (Below(w.path, o.managedRoot) && OwnerLookup in env.fails ==> r == Failure && t == m)
            && (forall sid :: OwnerIs(w, o, env, Alive(sid)) ==> r == LiveOwner(w.path, sid) && t == m)
            && (forall known :: OwnerIs(w, o, env, Dead(known)) && w.present && !StatusRead(w, env) ==>
                  r == Conflict(w.path, Unreadable) && t == m)
            && (OwnerIs(w, o, env, Dead(None)) && StatusRead(w, env) && !CleanAt(m.commits, m.refs, w) ==>
                  r == Conflict(w.path, DirtyUnknownOwner) && t == m)
  {
    BelowExactly(w.path, o.managedRoot);
    var i := LeftoverDecides(s, t, origin, o, env, r, w);
  }

  // ---------- A dead session's leftover ----------

  /** The salvage commit of an earlier resolution, if the clean checkout stands on one. */
  ghost predicate IsFound(m: Snapshot, o: ResolveOpts, env: Env, known: Option<string>, found: Option<Salvage>) {
    var marked := && known.Some? && LogSubject !in env.fails && o.branch in m.refs && m.refs[o.branch] in m.commits
                  && m.commits[m.refs[o.branch]].subject == "wip: resume salvage";
    if marked then found == Some(Salvage(m.refs[o.branch], known.value, true)) else found == None
  }

  /** A clean leftover of a dead owner is adopted, unless fetching defers the start. */
  lemma CleanLeftover(s: Snapshot, t: Snapshot, origin: Origin, o: ResolveOpts, env: Env, r: Resolution, w: Worktree,
                      known: Option<string>)
    requires Consistent(s) && Known(origin, s.commits) && Resolved(s, t, origin, o, env, r)
    requires Looks(s, o, env) && IsLeftover(s, o, w) && OwnerIs(w, o, env, Dead(known)) && StatusRead(w, env)
    requires CleanAt(s.commits, s.refs, w)
    ensures if Defers(origin, o, env) then r == BaseUnavailable
            else r.Reused? && r.path == w.path && IsFound(Settled(s, o.branch), o, env, known, r.salvage)
    ensures t.commits == s.commits
  {
    BelowExactly(w.path, o.managedRoot);
    DefersExactly(origin, o, env);
    var i := LeftoverDecides(s, t, origin, o, env, r, w);
  }

  /** The files of the checkout when the status is read again after a salvage. */
  function FilesAgain(w: Worktree, env: Env): Tree {
    if env.straggler.Some? then env.straggler.value else if env.hookLeaves.Some? then env.hookLeaves.value else w.files
  }

  /** A file is changed, missing or new against what was committed, and not staged evidence. */
  ghost predicate DirtyAgain(w: Worktree, env: Env) {
    exists f :: Lookup(FilesAgain(w, env), f) != Lookup(w.files, f) && (f in w.files || !IsVisualStaging(f))
  }

  lemma DirtyAgainExactly(w: Worktree, env: Env)
    ensures IsClean(Salvaged(w, env), w.files) <==> !DirtyAgain(w, env)
  {
    var after := Salvaged(w, env);
    assert after.files == FilesAgain(w, env) && after.index == w.files;
    if !DirtyAgain(w, env) {
      forall f | f in after.index ensures f in after.files && after.files[f] == after.index[f] {
        assert Lookup(after.files, f) == Lookup(w.files, f);
      }
      forall f | f in after.files ensures f in after.index || IsVisualStaging(f) {
        assert f in w.files || Lookup(after.files, f) != Lookup(w.files, f);
      }
    }
  }

  /** What the answer is after a salvage of `w` that succeeded, and what was committed. */
  ghost predicate AfterSalvage(m: Snapshot, t: Snapshot, origin: Origin, o: ResolveOpts, env: Env, r: Resolution,
                               w: Worktree, sid: string)
  {
    && o.branch in m.refs && o.branch in t.refs && t.refs[o.branch] !in m.commits && t.refs[o.branch] in t.commits
    && t.commits[t.refs[o.branch]].parents == [m.refs[o.branch]] && t.commits[t.refs[o.branch]].tree == w.files
    && t.commits[t.refs[o.branch]].subject == "wip: resume salvage"
    && r == if StatusAgain in env.fails then Conflict(w.path, Unreadable)
            else if DirtyAgain(w, env) then Conflict(w.path, SalvagedButDirty)
            else if Defers(origin, o, env) then BaseUnavailable
            else Reused(w.path, Some(Salvage(t.refs[o.branch], sid, false)))
  }

  lemma SalvagedAnswer(m: Snapshot, t: Snapshot, origin: Origin, i: nat, o: ResolveOpts, env: Env, r: Resolution,
                       sid: string)
    requires Consistent(m) && i < |m.worktrees| && Salvageable(m.commits, m.refs, m.worktrees[i], o.branch, env)
    requires DirtSalvaged(m, t, origin, i, o, sid, env, r)
    ensures AfterSalvage(m, t, origin, o, env, r, m.worktrees[i], sid)
  {
    DefersExactly(origin, o, env);
    DirtyAgainExactly(m.worktrees[i], env);
  }

  lemma UnsalvagedAnswer(m: Snapshot, t: Snapshot, origin: Origin, i: nat, o: ResolveOpts, env: Env, r: Resolution,
                         sid: string)
    requires Consistent(m) && i < |m.worktrees| && !Salvageable(m.commits, m.refs, m.worktrees[i], o.branch, env)
    requires DirtSalvaged(m, t, origin, i, o, sid, env, r)
    ensures var w := m.worktrees[i];
            r == if SalvageThrows(m.refs, w, o.branch, env) then Failure else Conflict(w.path, SalvageFailed)
  {
  }

  /** What a salvage that does not succeed leaves: with something in the way, or an unreadable HEAD, everything
      as it was; a commit of all files that landed and could not be confirmed stays; and otherwise nothing is
      committed, and the index is restored if HEAD can be read again and the command works. */
  lemma UnsalvagedLeaves(m: Snapshot, t: Snapshot, origin: Origin, i: nat, o: ResolveOpts, env: Env, r: Resolution,
                         sid: string)
    requires Consistent(m) && i < |m.worktrees| && !Salvageable(m.commits, m.refs, m.worktrees[i], o.branch, env)
    requires DirtSalvaged(m, t, origin, i, o, sid, env, r)
    ensures var w := m.worktrees[i];
            var tried := !InTheWay(w, o.branch, env) && o.branch in m.refs && HeadBefore !in env.fails;
            var landed := && tried && AddAll !in env.fails && CommitAll !in env.fails
                          && exists f :: Lookup(w.files, f) != Lookup(m.commits[m.refs[o.branch]].tree, f);
            && t.tracking == m.tracking
            && (!tried ==> t == m)
            && (landed ==> && o.branch in t.refs && t.refs[o.branch] !in m.commits && t.refs[o.branch] in t.commits
                           && t.commits[t.refs[o.branch]].parents == [m.refs[o.branch]]
                           && t.commits[t.refs[o.branch]].tree == w.files)
            && (!landed ==> t.commits == m.commits && t.refs == m.refs)
            && (!landed && HeadAfter !in env.fails && ReadTree !in env.fails ==> t == m)
  {
    var w := m.worktrees[i];
    InspectedExactly(m.refs, w, o.branch, env);
    if Inspected(m.refs, w, o.branch, env) {
      assert m.refs[o.branch] in m.refs.Values;
      CommitsExactly(m.commits, m.refs, w, m.refs[o.branch], env);
    }
    KeptLeavesTraces(m, t, i, o.branch, env);
  }

  lemma DeadDirtDecides(s: Snapshot, t: Snapshot, origin: Origin, o: ResolveOpts, env: Env, r: Resolution, w: Worktree,
                        sid: string) returns (i: nat)
    requires Consistent(s) && Known(origin, s.commits) && Resolved(s, t, origin, o, env, r)
    requires Looks(s, o, env) && IsLeftover(s, o, w) && OwnerIs(w, o, env, Dead(Some(sid))) && StatusRead(w, env)
    requires !CleanAt(s.commits, s.refs, w)
    ensures var m := Settled(s, o.branch);
            && Consistent(m) && m.commits == s.commits && m.refs == s.refs
            && i < |m.worktrees| && m.worktrees[i] == w && DirtSalvaged(m, t, origin, i, o, sid, env, r)
  {
    BelowExactly(w.path, o.managedRoot);
    i := LeftoverDecides(s, t, origin, o, env, r, w);
    assert Classify(s.commits, s.refs, w, o, env) == DeadDirt(sid);
  }

  /** Dirt of a known dead session is salvaged. If that succeeds there is one new commit on the branch with
      all the files, and the checkout is adopted unless its status cannot be read again, it is dirty again,
      or fetching defers the start. If not, the answer is a conflict, or a failure if HEAD could not be
      read before anything was staged. */
  lemma DirtyLeftover(s: Snapshot, t: Snapshot, origin: Origin, o: ResolveOpts, env: Env, r: Resolution, w: Worktree,
                      sid: string)
    requires Consistent(s) && Known(origin, s.commits) && Resolved(s, t, origin, o, env, r)
    requires Looks(s, o, env) && IsLeftover(s, o, w) && OwnerIs(w, o, env, Dead(Some(sid))) && StatusRead(w, env)
    requires !CleanAt(s.commits, s.refs, w)
    ensures Salvageable(s.commits, s.refs, w, o.branch, env)
            ==> AfterSalvage(Settled(s, o.branch), t, origin, o, env, r, w, sid)
    ensures !Salvageable(s.commits, s.refs, w, o.branch, env) ==>
              r == if SalvageThrows(s.refs, w, o.branch, env) then Failure else Conflict(w.path, SalvageFailed)
  {
    var i := DeadDirtDecides(s, t, origin, o, env, r, w, sid);
    if Salvageable(s.commits, s.refs, w, o.branch, env) {
      SalvagedAnswer(Settled(s, o.branch), t, origin, i, o, env, r, sid);
    } else {
      UnsalvagedAnswer(Settled(s, o.branch), t, origin, i, o, env, r, sid);
    }
  }

  // ---------- A new checkout ----------

  /** The tip that origin has of the reused branch, as far as this call learns. */
  function RemoteTip(origin: Origin, o: ResolveOpts, env: Env): Option<Sha> {
    if o.reuse && origin.configured && RemoteUrl !in env.fails then origin.branch else None
  }

  /** The clone is seen to have the branch. */
  predicate LocalSeen(refs: map<Branch, Sha>, o: ResolveOpts, env: Env) {
    o.branch in refs && BranchExistsFirst !in env.fails
  }

  /** The checkout is cut from the base: the branch is new, or is seen to exist nowhere. */
  predicate CutFromBase(refs: map<Branch, Sha>, origin: Origin, o: ResolveOpts, env: Env) {
    !o.reuse || (RemoteTip(origin, o, env).None? && !LocalSeen(refs, o, env))
  }

  /** The tip of the base: origin's, where there is an origin, and never a local one instead. */
  function BaseTip(refs: map<Branch, Sha>, origin: Origin, o: ResolveOpts, env: Env): Option<Sha> {
    if ResolveBase in env.fails then None
    else if origin.configured && RemoteUrl !in env.fails then (if FetchBase in env.fails then None else origin.base)
    else if o.base in refs then Some(refs[o.base])
    else None
  }

  /** The local branch is strictly behind the fetched tip, and is seen to be. */
  predicate SeenBehind(m: Snapshot, origin: Origin, o: ResolveOpts, env: Env)
    requires WellFormed(m.commits)
  {
    var tip := RemoteTip(origin, o, env);
    && o.reuse && LocalSeen(m.refs, o, env) && tip.Some? && BranchExistsAgain !in env.fails && LocalSha !in env.fails
    && Ancestry !in env.fails && m.refs[o.branch] != tip.value && Reaches(m.commits, tip.value, m.refs[o.branch])
  }

  /** A command that reads or moves the local branch fails, and nothing catches it. */
  predicate StartBreaks(m: Snapshot, origin: Origin, o: ResolveOpts, env: Env)
    requires WellFormed(m.commits)
  {
    || (o.reuse && LocalSeen(m.refs, o, env) && RemoteTip(origin, o, env).Some? && BranchExistsAgain !in env.fails
        && LocalSha in env.fails)
    || (SeenBehind(m, origin, o, env) && UpdateRef in env.fails)
  }

  /** The commit a new checkout starts at. */
  function StartAt(m: Snapshot, origin: Origin, o: ResolveOpts, env: Env): Option<Sha>
    requires WellFormed(m.commits)
  {
    if CutFromBase(m.refs, origin, o, env) then BaseTip(m.refs, origin, o, env)
    else if !LocalSeen(m.refs, o, env) || SeenBehind(m, origin, o, env) then RemoteTip(origin, o, env)
    else Some(m.refs[o.branch])
  }

  /** `git worktree add` finds the name and the path free among the entries that are not pruned. */
  ghost predicate NameAndPathFree(m: Snapshot, origin: Origin, o: ResolveOpts, env: Env) {
    && (forall w :: w in m.worktrees && (w.present || w.locked) ==> w.path != o.path)
    && if !CutFromBase(m.refs, origin, o, env) && LocalSeen(m.refs, o, env)
       then forall w :: w in m.worktrees && (w.present || w.locked) ==> w.head != OnBranch(o.branch)
       else o.branch !in m.refs
  }

  lemma StartExactly(m: Snapshot, origin: Origin, o: ResolveOpts, env: Env)
    requires Consistent(m) && Known(origin, m.commits)
    ensures var start := PlanStart(m.commits, m.refs, origin, o, env);
            && (start.Defer? <==> Defers(origin, o, env)
                                  || (CutFromBase(m.refs, origin, o, env) && BaseTip(m.refs, origin, o, env).None?))
            && (start.Breaks? <==> !Defers(origin, o, env) && StartBreaks(m, origin, o, env))
            && (Stands(start) ==>
                  && StartAt(m, origin, o, env) == Some(start.sha)
                  && (start.FromBase? <==> CutFromBase(m.refs, origin, o, env))
                  && (start.OnLocal? <==> !CutFromBase(m.refs, origin, o, env) && LocalSeen(m.refs, o, env)))
  {
    DefersExactly(origin, o, env);
  }

  lemma NoHolderExactly(ws: seq<Worktree>, branch: Branch)
    ensures Holder(ws, branch).None? <==> forall w :: w in ws ==> w.head != OnBranch(branch)
  {
    var held := Holder(ws, branch);
    if held.Some? {
      assert ws[held.value] in ws;
    }
  }

  /** There is no leftover, or only the locked entry of one whose directory is gone. */
  ghost predicate NothingLeft(s: Snapshot, o: ResolveOpts, env: Env) {
    forall w :: IsLeftover(s, o, w) ==>
      !w.present && Below(w.path, o.managedRoot) && OwnerLookup !in env.fails && o.owner(w.path).Dead?
  }

  lemma NothingLeftCreates(s: Snapshot, t: Snapshot, origin: Origin, o: ResolveOpts, env: Env, r: Resolution)
    requires Consistent(s) && Known(origin, s.commits) && Resolved(s, t, origin, o, env, r) && Looks(s, o, env)
    requires NothingLeft(s, o, env)
    ensures Consistent(Settled(s, o.branch)) && CheckoutCreated(Settled(s, o.branch), t, origin, o, env, r)
  {
    LookedFrom(s, t, origin, o, env, r);
    var m := Settled(s, o.branch);
    var held := Holder(m.worktrees, o.branch);
    if held.Some? {
      assert IsLeftover(s, o, m.worktrees[held.value]);
      BelowExactly(m.worktrees[held.value].path, o.managedRoot);
    }
  }

  /** With nothing left to adopt or refuse: deferred exactly if the issue branch, or the base it is to be cut
      from, cannot be had; created exactly if no command needed fails and name and path are free, at
      origin's tip, the local tip or the base; and a failure otherwise. */
  lemma CreationAnswers(s: Snapshot, t: Snapshot, origin: Origin, o: ResolveOpts, env: Env, r: Resolution)
    requires Consistent(s) && Known(origin, s.commits) && Resolved(s, t, origin, o, env, r) && Looks(s, o, env)
    requires NothingLeft(s, o, env)
    ensures var m := Settled(s, o.branch);
            var deferred := Defers(origin, o, env)
                            || (CutFromBase(m.refs, origin, o, env) && BaseTip(m.refs, origin, o, env).None?);
            && Consistent(m)
            && (r == BaseUnavailable <==> PruneLate !in env.fails && deferred)
            && (r.Created? <==> PruneLate !in env.fails && !deferred && !StartBreaks(m, origin, o, env)
                                && AddCheckout !in env.fails && NameAndPathFree(m, origin, o, env))
            && (r.Created? ==>
                  && r.path == o.path
                  && r.baseSha == (if CutFromBase(m.refs, origin, o, env) then BaseTip(m.refs, origin, o, env)
                                   else None)
                  && o.branch in t.refs && StartAt(m, origin, o, env) == Some(t.refs[o.branch]))
            && (r == BaseUnavailable || r.Created? || r == Failure)
  {
    NothingLeftCreates(s, t, origin, o, env, r);
    var m := Settled(s, o.branch);
    StartExactly(m, origin, o, env);
    NoHolderExactly(Pruned(m.worktrees), o.branch);
  }

  /** A created checkout is the last in the list, on the branch, in place and readable, and clean at its tip. */
  lemma CreatedCheckoutIsClean(s: Snapshot, t: Snapshot, origin: Origin, o: ResolveOpts, env: Env, base: Option<Sha>)
    requires Consistent(s) && Consistent(t) && Known(origin, s.commits)
    requires Resolved(s, t, origin, o, env, Created(o.path, base))
    ensures |t.worktrees| > 0
    ensures var w := t.worktrees[|t.worktrees| - 1];
            && w.path == o.path && w.head == OnBranch(o.branch) && w.present && !w.locked && w.readable && !w.inProgress
            && o.branch in t.refs && t.refs[o.branch] in t.commits && w.files == t.commits[t.refs[o.branch]].tree
            && CleanAt(t.commits, t.refs, w)
  {
    WhereAnswersComeFrom(s, t, origin, o, env, Created(o.path, base));
    StartIsKnown(Settled(s, o.branch), origin, o, env);
  }

  /** What a creation leaves, whether it succeeds or not: no commit is made, no other branch moves, an existing
      branch is where `StartAt` says, also if adding the checkout fails after that, and one that does not
      exist is at most created there; nothing moves if the start is deferred or breaks off, or the pruning
      fails; and the list is the pruned one with at most the new checkout at its end. */
  lemma CreationLeaves(s: Snapshot, t: Snapshot, origin: Origin, o: ResolveOpts, env: Env, r: Resolution)
    requires Consistent(s) && Known(origin, s.commits) && Resolved(s, t, origin, o, env, r) && Looks(s, o, env)
    requires NothingLeft(s, o, env)
    ensures var m := Settled(s, o.branch);
            var stays := || PruneLate in env.fails || r == BaseUnavailable || StartBreaks(m, origin, o, env);
            && Consistent(m) && t.commits == s.commits
            && (forall b :: b != o.branch ==> Lookup(t.refs, b) == Lookup(m.refs, b))
            && (stays ==> t.refs == m.refs)
            && (!stays && !CutFromBase(m.refs, origin, o, env) && LocalSeen(m.refs, o, env) ==>
                  Lookup(t.refs, o.branch) == StartAt(m, origin, o, env))
            && (!stays && (CutFromBase(m.refs, origin, o, env) || !LocalSeen(m.refs, o, env)) ==>
                  t.refs == m.refs || (o.branch !in m.refs && Lookup(t.refs, o.branch) == StartAt(m, origin, o, env)))
            && (PruneLate in env.fails ==> t.worktrees == m.worktrees)
            && (PruneLate !in env.fails && !r.Created? ==> t.worktrees == Pruned(m.worktrees))
            && (r.Created? ==> |t.worktrees| > 0 && t.worktrees[..|t.worktrees| - 1] == Pruned(m.worktrees))
  {
    NothingLeftCreates(s, t, origin, o, env, r);
    var m := Settled(s, o.branch);
    StartExactly(m, origin, o, env);
    LeavesFrom(m, t, origin, o, env, r);
  }

  lemma LeavesFrom(m: Snapshot, t: Snapshot, origin: Origin, o: ResolveOpts, env: Env, r: Resolution)
    requires Consistent(m) && Known(origin, m.commits) && CheckoutCreated(m, t, origin, o, env, r)
    ensures var start := PlanStart(m.commits, m.refs, origin, o, env);
            var stays := PruneLate in env.fails || !Stands(start);
            && t.commits == m.commits && (forall b :: b != o.branch ==> Lookup(t.refs, b) == Lookup(m.refs, b))
            && (stays ==> t.refs == m.refs && !r.Created?)
            && (!stays && start.OnLocal? ==> Lookup(t.refs, o.branch) == Some(start.sha))
            && (!stays && !start.OnLocal? ==>
                  t.refs == m.refs || (o.branch !in m.refs && Lookup(t.refs, o.branch) == Some(start.sha)))
            && (PruneLate in env.fails ==> t.worktrees == m.worktrees)
            && (PruneLate !in env.fails && !r.Created? ==> t.worktrees == Pruned(m.worktrees))
            && (r.Created? ==> |t.worktrees| > 0 && t.worktrees[..|t.worktrees| - 1] == Pruned(m.worktrees))
            && (r == BaseUnavailable ==> stays) && (r == BaseUnavailable <==> PruneLate !in env.fails && start.Defer?)
  {
  }

  // ---------- Every answer, exactly ----------

  /** A live owner is reported exactly if there is one, and a checkout is reused only from a dead one. */
  lemma OwnerDecides(s: Snapshot, t: Snapshot, origin: Origin, o: ResolveOpts, env: Env, r: Resolution)
    requires Consistent(s) && Known(origin, s.commits) && Resolved(s, t, origin, o, env, r)
    ensures r.LiveOwner? <==> Looks(s, o, env) && exists w, sid :: IsLeftover(s, o, w) && OwnerIs(w, o, env, Alive(sid))
    ensures r.Reused? ==> Looks(s, o, env) && exists w, known ::
              IsLeftover(s, o, w) && OwnerIs(w, o, env, Dead(known)) && StatusRead(w, env) && r.path == w.path
    ensures r.Created? ==> Looks(s, o, env) && NothingLeft(s, o, env)
  {
    if !Looks(s, o, env) {
      LookupFails(s, t, origin, o, env, r);
    } else if w :| IsLeftover(s, o, w) {
      OwnerDecidesLeftover(s, t, origin, o, env, r, w);
    } else {
      CreationAnswers(s, t, origin, o, env, r);
    }
  }

  lemma OwnerDecidesLeftover(s: Snapshot, t: Snapshot, origin: Origin, o: ResolveOpts, env: Env, r: Resolution,
                             w: Worktree)
    requires Consistent(s) && Known(origin, s.commits) && Resolved(s, t, origin, o, env, r)
    requires Looks(s, o, env) && IsLeftover(s, o, w)
    ensures r.LiveOwner? <==> exists sid :: OwnerIs(w, o, env, Alive(sid))
    ensures r.Reused? ==> exists known :: OwnerIs(w, o, env, Dead(known)) && StatusRead(w, env) && r.path == w.path
    ensures r.Created? ==> NothingLeft(s, o, env)
  {
    RefusedLeftover(s, t, origin, o, env, r, w);
    var owner := o.owner(w.path);
    if Below(w.path, o.managedRoot) && OwnerLookup !in env.fails {
      assert OwnerIs(w, o, env, owner);
      if owner.Dead? && !w.present {
        assert NothingLeft(s, o, env);
        CreationAnswers(s, t, origin, o, env, r);
      } else if owner.Dead? && StatusRead(w, env) {
        DeadOwnerDecides(s, t, origin, o, env, r, w, owner.known);
      }
    }
  }

  lemma DeadOwnerDecides(s: Snapshot, t: Snapshot, origin: Origin, o: ResolveOpts, env: Env, r: Resolution,
                         w: Worktree, known: Option<string>)
    requires Consistent(s) && Known(origin, s.commits) && Resolved(s, t, origin, o, env, r)
    requires Looks(s, o, env) && IsLeftover(s, o, w) && OwnerIs(w, o, env, Dead(known)) && StatusRead(w, env)
    ensures !r.LiveOwner? && !r.Created? && (r.Reused? ==> r.path == w.path)
  {
    if CleanAt(s.commits, s.refs, w) {
      CleanLeftover(s, t, origin, o, env, r, w, known);
    } else if known.Some? {
      DirtyLeftover(s, t, origin, o, env, r, w, known.value);
    } else {
      RefusedLeftover(s, t, origin, o, env, r, w);
    }
  }

  // ---------- Catching up ----------

  /** The adopted checkout moves exactly if the branch is strictly behind the fetched tip, none of the three
      commands fails, and no untracked file is where the tip has one; its tracked files are then those of
      the tip, and its untracked ones stay. */
  lemma AdvancesExactly(s: Snapshot, w: Worktree, branch: Branch, r: Sha, env: Env)
    requires Consistent(s) && r in s.commits && branch in s.refs
    ensures Advances(s.commits, s.refs, w, branch, r, env) <==>
              && s.refs[branch] != r && Reaches(s.commits, r, s.refs[branch])
              && LocalSha !in env.fails && Ancestry !in env.fails && Merge !in env.fails
              && forall f :: f in w.files && f !in w.index ==> f !in s.commits[r].tree
    ensures var moved := Updated(w, s.commits[r].tree);
            && moved.(index := w.index, files := w.files) == w && moved.index == s.commits[r].tree
            && forall f :: Lookup(moved.files, f) ==
                 if f in s.commits[r].tree then Some(s.commits[r].tree[f])
                 else if f in w.index then None
                 else Lookup(w.files, f)
  {
  }

  // ---------- What is fetched ----------

  /** The issue branch is asked for, the command works, and origin has it. */
  predicate BringsBranch(origin: Origin, o: ResolveOpts, env: Env) {
    o.reuse && origin.configured && RemoteUrl !in env.fails && FetchBranch !in env.fails && origin.branch.Some?
  }

  /** The base is asked for, which happens only for a checkout cut from it, the command works, and origin
      has it. */
  predicate BringsBase(refs: map<Branch, Sha>, origin: Origin, o: ResolveOpts, env: Env) {
    && !Defers(origin, o, env) && CutFromBase(refs, origin, o, env)
    && origin.configured && RemoteUrl !in env.fails && FetchBase !in env.fails && origin.base.Some?
  }

  lemma TrackingExactly(tracking: map<Branch, Sha>, branch: Branch, fetched: Option<Sha>, b: Branch)
    ensures Lookup(Tracking(tracking, branch, fetched), b)
            == if b == branch && fetched.Some? then fetched else Lookup(tracking, b)
  {
  }

  lemma StartTrackingExactly(m: Snapshot, origin: Origin, o: ResolveOpts, env: Env, b: Branch)
    ensures Lookup(StartTracking(m, origin, o, env), b)
            == if b == o.base && BringsBase(m.refs, origin, o, env) then origin.base
               else if b == o.branch && BringsBranch(origin, o, env) then origin.branch
               else Lookup(m.tracking, b)
  {
    DefersExactly(origin, o, env);
    var first := Tracking(m.tracking, o.branch, FetchedBranch(origin, o, env));
    TrackingExactly(m.tracking, o.branch, FetchedBranch(origin, o, env), b);
    TrackingExactly(first, o.base, FetchedBase(origin, env), b);
  }

  /** Without a leftover: the tracking refs of the issue branch and of the base move, each exactly if it is
      fetched and origin has it, and to what origin has; no other does. */
  lemma CreationFetches(s: Snapshot, t: Snapshot, origin: Origin, o: ResolveOpts, env: Env, r: Resolution, b: Branch)
    requires Consistent(s) && Known(origin, s.commits) && Resolved(s, t, origin, o, env, r) && Looks(s, o, env)
    requires NothingLeft(s, o, env)
    ensures Lookup(t.tracking, b)
            == if PruneLate in env.fails then Lookup(s.tracking, b)
               else if b == o.base && BringsBase(Settled(s, o.branch).refs, origin, o, env) then origin.base
               else if b == o.branch && BringsBranch(origin, o, env) then origin.branch
               else Lookup(s.tracking, b)
  {
    NothingLeftCreates(s, t, origin, o, env, r);
    StartTrackingExactly(Settled(s, o.branch), origin, o, env, b);
  }

  lemma CleanFetches(s: Snapshot, t: Snapshot, origin: Origin, o: ResolveOpts, env: Env, r: Resolution, w: Worktree,
                     known: Option<string>)
    requires Consistent(s) && Known(origin, s.commits) && Resolved(s, t, origin, o, env, r)
    requires Looks(s, o, env) && IsLeftover(s, o, w) && OwnerIs(w, o, env, Dead(known)) && StatusRead(w, env)
    requires CleanAt(s.commits, s.refs, w)
    ensures t.tracking == Tracking(s.tracking, o.branch, FetchedBranch(origin, o, env))
  {
    BelowExactly(w.path, o.managedRoot);
    var i := LeftoverDecides(s, t, origin, o, env, r, w);
  }

  lemma DirtyFetches(s: Snapshot, t: Snapshot, origin: Origin, o: ResolveOpts, env: Env, r: Resolution, w: Worktree,
                     sid: string)
    requires Consistent(s) && Known(origin, s.commits) && Resolved(s, t, origin, o, env, r)
    requires Looks(s, o, env) && IsLeftover(s, o, w) && OwnerIs(w, o, env, Dead(Some(sid))) && StatusRead(w, env)
    requires !CleanAt(s.commits, s.refs, w)
    ensures t.tracking == if r.Reused? || r == BaseUnavailable
                          then Tracking(s.tracking, o.branch, FetchedBranch(origin, o, env)) else s.tracking
  {
    var i := DeadDirtDecides(s, t, origin, o, env, r, w, sid);
  }

  /** With a leftover only that of the issue branch moves, exactly if it comes to adopting the leftover and
      the branch is fetched and origin has it. */
  lemma LeftoverFetches(s: Snapshot, t: Snapshot, origin: Origin, o: ResolveOpts, env: Env, r: Resolution, w: Worktree,
                        known: Option<string>, b: Branch)
    requires Consistent(s) && Known(origin, s.commits) && Resolved(s, t, origin, o, env, r)
    requires Looks(s, o, env) && IsLeftover(s, o, w) && OwnerIs(w, o, env, Dead(known)) && StatusRead(w, env)
    ensures Lookup(t.tracking, b)
            == if b == o.branch && BringsBranch(origin, o, env) && (r.Reused? || r == BaseUnavailable)
               then origin.branch else Lookup(s.tracking, b)
  {
    TrackingExactly(s.tracking, o.branch, FetchedBranch(origin, o, env), b);
    if CleanAt(s.commits, s.refs, w) {
      CleanLeftover(s, t, origin, o, env, r, w, known);
      CleanFetches(s, t, origin, o, env, r, w, known);
    } else if known.Some? {
      DirtyFetches(s, t, origin, o, env, r, w, known.value);
    } else {
      RefusedLeftover(s, t, origin, o, env, r, w);
    }
  }
}
