/** Committing a dead session's uncommitted work on its issue branch before anybody continues there. */
module GitSalvage {
  import opened CommitGraph
  import opened GitRepository
  import opened Options

  const TIMEOUT_MESSAGE := "wip: timeout salvage"
  const CRASH_MESSAGE := "wip: crash salvage"
  const RESUME_MESSAGE := "wip: resume salvage"
  const VISUAL_STAGING := ".agent-dealer-visual"

  /** The git commands of one resolution, and its owner lookup, that may fail on their own, by call site. */
  datatype Command =
    | FindFirst | PruneVanished | FindAgain | OwnerLookup | StatusInspect
    | SymbolicRef | StatusBefore | WriteTree | HeadBefore | AddAll | CommitAll | StatusAfter | HeadAfterCommit
    | HeadAfter | ReadTree | StatusAgain | LogSubject
    | PruneLate | RemoteUrl | FetchBranch | ResolveBranch | FetchBase | ResolveBase | LocalSha | Ancestry | Merge
    | BranchExistsFirst | BranchExistsAgain | UpdateRef | AddCheckout

  /** What happens around one call: which commands fail, the working files a post-commit hook leaves
      behind, and those a straggling process writes after the salvage returned. */
  datatype Env = Env(fails: set<Command>, hookLeaves: Option<Tree>, straggler: Option<Tree>)

  function HeadTree(commits: Graph, refs: map<Branch, Sha>, w: Worktree): Tree {
    var sha := HeadSha(refs, w.head);
    if sha.Some? && sha.value in commits then commits[sha.value].tree else map[]
  }

  predicate IsVisualStaging(file: string) {
    file == VISUAL_STAGING || (VISUAL_STAGING + "/") <= file
  }

  /** isWorktreeClean: no line in `git status` except untracked staged evidence. */
  predicate IsClean(w: Worktree, headTree: Tree) {
    && !w.unmerged
    && w.index == headTree
    && (forall f <- w.index :: f in w.files && w.files[f] == w.index[f])
    && (forall f <- w.files :: f in w.index || IsVisualStaging(f))
  }

  predicate CleanAt(commits: Graph, refs: map<Branch, Sha>, w: Worktree) {
    IsClean(w, HeadTree(commits, refs, w))
  }

  predicate StatusWorks(w: Worktree, env: Env, c: Command) {
    w.present && w.readable && c !in env.fails
  }

  /** Why a checkout is salvaged, which only shows in the subject of the commit. */
  datatype Kind = Timeout | Crash | Resume

  function MessageOf(kind: Kind): string {
    match kind
    case Timeout => TIMEOUT_MESSAGE
    case Crash => CRASH_MESSAGE
    case Resume => RESUME_MESSAGE
  }

  datatype SalvageResult = Landed(sha: Sha) | NotSalvaged | Threw

  /** When the salvage of `w` on `branch` succeeds: right branch, nothing half-done, something to commit,
      no command failed, and nothing dirty was left behind by hooks. */
  predicate Salvageable(commits: Graph, refs: map<Branch, Sha>, w: Worktree, branch: Branch, env: Env) {
    && w.head == OnBranch(branch) && branch in refs
    && StatusWorks(w, env, StatusBefore) && !w.unmerged && !w.inProgress
    && env.fails !! {SymbolicRef, WriteTree, HeadBefore, AddAll, CommitAll, StatusAfter, HeadAfterCommit}
    && w.files != HeadTree(commits, refs, w)
    && IsClean(Committed(w, env), w.files)
  }

  /** The checkout with everything in it staged. */
  function Staged(w: Worktree): Worktree {
    w.(index := w.files, unmerged := false)
  }

  /** The checkout right after everything in it was committed. */
  function Committed(w: Worktree, env: Env): Worktree {
    AfterHook(Staged(w), env)
  }

  function AfterHook(w: Worktree, env: Env): Worktree {
    w.(files := if env.hookLeaves.Some? then env.hookLeaves.value else w.files)
  }

  /** A commit of everything in checkout `i` landed on the tip of `branch` and nothing else moved. */
  ghost predicate OneCommitOnTop(before: Graph, refsBefore: map<Branch, Sha>, after: Graph, refsAfter: map<Branch, Sha>,
                                 branch: Branch, sha: Sha, tree: Tree, kind: Kind)
  {
    && branch in refsBefore
    && sha !in before
    && sha in after && after == before[sha := after[sha]]
    && after[sha].parents == [refsBefore[branch]] && after[sha].tree == tree && after[sha].subject == MessageOf(kind)
    && refsAfter == refsBefore[branch := sha]
  }

  /** `git add -A`. A failing one may have staged part of the files. */
  method AddAllFiles(repo: GitRepo, i: nat, env: Env) returns (ok: bool)
    requires repo.Valid() && i < |repo.worktrees|
    modifies repo`worktrees
    ensures repo.Valid()
    ensures ok <==> AddAll !in env.fails
    ensures var w := old(repo.worktrees)[i];
            if ok then repo.worktrees == old(repo.worktrees)[i := Staged(w)]
            else |repo.worktrees| == |old(repo.worktrees)| &&
                 repo.worktrees == old(repo.worktrees)[i := w.(index := repo.worktrees[i].index)]
  {
    var w := repo.worktrees[i];
    ok := AddAll !in env.fails;
    if ok {
      repo.worktrees := repo.worktrees[i := Staged(w)];
    } else {
      var partial: Tree := *;
      repo.worktrees := repo.worktrees[i := w.(index := partial)];
    }
  }

  /** The branches after a commit `sha` in checkout `w`: a detached HEAD moves no branch. */
  function RefsAfter(refs: map<Branch, Sha>, w: Worktree, sha: Sha): map<Branch, Sha> {
    match w.head
    case OnBranch(b) => refs[b := sha]
    case Detached(_) => refs
  }

  function HeadAt(w: Worktree, sha: Sha): Worktree {
    w.(head := if w.head.Detached? then Detached(sha) else w.head)
  }

  /** A commit of `tree` landed on the HEAD of checkout `w`, or as a first commit if it had none, and
      nothing else moved. */
  ghost predicate OneCommitOnHead(before: Graph, refsBefore: map<Branch, Sha>, after: Graph,
                                  refsAfter: map<Branch, Sha>,
                                  w: Worktree, sha: Sha, tree: Tree, kind: Kind)
  {
    && sha !in before
    && sha in after && after == before[sha := after[sha]]
    && after[sha].parents == (if HeadSha(refsBefore, w.head).Some? then [HeadSha(refsBefore, w.head).value] else [])
    && after[sha].tree == tree && after[sha].subject == MessageOf(kind)
    && refsAfter == RefsAfter(refsBefore, w, sha)
  }

  /** `git commit`: refused when the index equals HEAD or a hook objects. */
  method CommitIndex(repo: GitRepo, i: nat, kind: Kind, env: Env) returns (ok: bool, sha: Sha)
    requires repo.Valid() && i < |repo.worktrees|
    modifies repo`commits, repo`refs, repo`worktrees
    ensures repo.Valid() && Extends(old(repo.commits), repo.commits)
    ensures var w := old(repo.worktrees)[i];
            && (ok <==> CommitAll !in env.fails && w.index != HeadTree(old(repo.commits), old(repo.refs), w))
            && (ok ==>
                  && OneCommitOnHead(old(repo.commits), old(repo.refs), repo.commits, repo.refs, w, sha, w.index, kind)
                  && repo.worktrees == old(repo.worktrees)[i := AfterHook(HeadAt(w, sha), env)])
    ensures !ok
            ==> repo.commits == old(repo.commits) && repo.refs == old(repo.refs)
                && repo.worktrees == old(repo.worktrees)
  {
    var w := repo.worktrees[i];
    var parent := HeadSha(repo.refs, w.head);
    assert parent.Some? ==> parent.value in repo.commits by {
      if w.head.OnBranch? && w.head.branch in repo.refs {
        assert repo.refs[w.head.branch] in repo.refs.Values;
      }
    }
    ok, sha := CommitAll !in env.fails && w.index != HeadTree(repo.commits, repo.refs, w), 0;
    if ok {
      var patch: nat := *;
      sha := repo.AddCommit(Commit(if parent.Some? then [parent.value] else [], w.index, patch, MessageOf(kind)));
      repo.refs := RefsAfter(repo.refs, w, sha);
      repo.worktrees := repo.worktrees[i := AfterHook(HeadAt(w, sha), env)];
    }
  }

  /** The salvage committed all of checkout `i` onto its HEAD. */
  ghost predicate AllOnHead(repo: GitRepo, commits: Graph, refs: map<Branch, Sha>, worktrees: seq<Worktree>, i: nat,
                            sha: Sha, kind: Kind, env: Env)
    requires i < |worktrees|
    reads repo
  {
    && OneCommitOnHead(commits, refs, repo.commits, repo.refs, worktrees[i], sha, worktrees[i].files, kind)
    && repo.worktrees == worktrees[i := Committed(HeadAt(worktrees[i], sha), env)]
  }

  /** The salvage committed all of checkout `i` onto its branch. */
  ghost predicate AllCommitted(repo: GitRepo, commits: Graph, refs: map<Branch, Sha>, worktrees: seq<Worktree>, i: nat,
                               branch: Branch, kind: Kind, env: Env)
    requires i < |worktrees|
    reads repo
  {
    && branch in repo.refs
    && OneCommitOnTop(commits, refs, repo.commits, repo.refs, branch, repo.refs[branch], worktrees[i].files, kind)
    && repo.worktrees == worktrees[i := Committed(worktrees[i], env)]
  }

  /** Staging and committing work and there is something to commit. */
  predicate Commits(commits: Graph, refs: map<Branch, Sha>, w: Worktree, env: Env) {
    env.fails !! {AddAll, CommitAll} && w.files != HeadTree(commits, refs, w)
  }

  /** The last look at the checkout finds it clean at a HEAD it can read. */
  predicate Confirms(commits: Graph, refs: map<Branch, Sha>, w: Worktree, env: Env) {
    StatusWorks(w, env, StatusAfter) && CleanAt(commits, refs, w) && HeadAfterCommit !in env.fails
  }

  /** What a failing salvage may have staged of the files of `w`: all of them, unless `git add` failed. */
  predicate StagedBy(w: Worktree, staged: Tree, env: Env) {
    AddAll !in env.fails ==> staged == w.files
  }

  /** The checkout after staging `staged`. */
  function StagedAs(w: Worktree, staged: Tree, env: Env): Worktree {
    w.(index := staged, unmerged := w.unmerged && AddAll in env.fails)
  }

  lemma StagedIsSameHead(w: Worktree, env: Env)
    ensures forall commits, refs :: HeadTree(commits, refs, Staged(w)) == HeadTree(commits, refs, w)
    ensures forall sha: Sha :: AfterHook(HeadAt(Staged(w), sha), env) == Committed(HeadAt(w, sha), env)
  {
  }

  /** Staging everything and committing it. */
  method StageAndCommit(repo: GitRepo, i: nat, kind: Kind, env: Env)
    returns (committed: bool, sha: Sha, ghost staged: Tree)
    requires repo.Valid() && i < |repo.worktrees|
    modifies repo`commits, repo`refs, repo`worktrees
    ensures repo.Valid() && Extends(old(repo.commits), repo.commits)
    ensures committed <==> Commits(old(repo.commits), old(repo.refs), old(repo.worktrees)[i], env)
    ensures committed ==> AllOnHead(repo, old(repo.commits), old(repo.refs), old(repo.worktrees), i, sha, kind, env)
    ensures !committed ==> repo.commits == old(repo.commits) && repo.refs == old(repo.refs)
    ensures !committed ==> repo.worktrees == old(repo.worktrees)[i := StagedAs(old(repo.worktrees)[i], staged, env)]
    ensures StagedBy(old(repo.worktrees)[i], staged, env)
  {
    ghost var before := repo.worktrees;
    committed := AddAllFiles(repo, i, env);
    sha := 0;
    staged := repo.worktrees[i].index;
    assert repo.worktrees == before[i := StagedAs(before[i], staged, env)];
    if committed {
      StagedIsSameHead(before[i], env);
      committed, sha := CommitIndex(repo, i, kind, env);
      assert committed ==> repo.worktrees == before[i := Committed(HeadAt(before[i], sha), env)];
    }
  }

  /** salvageDirtyWorktree: stage everything, commit it, and report success only on a clean checkout. */
  method SalvageDirtyWorktree(repo: GitRepo, i: nat, kind: Kind, env: Env)
    returns (r: SalvageResult, sha: Sha, ghost staged: Tree)
    requires repo.Valid() && i < |repo.worktrees|
    modifies repo`commits, repo`refs, repo`worktrees
    ensures repo.Valid() && Extends(old(repo.commits), repo.commits)
    ensures var w := old(repo.worktrees)[i];
            var commits := Commits(old(repo.commits), old(repo.refs), w, env);
            && (!commits ==> repo.commits == old(repo.commits) && repo.refs == old(repo.refs))
            && (!commits ==> repo.worktrees == old(repo.worktrees)[i := StagedAs(w, staged, env)])
            && StagedBy(w, staged, env)
            && (commits ==> AllOnHead(repo, old(repo.commits), old(repo.refs), old(repo.worktrees), i, sha, kind, env))
            && (r.Landed? <==> && commits && env.fails !! {StatusAfter, HeadAfterCommit} && w.present && w.readable
                               && IsClean(Committed(w, env), w.files))
            && (r.Landed? ==> r.sha == sha && CleanAt(repo.commits, repo.refs, repo.worktrees[i]))
    ensures !r.Threw?
  {
    var committed;
    committed, sha, staged := StageAndCommit(repo, i, kind, env);
    r := if !committed || !Confirms(repo.commits, repo.refs, repo.worktrees[i], env) then NotSalvaged else Landed(sha);
  }

  /** The checkout passes the inspection, so that staging and committing are tried. */
  predicate Inspected(refs: map<Branch, Sha>, w: Worktree, branch: Branch, env: Env) {
    && w.head == OnBranch(branch) && branch in refs
    && StatusWorks(w, env, StatusBefore) && !w.unmerged && !w.inProgress
    && env.fails !! {SymbolicRef, WriteTree, HeadBefore}
  }

  /** Undoing the staging: only if HEAD can be read and still is what it was. */
  method RestoreIndex(repo: GitRepo, i: nat, branch: Branch, headBefore: Sha, indexTree: Tree, env: Env)
    requires repo.Valid() && i < |repo.worktrees| && branch in repo.refs
    modifies repo`worktrees
    ensures repo.Valid()
    ensures repo.worktrees == if env.fails !! {HeadAfter, ReadTree} && repo.refs[branch] == headBefore
                              then old(repo.worktrees)[i :=
                                                       old(repo.worktrees)[i].(index := indexTree, unmerged := false)]
                              else old(repo.worktrees)
  {
    var headAfter := if HeadAfter in env.fails then None else Some(repo.refs[branch]);
    if headAfter == Some(headBefore) && ReadTree !in env.fails {
      repo.worktrees := repo.worktrees[i := repo.worktrees[i].(index := indexTree, unmerged := false)];
    }
  }

  /** A failed salvage that committed nothing: the checkout `w` has its index back exactly if both restoring
      commands worked, and otherwise keeps what was staged. */
  function AfterFailure(w: Worktree, staged: Tree, env: Env): Worktree {
    if env.fails !! {HeadAfter, ReadTree} then w else w.(index := staged)
  }

  /** The salvage of a checkout that passed the inspection. `staged` is what was staged. */
  method SalvageInspected(repo: GitRepo, i: nat, branch: Branch, env: Env)
    returns (r: SalvageResult, ghost staged: Tree)
    requires repo.Valid() && i < |repo.worktrees| && Inspected(repo.refs, repo.worktrees[i], branch, env)
    modifies repo`commits, repo`refs, repo`worktrees
    ensures repo.Valid() && Extends(old(repo.commits), repo.commits) && !r.Threw?
    ensures r.Landed? <==> Salvageable(old(repo.commits), old(repo.refs), old(repo.worktrees)[i], branch, env)
    ensures StagedBy(old(repo.worktrees)[i], staged, env)
    ensures var w := old(repo.worktrees)[i];
            if Commits(old(repo.commits), old(repo.refs), w, env) then
              && AllCommitted(repo, old(repo.commits), old(repo.refs), old(repo.worktrees), i, branch, Resume, env)
              && (r.Landed? ==> r.sha == repo.refs[branch] && CleanAt(repo.commits, repo.refs, repo.worktrees[i]))
            else
              && r.NotSalvaged? && repo.commits == old(repo.commits) && repo.refs == old(repo.refs)
              && repo.worktrees == old(repo.worktrees)[i := AfterFailure(w, staged, env)]
  {
    var indexTree, headBefore := repo.worktrees[i].index, repo.refs[branch];
    assert headBefore in repo.refs.Values;
    var sha;
    r, sha, staged := SalvageDirtyWorktree(repo, i, Resume, env);
    if r.NotSalvaged? {
      RestoreIndex(repo, i, branch, headBefore, indexTree, env);
    }
  }

  /** Where nothing is committed, the checkout is left as found exactly if HEAD could be read again and
      `read-tree` worked, or nothing new had been staged. */
  lemma LeftAsFoundExactly(w: Worktree, staged: Tree, env: Env)
    requires StagedBy(w, staged, env)
    ensures AfterFailure(w, staged, env) == w <==> env.fails !! {HeadAfter, ReadTree} || staged == w.index
    ensures AddAll !in env.fails
            ==> (AfterFailure(w, staged, env) == w <==> env.fails !! {HeadAfter, ReadTree} || w.files == w.index)
  {
  }

  /** The input on which it is not: the commit is refused, by a hook say, and HEAD cannot be read then. */
  lemma StagingIsLeftBehind(staged: Tree)
    ensures var commits, refs := map[0 := Commit([], map[], 0, "first")], map["b" := 0];
            var w := Worktree("/m/w", OnBranch("b"), true, false, true, map[], map["f" := "x"], false, false);
            var env := Env({CommitAll, HeadAfter}, None, None);
            && Inspected(refs, w, "b", env) && !Commits(commits, refs, w, env)
            && (StagedBy(w, staged, env) ==> AfterFailure(w, staged, env).index == map["f" := "x"] != w.index)
  {
    var dirt: Tree := map["f" := "x"];
    assert "f" in dirt;
  }

  /** The inspection passes, but HEAD cannot be read before anything is staged, which nothing catches. */
  predicate SalvageThrows(refs: map<Branch, Sha>, w: Worktree, branch: Branch, env: Env) {
    && w.head == OnBranch(branch) && StatusWorks(w, env, StatusBefore) && !w.unmerged && !w.inProgress
    && env.fails !! {SymbolicRef, WriteTree}
    && (HeadBefore in env.fails || branch !in refs)
  }

  /** salvagePredecessorWorktree: inspect first, commit, and undo the staging if no commit landed. */
  method SalvagePredecessorWorktree(repo: GitRepo, i: nat, branch: Branch, env: Env)
    returns (r: SalvageResult, ghost staged: Tree)
    requires repo.Valid() && i < |repo.worktrees|
    modifies repo`commits, repo`refs, repo`worktrees
    ensures repo.Valid() && Extends(old(repo.commits), repo.commits)
    ensures r.Landed? <==> Salvageable(old(repo.commits), old(repo.refs), old(repo.worktrees)[i], branch, env)
    ensures r.Threw? <==> SalvageThrows(old(repo.refs), old(repo.worktrees)[i], branch, env)
    ensures StagedBy(old(repo.worktrees)[i], staged, env)
    ensures var w := old(repo.worktrees)[i];
            if !Inspected(old(repo.refs), w, branch, env) then
              repo.commits == old(repo.commits) && repo.refs == old(repo.refs) && repo.worktrees == old(repo.worktrees)
            else if Commits(old(repo.commits), old(repo.refs), w, env) then
              && AllCommitted(repo, old(repo.commits), old(repo.refs), old(repo.worktrees), i, branch, Resume, env)
              && (r.Landed? ==> r.sha == repo.refs[branch] && CleanAt(repo.commits, repo.refs, repo.worktrees[i]))
            else
              && repo.commits == old(repo.commits) && repo.refs == old(repo.refs)
              && repo.worktrees == old(repo.worktrees)[i := AfterFailure(w, staged, env)]
  {
    var w := repo.worktrees[i];
    staged := w.files;
    if SymbolicRef in env.fails || w.head.Detached? || w.head.branch != branch {
      return NotSalvaged, staged;
    }
    if !StatusWorks(w, env, StatusBefore) || w.unmerged || w.inProgress || WriteTree in env.fails {
      return NotSalvaged, staged;
    }
    if HeadBefore in env.fails || branch !in repo.refs {
      return Threw, staged;
    }
    r, staged := SalvageInspected(repo, i, branch, env);
  }

  // ---------- What the tests mean ----------

  /** One line of `git status --porcelain`: a path and whether it is merely untracked. */
  datatype StatusLine = StatusLine(file: string, untracked: bool)

  /** The lines for paths without conflicts: the index differs from HEAD, the file differs from the index, or
      the file is in neither. */
  ghost predicate Lists(w: Worktree, headTree: Tree, line: StatusLine) {
    if line.untracked then line.file in w.files && line.file !in w.index
    else
      || Lookup(w.index, line.file) != Lookup(headTree, line.file)
      || (line.file in w.index && Lookup(w.files, line.file) != Lookup(w.index, line.file))
  }

  /** A checkout is clean exactly if no path is in conflict and its status lists nothing but untracked files
      that are the staged evidence or lie below it. */
  lemma CleanExactly(w: Worktree, headTree: Tree)
    ensures IsClean(w, headTree) <==>
              && !w.unmerged
              && forall line :: Lists(w, headTree, line) ==>
                   line.untracked && (|| line.file == ".agent-dealer-visual"
                                      || exists rest :: line.file == ".agent-dealer-visual/" + rest)
  {
    forall f
      ensures IsVisualStaging(f) <==> f == ".agent-dealer-visual" || exists rest :: f == ".agent-dealer-visual/" + rest
    {
      if ".agent-dealer-visual/" <= f {
        assert f == ".agent-dealer-visual/" + f[|".agent-dealer-visual/"|..];
      }
    }
    if forall line :: Lists(w, headTree, line) ==> line.untracked && IsVisualStaging(line.file) {
      forall f
        ensures Lookup(w.index, f) == Lookup(headTree, f) && (f in w.index ==> Lookup(w.files, f) == Lookup(w.index, f))
      {
        assert !Lists(w, headTree, StatusLine(f, false));
      }
      forall f | f in w.files && f !in w.index ensures IsVisualStaging(f) {
        assert Lists(w, headTree, StatusLine(f, true));
      }
      assert w.index == headTree;
    }
  }

  /** The one salvage commit lands and is confirmed exactly if the checkout exists and can be read, is on the
      branch with nothing unresolved or half-done, has files other than those of its HEAD, none of the
      eight commands fails, and a hook leaves no file changed, missing or new but staged evidence. */
  lemma SalvageableExactly(commits: Graph, refs: map<Branch, Sha>, w: Worktree, branch: Branch, env: Env)
    requires branch in refs && refs[branch] in commits
    ensures Salvageable(commits, refs, w, branch, env) <==>
              && w.present && w.readable && !w.unmerged && !w.inProgress && w.head == OnBranch(branch)
              && w.files != commits[refs[branch]].tree
              && SymbolicRef !in env.fails && StatusBefore !in env.fails && WriteTree !in env.fails
              && HeadBefore !in env.fails && AddAll !in env.fails && CommitAll !in env.fails
              && StatusAfter !in env.fails && HeadAfterCommit !in env.fails
              && (env.hookLeaves.Some? ==>
                    forall f :: Lookup(env.hookLeaves.value, f) != Lookup(w.files, f) ==>
                      f !in w.files && IsVisualStaging(f))
  {
    var after := Committed(w, env);
    if forall f :: Lookup(after.files, f) != Lookup(w.files, f) ==> f !in w.files && IsVisualStaging(f) {
      forall f | f in after.index ensures f in after.files && after.files[f] == after.index[f] {
        assert Lookup(after.files, f) == Lookup(w.files, f);
      }
      forall f | f in after.files ensures f in after.index || IsVisualStaging(f) {
        assert f in w.files || Lookup(after.files, f) != Lookup(w.files, f);
      }
      assert IsClean(after, w.files);
    }
  }

  /** Something is in the way of a salvage: another branch or none is checked out, the directory is gone or not
      readable, there are conflicts, a merge, cherry-pick or revert is half-done, or one of the commands that
      look fails. */
  ghost predicate InTheWay(w: Worktree, branch: Branch, env: Env) {
    || w.head != OnBranch(branch) || !w.present || !w.readable || w.unmerged || w.inProgress
    || SymbolicRef in env.fails || StatusBefore in env.fails || WriteTree in env.fails
  }

  /** With something in the way nothing is tried. Otherwise the salvage throws if HEAD cannot be read, and
      tries to commit if it can. */
  lemma InspectedExactly(refs: map<Branch, Sha>, w: Worktree, branch: Branch, env: Env)
    ensures InTheWay(w, branch, env) ==> !Inspected(refs, w, branch, env) && !SalvageThrows(refs, w, branch, env)
    ensures !InTheWay(w, branch, env) && (branch !in refs || HeadBefore in env.fails) ==>
              !Inspected(refs, w, branch, env) && SalvageThrows(refs, w, branch, env)
    ensures !InTheWay(w, branch, env) && branch in refs && HeadBefore !in env.fails ==>
              Inspected(refs, w, branch, env) && !SalvageThrows(refs, w, branch, env)
  {
  }

  /** A commit lands exactly if both commands work and some file is changed, missing or new against HEAD. */
  lemma CommitsExactly(commits: Graph, refs: map<Branch, Sha>, w: Worktree, sha: Sha, env: Env)
    requires HeadSha(refs, w.head) == Some(sha) && sha in commits
    ensures Commits(commits, refs, w, env) <==>
              && AddAll !in env.fails && CommitAll !in env.fails
              && exists f :: Lookup(w.files, f) != Lookup(commits[sha].tree, f)
  {
    var tree := commits[sha].tree;
    if forall f :: Lookup(w.files, f) == Lookup(tree, f) {
      assert forall f :: f in w.files <==> f in tree by {
        forall f ensures f in w.files <==> f in tree {
          assert Lookup(w.files, f) == Lookup(tree, f);
        }
      }
      assert forall f :: f in w.files ==> w.files[f] == tree[f] by {
        forall f | f in w.files ensures w.files[f] == tree[f] {
          assert Lookup(w.files, f) == Lookup(tree, f);
        }
      }
      assert w.files == tree;
    }
  }

  /** After a commit HEAD is at it: the checked-out branch has moved there and no other, or the detached HEAD
      itself. */
  lemma HeadIsAtCommit(refs: map<Branch, Sha>, w: Worktree, sha: Sha, b: Branch)
    ensures HeadSha(RefsAfter(refs, w, sha), HeadAt(w, sha).head) == Some(sha)
    ensures HeadAt(w, sha).(head := w.head) == w
    ensures w.head.Detached? <==> HeadAt(w, sha).head.Detached?
    ensures w.head.OnBranch? ==> HeadAt(w, sha).head == w.head
    ensures Lookup(RefsAfter(refs, w, sha), b) == if w.head == OnBranch(b) then Some(sha) else Lookup(refs, b)
  {
  }
}
