# A model of agent-dealer's guarded state

agent-dealer coordinates coding agents over shared git repositories. This project models the parts of it
that guard durable state, and the algorithms with a clear contract of their own, and proves what they
promise. Every file is one module; together they fall into these parts.

- **The pid marker** (`PidMarker`). A transition system of any number of processes that claim, release and
  crash at any step, over one file and one lock that dies with its holder. The re-check under the lock and
  the overwrite are two steps. Mutual exclusion holds in every run in which nobody releases inside another
  process's claim window; a run that breaks it otherwise is given, and the one step that can do damage is
  characterised exactly. A class shows claim and release as one process executes them.
- **Commits, repositories and pushing** (`CommitGraph`, `GitRepository`, `GitPush`). A graph of commits with
  patches and merges, local and tracking branches, checkouts, and an origin that anybody may move between any
  two commands, with a log of all that ever happened to it. Plain pushes fast-forward, lease pushes compare
  and swap. The push procedure with its one proven-equivalent forced retry never loses a commit or its patch.
- **Checkouts** (`GitSalvage`, `GitWorktree`, `GitResolve`, `GitAnswers`). Salvaging a dead session's files, catching a
  branch up, and deciding where a developer session works, with every git command able to fail on its own.
  Over every outcome each branch ends at its old tip or a descendant and every existing checkout stays, and
  each answer comes exactly under a stated condition.
- **Relation paging** (`RelationPaging`, `RelationRounds`, `RelationPages`). Batched rounds over many issues that agree with
  walking each issue alone, with as many requests as the deepest list needs; they end exactly if every listed
  issue's list does.
- **The failure excerpt** (`ExcerptRegions`, `FailureExcerpt`, `ExcerptText`, `ExcerptBuilder`,
  `ExcerptDetermined`, `ExcerptLimits`, `ExcerptShown`, `ExcerptLaws`, `ExcerptNoisyLog`,
  `ExcerptCrowdedLog`, `ExcerptThreeFailures`). Merged context windows, a linear weight pass, a greedy choice under two budgets, when
  the result is complete, when it is cut and which lines it then still holds.
- **Check polling** (`CheckPolling`). For every stream of reads, clock readings and aborts.
- **Execution contracts** (`MarkdownLines`, `LineSections`, `SectionTable`, `Words`, `ContractSections`,
  `ContractCriteria`, `CriteriaPrinting`, `ContractParts`, `LinePatterns`, `ExecutionContract`,
  `ContractErrors`). A line parser with a printer for its criteria: the round trip, independence of the order
  of sections, which texts are read as what, and which error is reported when.
- **Smaller state machines and orders** (`CursorHealth`, `Percentiles`, `LatestRequest`, `Versions`,
  `VersionPruning`, `VersionLaws`).

`Options`, `Text` and `Sorting` hold what several of them share.

Methods stand for the loops and state changes of the code and are proved against functions and predicates;
the lemmas are about those. Where a git command, a read or a clock is involved, its outcome is a parameter or
an arbitrary choice, so the statements hold for all of them.

## What the proofs brought up

- A release inside another process's claim window lets two live processes hold the pid marker
  (`PidMarker.ReleaseInsideWindowBreaksExclusion`).
- When reading HEAD fails after a failed salvage commit, the index is not restored although nothing was
  committed (`GitSalvage.StagingIsLeftBehind`). The checkout is left as found exactly if that read and
  `read-tree` work or nothing new had been staged (`GitSalvage.LeftAsFoundExactly`).
- An unreadable-checkout conflict can follow a salvage commit that landed
  (`GitResolve.UnreadableAfterSalvage`). It is a refusal that touches nothing exactly if the status already
  fails at the first inspection (`GitResolve.RefusalsTouchNothing`).
- Two cursors that hand out each other keep the paging loop going for ever: only a cursor equal to the one
  just used is recognised (`RelationRounds.CirclingNeverEnds`). The rounds end exactly if the list of every
  listed issue does (`RelationRounds.RoundsEndExactly`).
- A failure marker's line need not be in the excerpt, whatever the comment that a window with one always wins
  (github.ts:257). Its region can be outranked, though only from a thousand lines of vocabulary on
  (`ExcerptLimits.MarkerWinsExactly`, `ExcerptNoisyLog.MarkerCanLose`), and a region that is taken can be cut
  before it, after a hundred lines for one (`ExcerptCrowdedLog.MarkerIsCutOff`). It is there exactly if its
  region was taken and what is written up to it keeps both caps (`ExcerptShown.LineShownExactly`).
- A separator line is charged with three characters and takes four, so regions accepted within the budget can
  still be cut by the character cap (`ExcerptThreeFailures.AcceptedAndYetCut`); `ExcerptLimits.CutExactly` says
  when the excerpt is cut.
- A pull request that is not found reads as one without checks (`CheckPolling.NotFoundIsReportedAsNone`); the
  answer is meant exactly if both reads found it (`CheckPolling.NoneIsMeantExactly`).
- A bullet followed by two blanks passes as a non-goal whose text is a blank
  (`ContractParts.BareBulletIsAnItem`). Such non-goals come exactly from bare bullets and numbers
  (`ContractParts.BlankNonGoalsExactly`).

## Model

| member | source | states |
|---|---|---|
| PidMarker.OwnerOf | packages/server/src/pid-marker.ts:51-58 | An owner is found exactly when the file names a positive pid; absent, garbled and non-positive contents all read as nobody |
| PidMarker.MutualExclusion | packages/server/src/pid-marker.ts:76-132 | In every interleaving of claims, releases, crashes and throwing overwrites of any number of processes in which nobody releases inside another's claim window, every state has at most one holder, it is alive, and the marker names it |
| PidMarker.StepKeepsInv | packages/server/src/pid-marker.ts:99-132 | Each single step, an overwrite that throws under the lock and may garble the file among them, keeps exclusion, one live lock holder, and a marker that names whoever has overwritten or is about to unlink it, provided it is not a create inside another claimer's gap between re-check and overwrite |
| PidMarker.StepKeepsWindowInv | packages/server/src/pid-marker.ts:99-132 | Without a release inside another's window the marker never vanishes under a claimer, so no create can fall into a gap |
| PidMarker.RunKeepsInv | packages/server/src/pid-marker.ts:99-132 | The invariant holds in every state of a run without gap creates, whatever releases happen |
| PidMarker.RunKeepsWindowInv | packages/server/src/pid-marker.ts:99-132 | A run without releases inside windows has no gap create at all |
| PidMarker.GapCreateIsExactlyTheFault | packages/server/src/pid-marker.ts:121-131 | From a sound state, a create by one process lets the claimer in its gap end up as a second live holder if and only if it is a gap create |
| PidMarker.ReleaseInsideWindowBreaksExclusion | packages/server/src/pid-marker.ts:99-145 | The proviso is needed: a concrete run from an absent marker with three processes and one release inside a window ends with two live holders |
| PidMarker.ClaimAloneSucceedsExactlyWhenNobodyAlive | packages/server/src/pid-marker.ts:99-132 | A claim run alone with the lock free succeeds exactly when the marker does not name another live process, so a dead or unreadable owner never wedges it; a refusal changes nothing, and the lock is free again |
| PidMarker.ReleaseAloneRemovesOwnMarkerOnly | packages/server/src/pid-marker.ts:137-145 | A release removes the marker exactly when it names the caller |
| PidMarker.MarkerFile.TryCreate | packages/server/src/pid-marker.ts:103-108 | The exclusive create succeeds exactly on an absent file and never changes an existing one |
| PidMarker.MarkerFile.ClaimPidMarker | packages/server/src/pid-marker.ts:99-132 | The answer, an exception included, and the file afterwards are those of the protocol's own steps with the file set to what others left before the re-check, for every content at first and then and every failing create, lock and overwrite: true exactly if the caller is already named or neither content names another live process and nothing fails on the way; false exactly if the first does, or the second after an attempt that got the lock, and then nothing is written |
| PidMarker.ClaimRunExactly | packages/server/src/pid-marker.ts:99-132 | When the steps of a claim answer true, false or throw, in terms of the contents read first and again under the lock, and what is then in the file |
| PidMarker.KeepsOffExactly | packages/server/src/pid-marker.ts:99-132 | A content keeps a claimer off exactly if it names a positive pid that is not its own and alive |
| PidMarker.MarkerFile.ReleasePidMarker | packages/server/src/pid-marker.ts:137-145 | The file becomes absent if it named the caller and is unchanged otherwise |
| CommitGraph.History | packages/server/src/adapters/git-worktree.ts:206-213 | The commits of a history are exactly those the tip reaches, which is what the ancestor test asks |
| CommitGraph.ReachesAntisymmetric | packages/server/src/adapters/git-worktree.ts:206-213 | Two commits that are ancestors of each other are the same, so moving a branch forward never goes round in a circle |
| GitRepository.GitRepo.Receive | packages/server/src/adapters/git-worktree.ts:656-674 | Origin's side of a push: compare the current tip and replace it in one step, under the fast-forward rule or, with a lease, only if the tip is exactly the one named |
| GitRepository.GitRepo.Push | packages/server/src/adapters/git-worktree.ts:656-674 | A push while others push: exactly one write of ours if the request arrives, origin accepts the local tip over the tip of that moment and has another, and none otherwise; done is reported exactly if origin accepted and its answer came back |
| GitRepository.GitRepo.Fetch | packages/server/src/adapters/git-worktree.ts:384-387 | A fetch that works sets the tracking ref to the tip the branch had at a moment during the call, if it had one; one that fails leaves it |
| GitPush.LeasePinExactly | packages/server/src/adapters/git-worktree.ts:624-650 | Forcing is allowed if and only if the fetched tip is the last verified one, the remote has commits of its own, none of them is a merge, and each has its patch in the local history |
| GitPush.GatherPushRejectionFacts | packages/server/src/adapters/git-worktree.ts:540-606 | The facts name the local tip and the tracking ref after the fetch, and count exactly the commits on each side; diverged means both counts are positive; there are none exactly if a command fails or a tip is missing |
| GitPush.RetryWithLease | packages/server/src/adapters/git-worktree.ts:690-706 | The forced push is decided over the tip of the facts alone, done exactly if origin accepted and said so, and otherwise answered with fresh facts or, where these cannot be had, with those at hand |
| GitPush.RecoverRejectedPush | packages/server/src/adapters/git-worktree.ts:676-717 | After a rejection the forced push is made exactly if the facts show a divergence and the pin is granted; which write follows, and the answer, for every failing command and every move of origin |
| GitPush.PlainPush | packages/server/src/adapters/git-worktree.ts:719-728 | The plain push creates or fast-forwards exactly if its request arrives and origin allows that, and says so exactly if the answer comes back |
| GitPush.PushBranch | packages/server/src/adapters/git-worktree.ts:719-763 | The commit pushed is that of the named branch or checkout, or the call fails before any push if there is none; with others pushing at any moment and any command failing, each write of the call and the answer are exactly those of a plain push and, where due, the recovery; no local ref changes |
| GitPush.LocalTipIsPushed | packages/server/src/adapters/git-worktree.ts:719-763 | The commit pushed is the tip of the named branch, or what is checked out at the named path: its branch's tip, or its own commit when detached; a path of no checkout has none |
| GitPush.LocalTipExactly | packages/server/src/adapters/git-worktree.ts:719-728 | HEAD is that of the checkout at the given path and of no other |
| GitPush.PushIsSafe | packages/server/src/adapters/git-worktree.ts:719-763 | Every write of the call is a creation, a fast-forward, or the replacement of exactly the last known tip by a history that carries every dropped patch; success means that the branch was at the local tip |
| GitPush.PushGoesThrough | packages/server/src/adapters/git-worktree.ts:719-735 | A plain push whose request arrives at an origin without the branch, or with one that the local tip is ahead of, puts the branch at the local tip, and the call says so if the answer comes back |
| GitPush.ForcedPushGoesThrough | packages/server/src/adapters/git-worktree.ts:676-712 | After a rejection, with the fetched tip the last verified one and all its own commits non-merges whose patches are local, the forced push replaces the tip if its request arrives before origin moves again |
| GitPush.RejectionSays | packages/server/src/adapters/git-worktree.ts:540-717 | A call that does not push says whether it was rejected and, if so and if it could find out, how the local tip compares with the remote tip it learnt; it forces if and only if the pin is provable, and only over that tip |
| GitPush.FailedForceSays | packages/server/src/adapters/git-worktree.ts:699-712 | If the forced push fails too, the facts are about the tip fetched after it, or about the first one where they cannot be had again |
| GitPush.FactsExactly | packages/server/src/adapters/git-worktree.ts:540-606 | The facts name both tips, count the commits of each that the other has not, and say diverged if and only if both have some |
| GitPush.JustifiedWriteCarries | packages/server/src/adapters/git-worktree.ts:608-650 | One justified write keeps every commit of the old tip, or a commit with its patch |
| GitPush.OurPushesLoseNoWork | packages/server/src/adapters/git-worktree.ts:624-763 | Over any stretch of origin's log in which the branch is touched by such writes, by any number of calls each with its own local tip and last verified head, and by fast-forwards of anybody else, no commit the branch ever held is lost: it is still reached, or its patch is |
| GitPush.AheadKeepsProof | packages/server/src/adapters/git-worktree.ts:624-674 | What is proven for one local tip holds for every tip ahead of it, so commits made between the proof and the forced push do no harm |
| GitPush.CallsJustify | packages/server/src/adapters/git-worktree.ts:719-763 | What one call writes are such writes, also in the commit graph of any later time |
| GitPush.MovedTipIsNeverOverwritten | packages/server/src/adapters/git-worktree.ts:656-674 | If the branch stood anywhere but at the verified tip when our write arrived, the write was a fast-forward of where it stood |
| GitSalvage.AddAllFiles | packages/server/src/adapters/git-worktree.ts:338 | Staging takes over every file and resolves unmerged entries; a failing one may have staged part and touches nothing else |
| GitSalvage.CommitIndex | packages/server/src/adapters/git-worktree.ts:341-349 | A commit lands exactly if the command works and the index differs from HEAD: one new commit on HEAD, on a branch or detached, with the index as its tree |
| GitSalvage.SalvageDirtyWorktree | packages/server/src/adapters/git-worktree.ts:332-365 | On whatever HEAD, branch or detached: success means one new commit with all files and the message of its kind, and a clean checkout; failure leaves nothing committed, or the commit in place, and says which |
| GitSalvage.SalvagePredecessorWorktree | packages/server/src/adapters/git-worktree.ts:1086-1139 | Success exactly when the checkout is on the branch with nothing half-done and no command fails: clean, one new commit on the old HEAD holding all dirty files; an exception exactly when HEAD cannot be read before anything is staged; failure without a commit and with HEAD readable and read-tree working leaves refs, index and files as they were; a checkout that does not pass the inspection is not touched |
| GitSalvage.SalvageInspected | packages/server/src/adapters/git-worktree.ts:1120-1138 | Whether a commit lands and whether the salvage succeeds, over every failing command; where nothing is committed the refs stay, and the index stays exactly as `AfterFailure` of what was staged says |
| GitSalvage.SalvageableExactly | packages/server/src/adapters/git-worktree.ts:1086-1138 | A salvage succeeds exactly if the checkout is on the branch, shows no operation half-done and can be read, its HEAD is known, there is something besides what HEAD holds, and add, commit and the last look at HEAD and status work |
| GitSalvage.InspectedExactly | packages/server/src/adapters/git-worktree.ts:1086-1119 | With another branch, a vanished or unreadable directory, conflicts, a half-done operation or a failing look nothing is tried; otherwise an unreadable HEAD throws and a readable one leads to the attempt |
| GitSalvage.CommitsExactly | packages/server/src/adapters/git-worktree.ts:338-349 | A commit lands exactly if both commands work and some file is changed, missing or new against HEAD |
| GitSalvage.HeadIsAtCommit | packages/server/src/adapters/git-worktree.ts:341-349 | After a commit HEAD is at it, by its branch alone or detached, and nothing else moved |
| GitSalvage.CleanExactly | packages/server/src/adapters/git-worktree.ts:1226-1234 | A checkout counts as clean exactly if its status lists no file but new ones among the staged evidence |
| GitSalvage.LeftAsFoundExactly | packages/server/src/adapters/git-worktree.ts:1120-1138 | Without a commit the checkout is as found exactly if HEAD could be read again and read-tree worked, or nothing new had been staged, whether `git add` worked or not |
| GitSalvage.StagingIsLeftBehind | packages/server/src/adapters/git-worktree.ts:1120-1138 | A dirty checkout on which the commit and then the reading of HEAD fail: nothing is committed, and the index is not as before |
| GitSalvage.StageAndCommit | packages/server/src/adapters/git-worktree.ts:338-349 | A commit is made exactly if both commands work and there is something to commit; otherwise at most staging is left |
| GitSalvage.RestoreIndex | packages/server/src/adapters/git-worktree.ts:1124-1137 | The index is restored exactly if HEAD can be read, has not moved, and the restoring command works |
| GitWorktree.NothingBecomesUnreachable | packages/server/src/adapters/git-worktree.ts:1151-1166 | If every branch stays or moves forward and every existing checkout stays put, no commit reachable from a branch or from an existing checkout's HEAD becomes unreachable |
| GitWorktree.KeepsHistoryTransitive | packages/server/src/adapters/git-worktree.ts:1187-1402 | Keeping history composes over the steps of a resolution |
| GitWorktree.Pruned | packages/server/src/adapters/git-worktree.ts:400-403 | Pruning removes exactly the entries of vanished directories that are not locked |
| GitWorktree.FindWorktreeForBranch | packages/server/src/adapters/git-worktree.ts:975-984 | The first checkout that holds the branch, or none; a detached one never counts |
| GitWorktree.FetchReusedBranch | packages/server/src/adapters/git-worktree.ts:172-203 | The fetched tip, nothing to catch up to, or a deferral, also where the fetch works and its ref then does not resolve; only the tracking ref moves, and exactly if the fetch worked |
| GitWorktree.FetchFreshBase | packages/server/src/adapters/git-worktree.ts:105-140 | The fetched base tip, or the local base of a clone without origin; a failed fetch, or a fetched ref that does not resolve, never falls back to the local base |
| GitWorktree.MovingForwardKeepsHistory | packages/server/src/adapters/git-worktree.ts:223-243 | Creating a branch, or moving it to a descendant, keeps history |
| GitWorktree.FastForwardLocalBranchToSha | packages/server/src/adapters/git-worktree.ts:223-243 | True means the branch is at the commit and was missing or an ancestor of it, false means nothing moved; unless one of its own commands fails it answers true exactly then; history is kept |
| GitWorktree.MergeFastForward | packages/server/src/adapters/git-worktree.ts:1276-1284 | A fast-forward merge of a clean checkout moves the branch and leaves the checkout clean with its untracked files |
| GitWorktree.AdoptClean | packages/server/src/adapters/git-worktree.ts:1266-1287 | A clean leftover is adopted at origin's tip exactly when the branch is strictly behind it and nothing is in the way, and unmoved otherwise; a failed fetch defers |
| GitWorktree.AdoptionKeepsHistory | packages/server/src/adapters/git-worktree.ts:1266-1287 | Adoption keeps history |
| GitWorktree.SalvageKeepsHistory | packages/server/src/adapters/git-worktree.ts:1086-1139 | A salvage, landed or not, keeps history |
| GitWorktree.NewCommitIsNobodysAncestor | packages/server/src/adapters/git-worktree.ts:1240-1249 | A commit made a moment ago is an ancestor of nothing that existed before |
| GitWorktree.SalvagedTipStays | packages/server/src/adapters/git-worktree.ts:1266-1285 | So a freshly salvaged tip is never behind origin and adoption leaves it where it is |
| GitWorktree.AdoptSalvaged | packages/server/src/adapters/git-worktree.ts:1249-1302 | After a landed salvage: adopted at the salvage commit, or reported when the status fails or the checkout is dirty again |
| GitWorktree.SalvageAndAdopt | packages/server/src/adapters/git-worktree.ts:1240-1302 | A dead session's dirt: exactly one new commit and adoption, or a conflict with nothing moved unless a commit landed late or restoring failed, and an exception exactly when the salvage throws; tracking moves with the fetch alone |
| GitWorktree.ResolveLeftover | packages/server/src/adapters/git-worktree.ts:1210-1327 | The whole decision about a leftover checkout in the order of its tests, with the effect of each answer |
| GitWorktree.LeftoverKeepsHistory | packages/server/src/adapters/git-worktree.ts:1210-1327 | Whatever becomes of a leftover, history is kept |
| GitResolve.AddWorktree | packages/server/src/adapters/git-worktree.ts:1394-1400 | The checkout appears on its branch at the chosen start, or git refuses and at most a new branch is left behind |
| GitResolve.PrepareStart | packages/server/src/adapters/git-worktree.ts:1335-1391 | Which commit a new checkout starts from, and that a local branch moves only when strictly behind the fetched tip |
| GitResolve.CreateCheckout | packages/server/src/adapters/git-worktree.ts:1329-1401 | Creating a checkout from pruning to the add, over every failing command |
| GitResolve.CreationKeepsHistory | packages/server/src/adapters/git-worktree.ts:1329-1401 | Creation keeps history over every outcome |
| GitResolve.ResolveDeveloperWorktree | packages/server/src/adapters/git-worktree.ts:1187-1402 | The whole procedure, over every failing command, a throwing owner lookup, whatever each fetch answers and every state of the repository, refines the outcome relation and keeps history |
| GitResolve.ResolutionKeepsHistory | packages/server/src/adapters/git-worktree.ts:1187-1402 | Over every outcome each existing branch ends at its old tip or a descendant, and every existing checkout stays in place |
| GitResolve.WhereAnswersComeFrom | packages/server/src/adapters/git-worktree.ts:1203-1402 | Every answer but an exception is the leftover's or that of a creation, after at most one pruning |
| GitResolve.RefusalsTouchNothing | packages/server/src/adapters/git-worktree.ts:1203-1327 | Live owner, outside root, dirt of an unknown owner and unreadable checkouts leave refs, tracking refs, indexes, files and every entry of an existing directory unchanged; for an unreadable checkout that holds if and only if its status fails at the first inspection or the checkout is not readable |
| GitResolve.UnreadableAfterSalvage | packages/server/src/adapters/git-worktree.ts:1249-1302 | The input that needs the condition: a dead session's dirt, and only the second status failing, ends as unreadable although a commit landed |
| GitResolve.DeferredStartCreatesNothing | packages/server/src/adapters/git-worktree.ts:1266-1371 | A deferred start creates neither a branch nor a checkout |
| GitResolve.CreatedCheckoutTip | packages/server/src/adapters/git-worktree.ts:1343-1401 | Unless one of the four lookups fails whose failure is swallowed: a created checkout of a published branch stands at the fetched tip exactly when the local branch was missing or behind it and at the unchanged local tip otherwise; a branch that exists nowhere is cut at the base, whose tip is reported |
| GitResolve.AdoptedCheckoutTip | packages/server/src/adapters/git-worktree.ts:1276-1286 | Unless the merge or a lookup before it fails or an untracked file is in its way: an adopted clean checkout stands at the fetched tip exactly when the branch was behind or at it, and is unmoved otherwise |
| GitResolve.ReusedCheckoutTip | packages/server/src/adapters/git-worktree.ts:1187-1302 | The same for a whole resolution that ends in reuse: which checkout is reused, and that it stands at the salvage commit, or at the fetched tip exactly when the branch was behind or at it |
| GitResolve.LandedSalvageState | packages/server/src/adapters/git-worktree.ts:1240-1286 | What a landed and adopted salvage leaves: a clean checkout at the salvage commit whose subject marks it |
| GitResolve.RecoveringState | packages/server/src/adapters/git-worktree.ts:1253-1263 | From that state the next resolution commits nothing, and reports the commit as recovered exactly if it finds it again and origin does not defer the start |
| GitResolve.SalvageIsRecoveredNotRepeated | packages/server/src/adapters/git-worktree.ts:1240-1265 | Resolving again after a landed salvage makes no second commit, whatever fails, and reports the same commit as recovered exactly if it finds it again and origin does not defer the start |
| GitAnswers.OwnerDecides | packages/server/src/adapters/git-worktree.ts:1203-1402 | A live owner is reported if and only if the lookups work and the leftover below the root has one; a checkout is reused only if its owner is dead and its status was read; one is created only if no leftover is there but an entry without a directory |
| GitAnswers.RefusedLeftover | packages/server/src/adapters/git-worktree.ts:1210-1239 | A leftover outside the root, an owner lookup that throws, a live owner, a status that cannot be read, and dirt of nobody known: each is answered as such, in this order, and nothing moves |
| GitAnswers.CleanLeftover | packages/server/src/adapters/git-worktree.ts:1249-1287 | A clean leftover of a dead owner is reused, with the salvage commit it stands on if it is found, or the start is deferred exactly if fetching the branch fails; nothing is committed |
| GitAnswers.DirtyLeftover | packages/server/src/adapters/git-worktree.ts:1240-1302 | Dirt of a known dead session: if it can be salvaged, one new commit on the branch with all its files, and reuse, a deferral, or one of two conflicts, each exactly when; if not, a conflict or an exception |
| GitAnswers.UnsalvagedLeaves | packages/server/src/adapters/git-worktree.ts:1086-1139 | What a salvage that does not succeed leaves: everything as it was, an unconfirmed commit of all the files, or staging that could not be undone, each exactly when |
| GitAnswers.CreationAnswers | packages/server/src/adapters/git-worktree.ts:1329-1402 | Without a leftover: deferred if and only if the branch or the base it is cut from cannot be had, created if and only if no command needed fails and name and path are free, at the commit stated, and a failure otherwise |
| GitAnswers.CreationLeaves | packages/server/src/adapters/git-worktree.ts:1329-1402 | What a creation leaves, whether it succeeds or not: no commit, no other branch moved, an existing branch at the start even if the add fails after that, a new one at most created there, and the pruned list with at most the new checkout |
| GitAnswers.StartExactly | packages/server/src/adapters/git-worktree.ts:1335-1391 | When a start is deferred, when it throws, and else the commit it starts at and whether the base, the local branch or the fetched tip gives it |
| GitAnswers.CreatedCheckoutIsClean | packages/server/src/adapters/git-worktree.ts:1394-1401 | A created checkout is on the branch, in place, and clean with the files of its tip |
| GitAnswers.CreationFetches | packages/server/src/adapters/git-worktree.ts:105-203 | Without a leftover each tracking ref after the call: that of the issue branch and that of the base move exactly if they are fetched and origin has them |
| GitAnswers.LeftoverFetches | packages/server/src/adapters/git-worktree.ts:172-203 | With a leftover only the issue branch's tracking ref moves, exactly if it comes to adopting and origin has the branch |
| GitAnswers.LookupFails | packages/server/src/adapters/git-worktree.ts:1203-1209 | When the worktree list cannot be read or cleared, the call fails, with at most the clearing done |
| GitAnswers.SettledExactly | packages/server/src/adapters/git-worktree.ts:1203-1209 | Entries of vanished directories are cleared, the locked ones aside, exactly if the first holder of the branch is gone from disk |
| GitAnswers.AdvancesExactly | packages/server/src/adapters/git-worktree.ts:1276-1286 | An adopted checkout moves if and only if its branch is strictly behind the fetched tip, no command fails, and no untracked file is where the tip has one; then it has the tip's files and its own untracked ones |
| RelationPaging.StaysOnWalk | packages/server/src/adapters/linear-inbox.ts:447-464 | In every round, what an issue has gathered plus what is still to walk is the issue's own walk |
| RelationPaging.PagingWhileWalking | packages/server/src/adapters/linear-inbox.ts:447-464 | An issue is still paging after k rounds exactly if its own walk takes more than k requests |
| RelationPaging.CircleNeverEnds | packages/server/src/adapters/linear-inbox.ts:486-494 | Two cursors that hand out each other are followed for ever |
| RelationRounds.ReadListing | packages/server/src/adapters/linear-inbox.ts:411-445 | After the listing every listed issue is known, pending or dropped just as its first page says, unless one of its requests throws |
| RelationRounds.TakeNode | packages/server/src/adapters/linear-inbox.ts:432-441 | One listed issue with its first page, with its missing page or with an unusable cursor |
| RelationRounds.FetchInverseRelationRound | packages/server/src/adapters/linear-inbox.ts:505-540 | One request yields for each pending issue its own page, and nothing for an issue whose page is missing |
| RelationRounds.TakeAnswer | packages/server/src/adapters/linear-inbox.ts:450-463 | What a pending issue becomes with the answer for it: continued, complete, or dropped |
| RelationRounds.Round | packages/server/src/adapters/linear-inbox.ts:447-465 | A round takes every listed issue from its state after k rounds to that after k + 1 |
| RelationRounds.NobodyPendsExactly | packages/server/src/adapters/linear-inbox.ts:446-465 | Nobody pends after k rounds exactly if k is at least the number of requests of the deepest list |
| RelationRounds.DeepestIsMost | packages/server/src/adapters/linear-inbox.ts:446-465 | That number is the most that any listed issue's own walk takes |
| RelationRounds.RoundsEndExactly | packages/server/src/adapters/linear-inbox.ts:446-465 | There is a round after which nobody pends if and only if the list of every listed issue ends |
| RelationRounds.CirclingNeverEnds | packages/server/src/adapters/linear-inbox.ts:446-494 | A server with one listed issue in a circle of two cursors, on which somebody pends after every round |
| RelationRounds.RunRounds | packages/server/src/adapters/linear-inbox.ts:446-465 | The loop ends, after as many requests as the deepest list needs or with the first that throws, and has a result exactly if every listed issue's list ends and none of those requests throws |
| RelationRounds.FetchLinearBlockers | packages/server/src/adapters/linear-inbox.ts:393-471 | There is an answer exactly if the lists of the listed issues end and none of the requests needed throws, for whatever reason; an issue is then in it exactly when its own walk can be finished, with the blockers of all its pages in order, and the nested requests number as many as the deepest list needs |
| RelationPaging.OnlyBlocksGate | packages/server/src/adapters/linear-inbox.ts:362-370 | A blocker is reported exactly for the relations that declare a block, one that cannot be read as unknown |
| RelationPaging.BlockersAppend | packages/server/src/adapters/linear-inbox.ts:467-469 | Filtering the gathered pages is filtering each page, in order |
| RelationPages.AnswersExactly | packages/server/src/adapters/linear-inbox.ts:393-471 | A listed issue is answered with these blockers if and only if its successive pages, each the server's answer for the issue and the cursor of the page before, lead to one without more, and the relations on them that declare a block tell of just these, in order |
| RelationPages.WalkExactly | packages/server/src/adapters/linear-inbox.ts:447-464 | A walk ends well exactly if successive pages lead to the end of the list; it yields the relations of all of them in order, at one request for each but the first |
| RelationPages.ListEndsExactly | packages/server/src/adapters/linear-inbox.ts:447-494 | A list ends exactly if its pages do not always go on, and walking it takes a request for each page after which there is more |
| RelationPages.PagingExactly | packages/server/src/adapters/linear-inbox.ts:447-494 | An issue is still paging after k rounds exactly if there are k + 1 successive pages and the last claims more, with a cursor that is not the one it was asked for with |
| RelationPages.ListedExactly | packages/server/src/adapters/linear-inbox.ts:411-445 | The listing is read up to the first page without more or without a cursor, and lists the issues of the pages read in order |
| RelationPages.BlockersAreDeclared | packages/server/src/adapters/linear-inbox.ts:362-370 | The blockers are those of exactly the relations of kind blocks, in order, each with the fields of its issue, the stand-ins for a missing state, or the unreadable blocker |
| RelationPages.FindPageExactly | packages/server/src/adapters/linear-inbox.ts:535-538 | The page of an issue is that of the first node with its id |
| ExcerptRegions.CollectHits | packages/server/src/adapters/github.ts:281-289 | The hits are exactly the failure lines, in order |
| ExcerptRegions.MergeWindows | packages/server/src/adapters/github.ts:293-303 | The merged regions are sorted, separated by at least one line, and cover exactly the lines within six of some hit |
| ExcerptRegions.RankRegions | packages/server/src/adapters/github.ts:311-321 | The single forward pass gives each region the weight of counting its own failure lines |
| ExcerptRegions.WeighRegion | packages/server/src/adapters/github.ts:314-320 | The inner loop counts the hits of one region |
| FailureExcerpt.PickRegions | packages/server/src/adapters/github.ts:323-348 | The selection loop takes the greedy choice, its counter is the lines taken, and it reports a skip exactly if a region is missing |
| FailureExcerpt.TryRegion | packages/server/src/adapters/github.ts:326-347 | One turn: taken exactly if first or within both budgets, with both counters up to date |
| FailureExcerpt.GreedyTakesTheTop | packages/server/src/adapters/github.ts:336-347 | The heaviest region is always taken, and first; two or more are within both budgets |
| FailureExcerpt.GreedyWastesNothing | packages/server/src/adapters/github.ts:336-342 | A region that was passed over would not fit at the end either |
| ExcerptText.Assemble | packages/server/src/adapters/github.ts:350-354 | The picked lines are those of the regions with a separator between |
| ExcerptText.ShownIffCovered | packages/server/src/adapters/github.ts:350-354 | A log line is written down exactly if a region covers it |
| ExcerptText.SlotsInLogOrder | packages/server/src/adapters/github.ts:349-354 | Separate regions are written down in log order |
| ExcerptText.AllHitsInLogOrder | packages/server/src/adapters/github.ts:349-354 | When all regions are written down, every failure line is there, in log order |
| ExcerptText.PickedCountIsUsed | packages/server/src/adapters/github.ts:343-354 | The number of picked lines is the running counter, and sorting back changes neither counter |
| ExcerptBuilder.CollapsedExactly | packages/server/src/adapters/github.ts:360-370 | No line is left three times in a row, and nothing is dropped unless one was |
| ExcerptBuilder.TextsStay | packages/server/src/adapters/github.ts:360-370 | Collapsing loses no text and adds none |
| ExcerptBuilder.RunKeepsTwo | packages/server/src/adapters/github.ts:360-370 | A run of equal lines between other lines keeps its first two, or the one it has, in its place, and both sides are collapsed on their own |
| ExcerptBuilder.Collapse | packages/server/src/adapters/github.ts:361-370 | The loop collapses exactly so and reports whether it dropped anything |
| ExcerptBuilder.FinishIsBounded | packages/server/src/adapters/github.ts:370-380 | At most 80 lines and 4000 characters, trimmed; not truncated exactly if nothing was cut or collapsed and both caps are kept, and then the whole text |
| ExcerptBuilder.RankingIsSound | packages/server/src/adapters/github.ts:312-322 | Ranking keeps the regions and their weights and orders them by weight, then log order |
| ExcerptBuilder.NothingSkippedIsEverything | packages/server/src/adapters/github.ts:323-354 | If no region was passed over, sorting back gives all the merged regions |
| ExcerptBuilder.BuildFailureExcerpt | packages/server/src/adapters/github.ts:277-381 | The whole function: bounded and trimmed; blank logs give nothing; with hits the greedy choice among the ranked regions, and unless truncated every failure line in log order; without hits the tail |
| ExcerptBuilder.ExcerptOfHits | packages/server/src/adapters/github.ts:292-380 | With failure lines: the greedy choice among the ranked regions, bounded, and complete in log order unless truncated |
| ExcerptBuilder.ExcerptOfTail | packages/server/src/adapters/github.ts:356-380 | Without failure lines: the last 80 lines, bounded, truncated if there were more or a cap or the collapsing took something |
| ExcerptDetermined.RegionsAreDetermined | packages/server/src/adapters/github.ts:299-303 | Separate regions that cover the same lines are the same regions |
| ExcerptDetermined.RankingIsDetermined | packages/server/src/adapters/github.ts:312-322 | Regions and weights determine what is ranked |
| ExcerptDetermined.ExcerptIsDetermined | packages/server/src/adapters/github.ts:277-381 | So hits, regions, ranking, excerpt and truncation flag are determined by the log alone |
| ExcerptBuilder.FinishExcerpt | packages/server/src/adapters/github.ts:360-380 | The collapsing and both caps |
| ExcerptLimits.MarkerWinsExactly | packages/server/src/adapters/github.ts:259-263 | Which of two regions ranks first: one with markers outweighs one without exactly as long as the latter has not a thousand lines of vocabulary more for each marker |
| ExcerptShown.LineShownExactly | packages/server/src/adapters/github.ts:323-380 | A log line, a failure line for one, is in the excerpt if and only if its region was taken and what is written up to and including it keeps both caps; it then is a line of the excerpt, white space around it aside |
| ExcerptShown.ShowsExactly | packages/server/src/adapters/github.ts:360-380 | The same for any selected lines: collapsing and both caps keep a line exactly if what is left up to and including it keeps both caps |
| ExcerptShown.SeveralRegionsFit | packages/server/src/adapters/github.ts:323-380 | With several regions taken no line is lost to the line cap, and at most the last few characters to the other, one for each region beyond the second; with two, every line of them is shown |
| ExcerptNoisyLog.MarkerCanLose | packages/server/src/adapters/github.ts:253-380 | On a log of a thousand and one lines of vocabulary, a gap and a marker, every excerpt ranks the marker's region second, passes it over, and does not hold its line |
| ExcerptCrowdedLog.MarkerIsCutOff | packages/server/src/adapters/github.ts:253-380 | On a log of a hundred lines of vocabulary and then a marker, the one region is taken and every excerpt is cut before the marker's line |
| ExcerptCrowdedLog.ExcerptOfCrowdedLog | packages/server/src/adapters/github.ts:277-381 | The function itself on that log: truncated, and without the marker's line |
| ExcerptNoisyLog.ExcerptOfNoisyLog | packages/server/src/adapters/github.ts:277-381 | The function itself on that log: truncated, and without the marker's line |
| ExcerptLimits.WrittenLength | packages/server/src/adapters/github.ts:323-354 | The text of several regions is as long as the character counter says plus one for every region beyond the second |
| ExcerptLimits.CutExactly | packages/server/src/adapters/github.ts:323-380 | With failure lines the excerpt is cut if and only if a region was passed over, a line comes three times in a row, or the counters, with one character more for every region beyond the second and without the white space at both ends, are above a cap; two regions that are all taken are cut only for a triple |
| ExcerptLimits.WhatFitsIsTaken | packages/server/src/adapters/github.ts:326-347 | Regions that together keep both budgets are all taken |
| ExcerptThreeFailures.ThreeMerged | packages/server/src/adapters/github.ts:293-303 | On a log of 29 lines with failures at its first, middle and last line the regions are the three windows, with a line between any two |
| ExcerptThreeFailures.ThreeAreTaken | packages/server/src/adapters/github.ts:326-347 | Where those three regions bring the character counter exactly to the cap, none is passed over, in whatever order they rank |
| ExcerptThreeFailures.AcceptedAndYetCut | packages/server/src/adapters/github.ts:327-379 | On such a log nothing is passed over or collapsed, the counter stands at the cap, the line cap is kept, and yet the excerpt is cut |
| ExcerptThreeFailures.ExcerptOfThreeFailures | packages/server/src/adapters/github.ts:277-381 | The function itself on one such log: truncated |
| ExcerptLaws.WrittenExactly | packages/server/src/adapters/github.ts:349-354 | What is written for the regions: exactly the log lines they cover, unchanged, once each and in order, with ... between two of them exactly where lines of the log are left out |
| ExcerptLaws.CapsExactly | packages/server/src/adapters/github.ts:360-380 | The excerpt is the text of the first 80 lines left by the collapsing, whole up to 4000 characters and otherwise its first 4000 without the blanks at the end |
| ExcerptLaws.TailExactly | packages/server/src/adapters/github.ts:356-358 | The tail is the last 80 lines of the log, or all of it, in order |
| ExcerptLaws.FitsExactly | packages/server/src/adapters/github.ts:326-342 | A region fits exactly if it is the first or both counters stay within 80 lines and 4000 characters with it |
| ExcerptLaws.RankedExactly | packages/server/src/adapters/github.ts:322 | Ranked means heavier first, ties by where the region starts |
| ExcerptLaws.WeightExactly | packages/server/src/adapters/github.ts:311-321 | A region weighs a thousand for each marker and one for each line of vocabulary |
| CheckPolling.FailsClosed | packages/server/src/adapters/github.ts:92-101 | Success means that there is a check and each is known to be fine; more checks never turn another answer into success |
| CheckPolling.SummaryExactly | packages/server/src/adapters/github.ts:72-101 | Each summary in words: success if and only if there is a check and each says success, neutral or skipped, in any case; failure if and only if one says one of the seven failing words, or none says one of the six waiting ones and one says nothing known; pending if and only if one waits and none failed |
| CheckPolling.FieldsInOrder | packages/server/src/adapters/github.ts:92-95 | A check is judged by its conclusion whatever its state and status; by its state only without a conclusion; by its status only without both |
| CheckPolling.ConclusionsDecide | packages/server/src/adapters/github.ts:92-101 | Check runs that all have a conclusion are a success if and only if each conclusion is spelt success, neutral or skipped, and a failure as soon as one is spelt like a failing word |
| CheckPolling.PollSays | packages/server/src/adapters/github.ts:938-959 | The poll reports success or failure exactly when the read it stops with says so in these words |
| CheckPolling.GivesUpExactly | packages/server/src/adapters/github.ts:938-959 | It reports a timeout exactly if aborted, or in the first turn that reaches the deadline with nothing conclusive |
| CheckPolling.PollPrChecksDetailed | packages/server/src/adapters/github.ts:938-959 | The poll stops in the first turn that is aborted, throws, is conclusive or past the deadline, reports that turn or passes the exception on, and ends as the clock moves on |
| CheckPolling.OutcomeIsUnique | packages/server/src/adapters/github.ts:938-959 | Reads, clock and abort signal determine the outcome |
| CheckPolling.ResultsMeanWhatTheySay | packages/server/src/adapters/github.ts:942-959 | Success and failure are those of the first conclusive read, none exactly two reads in a row without checks, the last snapshot is true, and an unaborted timeout means running checks or a single empty read |
| CheckPolling.ConclusiveReadsAreReported | packages/server/src/adapters/github.ts:946-956 | A conclusive read is never turned into a timeout |
| CheckPolling.NoneIsMeantExactly | packages/server/src/adapters/github.ts:574-620 | The answer none is about a pull request seen twice without checks if and only if both reads found it |
| CheckPolling.NotFoundIsReportedAsNone | packages/server/src/adapters/github.ts:574-620 | The world without the pull request, in which the poll answers none in its second turn |
| MarkdownLines.TitleIsTheMatch | packages/shared/src/execution-contract.ts:97 | The heading and item pattern matches exactly when a title is found, and captures the match with the longest leading space and then the shortest title |
| ContractCriteria.ParseAcceptanceCriteria | packages/shared/src/execution-contract.ts:185-250 | The loop with its accumulator, current item, evidence flag and table of seen texts computes the parse, whatever lower-casing does |
| ContractCriteria.TakeLine | packages/shared/src/execution-contract.ts:195-245 | One line: the state it leads to or the error it raises |
| CriteriaPrinting.AcceptsExactly | packages/shared/src/execution-contract.ts:185-250 | The parser yields a list exactly for the sections that spell it, with blank lines anywhere, non-empty texts and evidence, and no two texts equal after normalising |
| CriteriaPrinting.RenderContractAcceptanceCriteria | packages/shared/src/execution-contract.ts:254-261 | The printer's loop |
| CriteriaPrinting.AcceptedIsWellFormed | packages/shared/src/execution-contract.ts:185-250 | Everything the parser returns is non-empty, trimmed, on one line and pairwise distinct |
| CriteriaPrinting.CriteriaRoundTrip | packages/shared/src/execution-contract.ts:175-261 | Parsing the rendered criteria gives the list back if and only if it is well-formed, whatever lower-casing does |
| CriteriaPrinting.TwoTextsExactly | packages/shared/src/execution-contract.ts:181-213 | Two printed criteria read back exactly if lower-casing leaves their texts different, blanks aside; otherwise the second is reported as a duplicate |
| LineSections.SplitIsLossless | packages/shared/src/execution-contract.ts:92-107 | Preamble and sections put together again are the description, every heading starts a section and no body holds one |
| LineSections.SplitOfFlat | packages/shared/src/execution-contract.ts:92-107 | Sections that are written one after the other are found again |
| ContractSections.SplitSections | packages/shared/src/execution-contract.ts:92-107 | The splitting loop |
| ContractSections.FindSections | packages/shared/src/execution-contract.ts:286-297 | The loop over the sections finds the table of canonical ones or the first heading that comes twice |
| SectionTable.FindsExactly | packages/shared/src/execution-contract.ts:286-297 | The table exists exactly if no canonical heading comes twice, and holds each one's text |
| SectionTable.TableExactly | packages/shared/src/execution-contract.ts:286-297 | The same, in terms of the sections' headings |
| SectionTable.FindIgnoresOrder | packages/shared/src/execution-contract.ts:286-297 | The order of the canonical sections does not matter |
| SectionTable.EntriesIgnoreOrder | packages/shared/src/execution-contract.ts:286-297 | Nor does the order of all sections |
| SectionTable.OtherSectionsAddNothing | packages/shared/src/execution-contract.ts:289 | Sections under other headings add nothing, wherever they stand |
| ContractSections.NormalizedExactly | packages/shared/src/execution-contract.ts:65-67 | A name is normalised to its words in lower case with one blank between any two, however many blanks, dashes and underscores join or surround them |
| ContractSections.HeadingsAreNamed | packages/shared/src/execution-contract.ts:44-74 | A heading is that of one of the five sections if and only if its words are those of that section's name, in any case and joined by any blanks, dashes and underscores |
| ContractSections.JoinExactly | packages/shared/src/execution-contract.ts:65-67 | White space, dashes and underscores join words, and nothing else does |
| Words.EveryTextIsWoven | packages/shared/src/execution-contract.ts:65-67 | Every text with anything but separators in it is words with what joins and surrounds them, so these statements are about all names |
| ContractParts.ModesAreRead | packages/shared/src/execution-contract.ts:110-125 | A mode is read if and only if its words are those of the mode, in any case and joined by any blanks, dashes and underscores, whatever punctuation follows, directly or not |
| ContractParts.CriterionKeyExactly | packages/shared/src/execution-contract.ts:181-183 | Criteria are compared by their words with one blank between any two, in lower case, whatever white space joins or surrounds them |
| LinePatterns.CheckboxExactly | packages/shared/src/execution-contract.ts:175 | A line is a checkbox with a text if and only if it is white space, a dash or star, white space, a box with a blank or x in it, white space, and the text on one line |
| LinePatterns.EvidenceExactly | packages/shared/src/execution-contract.ts:178 | A line is evidence if and only if it is white space, perhaps one of three bullets and white space, the word in any case, a colon with any white space around it, and the text on one line |
| LinePatterns.ItemExactly | packages/shared/src/execution-contract.ts:140-179 | A line is an item or a plain bullet if and only if it is white space, a bullet or a number with a full stop or bracket, and white space after it, with a title for an item |
| LinePatterns.ClassifyExactly | packages/shared/src/execution-contract.ts:195-245 | Which lines of a criteria section count as blank, checkbox, evidence, plain bullet or anything else, in this order, in terms of those parts |
| ContractParts.ModesAreNamed | packages/shared/src/execution-contract.ts:76-90 | Exactly the listed spellings name a mode, each its own |
| ContractParts.TrailingExactly | packages/shared/src/execution-contract.ts:110-125 | Before the mode is looked up exactly the punctuation at its end is dropped |
| ContractParts.ParseNonGoals | packages/shared/src/execution-contract.ts:136-152 | The list loop: all items, or the first error |
| ContractParts.ItemsExactly | packages/shared/src/execution-contract.ts:136-152 | A list is read exactly if every visible line is an item, item by item and in order |
| ContractParts.BlankItemExactly | packages/shared/src/execution-contract.ts:140 | The text of an item is blank exactly if its line holds a bullet or number marker and nothing else |
| ContractParts.BlankNonGoalsExactly | packages/shared/src/execution-contract.ts:136-152 | An accepted list holds a non-goal without text if and only if one of its lines is a bare bullet or number marker |
| ContractParts.BareBulletIsAnItem | packages/shared/src/execution-contract.ts:136-152 | A section of one bullet with two blanks after it is accepted with one non-goal, a blank |
| ContractParts.ExitIsOneParagraph | packages/shared/src/execution-contract.ts:154-165 | An exit predicate is accepted exactly if it has a visible line and no blank line in between, and is then the trimmed text |
| ExecutionContract.CompileExecutionContract | packages/shared/src/execution-contract.ts:282-340 | The whole compilation, for a missing, blank or any other description |
| ExecutionContract.HasExecutionContractSignal | packages/shared/src/execution-contract.ts:343-350 | True exactly if one of the four signal headings is present |
| ExecutionContract.BlankHasNoSections | packages/shared/src/execution-contract.ts:283-285 | A blank description has no headings, so the early return changes nothing |
| ExecutionContract.ContractExactly | packages/shared/src/execution-contract.ts:286-340 | A description compiles to a contract, and to its criteria as text, if and only if no canonical heading comes twice and each of the five heads a section that states its part: one visible line naming the mode, nothing but list items for the non-goals, one paragraph, some text, and criteria spelled, stated and distinct |
| ExecutionContract.ContractExactlyOnSignal | packages/shared/src/execution-contract.ts:282-350 | When compiling returns, there is a contract exactly if there is a signal heading; it fails only with a signal heading or a canonical heading twice, and always in the latter case |
| ExecutionContract.LegacyExactly | packages/shared/src/execution-contract.ts:299-306 | Without a signal heading and with no heading twice, compiling returns no contract, and as acceptance criteria the trimmed text under that heading, if there is one that is not blank, and none otherwise |
| ContractErrors.ErrorsExactly | packages/shared/src/execution-contract.ts:282-340 | With a signal heading and no heading twice, compiling fails if and only if one of the five sections is missing or faulty, and with what is wrong with the first of them in the order mode, non-goals, exit predicate, stopping point, criteria |
| ContractErrors.FaultExactly | packages/shared/src/execution-contract.ts:136-333 | What is wrong with a section, for each error: the count of visible lines or an unknown mode, a visible line that is no item or no item at all, nothing or several paragraphs, nothing, and the error of the criteria |
| ContractErrors.CriteriaErrorsExactly | packages/shared/src/execution-contract.ts:185-250 | Criteria are refused with the error of the first line that does not go with those before it: no text, a duplicate, evidence before a criterion, a second or empty evidence, a plain bullet, or anything else |
| ContractErrors.DuplicatesAreNamed | packages/shared/src/execution-contract.ts:286-297 | A heading that comes twice is refused, and the one named is that of the first section with the heading of an earlier one |
| ExecutionContract.OrderDoesNotMatter | packages/shared/src/execution-contract.ts:282-340 | The result depends only on which canonical sections there are: success gives the same contract and criteria, failure stays failure |
| ExecutionContract.DescriptionsAreWritten | packages/shared/src/execution-contract.ts:92-107 | Every description is its preamble and sections written one after the other |
| ExecutionContract.WrittenSections | packages/shared/src/execution-contract.ts:92-107 | What is written that way splits into just these sections |
| ExecutionContract.Reordered | packages/shared/src/execution-contract.ts:282-340 | Rewriting a description with its sections in another order, or another preamble, compiles to the same |
| ExecutionContract.OtherSectionsDoNotMatter | packages/shared/src/execution-contract.ts:286-291 | Inserting or removing a section under any other heading changes nothing |
| ExecutionContract.CompiledCriteriaReadBack | packages/shared/src/execution-contract.ts:335-339 | The criteria text of a compiled contract parses to the contract's criteria |
| CursorHealth.RoundIsUnique | packages/server/src/adapters/agent-health.ts:239-286 | A round's verdict is determined by its attempts |
| CursorHealth.RoundExactly | packages/server/src/adapters/agent-health.ts:239-286 | A round is soft if and only if no attempt succeeds, misses the program or says that nobody is logged in; else the first that does decides, a missing program before the login and the login before success |
| CursorHealth.StreakIsTheRun | packages/server/src/adapters/agent-health.ts:286 | The streak is the length of the run of soft rounds at the end |
| CursorHealth.LastHealthyStands | packages/server/src/adapters/agent-health.ts:249-275 | The remembered time is that of the last success with nothing but soft rounds since, if there is one |
| CursorHealth.SoftIssueExactly | packages/server/src/adapters/agent-health.ts:285-300 | The unconfirmed issue is published exactly when no standing success lies within five minutes or this is at least the second soft round in a row |
| CursorHealth.HardFailuresForget | packages/server/src/adapters/agent-health.ts:250-269 | A hard failure is published at once, and the next soft round is published too |
| CursorHealth.HealthMonitor.CursorRuntimeIssues | packages/server/src/adapters/agent-health.ts:239-300 | One round of attempts: its verdict, what it publishes, and streak and memory after it, for every history |
| CursorHealth.HealthMonitor.RuntimeIssues | packages/server/src/adapters/agent-health.ts:587-609 | The cache: an entry is served unchanged while young enough, and otherwise replaced by a new answer marked soft exactly after a soft round |
| CursorHealth.ServedIsYoung | packages/server/src/adapters/agent-health.ts:589-593 | No answer served is a minute old, and none of a soft round, published or held back, is 15 seconds old |
| CursorHealth.ServesExactly | packages/server/src/adapters/agent-health.ts:589-593 | A stored answer is served exactly while it is younger than 60 seconds, or 15 if it is marked soft |
| CursorHealth.CapIsReported | packages/server/src/adapters/agent-health.ts:588-609 | The usage cap is reported exactly while it lasts, first and once, and of the other issues exactly those that were found |
| Percentiles.RankIsRight | packages/shared/src/execution-report.ts:256 | The index is the nearest rank and in range |
| Percentiles.SortedPercentile | packages/shared/src/execution-report.ts:253-257 | The sample at that index is the smallest with at least p percent of the samples at or below it, for every p from 1 to 100 |
| Percentiles.PercentileIsUnique | packages/shared/src/execution-report.ts:248-258 | There is only one such value |
| Percentiles.PercentilesAreRight | packages/shared/src/execution-report.ts:248-258 | Both percentiles are right, P50 is at most P95, and there are none exactly if nothing is known |
| Percentiles.PercentilesIgnoreOrder | packages/shared/src/execution-report.ts:253-257 | The order of the samples does not matter |
| Percentiles.CoverageAdds | packages/shared/src/execution-report.ts:261-287 | Sum, known and total add over concatenated inputs; no sum exactly if nothing is known; partial exactly if something is known and something not |
| Percentiles.CoverageOfOne | packages/shared/src/execution-report.ts:248-287 | One known sample is its own sum and both percentiles; an unknown one, and no sample, have none, each with its reason |
| Percentiles.ReasonsExactly | packages/shared/src/execution-report.ts:261-287 | Which reasons are given: no observations, missing metadata, those given, or those and partial, each exactly when |
| Percentiles.BelowCounts | packages/shared/src/execution-report.ts:253-257 | What at or below counts: every sample once |
| LatestRequest.FlightExactly | apps/web/src/lib/latestRequest.ts:18-31 | A request is neither given up nor unissued exactly if its ticket lies above the count at the last invalidation |
| LatestRequest.NewestIsUnique | apps/web/src/lib/latestRequest.ts:13-36 | What should be shown is determined by the history |
| LatestRequest.SettledTells | apps/web/src/lib/latestRequest.ts:20-30 | Comparing with the last applied ticket is the same as asking for the newest request that landed |
| LatestRequest.LatestRequestGate.Run | apps/web/src/lib/latestRequest.ts:17-19 | A call takes the next ticket and changes nothing shown |
| LatestRequest.LatestRequestGate.Settled | apps/web/src/lib/latestRequest.ts:20-30 | After a settlement the display is the newest landed outcome, applied tickets strictly increase, and unless the gate was invalidated since the call, the display is from it or a later one |
| LatestRequest.LatestRequestGate.InvalidateAll | apps/web/src/lib/latestRequest.ts:32-34 | Every request in flight is given up and the display stays |
| Versions.PrintedReadsBack | packages/cli/src/managed/semver.ts:3-4 | A version in the usual notation reads back as its numbers, with and without the leading v |
| Versions.CompareSemver | packages/cli/src/managed/semver.ts:2-13 | The loop with its early return |
| Versions.CompareIsFirstDifference | packages/cli/src/managed/semver.ts:8-12 | The answer is the sign at the first differing part under zero padding, and 0 exactly if there is none |
| Versions.CompareTurns | packages/cli/src/managed/semver.ts:8-12 | Swapping the arguments turns the sign |
| Versions.CompareChains | packages/cli/src/managed/semver.ts:8-12 | At most is transitive |
| Versions.NewerFirstIsOrder | packages/cli/src/managed/activate.ts:47 | The comparator is a total preorder, so the sort is well defined |
| VersionLaws.CompareExactly | packages/cli/src/managed/semver.ts:2-13 | With zeros added up to a common length: 0 if and only if the numbers are equal, 1 or -1 if and only if one has the greater number at the first difference |
| VersionLaws.PartExactly | packages/cli/src/managed/semver.ts:3-4 | A part reads as the number that follows blanks and a sign, whatever comes after its digits |
| VersionLaws.NoNumber | packages/cli/src/managed/semver.ts:3-4 | A part without digits there reads as zero |
| Sorting.SortSorts | packages/cli/src/managed/activate.ts:47 | The sort orders the list and keeps its elements |
| Sorting.SortIsStable | packages/cli/src/managed/activate.ts:47 | Versions that compare equal keep their directory order |
| VersionPruning.VersionsRoot.PruneOldVersions | packages/cli/src/managed/activate.ts:38-56 | What is left is everything hidden or no directory, the first `keep` versions in descending order, and the current one; a removal that throws ends the loop with just the versions before it pruned |
| VersionPruning.NewestStay | packages/cli/src/managed/activate.ts:49-54 | Those are `keep` versions, or all if fewer, and none that goes is newer than any of them |
| VersionLaws.StaysExactly | packages/cli/src/managed/activate.ts:38-56 | After a pruning without an exception exactly this is left: what is no directory, names that begin with a dot, the retained versions and the current one |

## Left out

- Git's and gh's text formats, timeouts, process spawning and error messages: commands act on abstract state and may fail; errors are kinds, not prose.
- Object transfer: all parties share one append-only commit graph, numbered so that parents come before children; missing objects do not occur, and during a resolution the graph already holds what the fetches will bring.
- Other writers of the local repository: a resolution holds a per-repository lock, so local refs and checkouts move only by the modelled call, except for files a hook or a straggling process leaves.
- GitPush.PushBranch: requires that the local ref stands still during the call, which is an assumption, as `pushBranch` runs without that lock; `GitPush.AheadKeepsProof` covers a HEAD that moves ahead between the proof and the forced push, not one that is moved back.
- The probes for MERGE_HEAD, CHERRY_PICK_HEAD and REVERT_HEAD always answer truthfully.
- Operator-confirmed `pushLeaseToSha`, `blockPush`, worktree removal and detached read-only checkouts: a bare compare-and-swap, hygiene, and plain sequences of modelled commands.
- PidMarker.MutualExclusion: the exclusive create and its content are one step, as are the overwrite and its content; a pid is not given to a second process during a run.
- RelationRounds.FetchLinearBlockers: the server stands still, its listing has an end, and it lists each id once and only ids that were asked for; of the shared deadline only that a request which is out of time throws, so where a list does not end some request has to throw.
- The regular expressions that classify log lines, and the sanitising before it: each line comes with its class.
- CheckPolling.PollPrChecksDetailed: the clock moves on with every wait.
- Lower-casing: criteria are compared under any lower-casing function; headings and modes are lower-cased within ASCII, which reads the names in their tables just as full lower-casing does; check states too, where only a Kelvin sign for the k of `skipped` would read differently. A character is a UTF-16 code unit.
- The heading table is a map of five names; the property names a JavaScript object inherits, such as `constructor`, are not looked up.
- `resolveIssueContractFields` and `tryCompileContract`: one branch each on top of the compiler.
- CursorHealth.HealthMonitor.RuntimeIssues: calls run one after another; the Muse runtime with its re-reads, and the text of the probe's output, are left out.
- Percentiles.CoverageAdds: sums are over real numbers, without the rounding of doubles; the rank is computed exactly.
- LatestRequest.LatestRequestGate.Settled: the callbacks show what they are given and do not throw.
- Versions.CompareSemver: numbers are unbounded integers, so parts beyond 2^53 are compared exactly; pre-release ordering is not part of the code, which follows only the numeric comparison of section 11 of Semantic Versioning 2.0.0.
- VersionPruning.VersionsRoot.PruneOldVersions: a removal that throws leaves the directory entry, and the current version is recognised by its name.
- Status transitions, permission and budget merging, query helpers, user interface, command line, server start-up and write-back: they would add only easy members or rest on outside systems.
