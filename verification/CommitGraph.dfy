/** Commits, ancestry and the two comparisons git makes between histories (`rev-list A..B` and
    `cherry`). Commits are content-addressed and immutable, so one append-only graph stands for all
    commits that exist anywhere; a commit is numbered after its parents. */
module CommitGraph {

  type Sha = nat

  /** Repo-relative path to content. */
  type Tree = map<string, string>

  datatype Commit = Commit(parents: seq<Sha>, tree: Tree, patch: nat, subject: string)

  type Graph = map<Sha, Commit>

  predicate WellFormed(g: Graph) {
    forall c | c in g :: forall i | 0 <= i < |g[c].parents| :: g[c].parents[i] in g && g[c].parents[i] < c
  }

  ghost predicate Extends(g: Graph, h: Graph) {
    forall c :: c in g ==> c in h && h[c] == g[c]
  }

  /** `git merge-base --is-ancestor a d`: `a` is `d` or an ancestor of it. */
  predicate Reaches(g: Graph, d: Sha, a: Sha)
    requires WellFormed(g)
    decreases d
  {
    d in g && (a == d || exists p <- g[d].parents :: Reaches(g, p, a))
  }

  function History(g: Graph, d: Sha): (h: set<Sha>)
    requires WellFormed(g)
    ensures forall a: Sha :: a in h <==> Reaches(g, d, a)
  {
    ReachedIsKnown(g, d);
    set a | a in g && Reaches(g, d, a)
  }

  lemma {:induction false} ReachedIsKnown(g: Graph, d: Sha)
    requires WellFormed(g)
    ensures forall a: Sha :: Reaches(g, d, a) ==> a in g && a <= d
    decreases d
  {
    if d in g {
      forall p | p in g[d].parents ensures forall a: Sha :: Reaches(g, p, a) ==> a in g && a <= p {
        ReachedIsKnown(g, p);
      }
    }
  }

  lemma {:induction false} ReachesTransitive(g: Graph, c: Sha, b: Sha, a: Sha)
    requires WellFormed(g) && Reaches(g, c, b) && Reaches(g, b, a)
    ensures Reaches(g, c, a)
    decreases c
  {
    if b != c {
      var p :| p in g[c].parents && Reaches(g, p, b);
      ReachesTransitive(g, p, b, a);
    }
  }

  lemma ReachesAntisymmetric(g: Graph, a: Sha, b: Sha)
    requires WellFormed(g) && Reaches(g, a, b) && Reaches(g, b, a)
    ensures a == b
  {
    ReachedIsKnown(g, a);
    ReachedIsKnown(g, b);
  }

  /** New commits never change the ancestry of old ones. */
  lemma {:induction false} ReachesStable(g: Graph, h: Graph, d: Sha, a: Sha)
    requires WellFormed(g) && WellFormed(h) && Extends(g, h) && d in g
    ensures Reaches(g, d, a) <==> Reaches(h, d, a)
    decreases d
  {
    forall p | p in g[d].parents ensures Reaches(g, p, a) <==> Reaches(h, p, a) {
      ReachesStable(g, h, p, a);
    }
  }

  lemma HistoryStable(g: Graph, h: Graph, d: Sha)
    requires WellFormed(g) && WellFormed(h) && Extends(g, h) && d in g
    ensures History(g, d) == History(h, d)
  {
    forall a ensures a in History(g, d) <==> a in History(h, d) {
      ReachesStable(g, h, d, a);
    }
  }

  /** A number no commit has yet, above all that exist. */
  lemma {:induction false} FreshShaExists(shas: set<Sha>) returns (sha: Sha)
    ensures forall c :: c in shas ==> c < sha
  {
    if shas == {} {
      sha := 0;
    } else {
      var c :| c in shas;
      var rest := FreshShaExists(shas - {c});
      sha := if c < rest then rest else c + 1;
      assert shas == (shas - {c}) + {c};
    }
  }

  /** `rev-list from..to`: the commits of `to` that `from` lacks. */
  function Only(g: Graph, to: Sha, from: Sha): set<Sha>
    requires WellFormed(g)
  {
    History(g, to) - History(g, from)
  }

  predicate IsMerge(c: Commit) {
    |c.parents| > 1
  }

  /** One line of `git cherry`: a commit, and whether it is marked `-` (an equivalent is upstream). */
  datatype CherryLine = CherryLine(sha: Sha, equivalent: bool)

  predicate HasEquivalent(g: Graph, upstream: set<Sha>, sha: Sha)
    requires sha in g && upstream <= g.Keys
  {
    exists u <- upstream :: !IsMerge(g[u]) && g[u].patch == g[sha].patch
  }

  /** `git cherry upstream head`: the non-merge commits of `head` that `upstream` lacks, each compared
      by patch with the non-merge commits of `upstream` that `head` lacks. */
  function Cherry(g: Graph, upstream: Sha, head: Sha): (lines: set<CherryLine>)
    requires WellFormed(g)
  {
    set c | c in Only(g, head, upstream) && !IsMerge(g[c]) ::
      CherryLine(c, HasEquivalent(g, Only(g, upstream, head), c))
  }

  /** Every commit that replacing `was` by `now` drops is a non-merge commit whose patch a commit of
      `now` carries. */
  ghost predicate DropsOnlyEquivalent(g: Graph, was: Sha, now: Sha)
    requires WellFormed(g)
  {
    forall c :: c in Only(g, was, now) ==>
      !IsMerge(g[c]) && exists u :: u in History(g, now) && !IsMerge(g[u]) && g[u].patch == g[c].patch
  }

  lemma DropsStable(g: Graph, h: Graph, was: Sha, now: Sha)
    requires WellFormed(g) && WellFormed(h) && Extends(g, h) && was in g && now in g
    requires DropsOnlyEquivalent(g, was, now)
    ensures DropsOnlyEquivalent(h, was, now)
  {
    HistoryStable(g, h, was);
    HistoryStable(g, h, now);
    forall c | c in Only(h, was, now)
      ensures !IsMerge(h[c]) && exists u :: u in History(h, now) && !IsMerge(h[u]) && h[u].patch == h[c].patch
    {
      assert c in Only(g, was, now);
      var u :| u in History(g, now) && !IsMerge(g[u]) && g[u].patch == g[c].patch;
    }
  }
}
