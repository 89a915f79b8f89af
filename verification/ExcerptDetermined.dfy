/** The regions, their ranking and with them the excerpt are determined by the log alone. */
module ExcerptDetermined {
  import opened ExcerptRegions
  import opened FailureExcerpt
  import opened ExcerptText
  import opened ExcerptBuilder
  import opened Sorting

  ghost predicate SameCover(a: seq<Region>, b: seq<Region>) {
    forall i :: Covered(i, a) <==> Covered(i, b)
  }

  lemma CoveredByTwo(i: int, a: Region, b: Region)
    ensures Covered(i, [a, b]) <==> Inside(i, a) || Inside(i, b)
  {
    var both := [a, b];
    assert both[0] == a && both[1] == b;
  }

  lemma CoveredInLog(i: int, regions: seq<Region>, n: nat)
    requires Apart(regions, n) && Covered(i, regions)
    ensures 0 <= i < n
  {
  }

  lemma CoveredByFirst(i: int, a: seq<Region>, n: nat)
    requires Apart(a, n) && a != []
    ensures Covered(i, a) <==> Inside(i, a[0]) || Covered(i, a[1..])
    ensures Covered(i, a[1..]) ==> i > a[0].to + 1
  {
    assert forall k :: 0 <= k < |a[1..]| ==> a[1..][k] == a[k + 1];
    if Covered(i, a) {
      var k :| 0 <= k < |a| && Inside(i, a[k]);
      assert k > 0 ==> Inside(i, a[1..][k - 1]);
    }
  }

  /** Separate regions that cover the same lines start with the same region. */
  lemma SameFirst(a: seq<Region>, b: seq<Region>, n: nat)
    requires Apart(a, n) && Apart(b, n) && SameCover(a, b) && a != [] && b != []
    ensures a[0] == b[0]
  {
    var x, y := a[0], b[0];
    forall i
      ensures (Inside(i, x) || i > x.to + 1 || !Covered(i, a)) && (Inside(i, y) || i > y.to + 1 || !Covered(i, b))
    {
      CoveredByFirst(i, a, n);
      CoveredByFirst(i, b, n);
    }
    assert Inside(x.from, x) && Inside(y.from, y) && Inside(x.to, x) && Inside(y.to, y);
    assert Covered(x.from, a) && Covered(y.from, b) && Covered(x.to, a) && Covered(y.to, b);
    Meets(x, y, a, b);
    Meets(y, x, b, a);
  }

  /** The line after the first region is in no region. */
  lemma Meets(x: Region, y: Region, a: seq<Region>, b: seq<Region>)
    requires a != [] && x == a[0] && x.from <= x.to && y.from <= y.to && SameCover(a, b) && b != [] && y == b[0]
    requires forall i :: Covered(i, b) ==> Inside(i, y) || i > y.to + 1
    requires forall i :: Covered(i, a) ==> Inside(i, x) || i > x.to + 1
    ensures x.from >= y.from && x.to <= y.to
  {
    assert Inside(x.from, a[0]) && Covered(x.from, a) && Covered(x.from, b);
    assert Inside(y.from, b[0]) && Covered(y.from, b) && Covered(y.from, a);
    assert Inside(y.to + 1, x) ==> Covered(y.to + 1, a);
  }

  lemma FirstIsCovered(a: seq<Region>, n: nat)
    requires Apart(a, n)
    ensures a == [] || Covered(a[0].from, a)
  {
    assert a != [] ==> Inside(a[0].from, a[0]);
  }

  lemma {:induction false} RegionsAreDetermined(a: seq<Region>, b: seq<Region>, n: nat)
    requires Apart(a, n) && Apart(b, n) && SameCover(a, b)
    ensures a == b
  {
    if a == [] || b == [] {
      FirstIsCovered(a, n);
      FirstIsCovered(b, n);
    } else {
      SameFirst(a, b, n);
      forall i ensures Covered(i, a[1..]) <==> Covered(i, b[1..]) {
        CoveredByFirst(i, a, n);
        CoveredByFirst(i, b, n);
      }
      RegionsAreDetermined(a[1..], b[1..], n);
    }
  }

  /** A ranking of given regions with their weights is determined. */
  lemma {:induction false} RankingIsDetermined(a: seq<Ranked>, b: seq<Ranked>, lines: seq<LogLine>)
    requires multiset(Regions(a)) == multiset(Regions(b)) && Weighed(a, lines) && Weighed(b, lines)
    ensures multiset(a) == multiset(b)
    decreases |a|
  {
    SameElementsSameLength(Regions(a), Regions(b));
    if a != [] {
      assert Regions(a)[0] in multiset(Regions(a));
      var i := IndexIn(Regions(b), Regions(a)[0]);
      assert a[0] == b[i];
      RegionsWithout(a, b, i);
      RankingIsDetermined(a[1..], b[..i] + b[i + 1..], lines);
      BackTogether(a, b, i);
    }
  }

  lemma RegionsWithout(a: seq<Ranked>, b: seq<Ranked>, i: nat)
    requires a != [] && i < |b| && a[0] == b[i] && multiset(Regions(a)) == multiset(Regions(b))
    ensures multiset(Regions(a[1..])) == multiset(Regions(b[..i] + b[i + 1..]))
  {
    var rest := b[..i] + b[i + 1..];
    assert Regions(a)[1..] == Regions(a[1..]);
    assert Regions(b)[..i] + Regions(b)[i + 1..] == Regions(rest);
    TailWithoutFirst(Regions(a));
    WithoutOne(Regions(b), i);
  }

  lemma BackTogether(a: seq<Ranked>, b: seq<Ranked>, i: nat)
    requires a != [] && i < |b| && a[0] == b[i] && multiset(a[1..]) == multiset(b[..i] + b[i + 1..])
    ensures multiset(a) == multiset(b)
  {
    assert a == [a[0]] + a[1..];
    assert b == b[..i] + ([b[i]] + b[i + 1..]);
  }

  /** Whatever way it was made, the excerpt of a log is the same. */
  lemma ExcerptIsDetermined(lines: seq<LogLine>, h: seq<nat>, k: seq<nat>, m: seq<Region>, n: seq<Region>,
                            s: seq<Ranked>, t: seq<Ranked>,
                            x: string, y: string, cut: bool, shortened: bool)
    requires IsExcerpt(lines, h, m, s, x, cut) && IsExcerpt(lines, k, n, t, y, shortened)
    ensures m == n && s == t && x == y && cut == shortened
  {
    SameHits(lines, h, k);
    forall i ensures Covered(i, m) <==> Covered(i, n) {
      SameNear(h, k, i);
    }
    RegionsAreDetermined(m, n, |lines|);
    RankingIsDetermined(s, t, lines);
    forall p, q | p in s && q in s && Before(p, q) && Before(q, p) ensures p == q {
      SameStart(s, m, p, q, |lines|);
    }
    OrderIsUnique(s, t, Before);
  }

  lemma SameHits(lines: seq<LogLine>, h: seq<nat>, k: seq<nat>)
    requires AreHits(lines, h) && AreHits(lines, k)
    ensures forall i: nat :: i in h <==> i in k
  {
  }

  lemma SameNear(h: seq<nat>, k: seq<nat>, i: int)
    requires forall j: nat :: j in h <==> j in k
    ensures Near(i, h) <==> Near(i, k)
  {
    if Near(i, h) {
      var j :| 0 <= j < |h| && Abs(i - h[j]) <= CONTEXT_LINES;
      assert h[j] in k;
    }
    if Near(i, k) {
      var j :| 0 <= j < |k| && Abs(i - k[j]) <= CONTEXT_LINES;
      assert k[j] in h;
    }
  }

  lemma SameStart(s: seq<Ranked>, m: seq<Region>, p: Ranked, q: Ranked, n: nat)
    requires multiset(Regions(s)) == multiset(m) && Apart(m, n) && p in s && q in s
    requires p.region.from == q.region.from && p.weight == q.weight
    ensures p == q
  {
    var i :| 0 <= i < |s| && s[i] == p;
    var j :| 0 <= j < |s| && s[j] == q;
    assert Regions(s)[i] in multiset(Regions(s)) && Regions(s)[j] in multiset(Regions(s));
    var a := IndexIn(m, p.region);
    var b := IndexIn(m, q.region);
    assert a < b ==> m[a].to + 1 < m[b].from;
    assert b < a ==> m[b].to + 1 < m[a].from;
  }
}
