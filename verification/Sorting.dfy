/** What JavaScript's `sort` with a comparator does to a list: a stable sort. */
module Sorting {

  /** A comparator under which any two elements compare, and comparisons chain. */
  ghost predicate IsOrder<T(!new)>(le: (T, T) -> bool) {
    && (forall a, b :: le(a, b) || le(b, a))
    && (forall a, b, c :: le(a, b) && le(b, c) ==> le(a, c))
  }

  function Insert<T>(x: T, s: seq<T>, le: (T, T) -> bool): seq<T> {
    if s == [] then [x]
    else if le(x, s[0]) then [x] + s
    else [s[0]] + Insert(x, s[1..], le)
  }

  function Sort<T>(s: seq<T>, le: (T, T) -> bool): seq<T> {
    if s == [] then [] else Insert(s[0], Sort(s[1..], le), le)
  }

  ghost predicate Ordered<T>(s: seq<T>, le: (T, T) -> bool) {
    forall i, j :: 0 <= i < j < |s| ==> le(s[i], s[j])
  }

  lemma {:induction false} InsertKeepsElements<T>(x: T, s: seq<T>, le: (T, T) -> bool)
    ensures multiset(Insert(x, s, le)) == multiset(s) + multiset{x}
  {
    if s != [] && !le(x, s[0]) {
      InsertKeepsElements(x, s[1..], le);
      assert s == [s[0]] + s[1..];
    }
  }

  lemma {:induction false} InsertKeepsOrder<T(!new)>(x: T, s: seq<T>, le: (T, T) -> bool)
    requires IsOrder(le) && Ordered(s, le)
    ensures Ordered(Insert(x, s, le), le)
  {
    if s != [] && !le(x, s[0]) {
      InsertKeepsOrder(x, s[1..], le);
      InsertKeepsElements(x, s[1..], le);
      var rest := Insert(x, s[1..], le);
      forall i | 0 <= i < |rest| ensures le(s[0], rest[i]) {
        assert rest[i] in multiset(rest);
        assert rest[i] == x || rest[i] in s[1..];
      }
    }
  }

  lemma {:induction false} SortKeepsElements<T>(s: seq<T>, le: (T, T) -> bool)
    ensures multiset(Sort(s, le)) == multiset(s) && |Sort(s, le)| == |s|
  {
    if s != [] {
      SortKeepsElements(s[1..], le);
      InsertKeepsElements(s[0], Sort(s[1..], le), le);
      assert s == [s[0]] + s[1..];
    }
    SameElementsSameLength(Sort(s, le), s);
  }

  /** The sort puts the elements in order and neither loses nor invents one. */
  lemma {:induction false} SortSorts<T(!new)>(s: seq<T>, le: (T, T) -> bool)
    requires IsOrder(le)
    ensures Ordered(Sort(s, le), le) && multiset(Sort(s, le)) == multiset(s) && |Sort(s, le)| == |s|
  {
    SortKeepsElements(s, le);
    if s != [] {
      SortSorts(s[1..], le);
      InsertKeepsOrder(s[0], Sort(s[1..], le), le);
    }
  }

  lemma SortedAll<T>(s: seq<T>, le: (T, T) -> bool, p: T -> bool)
    requires forall i :: 0 <= i < |s| ==> p(s[i])
    ensures forall i :: 0 <= i < |Sort(s, le)| ==> p(Sort(s, le)[i])
  {
    SortKeepsElements(s, le);
    forall i | 0 <= i < |Sort(s, le)| ensures p(Sort(s, le)[i]) {
      assert Sort(s, le)[i] in multiset(Sort(s, le));
      assert Sort(s, le)[i] in s;
    }
  }

  predicate Tie<T>(x: T, y: T, le: (T, T) -> bool) {
    le(x, y) && le(y, x)
  }

  function Ties<T>(s: seq<T>, x: T, le: (T, T) -> bool): seq<T> {
    if s == [] then [] else (if Tie(x, s[0], le) then [s[0]] else []) + Ties(s[1..], x, le)
  }

  lemma {:induction false} InsertKeepsTies<T(!new)>(y: T, s: seq<T>, x: T, le: (T, T) -> bool)
    requires forall i :: 0 <= i < |s| && Tie(x, y, le) && Tie(x, s[i], le) ==> le(y, s[i])
    ensures Ties(Insert(y, s, le), x, le) == (if Tie(x, y, le) then [y] else []) + Ties(s, x, le)
  {
    if s == [] {
    } else if le(y, s[0]) {
      assert ([y] + s)[1..] == s;
    } else {
      var rest := Insert(y, s[1..], le);
      InsertKeepsTies(y, s[1..], x, le);
      assert ([s[0]] + rest)[1..] == rest;
    }
  }

  /** The sort is stable: elements that tie stay in the order in which they came. */
  lemma {:induction false} SortIsStable<T(!new)>(s: seq<T>, x: T, le: (T, T) -> bool)
    requires IsOrder(le)
    ensures Ties(Sort(s, le), x, le) == Ties(s, x, le)
  {
    if s != [] {
      SortIsStable(s[1..], x, le);
      InsertKeepsTies(s[0], Sort(s[1..], le), x, le);
    }
  }

  // ---------- Multisets of sequences ----------

  lemma WithoutOne<T>(s: seq<T>, i: nat)
    requires i < |s|
    ensures multiset(s[..i] + s[i + 1..]) == multiset(s) - multiset{s[i]}
  {
    assert s == s[..i] + ([s[i]] + s[i + 1..]);
  }

  lemma TailWithoutFirst<T>(s: seq<T>)
    requires s != []
    ensures multiset(s[1..]) == multiset(s) - multiset{s[0]}
  {
    assert s == [s[0]] + s[1..];
  }

  lemma SameElementsSameLength<T>(a: seq<T>, b: seq<T>)
    requires multiset(a) == multiset(b)
    ensures |a| == |b|
  {
    assert |multiset(a)| == |a| && |multiset(b)| == |b|;
  }

  lemma IndexIn<T>(s: seq<T>, x: T) returns (i: nat)
    requires x in multiset(s)
    ensures i < |s| && s[i] == x
  {
    assert x in s;
    i :| i < |s| && s[i] == x;
  }

  /** Two orders of the same elements are the same when no two elements tie. */
  lemma {:induction false} OrderIsUnique<T(!new)>(a: seq<T>, b: seq<T>, le: (T, T) -> bool)
    requires multiset(a) == multiset(b) && Ordered(a, le) && Ordered(b, le)
    requires forall x, y :: x in a && y in a && le(x, y) && le(y, x) ==> x == y
    ensures a == b
    decreases |a|
  {
    SameElementsSameLength(a, b);
    if a != [] {
      assert a[0] == b[0] by {
        assert b[0] in multiset(b) && a[0] in multiset(a);
        var i := IndexIn(a, b[0]);
        var j := IndexIn(b, a[0]);
        assert i > 0 && j > 0 ==> le(a[0], a[i]) && le(b[0], b[j]);
      }
      TailWithoutFirst(a);
      TailWithoutFirst(b);
      OrderIsUnique(a[1..], b[1..], le);
    }
  }
}
