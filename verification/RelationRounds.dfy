/** Which issues block which: the relations of a whole queue of issues are paged through in rounds, one
    request a round, and any issue whose list cannot be read to its end is left out. */
module RelationRounds {
  import opened Options
  import opened RelationPaging

  datatype Pending = Pending(id: Id, after: Cursor)

  /** Each id is listed once. */
  ghost predicate Distinct(nodes: seq<Node>) {
    forall i, j :: 0 <= i < j < |nodes| ==> nodes[i].id != nodes[j].id
  }

  ghost function Ids(nodes: seq<Node>): set<Id> {
    set n | n in nodes :: n.id
  }

  ghost function PendingIds(paging: seq<Pending>): set<Id> {
    set p | p in paging :: p.id
  }

  // ---------- The state after so many rounds ----------

  function PendingOf(s: Server, n: Node, k: nat): seq<Pending> {
    var at := After(s, n, k).at;
    if at.Some? then [Pending(n.id, at.value)] else []
  }

  /** The issues that pend after `k` rounds, in listing order. */
  function PagingAfter(s: Server, nodes: seq<Node>, k: nat): seq<Pending> {
    if nodes == [] then [] else PagingAfter(s, nodes[..|nodes| - 1], k) + PendingOf(s, nodes[|nodes| - 1], k)
  }

  /** What is known after `k` rounds: of each listed issue what its own progress says. */
  ghost predicate KnownAfter(known: map<Id, seq<Relation>>, s: Server, nodes: seq<Node>, k: nat) {
    known.Keys <= Ids(nodes)
        && forall i :: 0 <= i < |nodes| ==> Lookup(known, nodes[i].id) == After(s, nodes[i], k).gathered
  }

  lemma {:induction false} PendsExactly(s: Server, nodes: seq<Node>, k: nat, p: Pending)
    ensures p in PagingAfter(s, nodes, k)
            <==> exists i :: 0 <= i < |nodes| && nodes[i].id == p.id && After(s, nodes[i], k).at == Some(p.after)
  {
    if nodes != [] {
      var n := |nodes| - 1;
      PendsExactly(s, nodes[..n], k, p);
      assert forall i :: 0 <= i < n ==> nodes[i] == nodes[..n][i];
      assert p in PendingOf(s, nodes[n], k) <==> nodes[n].id == p.id && After(s, nodes[n], k).at == Some(p.after);
      if p in PagingAfter(s, nodes[..n], k) {
        var i :| 0 <= i < n && nodes[..n][i].id == p.id && After(s, nodes[..n][i], k).at == Some(p.after);
        assert nodes[i].id == p.id && After(s, nodes[i], k).at == Some(p.after);
      }
    }
  }

  ghost predicate AllEnd(s: Server, nodes: seq<Node>) {
    forall i :: 0 <= i < |nodes| ==> ListEnds(s, nodes[i])
  }

  /** The most requests that any listed issue needs. */
  ghost function Deepest(s: Server, nodes: seq<Node>): nat
    requires AllEnd(s, nodes)
  {
    if nodes == [] then 0
    else
      var rest, here := Deepest(s, nodes[1..]), Walk(s, nodes[0]).requests;
      if here >= rest then here else rest
  }

  /** It is a bound, and some issue needs that many. */
  lemma {:induction false} DeepestIsMost(s: Server, nodes: seq<Node>)
    requires AllEnd(s, nodes)
    ensures forall i :: 0 <= i < |nodes| ==> Walk(s, nodes[i]).requests <= Deepest(s, nodes)
    ensures Deepest(s, nodes) == 0 || exists i :: 0 <= i < |nodes| && Walk(s, nodes[i]).requests == Deepest(s, nodes)
  {
    if nodes != [] {
      var tail := nodes[1..];
      DeepestIsMost(s, tail);
      forall i | 0 <= i < |nodes| ensures Walk(s, nodes[i]).requests <= Deepest(s, nodes) {
        assert i > 0 ==> nodes[i] == tail[i - 1];
      }
      if Deepest(s, nodes) == Walk(s, nodes[0]).requests {
      } else if Deepest(s, tail) != 0 {
        var i :| 0 <= i < |tail| && Walk(s, tail[i]).requests == Deepest(s, tail);
        assert nodes[i + 1] == tail[i];
      }
    }
  }

  /** Nobody pends exactly from the round on in which the deepest list has been read. */
  lemma NobodyPendsExactly(s: Server, nodes: seq<Node>, k: nat)
    requires AllEnd(s, nodes)
    ensures PagingAfter(s, nodes, k) == [] <==> Deepest(s, nodes) <= k
  {
    DeepestIsMost(s, nodes);
    var paging := PagingAfter(s, nodes, k);
    if paging != [] {
      PendsExactly(s, nodes, k, paging[0]);
      var i :| 0 <= i < |nodes| && nodes[i].id == paging[0].id && After(s, nodes[i], k).at == Some(paging[0].after);
      PagingWhileWalking(s, nodes[i], k);
    } else if Deepest(s, nodes) > 0 {
      var i :| 0 <= i < |nodes| && Walk(s, nodes[i]).requests == Deepest(s, nodes);
      PagingWhileWalking(s, nodes[i], k);
      if After(s, nodes[i], k).at.Some? {
        PendsExactly(s, nodes, k, Pending(nodes[i].id, After(s, nodes[i], k).at.value));
      }
    }
  }

  lemma EndlessPends(s: Server, nodes: seq<Node>, i: nat, k: nat)
    requires i < |nodes| && !ListEnds(s, nodes[i])
    ensures PagingAfter(s, nodes, k) != []
  {
    EndlessKeepsPaging(s, nodes[i], k);
    PendsExactly(s, nodes, k, Pending(nodes[i].id, After(s, nodes[i], k).at.value));
  }

  /** The rounds come to an end exactly if the list of every listed issue does. */
  lemma RoundsEndExactly(s: Server, nodes: seq<Node>)
    ensures (exists k: nat :: PagingAfter(s, nodes, k) == []) <==> AllEnd(s, nodes)
  {
    if AllEnd(s, nodes) {
      NobodyPendsExactly(s, nodes, Deepest(s, nodes));
    } else {
      var i: nat :| i < |nodes| && !ListEnds(s, nodes[i]);
      forall k: nat ensures PagingAfter(s, nodes, k) != [] {
        EndlessPends(s, nodes, i, k);
      }
    }
  }

  /** A server that lists one issue whose pages hand out the cursors `a` and `b` in turn. */
  function Circling(): Server {
    Server([ListingPage([Node("issue", Some(Page([], true, "a")))], false, "")],
           (id, c) => [Node(id, Some(Page([], true, if c == "a" then "b" else "a")))])
  }

  /** On it the rounds never end. */
  lemma CirclingNeverEnds(k: nat)
    ensures PagingAfter(Circling(), Listed(Circling().listing), k) != []
  {
    var s := Circling();
    var nodes := Listed(s.listing);
    assert nodes == s.listing[0].nodes;
    assert NestedNext(s, "issue", "a") == Some("b") && NestedNext(s, "issue", "b") == Some("a");
    forall n: nat ensures !EndsWithin(s, "issue", "a", n) {
      CircleNeverEnds(s, "issue", "a", "b", n);
    }
    assert FirstCursor(nodes[0]) == Some("a");
    EndlessPends(s, nodes, 0, k);
  }

  // ---------- First pages ----------

  lemma DistinctAppend(nodes: seq<Node>, node: Node)
    requires Distinct(nodes + [node])
    ensures Distinct(nodes) && node.id !in Ids(nodes) && Ids(nodes + [node]) == Ids(nodes) + {node.id}
  {
    var longer := nodes + [node];
    assert longer[|nodes|] == node && forall i :: 0 <= i < |nodes| ==> longer[i] == nodes[i];
    assert forall n :: n in longer <==> n in nodes || n == node;
  }

  lemma DistinctPrefix(all: seq<Node>, n: nat)
    requires Distinct(all) && n <= |all|
    ensures Distinct(all[..n])
  {
  }

  /** Taking in one more listed issue. */
  lemma ListedOneMore(s: Server, nodes: seq<Node>, node: Node, before: map<Id, seq<Relation>>,
                      known: map<Id, seq<Relation>>)
    requires Distinct(nodes + [node]) && KnownAfter(before, s, nodes, 0)
    requires known == (if First(node).gathered.Some? then before[node.id := First(node).gathered.value] else before)
    ensures KnownAfter(known, s, nodes + [node], 0)
    ensures PagingAfter(s, nodes + [node], 0)
            == PagingAfter(s, nodes, 0)
                + (if First(node).at.Some? then [Pending(node.id, First(node).at.value)] else [])
  {
    var longer := nodes + [node];
    DistinctAppend(nodes, node);
    assert longer[..|nodes|] == nodes;
    forall i | 0 <= i < |longer| ensures Lookup(known, longer[i].id) == After(s, longer[i], 0).gathered {
      assert i < |nodes| ==> longer[i] == nodes[i] && nodes[i] in nodes;
    }
  }

  method TakeNode(node: Node, known0: map<Id, seq<Relation>>, paging0: seq<Pending>)
    returns (known: map<Id, seq<Relation>>, paging: seq<Pending>)
    requires node.id !in known0
    ensures known == (if First(node).gathered.Some? then known0[node.id := First(node).gathered.value] else known0)
    ensures paging == paging0 + (if First(node).at.Some? then [Pending(node.id, First(node).at.value)] else [])
  {
    known, paging := known0, paging0;
    if node.page.None? {
      return;
    }
    var relations := node.page.value.relations;
    assert [] + relations == relations;
    known := known[node.id := relations];
    match NextRelationCursor(node.page.value, None) {
      case Incomplete =>
        known := known - {node.id};
        assert known == known0;
      case Complete =>
      case Continue(c) =>
        paging := paging + [Pending(node.id, c)];
    }
  }

  lemma OneMoreIsDistinct(seen: seq<Node>, nodes: seq<Node>, i: nat)
    requires Distinct(seen + nodes) && i < |nodes|
    ensures var sofar := seen + nodes[..i];
            sofar + [nodes[i]] == seen + nodes[..i + 1] && Distinct(sofar + [nodes[i]]) && nodes[i].id !in Ids(sofar)
  {
    var sofar := seen + nodes[..i];
    assert sofar + [nodes[i]] == seen + nodes[..i + 1] == (seen + nodes)[..|seen| + i + 1];
    DistinctPrefix(seen + nodes, |seen| + i + 1);
    DistinctAppend(sofar, nodes[i]);
  }

  method ReadPage(s: Server, ghost seen: seq<Node>, nodes: seq<Node>, known0: map<Id, seq<Relation>>,
                  paging0: seq<Pending>)
    returns (known: map<Id, seq<Relation>>, paging: seq<Pending>)
    requires Distinct(seen + nodes) && KnownAfter(known0, s, seen, 0) && paging0 == PagingAfter(s, seen, 0)
    ensures KnownAfter(known, s, seen + nodes, 0) && paging == PagingAfter(s, seen + nodes, 0)
  {
    known, paging := known0, paging0;
    var i := 0;
    assert seen + nodes[..0] == seen;
    while i < |nodes|
      invariant 0 <= i <= |nodes|
      invariant KnownAfter(known, s, seen + nodes[..i], 0) && paging == PagingAfter(s, seen + nodes[..i], 0)
    {
      ghost var sofar, before := seen + nodes[..i], known;
      OneMoreIsDistinct(seen, nodes, i);
      known, paging := TakeNode(nodes[i], known, paging);
      ListedOneMore(s, sofar, nodes[i], before, known);
      i := i + 1;
    }
    assert nodes[..i] == nodes;
  }

  /** How many requests reading the listing takes. */
  function PagesRead(pages: seq<ListingPage>): nat {
    if pages == [] then 0 else 1 + if IsLast(pages[0]) then 0 else PagesRead(pages[1..])
  }

  /** Which requests of a call throw, counted from 0; one that is out of time throws like any other. */
  type Faults = nat -> bool

  ghost predicate NoneThrows(throws: Faults, n: nat) {
    forall k: nat :: k < n ==> !throws(k)
  }

  /** Before the page `k` of the listing: what is still to be listed and to be asked for. */
  ghost predicate AtPage(s: Server, k: nat, seen: seq<Node>) {
    && k <= |s.listing|
    && seen + Listed(s.listing[k..]) == Listed(s.listing)
    && k + PagesRead(s.listing[k..]) == PagesRead(s.listing)
  }

  lemma ListedStep(s: Server, k: nat, seen: seq<Node>)
    requires AtPage(s, k, seen) && k < |s.listing| && Distinct(Listed(s.listing))
    ensures Distinct(seen + s.listing[k].nodes) && k < PagesRead(s.listing)
    ensures IsLast(s.listing[k]) ==> seen + s.listing[k].nodes == Listed(s.listing) && k + 1 == PagesRead(s.listing)
    ensures !IsLast(s.listing[k]) ==> AtPage(s, k + 1, seen + s.listing[k].nodes)
  {
    var pages := s.listing;
    var rest := if IsLast(pages[k]) then [] else Listed(pages[k + 1..]);
    assert pages[k..][1..] == pages[k + 1..];
    var all := seen + Listed(pages[k..]);
    assert all == (seen + pages[k].nodes) + rest;
    DistinctPrefix(all, |seen| + |pages[k].nodes|);
    assert all[..|seen| + |pages[k].nodes|] == seen + pages[k].nodes;
  }

  lemma ListedAll(s: Server, k: nat, seen: seq<Node>)
    requires AtPage(s, k, seen) && k == |s.listing|
    ensures seen == Listed(s.listing) && k == PagesRead(s.listing)
  {
  }

  /** The listing loop: every issue starts with its first page, is left out, or goes on paging. No result
      means that a request threw. */
  method ReadListing(s: Server, throws: Faults)
    returns (r: Option<map<Id, seq<Relation>>>, paging: seq<Pending>, requests: nat)
    requires Distinct(Listed(s.listing))
    ensures r.Some? <==> NoneThrows(throws, PagesRead(s.listing))
    ensures r.Some? ==> requests == PagesRead(s.listing)
    ensures r.Some? ==> KnownAfter(r.value, s, Listed(s.listing), 0) && paging == PagingAfter(s, Listed(s.listing), 0)
  {
    var known: map<Id, seq<Relation>> := map[];
    paging := [];
    var k := 0;
    ghost var seen: seq<Node> := [];
    assert s.listing[0..] == s.listing;
    while k < |s.listing|
      invariant 0 <= k <= |s.listing| && NoneThrows(throws, k) && AtPage(s, k, seen)
      invariant KnownAfter(known, s, seen, 0) && paging == PagingAfter(s, seen, 0)
    {
      ListedStep(s, k, seen);
      if throws(k) {
        return None, [], k + 1;
      }
      assert NoneThrows(throws, k + 1);
      known, paging := ReadPage(s, seen, s.listing[k].nodes, known, paging);
      seen := seen + s.listing[k].nodes;
      if IsLast(s.listing[k]) {
        return Some(known), paging, k + 1;
      }
      k := k + 1;
    }
    ListedAll(s, k, seen);
    r, requests := Some(known), k;
  }

  // ---------- A round ----------

  /** The cursors after the round, for the pending issues of before it. */
  function NextPaging(s: Server, paging: seq<Pending>): seq<Pending> {
    if paging == [] then []
    else NextPaging(s, paging[..|paging| - 1]) + NextOf(s, paging[|paging| - 1])
  }

  function NextOf(s: Server, p: Pending): seq<Pending> {
    var next := NestedNext(s, p.id, p.after);
    if next.Some? then [Pending(p.id, next.value)] else []
  }

  lemma NextStep(s: Server, paging: seq<Pending>, j: nat)
    requires j < |paging|
    ensures NextPaging(s, paging[..j + 1]) == NextPaging(s, paging[..j]) + NextOf(s, paging[j])
  {
    assert paging[..j + 1][..j] == paging[..j];
  }

  lemma {:induction false} NextIsAfter(s: Server, nodes: seq<Node>, k: nat)
    ensures NextPaging(s, PagingAfter(s, nodes, k)) == PagingAfter(s, nodes, k + 1)
  {
    if nodes != [] {
      var before, n := PagingAfter(s, nodes[..|nodes| - 1], k), nodes[|nodes| - 1];
      NextIsAfter(s, nodes[..|nodes| - 1], k);
      PagingIsGathered(s, n, k);
      if After(s, n, k).at.Some? {
        var longer := before + [Pending(n.id, After(s, n, k).at.value)];
        assert longer[..|longer| - 1] == before;
      } else {
        assert before + [] == before;
      }
    }
  }

  ghost predicate OncePending(paging: seq<Pending>) {
    forall j, k :: 0 <= j < k < |paging| ==> paging[j].id != paging[k].id
  }

  lemma {:induction false} PendsOnce(s: Server, nodes: seq<Node>, k: nat)
    requires Distinct(nodes)
    ensures OncePending(PagingAfter(s, nodes, k))
  {
    if nodes != [] {
      var before, n := nodes[..|nodes| - 1], nodes[|nodes| - 1];
      assert nodes == before + [n];
      DistinctAppend(before, n);
      PendsOnce(s, before, k);
      var paging := PagingAfter(s, before, k);
      forall j | 0 <= j < |paging| ensures paging[j].id != n.id {
        PendsExactly(s, before, k, paging[j]);
      }
    }
  }

  /** One request for every issue still paging. An issue Linear does not return is absent. */
  method FetchInverseRelationRound(s: Server, paging: seq<Pending>) returns (pages: map<Id, Page>)
    requires OncePending(paging)
    ensures forall k :: 0 <= k < |paging| ==>
              Lookup(pages, paging[k].id) == NestedPage(s, paging[k].id, paging[k].after)
  {
    pages := map[];
    var k := 0;
    while k < |paging|
      invariant 0 <= k <= |paging|
      invariant forall j :: 0 <= j < k ==> Lookup(pages, paging[j].id) == NestedPage(s, paging[j].id, paging[j].after)
      invariant forall j :: k <= j < |paging| ==> paging[j].id !in pages
    {
      var page := FindPage(s.nested(paging[k].id, paging[k].after), paging[k].id);
      if page.Some? {
        pages := pages[paging[k].id := page.value];
      }
      k := k + 1;
    }
  }

  /** In the middle of round `k + 1`: what is known of an issue, whether or not it has had its page. */
  ghost predicate KnownOf(known: map<Id, seq<Relation>>, s: Server, n: Node, k: nat, asked: set<Id>) {
    Lookup(known, n.id) == After(s, n, if n.id in asked then k + 1 else k).gathered
  }

  /** In the middle of round `k + 1`: the first `j` pending issues have had their page. */
  ghost predicate KnownMid(known: map<Id, seq<Relation>>, s: Server, nodes: seq<Node>, k: nat, j: nat)
    requires j <= |PagingAfter(s, nodes, k)|
  {
    && known.Keys <= Ids(nodes)
    && forall i :: 0 <= i < |nodes| ==> KnownOf(known, s, nodes[i], k, PendingIds(PagingAfter(s, nodes, k)[..j]))
  }

  /** What becomes of a pending issue with the answer for it. */
  ghost predicate Taken(s: Server, p: Pending, before: map<Id, seq<Relation>>, known: map<Id, seq<Relation>>)
    requires p.id in before
  {
    var now := Advance(s, p.id, Progress(Some(before[p.id]), Some(p.after)));
    known == if now.gathered.Some? then before[p.id := now.gathered.value] else before - {p.id}
  }

  /** The `j`-th pending issue, as a listed one. */
  lemma PendingNode(s: Server, nodes: seq<Node>, k: nat, j: nat) returns (m: nat)
    requires Distinct(nodes) && j < |PagingAfter(s, nodes, k)|
    ensures var p := PagingAfter(s, nodes, k)[j];
            && m < |nodes| && nodes[m].id == p.id && nodes[m].id in Ids(nodes)
            && After(s, nodes[m], k).at == Some(p.after) && After(s, nodes[m], k).gathered.Some?
  {
    var p := PagingAfter(s, nodes, k)[j];
    PendsExactly(s, nodes, k, p);
    m :| 0 <= m < |nodes| && nodes[m].id == p.id && After(s, nodes[m], k).at == Some(p.after);
    PagingIsGathered(s, nodes[m], k);
    assert nodes[m] in nodes;
  }

  lemma ProcessedIds(paging: seq<Pending>, j: nat)
    requires OncePending(paging) && j < |paging|
    ensures paging[j].id !in PendingIds(paging[..j])
            && PendingIds(paging[..j + 1]) == PendingIds(paging[..j]) + {paging[j].id}
  {
    assert paging[..j + 1] == paging[..j] + [paging[j]];
  }

  lemma MidHas(s: Server, nodes: seq<Node>, k: nat, j: nat, known: map<Id, seq<Relation>>)
    requires Distinct(nodes) && j < |PagingAfter(s, nodes, k)| && KnownMid(known, s, nodes, k, j)
    ensures PagingAfter(s, nodes, k)[j].id in known
  {
    var m := PendingNode(s, nodes, k, j);
    PendsOnce(s, nodes, k);
    ProcessedIds(PagingAfter(s, nodes, k), j);
    assert Lookup(known, nodes[m].id) == After(s, nodes[m], k).gathered;
  }

  lemma TakenHere(s: Server, n: Node, k: nat, p: Pending, before: map<Id, seq<Relation>>,
                  known: map<Id, seq<Relation>>)
    requires n.id == p.id && After(s, n, k).at == Some(p.after)
    requires Lookup(before, n.id) == After(s, n, k).gathered && p.id in before && Taken(s, p, before, known)
    ensures Lookup(known, n.id) == After(s, n, k + 1).gathered
  {
    assert After(s, n, k) == Progress(Some(before[p.id]), Some(p.after));
  }

  lemma TakenElsewhere(s: Server, p: Pending, before: map<Id, seq<Relation>>, known: map<Id, seq<Relation>>)
    requires p.id in before && Taken(s, p, before, known)
    ensures known.Keys <= before.Keys
    ensures forall id :: id != p.id ==> Lookup(known, id) == Lookup(before, id)
  {
  }

  lemma MidStep(s: Server, nodes: seq<Node>, k: nat, j: nat, before: map<Id, seq<Relation>>,
                known: map<Id, seq<Relation>>)
    requires Distinct(nodes) && j < |PagingAfter(s, nodes, k)| && KnownMid(before, s, nodes, k, j)
    requires PagingAfter(s, nodes, k)[j].id in before && Taken(s, PagingAfter(s, nodes, k)[j], before, known)
    ensures KnownMid(known, s, nodes, k, j + 1)
  {
    var paging := PagingAfter(s, nodes, k);
    var p := paging[j];
    var m := PendingNode(s, nodes, k, j);
    PendsOnce(s, nodes, k);
    ProcessedIds(paging, j);
    var done, more := PendingIds(paging[..j]), PendingIds(paging[..j + 1]);
    TakenElsewhere(s, p, before, known);
    forall i | 0 <= i < |nodes| ensures KnownOf(known, s, nodes[i], k, more) {
      assert KnownOf(before, s, nodes[i], k, done);
      if i == m {
        TakenHere(s, nodes[m], k, p, before, known);
      } else {
        assert nodes[i].id != p.id;
      }
    }
  }

  lemma MidEnds(s: Server, nodes: seq<Node>, k: nat, known: map<Id, seq<Relation>>)
    ensures KnownAfter(known, s, nodes, k) ==> KnownMid(known, s, nodes, k, 0)
    ensures KnownMid(known, s, nodes, k, |PagingAfter(s, nodes, k)|) ==> KnownAfter(known, s, nodes, k + 1)
  {
    var paging := PagingAfter(s, nodes, k);
    assert paging[..|paging|] == paging;
    forall i | 0 <= i < |nodes| && nodes[i].id !in PendingIds(paging)
      ensures After(s, nodes[i], k + 1) == After(s, nodes[i], k) {
      PagingIsGathered(s, nodes[i], k);
      if After(s, nodes[i], k).at.Some? {
        PendsExactly(s, nodes, k, Pending(nodes[i].id, After(s, nodes[i], k).at.value));
      }
    }
  }

  /** Taking in the answer for one pending issue. */
  method TakeAnswer(s: Server, known0: map<Id, seq<Relation>>, next0: seq<Pending>, p: Pending, pages: map<Id, Page>)
    returns (known: map<Id, seq<Relation>>, next: seq<Pending>)
    requires p.id in known0 && Lookup(pages, p.id) == NestedPage(s, p.id, p.after)
    ensures Taken(s, p, known0, known)
    ensures next == next0 + NextOf(s, p)
  {
    known, next := known0, next0;
    if p.id !in pages || p.id !in known {
      known := known - {p.id};
      return;
    }
    var page := pages[p.id];
    known := known[p.id := known[p.id] + page.relations];
    match NextRelationCursor(page, Some(p.after)) {
      case Incomplete =>
        known := known - {p.id};
        assert known == known0 - {p.id};
      case Complete =>
      case Continue(c) =>
        next := next + [Pending(p.id, c)];
    }
  }

  /** One round over every issue still paging. */
  method Round(s: Server, ghost nodes: seq<Node>, ghost k: nat, known0: map<Id, seq<Relation>>, paging: seq<Pending>)
    returns (known: map<Id, seq<Relation>>, next: seq<Pending>)
    requires Distinct(nodes) && KnownAfter(known0, s, nodes, k) && paging == PagingAfter(s, nodes, k)
    ensures KnownAfter(known, s, nodes, k + 1) && next == PagingAfter(s, nodes, k + 1)
  {
    PendsOnce(s, nodes, k);
    var pages := FetchInverseRelationRound(s, paging);
    known, next := known0, [];
    MidEnds(s, nodes, k, known);
    var j := 0;
    while j < |paging|
      invariant 0 <= j <= |paging|
      invariant KnownMid(known, s, nodes, k, j) && next == NextPaging(s, paging[..j])
    {
      NextStep(s, paging, j);
      MidHas(s, nodes, k, j, known);
      ghost var before := known;
      known, next := TakeAnswer(s, known, next, paging[j], pages);
      MidStep(s, nodes, k, j, before, known);
      j := j + 1;
    }
    assert paging[..j] == paging;
    MidEnds(s, nodes, k, known);
    NextIsAfter(s, nodes, k);
  }

  // ---------- The whole batch ----------

  /** The batched answer agrees with walking each issue alone: an issue is in it exactly when its own
      walk reaches the end of its list, and then with the blockers of all its pages in order. */
  ghost predicate AgreesWithWalks(out: map<Id, seq<Blocker>>, s: Server, nodes: seq<Node>)
    requires AllEnd(s, nodes)
  {
    && out.Keys <= Ids(nodes)
    && forall i :: 0 <= i < |nodes| ==>
         var w := Walk(s, nodes[i]).relations;
         Lookup(out, nodes[i].id) == if w.Some? then Some(Blockers(w.value)) else None
  }

  /** The requests that the rounds need when `first` were made before all do without throwing, and these
      are all that are needed: every listed issue's list ends. */
  ghost predicate RoundsWork(s: Server, nodes: seq<Node>, throws: Faults, first: nat) {
    AllEnd(s, nodes) && NoneThrows(throws, first + Deepest(s, nodes))
  }

  /** The loop comes to an end: the lists do, or some request throws. */
  ghost predicate Stops(s: Server, nodes: seq<Node>, throws: Faults) {
    AllEnd(s, nodes) || exists n: nat :: throws(n)
  }

  /** A bound for the rounds. */
  ghost function Bound(s: Server, nodes: seq<Node>, throws: Faults): nat
    requires Stops(s, nodes, throws)
  {
    if AllEnd(s, nodes) then Deepest(s, nodes) else var n: nat :| throws(n); n
  }

  /** Every list has been read after `k` rounds. */
  ghost predicate Done(s: Server, nodes: seq<Node>, k: nat) {
    AllEnd(s, nodes) && Deepest(s, nodes) <= k
  }

  lemma NobodyPendsWhenDone(s: Server, nodes: seq<Node>, k: nat)
    ensures PagingAfter(s, nodes, k) == [] <==> Done(s, nodes, k)
  {
    if AllEnd(s, nodes) {
      NobodyPendsExactly(s, nodes, k);
    } else {
      var i: nat :| i < |nodes| && !ListEnds(s, nodes[i]);
      EndlessPends(s, nodes, i, k);
    }
  }

  /** One more request, which throws or not, before the lists have been read. */
  lemma OneMoreRequest(s: Server, nodes: seq<Node>, throws: Faults, first: nat, k: nat)
    requires Stops(s, nodes, throws) && NoneThrows(throws, first + k) && !Done(s, nodes, k)
    ensures throws(first + k) ==> !RoundsWork(s, nodes, throws, first)
    ensures !throws(first + k) ==> NoneThrows(throws, first + k + 1) && k + 1 <= Bound(s, nodes, throws)
  {
  }

  lemma RoundsAreDone(s: Server, nodes: seq<Node>, throws: Faults, first: nat, k: nat)
    requires Stops(s, nodes, throws) && NoneThrows(throws, first + k) && Done(s, nodes, k)
             && k <= Bound(s, nodes, throws)
    ensures k == Deepest(s, nodes) && RoundsWork(s, nodes, throws, first)
  {
  }

  /** The rounds, until nobody is paging any more: as many as the deepest list needs. No result means that
      a request threw. */
  method RunRounds(s: Server, ghost nodes: seq<Node>, throws: Faults, first: nat,
                   known0: map<Id, seq<Relation>>, paging0: seq<Pending>)
    returns (r: Option<map<Id, seq<Relation>>>, requests: nat)
    requires Distinct(nodes) && Stops(s, nodes, throws) && NoneThrows(throws, first)
    requires KnownAfter(known0, s, nodes, 0) && paging0 == PagingAfter(s, nodes, 0)
    ensures r.Some? <==> RoundsWork(s, nodes, throws, first)
    ensures r.Some? ==> KnownAfter(r.value, s, nodes, requests) && requests == Deepest(s, nodes)
  {
    var known, paging := known0, paging0;
    requests := 0;
    while |paging| > 0
      invariant KnownAfter(known, s, nodes, requests) && paging == PagingAfter(s, nodes, requests)
      invariant NoneThrows(throws, first + requests) && requests <= Bound(s, nodes, throws)
      decreases Bound(s, nodes, throws) - requests
    {
      NobodyPendsWhenDone(s, nodes, requests);
      OneMoreRequest(s, nodes, throws, first, requests);
      if throws(first + requests) {
        return None, requests;
      }
      known, paging := Round(s, nodes, requests, known, paging);
      requests := requests + 1;
    }
    NobodyPendsWhenDone(s, nodes, requests);
    RoundsAreDone(s, nodes, throws, first, requests);
    r := Some(known);
  }

  /** The requests of a whole call: those for the listing, if anything is asked for at all. */
  function ListingRequests(issueIds: seq<Id>, s: Server): nat {
    if issueIds == [] then 0 else PagesRead(s.listing)
  }

  /** fetchLinearBlockers, with the number of nested requests it made; no result means that a request threw.
      Nothing is asked of the server but that it stands still, and of the lists that they end unless some
      request throws, as it does at the latest when the shared deadline has passed. */
  method FetchLinearBlockers(issueIds: seq<Id>, s: Server, throws: Faults)
    returns (out: Option<map<Id, seq<Blocker>>>, requests: nat)
    requires Distinct(Listed(s.listing)) && Stops(s, Listed(s.listing), throws)
    requires forall n :: n in Listed(s.listing) ==> n.id in issueIds
    ensures out.Some? <==> RoundsWork(s, Listed(s.listing), throws, ListingRequests(issueIds, s))
    ensures out.Some? ==> AgreesWithWalks(out.value, s, Listed(s.listing)) && requests == Deepest(s, Listed(s.listing))
  {
    ghost var nodes := Listed(s.listing);
    assert |nodes| > 0 ==> nodes[0] in nodes;
    if |issueIds| == 0 {
      return Some(map[]), 0;
    }
    var known, paging, made := ReadListing(s, throws);
    if known == None {
      return None, 0;
    }
    known, requests := RunRounds(s, nodes, throws, made, known.value, paging);
    if known == None {
      return None, requests;
    }
    out := Some(map id | id in known.value :: Blockers(known.value[id]));
    BatchDone(s, nodes, known.value, requests);
  }

  lemma BatchDone(s: Server, nodes: seq<Node>, known: map<Id, seq<Relation>>, k: nat)
    requires AllEnd(s, nodes) && KnownAfter(known, s, nodes, k) && Deepest(s, nodes) <= k
    ensures AgreesWithWalks(map id | id in known :: Blockers(known[id]), s, nodes)
  {
    DeepestIsMost(s, nodes);
    forall i | 0 <= i < |nodes| ensures Walk(s, nodes[i]).relations == Lookup(known, nodes[i].id) {
      PagingWhileWalking(s, nodes[i], k);
      StaysOnWalk(s, nodes[i], k);
    }
  }
}
