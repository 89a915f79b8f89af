/** What walking a relation list means in terms of the pages themselves: which pages follow each other, when
    the last of them ends the list, and which blockers their relations declare. */
module RelationPages {
  import opened Options
  import opened RelationPaging
  import opened RelationRounds

  // ---------- Lists of pages ----------

  function Flat<T>(parts: seq<seq<T>>): seq<T> {
    if parts == [] then [] else Flat(parts[..|parts| - 1]) + parts[|parts| - 1]
  }

  /** One part is itself, and parts one after another are flattened one after another. */
  lemma {:induction false} FlatExactly<T>(a: seq<seq<T>>, x: seq<T>, b: seq<seq<T>>)
    ensures Flat<T>([]) == [] && Flat([x]) == x
    ensures Flat(a + b) == Flat(a) + Flat(b)
    decreases |b|
  {
    assert [x][..0] == [];
    if b == [] {
      assert a + b == a;
    } else {
      assert (a + b)[..|a + b| - 1] == a + b[..|b| - 1];
      FlatExactly(a, x, b[..|b| - 1]);
    }
  }

  function Relations(pages: seq<Page>): seq<Relation> {
    Flat(seq(|pages|, i requires 0 <= i < |pages| => pages[i].relations))
  }

  lemma RelationsGrow(pages: seq<Page>)
    requires pages != []
    ensures Relations(pages) == Relations(pages[..|pages| - 1]) + pages[|pages| - 1].relations
  {
    var n := |pages| - 1;
    var all := seq(|pages|, i requires 0 <= i < |pages| => pages[i].relations);
    assert all[..n] == seq(n, i requires 0 <= i < n => pages[..n][i].relations);
  }

  // ---------- One page after another ----------

  /** The first of the nodes with this id carries the page. */
  ghost predicate Carries(nodes: seq<Node>, id: Id, page: Page) {
    exists j :: 0 <= j < |nodes| && nodes[j].id == id && nodes[j].page == Some(page)
                && forall k :: 0 <= k < j ==> nodes[k].id != id
  }

  lemma {:induction false} FindPageExactly(nodes: seq<Node>, id: Id, page: Page)
    ensures FindPage(nodes, id) == Some(page) <==> Carries(nodes, id, page)
  {
    if nodes != [] && nodes[0].id != id {
      FindPageExactly(nodes[1..], id, page);
      if Carries(nodes[1..], id, page) {
        var j :| 0 <= j < |nodes| - 1 && nodes[1..][j].id == id && nodes[1..][j].page == Some(page)
                 && forall k :: 0 <= k < j ==> nodes[1..][k].id != id;
        assert nodes[j + 1] == nodes[1..][j];
        assert forall k :: 0 < k < j + 1 ==> nodes[k] == nodes[1..][k - 1];
      }
      if Carries(nodes, id, page) {
        var j :| 0 <= j < |nodes| && nodes[j].id == id && nodes[j].page == Some(page)
                 && forall k :: 0 <= k < j ==> nodes[k].id != id;
        assert nodes[1..][j - 1] == nodes[j];
        assert forall k :: 0 <= k < j - 1 ==> nodes[1..][k] == nodes[k + 1];
      }
    }
  }

  /** There is more after the page, and its cursor can be used: there is one, and it is not the one that led
      to this page. */
  ghost predicate GoesOn(page: Page, after: Option<Cursor>) {
    page.more && page.end != "" && (after.Some? ==> page.end != after.value)
  }

  /** Where the page `i` was asked for from. */
  ghost function CursorBefore(pages: seq<Page>, i: nat): Option<Cursor>
    requires i < |pages|
  {
    if i == 0 then None else Some(pages[i - 1].end)
  }

  /** Page `i` is what the server answers for the issue and the cursor of the page before it. */
  ghost predicate Follows(s: Server, id: Id, pages: seq<Page>, i: nat)
    requires 0 < i < |pages|
  {
    GoesOn(pages[i - 1], CursorBefore(pages, i - 1)) && Carries(s.nested(id, pages[i - 1].end), id, pages[i])
  }

  /** Successive pages of the list of `n`: the first is the one in the listing, and each other
      follows the one before it. */
  ghost predicate Chain(s: Server, n: Node, pages: seq<Page>) {
    && pages != [] && n.page == Some(pages[0])
    && forall i :: 0 < i < |pages| ==> Follows(s, n.id, pages, i)
  }

  ghost predicate LastGoesOn(pages: seq<Page>)
    requires pages != []
  {
    GoesOn(pages[|pages| - 1], CursorBefore(pages, |pages| - 1))
  }

  /** The pages are all there are. */
  ghost predicate IsWhole(pages: seq<Page>)
    requires pages != []
  {
    !pages[|pages| - 1].more
  }

  lemma ChainPrefix(s: Server, n: Node, pages: seq<Page>)
    requires Chain(s, n, pages) && |pages| > 1
    ensures var k := |pages| - 1;
            Chain(s, n, pages[..k]) && LastGoesOn(pages[..k]) && NestedPage(s, n.id, pages[k - 1].end) == Some(pages[k])
  {
    var k := |pages| - 1;
    var shorter := pages[..k];
    assert Follows(s, n.id, pages, k);
    FindPageExactly(s.nested(n.id, pages[k - 1].end), n.id, pages[k]);
    forall i | 0 < i < k ensures Follows(s, n.id, shorter, i) {
      assert Follows(s, n.id, pages, i);
    }
  }

  /** What a chain of `k + 1` pages says about the issue after `k` rounds. */
  lemma {:induction false} ChainIsProgress(s: Server, n: Node, pages: seq<Page>)
    requires Chain(s, n, pages)
    ensures After(s, n, |pages| - 1)
            == if IsWhole(pages) then Progress(Some(Relations(pages)), None)
               else if LastGoesOn(pages) then Progress(Some(Relations(pages)), Some(pages[|pages| - 1].end))
               else Progress(None, None)
  {
    var k := |pages| - 1;
    RelationsGrow(pages);
    if k == 0 {
      assert Relations(pages[..0]) == [];
    } else {
      ChainPrefix(s, n, pages);
      ChainIsProgress(s, n, pages[..k]);
    }
  }

  lemma ChainGrows(s: Server, n: Node, pages: seq<Page>, page: Page)
    requires Chain(s, n, pages) && LastGoesOn(pages) && NestedPage(s, n.id, pages[|pages| - 1].end) == Some(page)
    ensures Chain(s, n, pages + [page])
  {
    var k := |pages|;
    var longer := pages + [page];
    FindPageExactly(s.nested(n.id, pages[k - 1].end), n.id, page);
    forall i | 0 < i <= k ensures Follows(s, n.id, longer, i) {
      assert i < k ==> Follows(s, n.id, pages, i);
    }
  }

  /** The pages behind what is known after `k` rounds. */
  lemma {:induction false} ProgressIsChain(s: Server, n: Node, k: nat) returns (pages: seq<Page>)
    ensures After(s, n, k).gathered.Some? ==> Chain(s, n, pages) && |pages| <= k + 1
    ensures After(s, n, k).gathered.Some? && After(s, n, k).at == None ==> IsWhole(pages)
    ensures After(s, n, k).at.Some? ==> After(s, n, k).gathered.Some? && LastGoesOn(pages) && |pages| == k + 1
    ensures After(s, n, k).at.Some? ==> After(s, n, k).at.value == pages[k].end
  {
    if k == 0 {
      pages := if n.page.Some? then [n.page.value] else [];
    } else {
      pages := ProgressIsChain(s, n, k - 1);
      var before := After(s, n, k - 1);
      if before.at.Some? {
        var page := NestedPage(s, n.id, before.at.value);
        if page.Some? {
          ChainGrows(s, n, pages, page.value);
          pages := pages + [page.value];
        }
      }
    }
  }

  /** There are `k + 1` successive pages, and the last of them goes on. */
  ghost predicate HasMore(s: Server, n: Node, k: nat) {
    exists pages :: Chain(s, n, pages) && |pages| == k + 1 && LastGoesOn(pages)
  }

  /** An issue is still paging after `k` rounds exactly if there is more after `k + 1` pages. */
  lemma PagingExactly(s: Server, n: Node, k: nat)
    ensures After(s, n, k).at.Some? <==> HasMore(s, n, k)
  {
    var found := ProgressIsChain(s, n, k);
    if pages :| Chain(s, n, pages) && |pages| == k + 1 && LastGoesOn(pages) {
      ChainIsProgress(s, n, pages);
    }
  }

  /** The list of an issue ends exactly if there is not always more, and walking it takes a request for each
      page after which there is more. */
  lemma ListEndsExactly(s: Server, n: Node)
    ensures ListEnds(s, n) <==> exists k: nat :: !HasMore(s, n, k)
    ensures ListEnds(s, n) ==> forall k: nat :: HasMore(s, n, k) <==> k < Walk(s, n).requests
  {
    forall k: nat
      ensures ListEnds(s, n) ==> (HasMore(s, n, k) <==> k < Walk(s, n).requests)
      ensures !ListEnds(s, n) ==> HasMore(s, n, k)
    {
      PagingExactly(s, n, k);
      if ListEnds(s, n) {
        PagingWhileWalking(s, n, k);
      } else {
        EndlessKeepsPaging(s, n, k);
      }
    }
    if ListEnds(s, n) {
      assert !HasMore(s, n, Walk(s, n).requests);
    }
  }

  /** The walk reaches the end of the list exactly if successive pages lead to one after which there is no
      more; then it yields the relations of all of them in order, at one request for each but the first. */
  lemma WalkExactly(s: Server, n: Node, rs: seq<Relation>, requests: nat)
    requires ListEnds(s, n)
    ensures Walk(s, n) == Walked(Some(rs), requests)
            <==> exists pages ::
                   Chain(s, n, pages) && IsWhole(pages) && Relations(pages) == rs && |pages| == requests + 1
  {
    var w := Walk(s, n);
    if w == Walked(Some(rs), requests) {
      StaysOnWalk(s, n, requests);
      PagingWhileWalking(s, n, requests);
      var pages := ProgressIsChain(s, n, requests);
      WholeChain(s, n, pages);
    }
    if pages :| Chain(s, n, pages) && IsWhole(pages) && Relations(pages) == rs && |pages| == requests + 1 {
      WholeChain(s, n, pages);
    }
  }

  lemma WholeChain(s: Server, n: Node, pages: seq<Page>)
    requires ListEnds(s, n) && Chain(s, n, pages) && IsWhole(pages)
    ensures Walk(s, n) == Walked(Some(Relations(pages)), |pages| - 1)
  {
    var k := |pages| - 1;
    ChainIsProgress(s, n, pages);
    StaysOnWalk(s, n, k);
    PagingWhileWalking(s, n, k);
    if k > 0 {
      ChainPrefix(s, n, pages);
      ChainIsProgress(s, n, pages[..k]);
      PagingWhileWalking(s, n, k - 1);
    }
  }

  // ---------- The listing ----------

  /** The listing is read up to the first page without more or without a cursor, or else to its end; what
      is listed are the issues of the pages read, in order. */
  lemma {:induction false} ListedExactly(pages: seq<ListingPage>)
    ensures var n := PagesRead(pages);
            && n <= |pages| && Listed(pages) == Flat(seq(n, i requires 0 <= i < n => pages[i].nodes))
            && (forall i :: 0 <= i < n - 1 ==> pages[i].more && pages[i].end != "")
            && (0 < n < |pages| ==> !pages[n - 1].more || pages[n - 1].end == "")
            && (n == 0 ==> pages == [])
  {
    if pages != [] {
      var rest := pages[1..];
      ListedExactly(rest);
      var n := PagesRead(pages);
      var all := seq(n, i requires 0 <= i < n => pages[i].nodes);
      if IsLast(pages[0]) {
        FlatExactly([], pages[0].nodes, []);
        assert all == [pages[0].nodes];
      } else {
        var tail := seq(n - 1, i requires 0 <= i < n - 1 => rest[i].nodes);
        FlatExactly([pages[0].nodes], pages[0].nodes, tail);
        assert all == [pages[0].nodes] + tail;
        forall i | 0 <= i < n - 1 ensures pages[i].more && pages[i].end != "" {
          assert i > 0 ==> pages[i] == rest[i - 1];
        }
        assert n < |pages| ==> pages[n - 1] == rest[n - 2];
      }
    }
  }

  // ---------- The blockers ----------

  /** What is told of the issue that blocks: what can be read of it, and a stand-in for each thing that
      cannot. */
  ghost predicate Tells(b: Blocker, r: Relation) {
    && (r.issue == None ==> b == Blocker("", "an unreadable blocker", "no access", "unknown"))
    && (r.issue.Some? ==>
          && b.id == r.issue.value.id && b.identifier == r.issue.value.identifier
          && (forall x :: r.issue.value.stateName == Some(x) ==> b.stateName == x)
          && (r.issue.value.stateName == None ==> b.stateName == "unknown state")
          && (forall x :: r.issue.value.stateType == Some(x) ==> b.stateType == x)
          && (r.issue.value.stateType == None ==> b.stateType == "unknown"))
  }

  /** `at` lists, in order, the places of exactly the relations that declare a block, and each blocker is
      the one that is declared there. */
  ghost predicate Declared(bs: seq<Blocker>, rs: seq<Relation>, at: seq<nat>) {
    && |at| == |bs|
    && (forall j :: 0 <= j < |at| ==> at[j] < |rs| && rs[at[j]].kind == "blocks" && Tells(bs[j], rs[at[j]]))
    && (forall i, j :: 0 <= i < j < |at| ==> at[i] < at[j])
    && forall i: nat :: i < |rs| && rs[i].kind == "blocks" ==> i in at
  }

  lemma {:induction false} BlockersAreDeclared(rs: seq<Relation>) returns (at: seq<nat>)
    ensures Declared(Blockers(rs), rs, at)
  {
    if rs == [] {
      at := [];
    } else {
      var n := |rs| - 1;
      at := BlockersAreDeclared(rs[..n]);
      BlockersAppend(rs[..n], [rs[n]]);
      assert rs == rs[..n] + [rs[n]];
      assert [rs[n]][1..] == [];
      if rs[n].kind == "blocks" {
        assert Blockers([rs[n]]) == [RelationToBlocker(rs[n])];
        var before := at;
        at := at + [n];
        forall i: nat | i < |rs| && rs[i].kind == "blocks" ensures i in at {
          assert i < n ==> i in before;
        }
      } else {
        assert Blockers([rs[n]]) == [];
      }
    }
  }

  // ---------- The answer ----------

  /** The list of an issue was read to its end and declares these blockers. */
  ghost predicate BlockedBy(s: Server, n: Node, bs: seq<Blocker>) {
    exists pages, at :: Chain(s, n, pages) && IsWhole(pages) && Declared(bs, Relations(pages), at)
  }

  lemma DeclaredIsUnique(a: seq<Blocker>, b: seq<Blocker>, rs: seq<Relation>, at: seq<nat>, bt: seq<nat>)
    requires Declared(a, rs, at) && Declared(b, rs, bt)
    ensures a == b
  {
    SamePlaces(at, bt);
  }

  lemma {:induction false} SamePlaces(at: seq<nat>, bt: seq<nat>)
    requires forall i, j :: 0 <= i < j < |at| ==> at[i] < at[j]
    requires forall i, j :: 0 <= i < j < |bt| ==> bt[i] < bt[j]
    requires forall x :: x in at <==> x in bt
    ensures at == bt
  {
    assert at != [] ==> at[0] in bt;
    assert bt != [] ==> bt[0] in at;
    if at != [] {
      forall x ensures x in at[1..] <==> x in bt[1..] {
        assert x in at[1..] <==> x in at && x != at[0];
        assert x in bt[1..] <==> x in bt && x != bt[0];
      }
      SamePlaces(at[1..], bt[1..]);
    }
  }

  /** The batched answer in terms of the pages: a listed issue is answered with these blockers exactly if
      its pages were read to the end and declare them. */
  lemma AnswersExactly(out: map<Id, seq<Blocker>>, s: Server, nodes: seq<Node>, i: nat, bs: seq<Blocker>)
    requires AllEnd(s, nodes) && AgreesWithWalks(out, s, nodes) && i < |nodes|
    ensures Lookup(out, nodes[i].id) == Some(bs) <==> BlockedBy(s, nodes[i], bs)
  {
    var n := nodes[i];
    var w := Walk(s, n);
    if w.relations.Some? {
      WalkExactly(s, n, w.relations.value, w.requests);
      var pages :| Chain(s, n, pages) && IsWhole(pages) && Relations(pages) == w.relations.value;
      var at := BlockersAreDeclared(w.relations.value);
      assert BlockedBy(s, n, Blockers(w.relations.value));
    }
    if BlockedBy(s, n, bs) {
      var pages, at :| Chain(s, n, pages) && IsWhole(pages) && Declared(bs, Relations(pages), at);
      WholeChain(s, n, pages);
      var bt := BlockersAreDeclared(Relations(pages));
      DeclaredIsUnique(bs, Blockers(Relations(pages)), Relations(pages), at, bt);
    }
  }
}
