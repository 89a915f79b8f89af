/** The relation list of one issue: its pages, its cursors, and what walking it alone yields. */
module RelationPaging {
  import opened Options

  type Id = string
  type Cursor = string

  datatype BlockingIssue = BlockingIssue(id: Id, identifier: string, stateName: Option<string>,
                                         stateType: Option<string>)

  /** A relation declared on an issue by another one, which may be unreadable. */
  datatype Relation = Relation(kind: string, issue: Option<BlockingIssue>)

  /** One page of a relation list: `more` is `hasNextPage`; an empty `end` is a missing cursor. */
  datatype Page = Page(relations: seq<Relation>, more: bool, end: Cursor)

  datatype Node = Node(id: Id, page: Option<Page>)

  datatype Blocker = Blocker(id: Id, identifier: string, stateName: string, stateType: string)

  const UNREADABLE_BLOCKER := Blocker("", "an unreadable blocker", "no access", "unknown")

  function RelationToBlocker(r: Relation): Blocker {
    match r.issue
    case None => UNREADABLE_BLOCKER
    case Some(i) =>
      Blocker(i.id, i.identifier,
              if i.stateName.Some? then i.stateName.value else "unknown state",
              if i.stateType.Some? then i.stateType.value else "unknown")
  }

  function Blockers(rs: seq<Relation>): seq<Blocker> {
    if rs == [] then []
    else (if rs[0].kind == "blocks" then [RelationToBlocker(rs[0])] else []) + Blockers(rs[1..])
  }

  /** Every relation that declares a block gates the issue, one that cannot be read as an unknown blocker,
      and no other relation does. */
  lemma {:induction false} OnlyBlocksGate(rs: seq<Relation>, b: Blocker)
    ensures b in Blockers(rs) <==> exists i :: 0 <= i < |rs| && rs[i].kind == "blocks" && RelationToBlocker(rs[i]) == b
  {
    if rs != [] {
      OnlyBlocksGate(rs[1..], b);
      assert forall i :: 0 < i < |rs| ==> rs[i] == rs[1..][i - 1];
      if b in Blockers(rs[1..]) {
        var i :| 0 <= i < |rs[1..]| && rs[1..][i].kind == "blocks" && RelationToBlocker(rs[1..][i]) == b;
        assert rs[i + 1] == rs[1..][i];
      }
    }
  }

  lemma {:induction false} BlockersAppend(a: seq<Relation>, b: seq<Relation>)
    ensures Blockers(a + b) == Blockers(a) + Blockers(b)
  {
    if a == [] {
      assert a + b == b;
    } else {
      assert (a + b)[1..] == a[1..] + b;
      BlockersAppend(a[1..], b);
    }
  }

  datatype ListingPage = ListingPage(nodes: seq<Node>, more: bool, end: Cursor)

  /** What Linear answers while it stands still: the successive pages of the listed issues, each issue
      with its first page of relations, and for an issue and a cursor the nodes of the one-issue
      selection. */
  datatype Server = Server(listing: seq<ListingPage>, nested: (Id, Cursor) -> seq<Node>)

  predicate IsLast(p: ListingPage) {
    !p.more || p.end == ""
  }

  /** The issues of all pages up to the one that ends the listing. */
  function Listed(pages: seq<ListingPage>): seq<Node> {
    if pages == [] then []
    else pages[0].nodes + if IsLast(pages[0]) then [] else Listed(pages[1..])
  }

  datatype Next = Complete | Continue(cursor: Cursor) | Incomplete

  function NextRelationCursor(page: Page, after: Option<Cursor>): Next {
    if !page.more then Complete
    else if page.end == "" || Some(page.end) == after then Incomplete
    else Continue(page.end)
  }

  /** The page of `id` among the nodes of one aliased selection. */
  function FindPage(nodes: seq<Node>, id: Id): Option<Page> {
    if nodes == [] then None
    else if nodes[0].id == id then nodes[0].page
    else FindPage(nodes[1..], id)
  }

  function NestedPage(s: Server, id: Id, c: Cursor): Option<Page> {
    FindPage(s.nested(id, c), id)
  }

  /** The cursor that the page after `c` hands out, if the list goes on from there. */
  function NestedNext(s: Server, id: Id, c: Cursor): Option<Cursor> {
    var page := NestedPage(s, id, c);
    if page.Some? && NextRelationCursor(page.value, Some(c)).Continue? then Some(page.value.end) else None
  }

  // ---------- Does a list end ----------

  /** Following the cursors from `c` on comes to an end within `n` steps. */
  predicate EndsWithin(s: Server, id: Id, c: Cursor, n: nat)
    decreases n
  {
    NestedNext(s, id, c) == None || (n > 0 && EndsWithin(s, id, NestedNext(s, id, c).value, n - 1))
  }

  ghost predicate Ends(s: Server, id: Id, c: Cursor) {
    exists n :: EndsWithin(s, id, c, n)
  }

  /** The fewest steps after which the list ends. */
  ghost function Fewest(s: Server, id: Id, c: Cursor, n: nat): (least: nat)
    requires EndsWithin(s, id, c, n)
    ensures EndsWithin(s, id, c, least) && least <= n && (least > 0 ==> !EndsWithin(s, id, c, least - 1))
  {
    if n > 0 && EndsWithin(s, id, c, n - 1) then Fewest(s, id, c, n - 1) else n
  }

  ghost function Remaining(s: Server, id: Id, c: Cursor): nat
    requires Ends(s, id, c)
  {
    var n :| EndsWithin(s, id, c, n);
    Fewest(s, id, c, n)
  }

  lemma {:induction false} EndsLater(s: Server, id: Id, c: Cursor, n: nat, m: nat)
    requires EndsWithin(s, id, c, n) && n <= m
    ensures EndsWithin(s, id, c, m)
    decreases n
  {
    if NestedNext(s, id, c).Some? {
      EndsLater(s, id, NestedNext(s, id, c).value, n - 1, m - 1);
    }
  }

  lemma RemainingFalls(s: Server, id: Id, c: Cursor)
    requires Ends(s, id, c) && NestedNext(s, id, c).Some?
    ensures var d := NestedNext(s, id, c).value; Ends(s, id, d) && Remaining(s, id, d) < Remaining(s, id, c)
  {
    var d, k := NestedNext(s, id, c).value, Remaining(s, id, c);
    assert EndsWithin(s, id, c, k) && EndsWithin(s, id, d, k - 1);
    var l := Remaining(s, id, d);
    if l > 0 && k - 1 <= l - 1 {
      EndsLater(s, id, d, k - 1, l - 1);
    }
  }

  lemma EndlessGoesOn(s: Server, id: Id, c: Cursor)
    requires !Ends(s, id, c)
    ensures NestedNext(s, id, c).Some? && !Ends(s, id, NestedNext(s, id, c).value)
  {
    assert NestedNext(s, id, c) == None ==> EndsWithin(s, id, c, 0);
    var d := NestedNext(s, id, c).value;
    forall n: nat | EndsWithin(s, id, d, n) ensures false {
      assert EndsWithin(s, id, c, n + 1);
    }
  }

  /** Two cursors that hand out each other: only a cursor equal to the one just used is recognised as
      unusable, so the list has no end. */
  lemma {:induction false} CircleNeverEnds(s: Server, id: Id, c: Cursor, d: Cursor, n: nat)
    requires NestedNext(s, id, c) == Some(d) && NestedNext(s, id, d) == Some(c)
    ensures !EndsWithin(s, id, c, n) && !EndsWithin(s, id, d, n)
  {
    if n > 0 {
      CircleNeverEnds(s, id, c, d, n - 1);
    }
  }

  // ---------- One issue at a time ----------

  datatype Walked = Walked(relations: Option<seq<Relation>>, requests: nat)

  /** Walk the list of `id` from the page after cursor `c` to its end: all relations in order, or None
      when the list cannot be finished, and how many requests that took. */
  ghost function WalkFrom(s: Server, id: Id, c: Cursor): Walked
    requires Ends(s, id, c)
    decreases Remaining(s, id, c)
  {
    match NestedPage(s, id, c)
    case None => Walked(None, 1)
    case Some(p) =>
      match NextRelationCursor(p, Some(c))
      case Complete => Walked(Some(p.relations), 1)
      case Incomplete => Walked(None, 1)
      case Continue(d) =>
        RemainingFalls(s, id, c);
        var rest := WalkFrom(s, id, d);
        Walked(if rest.relations.Some? then Some(p.relations + rest.relations.value) else None, rest.requests + 1)
  }

  /** Where the first page of a listed issue leaves off. */
  function FirstCursor(n: Node): Option<Cursor> {
    if n.page.Some? && NextRelationCursor(n.page.value, None).Continue? then Some(n.page.value.end) else None
  }

  /** The list of a listed issue has an end. */
  ghost predicate ListEnds(s: Server, n: Node) {
    FirstCursor(n).Some? ==> Ends(s, n.id, FirstCursor(n).value)
  }

  ghost function Walk(s: Server, n: Node): Walked
    requires ListEnds(s, n)
  {
    match n.page
    case None => Walked(None, 0)
    case Some(p) =>
      match NextRelationCursor(p, None)
      case Complete => Walked(Some(p.relations), 0)
      case Incomplete => Walked(None, 0)
      case Continue(c) =>
        var rest := WalkFrom(s, n.id, c);
        Walked(if rest.relations.Some? then Some(p.relations + rest.relations.value) else None, rest.requests)
  }

  // ---------- One issue, round by round ----------

  /** What is known of an issue's list, and the cursor it is still paging from. */
  datatype Progress = Progress(gathered: Option<seq<Relation>>, at: Option<Cursor>)

  function TakePage(gathered: seq<Relation>, page: Page, after: Option<Cursor>): Progress {
    match NextRelationCursor(page, after)
    case Complete => Progress(Some(gathered + page.relations), None)
    case Incomplete => Progress(None, None)
    case Continue(c) => Progress(Some(gathered + page.relations), Some(c))
  }

  function First(n: Node): Progress {
    if n.page.None? then Progress(None, None) else TakePage([], n.page.value, None)
  }

  function Advance(s: Server, id: Id, p: Progress): Progress {
    if p.at.None? || p.gathered.None? then Progress(p.gathered, None)
    else
      var page := NestedPage(s, id, p.at.value);
      if page.None? then Progress(None, None) else TakePage(p.gathered.value, page.value, p.at)
  }

  /** The issue after `k` rounds. */
  function After(s: Server, n: Node, k: nat): Progress {
    if k == 0 then First(n) else Advance(s, n.id, After(s, n, k - 1))
  }

  lemma {:induction false} PagingIsGathered(s: Server, n: Node, k: nat)
    ensures After(s, n, k).at.Some? ==> After(s, n, k).gathered.Some?
    ensures k == 0 ==> After(s, n, k).at == FirstCursor(n)
    ensures After(s, n, k).at.Some? ==> After(s, n, k + 1).at == NestedNext(s, n.id, After(s, n, k).at.value)
    ensures After(s, n, k).at == None ==> After(s, n, k + 1) == After(s, n, k)
  {
    if k > 0 {
      PagingIsGathered(s, n, k - 1);
    }
  }

  lemma Reassociate(a: seq<Relation>, b: seq<Relation>, c: seq<Relation>)
    ensures a + (b + c) == (a + b) + c
  {
  }

  /** What is gathered and what is still to walk make up the issue's own walk, in every round. */
  lemma {:induction false} StaysOnWalk(s: Server, n: Node, k: nat)
    requires ListEnds(s, n)
    ensures var w, p := Walk(s, n), After(s, n, k);
            match p.at
            case None => w.relations == p.gathered && w.requests <= k
            case Some(c) =>
              && p.gathered.Some? && Ends(s, n.id, c)
              && w.requests == k + WalkFrom(s, n.id, c).requests
              && w.relations
                 == (if WalkFrom(s, n.id, c).relations.Some?
                     then Some(p.gathered.value + WalkFrom(s, n.id, c).relations.value) else None)
  {
    if k == 0 {
      if n.page.Some? {
        assert [] + n.page.value.relations == n.page.value.relations;
      }
    } else {
      StaysOnWalk(s, n, k - 1);
      var before := After(s, n, k - 1);
      if before.at.Some? && NestedNext(s, n.id, before.at.value).Some? {
        StepOnWalk(s, n.id, before);
      }
    }
  }

  /** One page further: what the page adds is taken from what was still to walk. */
  lemma StepOnWalk(s: Server, id: Id, p: Progress)
    requires p.at.Some? && p.gathered.Some? && Ends(s, id, p.at.value) && NestedNext(s, id, p.at.value).Some?
    ensures var q, c := Advance(s, id, p), p.at.value;
            && q.at == NestedNext(s, id, c) && q.gathered.Some? && Ends(s, id, q.at.value)
            && WalkFrom(s, id, c).requests == WalkFrom(s, id, q.at.value).requests + 1
            && (WalkFrom(s, id, c).relations.Some? <==> WalkFrom(s, id, q.at.value).relations.Some?)
            && (WalkFrom(s, id, c).relations.Some? ==>
                  p.gathered.value + WalkFrom(s, id, c).relations.value
                      == q.gathered.value + WalkFrom(s, id, q.at.value).relations.value)
  {
    var c := p.at.value;
    RemainingFalls(s, id, c);
    var page, rest := NestedPage(s, id, c).value, WalkFrom(s, id, NestedNext(s, id, c).value);
    if rest.relations.Some? {
      Reassociate(p.gathered.value, page.relations, rest.relations.value);
    }
  }

  lemma WalkAsks(s: Server, id: Id, c: Cursor)
    requires Ends(s, id, c)
    ensures WalkFrom(s, id, c).requests >= 1
  {
  }

  /** An issue is still paging after `k` rounds exactly if its own walk takes more than `k` requests. */
  lemma PagingWhileWalking(s: Server, n: Node, k: nat)
    requires ListEnds(s, n)
    ensures After(s, n, k).at.Some? <==> Walk(s, n).requests > k
  {
    StaysOnWalk(s, n, k);
    if After(s, n, k).at.Some? {
      WalkAsks(s, n.id, After(s, n, k).at.value);
    }
  }

  /** An issue whose list has no end is still paging after every round. */
  lemma {:induction false} EndlessKeepsPaging(s: Server, n: Node, k: nat)
    requires !ListEnds(s, n)
    ensures After(s, n, k).at.Some? && !Ends(s, n.id, After(s, n, k).at.value)
  {
    PagingIsGathered(s, n, k);
    if k > 0 {
      EndlessKeepsPaging(s, n, k - 1);
      EndlessGoesOn(s, n.id, After(s, n, k - 1).at.value);
      PagingIsGathered(s, n, k - 1);
    }
  }
}
