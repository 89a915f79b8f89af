/** Pruning the installed versions. */
module VersionPruning {
  import opened Options
  import opened Sorting
  import opened Versions

  datatype Entry = Entry(name: string, directory: bool)

  predicate IsVersion(e: Entry) {
    e.directory && !("." <= e.name)
  }

  function Keeping(entries: seq<Entry>, p: Entry -> bool): seq<Entry> {
    if entries == [] then []
    else Keeping(entries[..|entries| - 1], p) + if p(entries[|entries| - 1]) then [entries[|entries| - 1]] else []
  }

  lemma {:induction false} KeepingSame(entries: seq<Entry>, p: Entry -> bool, q: Entry -> bool)
    requires forall i :: 0 <= i < |entries| ==> p(entries[i]) == q(entries[i])
    ensures Keeping(entries, p) == Keeping(entries, q)
  {
    if entries != [] {
      KeepingSame(entries[..|entries| - 1], p, q);
    }
  }

  function Both(p: Entry -> bool, q: Entry -> bool): Entry -> bool {
    (e: Entry) => p(e) && q(e)
  }

  lemma {:induction false} KeepingTwice(entries: seq<Entry>, p: Entry -> bool, q: Entry -> bool)
    ensures Keeping(Keeping(entries, p), q) == Keeping(entries, Both(p, q))
  {
    if entries != [] {
      var shorter, last := entries[..|entries| - 1], entries[|entries| - 1];
      KeepingTwice(shorter, p, q);
      if p(last) {
        var kept := Keeping(shorter, p) + [last];
        assert kept[..|kept| - 1] == Keeping(shorter, p);
      } else {
        assert Keeping(entries, p) == Keeping(shorter, p);
      }
    }
  }

  lemma {:induction false} KeepingAll(entries: seq<Entry>, p: Entry -> bool)
    requires forall i :: 0 <= i < |entries| ==> p(entries[i])
    ensures Keeping(entries, p) == entries
  {
    if entries != [] {
      KeepingAll(entries[..|entries| - 1], p);
    }
  }

  lemma {:induction false} KeptExactly(entries: seq<Entry>, p: Entry -> bool, e: Entry)
    ensures e in Keeping(entries, p) <==> e in entries && p(e)
  {
    if entries != [] {
      KeptExactly(entries[..|entries| - 1], p, e);
      assert entries == entries[..|entries| - 1] + [entries[|entries| - 1]];
    }
  }

  function Names(entries: seq<Entry>): seq<string> {
    seq(|entries|, i requires 0 <= i < |entries| => entries[i].name)
  }

  /** The names of the visible directories, newest version first. */
  function VersionNames(entries: seq<Entry>): seq<string> {
    Sort(Names(Keeping(entries, IsVersion)), NewerFirst)
  }

  function Retained(names: seq<string>, keep: int): seq<string> {
    if keep <= 0 then [] else if keep < |names| then names[..keep] else names
  }

  predicate KeepsName(name: string, retained: seq<string>, current: Option<string>) {
    name in retained || current == Some(name)
  }

  /** What pruning leaves: everything that is not a version, the retained ones and the current one. */
  predicate Stays(e: Entry, retained: seq<string>, current: Option<string>) {
    !IsVersion(e) || KeepsName(e.name, retained, current)
  }

  function Staying(retained: seq<string>, current: Option<string>): Entry -> bool {
    (e: Entry) => Stays(e, retained, current)
  }

  /** Not among the names gone through so far, or kept. */
  function NotPruned(visited: seq<string>, retained: seq<string>, current: Option<string>): Entry -> bool {
    (e: Entry) => e.name !in visited || KeepsName(e.name, retained, current)
  }

  function Unlike(name: string): Entry -> bool {
    (e: Entry) => e.name != name
  }

  ghost predicate DistinctNames(entries: seq<Entry>) {
    forall i, j :: 0 <= i < j < |entries| ==> entries[i].name != entries[j].name
  }

  class VersionsRoot {
    var entries: seq<Entry>

    /** pruneOldVersions. `current` is the version that the `current` link resolves to, and `throws` says
        which removals throw. The first that does ends the loop, with the versions before it pruned. */
    method PruneOldVersions(keep: int, current: Option<string>, throws: string -> bool)
      returns (threw: bool, ghost upTo: nat)
      requires DistinctNames(entries)
      modifies this
      ensures Pruned(old(entries), entries, keep, current, throws, threw, upTo)
    {
      ghost var before := entries;
      var names := VersionNames(entries);
      var retained := Retained(names, keep);
      KeepingAll(before, NotPruned(names[..0], retained, current));
      for k := 0 to |names|
        invariant entries == Keeping(before, NotPruned(names[..k], retained, current))
        invariant NoneFails(names, k, retained, current, throws)
      {
        PruneStep(before, names, k, retained, current);
        if names[k] in retained || current == Some(names[k]) {
          continue;
        }
        if throws(names[k]) {
          assert Fails(names, k, retained, current, throws);
          return true, k;
        }
        entries := Keeping(entries, Unlike(names[k]));
      }
      EverythingVisited(before, names, retained, current);
      threw, upTo := false, |names|;
    }
  }

  ghost predicate NoneFails(names: seq<string>, k: int, retained: seq<string>, current: Option<string>,
                            throws: string -> bool) {
    forall j :: j < k ==> !Fails(names, j, retained, current, throws)
  }

  /** Without a removal that throws, what is to stay is left. Otherwise the first that throws is that of the
      version `upTo`, and of the versions before it only those that are to stay are left. */
  ghost predicate Pruned(before: seq<Entry>, after: seq<Entry>, keep: int, current: Option<string>,
                         throws: string -> bool, threw: bool, upTo: nat)
  {
    var names := VersionNames(before);
    var retained := Retained(names, keep);
    if threw then
      && Fails(names, upTo, retained, current, throws) && NoneFails(names, upTo, retained, current, throws)
      && after == Keeping(before, NotPruned(names[..upTo], retained, current))
    else
      NoneFails(names, |names|, retained, current, throws) && after == Keeping(before, Staying(retained, current))
  }

  /** The removal of the `k`-th version is tried and throws. */
  predicate Fails(names: seq<string>, k: int, retained: seq<string>, current: Option<string>, throws: string -> bool) {
    0 <= k < |names| && !KeepsName(names[k], retained, current) && throws(names[k])
  }

  lemma PruneStep(before: seq<Entry>, names: seq<string>, k: nat, retained: seq<string>, current: Option<string>)
    requires k < |names|
    ensures var done := Keeping(before, NotPruned(names[..k], retained, current));
            var next := Keeping(before, NotPruned(names[..k + 1], retained, current));
            next == if KeepsName(names[k], retained, current) then done else Keeping(done, Unlike(names[k]))
  {
    var p := NotPruned(names[..k], retained, current);
    var q := NotPruned(names[..k + 1], retained, current);
    var r := Unlike(names[k]);
    assert names[..k + 1] == names[..k] + [names[k]];
    if KeepsName(names[k], retained, current) {
      KeepingSame(before, p, q);
    } else {
      KeepingTwice(before, p, r);
      KeepingSame(before, Both(p, r), q);
    }
  }

  lemma NamesOfVersions(entries: seq<Entry>, name: string)
    ensures name in VersionNames(entries)
            <==> exists i :: 0 <= i < |entries| && IsVersion(entries[i]) && entries[i].name == name
  {
    var versions := Keeping(entries, IsVersion);
    SortKeepsElements(Names(versions), NewerFirst);
    assert name in VersionNames(entries) <==> name in multiset(VersionNames(entries));
    assert name in Names(versions) <==> name in multiset(Names(versions));
    if name in Names(versions) {
      var i :| 0 <= i < |versions| && versions[i].name == name;
      KeptExactly(entries, IsVersion, versions[i]);
    }
    forall i | 0 <= i < |entries| && IsVersion(entries[i]) && entries[i].name == name ensures name in Names(versions) {
      KeptExactly(entries, IsVersion, entries[i]);
      var j :| 0 <= j < |versions| && versions[j] == entries[i];
      assert Names(versions)[j] == name;
    }
  }

  lemma EverythingVisited(before: seq<Entry>, names: seq<string>, retained: seq<string>, current: Option<string>)
    requires DistinctNames(before) && names == VersionNames(before)
    ensures Keeping(before, NotPruned(names[..|names|], retained, current))
            == Keeping(before, Staying(retained, current))
  {
    assert names[..|names|] == names;
    forall i | 0 <= i < |before| ensures before[i].name in names <==> IsVersion(before[i]) {
      NamesOfVersions(before, before[i].name);
    }
    KeepingSame(before, NotPruned(names[..|names|], retained, current), Staying(retained, current));
  }

  /** The versions that stay are exactly the first `keep` in descending order, which are `keep` versions, or
      all if there are fewer, none of them older than any other version, plus the current one. */
  lemma NewestStay(entries: seq<Entry>, keep: int, current: Option<string>, e: Entry)
    requires e in entries && IsVersion(e)
    ensures var names := VersionNames(entries); var retained := Retained(names, keep);
            && (e in Keeping(entries, Staying(retained, current)) <==> e.name in retained || current == Some(e.name))
            && |retained| == (if keep <= 0 then 0 else if keep < |names| then keep else |names|)
            && (e.name !in retained
                ==> forall i :: 0 <= i < |retained| ==> Compare(Parse(retained[i]), Parse(e.name)) >= 0)
  {
    var names := VersionNames(entries);
    var retained := Retained(names, keep);
    KeptExactly(entries, Staying(retained, current), e);
    NewerFirstIsOrder();
    SortSorts(Names(Keeping(entries, IsVersion)), NewerFirst);
    NamesOfVersions(entries, e.name);
    var i :| 0 <= i < |entries| && entries[i] == e;
    var k :| 0 <= k < |names| && names[k] == e.name;
    if e.name !in retained {
      assert forall j :: 0 <= j < |retained| ==> retained[j] == names[j];
      forall j | 0 <= j < |retained| ensures Compare(Parse(retained[j]), Parse(e.name)) >= 0 {
        assert NewerFirst(names[j], names[k]);
        CompareTurns(Parse(names[k]), Parse(names[j]), 0);
      }
    }
  }
}
