/** The table of a description's canonical sections, for any reading of headings as keys. */
module SectionTable {
  import opened LineSections
  import opened Options
  import opened Sorting
  import opened Text

  // ---------- The table ----------

  datatype Key = ExecutionModeKey | NonGoalsKey | ExitPredicateKey | StoppingPointKey | CriteriaKey

  type Entry = (Key, string)

  function EntryOf(s: Section, keyOf: Section -> Option<Key>): seq<Entry> {
    if keyOf(s).Some? then [(keyOf(s).value, JoinLines(s.body))] else []
  }

  /** The canonical sections, with their texts. */
  function Entries(sections: seq<Section>, keyOf: Section -> Option<Key>): seq<Entry> {
    if sections == [] then [] else Entries(sections[..|sections| - 1], keyOf) + EntryOf(sections[|sections| - 1], keyOf)
  }

  /** The table of canonical sections, or the first heading that comes twice. */
  function Find(entries: seq<Entry>): Result<map<Key, string>, Key> {
    if entries == [] then Ok(map[])
    else
      var before, last := Find(entries[..|entries| - 1]), entries[|entries| - 1];
      if before.Err? then before
      else if last.0 in before.value then Err(last.0)
      else Ok(before.value[last.0 := last.1])
  }

  lemma {:induction false} FindStep(entries: seq<Entry>, more: seq<Entry>)
    ensures Find(entries).Err? ==> Find(entries + more) == Find(entries)
    decreases |more|
  {
    if more == [] {
      assert entries + more == entries;
    } else {
      var all := entries + more;
      assert all[..|all| - 1] == entries + more[..|more| - 1];
      FindStep(entries, more[..|more| - 1]);
    }
  }

  lemma FindAppend(sections: seq<Section>, k: nat, keyOf: Section -> Option<Key>)
    requires k < |sections| && Find(Entries(sections[..k], keyOf)).Ok?
    ensures var found, key := Find(Entries(sections[..k], keyOf)).value, keyOf(sections[k]);
            && (key == None ==> Find(Entries(sections[..k + 1], keyOf)) == Ok(found))
            && (key.Some? && key.value !in found
                ==> Find(Entries(sections[..k + 1], keyOf)) == Ok(found[key.value := JoinLines(sections[k].body)]))
            && (key.Some? && key.value in found ==> Find(Entries(sections, keyOf)) == Err(key.value))
  {
    var before := Entries(sections[..k], keyOf);
    assert sections[..k + 1][..k] == sections[..k];
    assert Entries(sections[..k + 1], keyOf) == before + EntryOf(sections[k], keyOf);
    assert (before + EntryOf(sections[k], keyOf))[..|before|] == before;
    if keyOf(sections[k]) == None {
      assert before + EntryOf(sections[k], keyOf) == before;
    } else if keyOf(sections[k]).value in Find(before).value {
      FindStops(sections, k + 1, keyOf);
    }
  }

  lemma {:induction false} FindStops(sections: seq<Section>, k: nat, keyOf: Section -> Option<Key>)
    requires k <= |sections| && Find(Entries(sections[..k], keyOf)).Err?
    ensures Find(Entries(sections, keyOf)) == Find(Entries(sections[..k], keyOf))
    decreases |sections|
  {
    if k == |sections| {
      assert sections[..k] == sections;
    } else {
      var shorter := sections[..|sections| - 1];
      assert shorter[..k] == sections[..k];
      FindStops(shorter, k, keyOf);
      FindStep(Entries(shorter, keyOf), EntryOf(sections[|sections| - 1], keyOf));
    }
  }

  // ---------- Order and other sections do not matter ----------

  function KeySet(entries: seq<Entry>): set<Key> {
    set i | 0 <= i < |entries| :: entries[i].0
  }

  ghost predicate FoundIn(entries: seq<Entry>, m: map<Key, string>) {
    m.Keys == KeySet(entries) && forall i :: 0 <= i < |entries| ==> m[entries[i].0] == entries[i].1
  }

  lemma KeySetStep(entries: seq<Entry>)
    requires entries != []
    ensures KeySet(entries) == KeySet(entries[..|entries| - 1]) + {entries[|entries| - 1].0}
  {
    var n := |entries| - 1;
    assert forall i :: 0 <= i < n ==> entries[..n][i] == entries[i];
    forall k | k in KeySet(entries) ensures k in KeySet(entries[..n]) + {entries[n].0} {
      var i :| 0 <= i < |entries| && entries[i].0 == k;
      assert i < n ==> entries[..n][i].0 == k;
    }
    forall k | k in KeySet(entries[..n]) ensures k in KeySet(entries) {
      var i :| 0 <= i < n && entries[..n][i].0 == k;
      assert entries[i].0 == k;
    }
  }

  /** The table exists exactly if no canonical heading comes twice, and then it holds each one's text. */
  lemma {:induction false} FindsExactly(entries: seq<Entry>)
    ensures |KeySet(entries)| <= |entries|
    ensures Find(entries).Ok? <==> |KeySet(entries)| == |entries|
    ensures Find(entries).Ok? ==> FoundIn(entries, Find(entries).value)
  {
    if entries != [] {
      var before, last := entries[..|entries| - 1], entries[|entries| - 1];
      FindsExactly(before);
      KeySetStep(entries);
      if Find(before).Ok? {
        assert last.0 in Find(before).value <==> last.0 in KeySet(before);
        assert forall i :: 0 <= i < |before| ==> entries[i] == before[i] && before[i].0 in KeySet(before);
      }
    }
  }

  lemma SameElements(a: seq<Entry>, b: seq<Entry>, i: nat) returns (j: nat)
    requires multiset(a) == multiset(b) && i < |a|
    ensures j < |b| && b[j] == a[i]
  {
    assert a[i] in multiset(a);
    j := IndexIn(b, a[i]);
  }

  lemma SameKeys(a: seq<Entry>, b: seq<Entry>)
    requires multiset(a) == multiset(b)
    ensures KeySet(a) <= KeySet(b)
  {
    forall k | k in KeySet(a) ensures k in KeySet(b) {
      var i: nat :| i < |a| && a[i].0 == k;
      var j := SameElements(a, b, i);
      assert b[j].0 == k;
    }
  }

  lemma FindIgnoresOrder(a: seq<Entry>, b: seq<Entry>)
    requires multiset(a) == multiset(b)
    ensures Find(a).Ok? <==> Find(b).Ok?
    ensures Find(a).Ok? ==> Find(a) == Find(b)
  {
    SameElementsSameLength(a, b);
    SameKeys(a, b);
    SameKeys(b, a);
    FindsExactly(a);
    FindsExactly(b);
    assert KeySet(a) == KeySet(b);
    if Find(a).Ok? {
      var m, n := Find(a).value, Find(b).value;
      forall k | k in m ensures m[k] == n[k] {
        var i: nat :| i < |a| && a[i].0 == k;
        var j := SameElements(a, b, i);
        assert n[b[j].0] == b[j].1;
      }
      assert m == n;
    }
  }

  /** Putting the same sections in another order gives the same entries in some order. */
  lemma {:induction false} EntriesIgnoreOrder(a: seq<Section>, b: seq<Section>, keyOf: Section -> Option<Key>)
    requires multiset(a) == multiset(b)
    ensures multiset(Entries(a, keyOf)) == multiset(Entries(b, keyOf))
    decreases |a|
  {
    SameElementsSameLength(a, b);
    if a != [] {
      var shorter, last := a[..|a| - 1], a[|a| - 1];
      assert a == shorter + [last];
      assert last in multiset(a);
      var i := IndexIn(b, last);
      WithoutOne(b, i);
      EntriesIgnoreOrder(shorter, b[..i] + b[i + 1..], keyOf);
      EntriesWithout(b, i, keyOf);
    }
  }

  lemma {:induction false} EntriesWithout(b: seq<Section>, i: nat, keyOf: Section -> Option<Key>)
    requires i < |b|
    ensures multiset(Entries(b, keyOf))
            == multiset(Entries(b[..i] + b[i + 1..], keyOf)) + multiset(EntryOf(b[i], keyOf))
    decreases |b|
  {
    var rest := b[..i] + b[i + 1..];
    if i == |b| - 1 {
      assert rest == b[..i];
    } else {
      EntriesWithout(b[..|b| - 1], i, keyOf);
      WithoutLast(b, i, keyOf);
    }
  }

  lemma WithoutLast(b: seq<Section>, i: nat, keyOf: Section -> Option<Key>)
    requires i < |b| - 1
    ensures var shorter, last := b[..|b| - 1], b[|b| - 1];
            && Entries(b, keyOf) == Entries(shorter, keyOf) + EntryOf(last, keyOf)
            && Entries(b[..i] + b[i + 1..], keyOf)
               == Entries(shorter[..i] + shorter[i + 1..], keyOf) + EntryOf(last, keyOf)
            && shorter[i] == b[i]
  {
    var shorter, last := b[..|b| - 1], b[|b| - 1];
    var rest, inner := b[..i] + b[i + 1..], shorter[..i] + shorter[i + 1..];
    assert rest == inner + [last] && rest[..|rest| - 1] == inner;
  }

  /** A section under any other heading adds nothing, wherever it stands. */
  lemma {:induction false} OtherSectionsAddNothing(b: seq<Section>, i: nat, keyOf: Section -> Option<Key>)
    requires i < |b| && keyOf(b[i]) == None
    ensures Entries(b, keyOf) == Entries(b[..i] + b[i + 1..], keyOf)
    decreases |b|
  {
    if i == |b| - 1 {
      assert b[..i] + b[i + 1..] == b[..i];
    } else {
      OtherSectionsAddNothing(b[..|b| - 1], i, keyOf);
      WithoutLast(b, i, keyOf);
    }
  }

  // ---------- Headings and the table ----------

  /** The four headings that make a ticket a contract ticket. */
  predicate IsSignal(key: Key) {
    key != CriteriaKey
  }

  predicate HasSignal(found: map<Key, string>) {
    exists key :: key in found && IsSignal(key)
  }

  predicate IsSignalHeading(key: Option<Key>) {
    key.Some? && IsSignal(key.value)
  }

  ghost predicate Signals(sections: seq<Section>, keyOf: Section -> Option<Key>) {
    exists i :: 0 <= i < |sections| && IsSignalHeading(keyOf(sections[i]))
  }

  ghost predicate Heads(sections: seq<Section>, i: int, key: Key, keyOf: Section -> Option<Key>) {
    0 <= i < |sections| && keyOf(sections[i]) == Some(key)
  }

  ghost predicate HasHeading(sections: seq<Section>, key: Key, keyOf: Section -> Option<Key>) {
    exists i :: Heads(sections, i, key, keyOf)
  }

  /** The headings that the table of sections is built from. */
  lemma {:induction false} EntriesAreHeadings(sections: seq<Section>, key: Key, keyOf: Section -> Option<Key>)
    ensures key in KeySet(Entries(sections, keyOf)) <==> HasHeading(sections, key, keyOf)
  {
    if sections != [] {
      var n := |sections| - 1;
      var before, entries := Entries(sections[..n], keyOf), Entries(sections, keyOf);
      EntriesAreHeadings(sections[..n], key, keyOf);
      assert forall i ::
          Heads(sections, i, key, keyOf)
          <==> Heads(sections[..n], i, key, keyOf) || (i == n && keyOf(sections[n]) == Some(key));
      assert Heads(sections, n, key, keyOf) <==> keyOf(sections[n]) == Some(key);
      assert HasHeading(sections, key, keyOf)
          <==> HasHeading(sections[..n], key, keyOf) || keyOf(sections[n]) == Some(key);
      if keyOf(sections[n]).Some? {
        KeySetStep(entries);
        assert entries[..|before|] == before && entries[|before|].0 == keyOf(sections[n]).value;
      } else {
        assert entries == before;
      }
    }
  }

  lemma {:induction false} HeadingIsEntry(sections: seq<Section>, i: nat, key: Key, keyOf: Section -> Option<Key>)
    returns (j: nat)
    requires Heads(sections, i, key, keyOf)
    ensures j < |Entries(sections, keyOf)| && Entries(sections, keyOf)[j] == (key, JoinLines(sections[i].body))
  {
    var n := |sections| - 1;
    if i == n {
      j := |Entries(sections[..n], keyOf)|;
    } else {
      j := HeadingIsEntry(sections[..n], i, key, keyOf);
    }
  }

  lemma SignalsInTable(sections: seq<Section>, found: map<Key, string>, keyOf: Section -> Option<Key>)
    requires found.Keys == KeySet(Entries(sections, keyOf))
    ensures HasSignal(found) <==> Signals(sections, keyOf)
    ensures found != map[] <==> exists key :: HasHeading(sections, key, keyOf)
  {
    forall key ensures key in found <==> HasHeading(sections, key, keyOf) {
      EntriesAreHeadings(sections, key, keyOf);
    }
    if Signals(sections, keyOf) {
      var i :| 0 <= i < |sections| && IsSignalHeading(keyOf(sections[i]));
      assert Heads(sections, i, keyOf(sections[i]).value, keyOf);
      assert HasHeading(sections, keyOf(sections[i]).value, keyOf);
    }
    if HasSignal(found) {
      var key :| key in found && IsSignal(key);
      var i :| Heads(sections, i, key, keyOf);
      assert IsSignalHeading(keyOf(sections[i]));
    }
  }

  /** No heading comes twice. */
  ghost predicate NoneTwice(sections: seq<Section>, keyOf: Section -> Option<Key>) {
    forall i, j, key :: Heads(sections, i, key, keyOf) && Heads(sections, j, key, keyOf) ==> i == j
  }

  lemma NoneTwiceStep(sections: seq<Section>, keyOf: Section -> Option<Key>)
    requires sections != []
    ensures var n := |sections| - 1;
            NoneTwice(sections, keyOf) <==>
              && NoneTwice(sections[..n], keyOf)
              && (keyOf(sections[n]).Some? ==> !HasHeading(sections[..n], keyOf(sections[n]).value, keyOf))
  {
    var n := |sections| - 1;
    assert forall i, key ::
        Heads(sections, i, key, keyOf)
        <==> Heads(sections[..n], i, key, keyOf) || (i == n && keyOf(sections[n]) == Some(key));
    if keyOf(sections[n]).Some? {
      assert Heads(sections, n, keyOf(sections[n]).value, keyOf);
    }
  }

  /** The table exists exactly if no heading comes twice. */
  lemma {:induction false} TableExactly(sections: seq<Section>, keyOf: Section -> Option<Key>)
    ensures Find(Entries(sections, keyOf)).Ok? <==> NoneTwice(sections, keyOf)
  {
    if sections != [] {
      var n := |sections| - 1;
      var before, entries := Entries(sections[..n], keyOf), Entries(sections, keyOf);
      TableExactly(sections[..n], keyOf);
      NoneTwiceStep(sections, keyOf);
      FindsExactly(before);
      if keyOf(sections[n]).Some? {
        EntriesAreHeadings(sections[..n], keyOf(sections[n]).value, keyOf);
        assert entries[..|before|] == before;
      } else {
        assert entries == before;
      }
    }
  }
}
