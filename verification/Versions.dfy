/** The order of version names. */
module Versions {
  import opened Sorting
  import opened Text

  // ---------- Reading a version ----------

  /** The number that the leading digits spell, after `acc`. */
  function Digits(s: string, acc: int): int {
    if s != "" && '0' <= s[0] <= '9' then Digits(s[1..], 10 * acc + (s[0] as int - '0' as int)) else acc
  }

  /** `parseInt(part, 10) || 0`: white space, a sign, digits; 0 where there is no number. */
  function PartNumber(part: string): int {
    var s := TrimStart(part);
    if s == "" then 0
    else if s[0] == '-' then -Digits(s[1..], 0)
    else if s[0] == '+' then Digits(s[1..], 0)
    else Digits(s, 0)
  }

  type Version = seq<int>

  function Parse(value: string): (v: Version)
    ensures |v| > 0
  {
    var parts := Split(if "v" <= value then value[1..] else value, '.');
    seq(|parts|, i requires 0 <= i < |parts| => PartNumber(parts[i]))
  }

  // ---------- Printing a version ----------

  function Digit(d: nat): char
    requires d < 10
  {
    ('0' as int + d) as char
  }

  function Decimal(n: nat): (s: string)
    ensures s != "" && forall i :: 0 <= i < |s| ==> '0' <= s[i] <= '9'
  {
    if n < 10 then [Digit(n)] else Decimal(n / 10) + [Digit(n % 10)]
  }

  /** A version in the usual notation. */
  function Printed(v: seq<nat>): string {
    if v == [] then "" else if |v| == 1 then Decimal(v[0]) else Decimal(v[0]) + "." + Printed(v[1..])
  }

  lemma {:induction false} DigitsOfDecimal(n: nat, t: string)
    ensures Digits(Decimal(n) + t, 0) == Digits(t, n)
    decreases n
  {
    var last := [Digit(n % 10)];
    if n < 10 {
      assert (last + t)[1..] == t;
    } else {
      DigitsOfDecimal(n / 10, last + t);
      assert Decimal(n) + t == Decimal(n / 10) + (last + t);
      assert (last + t)[1..] == t;
    }
  }

  lemma PartOfDecimal(n: nat)
    ensures PartNumber(Decimal(n)) == n
  {
    var s := Decimal(n);
    assert '0' <= s[0] <= '9' && TrimStart(s) == s;
    DigitsOfDecimal(n, "");
    assert s + "" == s;
  }

  lemma {:induction false} PartsOfPrinted(v: seq<nat>)
    requires v != []
    ensures |Split(Printed(v), '.')| == |v|
    ensures forall i :: 0 <= i < |v| ==> PartNumber(Split(Printed(v), '.')[i]) == v[i]
    ensures Printed(v) != "" && '0' <= Printed(v)[0] <= '9'
  {
    var first := Decimal(v[0]);
    PartOfDecimal(v[0]);
    SplitOfFirst(first, if |v| == 1 then "" else Printed(v[1..]), '.');
    if |v| > 1 {
      PartsOfPrinted(v[1..]);
      assert Split(Printed(v), '.') == [first] + Split(Printed(v[1..]), '.');
    }
  }

  /** A printed version reads back, with and without the leading `v`. */
  lemma PrintedReadsBack(v: seq<nat>)
    requires v != []
    ensures Parse(Printed(v)) == v && Parse("v" + Printed(v)) == v
  {
    PartsOfPrinted(v);
    assert ("v" + Printed(v))[1..] == Printed(v);
  }

  // ---------- The order ----------

  /** The `i`-th part, zero beyond the end. */
  function At(v: Version, i: nat): int {
    if i < |v| then v[i] else 0
  }

  /** Equal in all parts before `i`. */
  ghost predicate AgreeTo(a: Version, b: Version, i: nat) {
    forall j: nat :: j < i ==> At(a, j) == At(b, j)
  }

  ghost predicate DifferAt(a: Version, b: Version, i: nat) {
    AgreeTo(a, b, i) && At(a, i) != At(b, i)
  }

  ghost predicate Same(a: Version, b: Version) {
    forall i: nat :: At(a, i) == At(b, i)
  }

  function Sign(x: int): int {
    if x > 0 then 1 else if x < 0 then -1 else 0
  }

  function CompareFrom(a: Version, b: Version, i: nat): (r: int)
    decreases (if |a| < |b| then |b| else |a|) - i
  {
    if i >= |a| && i >= |b| then 0
    else if At(a, i) != At(b, i) then Sign(At(a, i) - At(b, i))
    else CompareFrom(a, b, i + 1)
  }

  function Compare(a: Version, b: Version): int {
    CompareFrom(a, b, 0)
  }

  method CompareSemver(a: string, b: string) returns (r: int)
    ensures r == Compare(Parse(a), Parse(b))
  {
    var left, right := Parse(a), Parse(b);
    var n := if |left| < |right| then |right| else |left|;
    for i := 0 to n
      invariant Compare(left, right) == CompareFrom(left, right, i)
    {
      var diff := At(left, i) - At(right, i);
      if diff != 0 {
        return if diff > 0 then 1 else -1;
      }
    }
    return 0;
  }

  /** The comparison goes by the first part in which the two versions differ, with zeros added at the
      end, and says that they are equal exactly if there is none. */
  lemma {:induction false} CompareIsFirstDifference(a: Version, b: Version, i: nat)
    requires AgreeTo(a, b, i)
    ensures CompareFrom(a, b, i) == 0 <==> Same(a, b)
    ensures forall j: nat :: DifferAt(a, b, j) ==> CompareFrom(a, b, i) == Sign(At(a, j) - At(b, j))
    decreases (if |a| < |b| then |b| else |a|) - i
  {
    if i >= |a| && i >= |b| {
      assert forall j: nat :: j >= i ==> At(a, j) == At(b, j);
    } else if At(a, i) == At(b, i) {
      CompareIsFirstDifference(a, b, i + 1);
    } else {
      forall j: nat | DifferAt(a, b, j) ensures j == i {
        assert i < j ==> At(a, i) == At(b, i);
        assert j < i ==> At(a, j) == At(b, j);
      }
    }
  }

  lemma FirstDifference(a: Version, b: Version, n: nat) returns (i: nat)
    requires At(a, n) != At(b, n)
    ensures i <= n && DifferAt(a, b, i)
  {
    i := 0;
    while i < n && At(a, i) == At(b, i)
      invariant i <= n && AgreeTo(a, b, i)
    {
      i := i + 1;
    }
  }

  /** Comparing the other way round turns the sign. */
  lemma {:induction false} CompareTurns(a: Version, b: Version, i: nat)
    ensures CompareFrom(a, b, i) == -CompareFrom(b, a, i)
    decreases (if |a| < |b| then |b| else |a|) - i
  {
    if (i < |a| || i < |b|) && At(a, i) == At(b, i) {
      CompareTurns(a, b, i + 1);
    }
  }

  lemma CompareChains(a: Version, b: Version, c: Version)
    requires Compare(a, b) <= 0 && Compare(b, c) <= 0
    ensures Compare(a, c) <= 0
  {
    CompareIsFirstDifference(a, b, 0);
    CompareIsFirstDifference(b, c, 0);
    CompareIsFirstDifference(a, c, 0);
    if Compare(a, c) != 0 {
      var n: nat :| At(a, n) != At(c, n);
      var k := FirstDifference(a, c, n);
      if i: nat :| i <= k && At(a, i) != At(b, i) {
        var d := FirstDifference(a, b, i);
        assert At(a, d) < At(b, d);
        BothBefore(a, b, c, k, d);
      } else {
        assert DifferAt(b, c, k);
      }
    }
  }

  /** `a` and `c` agree before `k`, `a` and `b` before `d`, where `a` is smaller. */
  lemma BothBefore(a: Version, b: Version, c: Version, k: nat, d: nat)
    requires d <= k && DifferAt(a, c, k) && DifferAt(a, b, d) && At(a, d) < At(b, d) && Compare(b, c) <= 0
    ensures At(a, k) < At(c, k)
  {
    CompareIsFirstDifference(b, c, 0);
    if d < k || At(b, d) != At(c, d) {
      assert d < k ==> At(a, d) == At(c, d);
      assert AgreeTo(b, c, d);
      assert At(b, d) != At(c, d) ==> DifferAt(b, c, d);
    }
  }

  /** The comparator of the sort: newer versions first. */
  predicate NewerFirst(a: string, b: string) {
    Compare(Parse(b), Parse(a)) <= 0
  }

  /** It is a total preorder, so that sorting by it is well defined. */
  lemma NewerFirstIsOrder()
    ensures IsOrder(NewerFirst)
  {
    forall a, b ensures NewerFirst(a, b) || NewerFirst(b, a) {
      CompareTurns(Parse(a), Parse(b), 0);
    }
    forall a, b, c | NewerFirst(a, b) && NewerFirst(b, c) ensures NewerFirst(a, c) {
      CompareChains(Parse(c), Parse(b), Parse(a));
    }
  }
}
