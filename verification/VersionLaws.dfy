/** Versions and their pruning said of the texts and numbers themselves. */
module VersionLaws {
  import opened Options
  import opened Text
  import opened Versions
  import opened VersionPruning

  // ---------- What a part of a version reads as ----------

  predicate IsDigit(c: char) {
    '0' <= c <= '9'
  }

  function Zeros(k: nat): string {
    seq(k, _ => '0')
  }

  lemma {:induction false} LeadingZeros(k: nat, t: string)
    ensures Digits(Zeros(k) + t, 0) == Digits(t, 0)
  {
    if k > 0 {
      assert (Zeros(k) + t)[1..] == Zeros(k - 1) + t;
      LeadingZeros(k - 1, t);
    } else {
      assert Zeros(0) + t == t;
    }
  }

  /** A part may begin with blanks and a sign, then come digits, spelling a number after any zeros, and then
      anything else. It reads as the number with its sign. */
  lemma PartExactly(blanks: string, sign: string, zeros: nat, n: nat, rest: string)
    requires Blank(blanks) && sign in {"", "+", "-"} && (rest != "" ==> !IsDigit(rest[0]))
    ensures PartNumber(blanks + (sign + (Zeros(zeros) + (Decimal(n) + rest)))) == if sign == "-" then 0 - n else n
  {
    BlankIsAllSpace(blanks);
    LeadingZeros(zeros, Decimal(n) + rest);
    DigitsOfDecimal(n, rest);
    var digits := Zeros(zeros) + (Decimal(n) + rest);
    assert IsDigit(digits[0]) by {
      assert zeros == 0 ==> digits[0] == Decimal(n)[0];
    }
    SignedPart(blanks, sign, digits);
  }

  /** If no digit follows, it reads as zero. */
  lemma NoNumber(blanks: string, sign: string, rest: string)
    requires Blank(blanks) && sign in {"", "+", "-"} && (rest != "" ==> !IsDigit(rest[0]))
    requires sign == "" && rest != "" ==> rest[0] !in {'+', '-'} && !IsSpace(rest[0])
    ensures PartNumber(blanks + (sign + rest)) == 0
  {
    BlankIsAllSpace(blanks);
    SignedPart(blanks, sign, rest);
  }

  lemma SignedPart(blanks: string, sign: string, rest: string)
    requires sign in {"", "+", "-"} && forall i :: 0 <= i < |blanks| ==> IsSpace(blanks[i])
    requires sign == "" && rest != "" ==> rest[0] !in {'+', '-'} && !IsSpace(rest[0])
    ensures PartNumber(blanks + (sign + rest)) == if sign == "-" then -Digits(rest, 0) else Digits(rest, 0)
  {
    var s := sign + rest;
    TrimDropsLeading(blanks, s);
    assert TrimStart(s) == s;
    if sign == "" {
      assert s == rest;
    } else {
      assert s[1..] == rest;
    }
  }

  lemma {:induction false} DigitsAreDecimal(d: string) returns (zeros: nat, n: nat)
    requires d != "" && forall i :: 0 <= i < |d| ==> IsDigit(d[i])
    ensures d == Zeros(zeros) + Decimal(n)
  {
    var c := d[|d| - 1];
    var last: nat := c as int - '0' as int;
    assert Decimal(last) == [c];
    if |d| == 1 {
      zeros, n := 0, last;
    } else {
      var head := d[..|d| - 1];
      zeros, n := DigitsAreDecimal(head);
      assert d == head + [c];
      if n == 0 {
        zeros, n := zeros + 1, last;
      } else {
        n := 10 * n + last;
        assert Decimal(n) == Decimal(n / 10) + [Digit(n % 10)];
      }
    }
  }

  // ---------- The comparison ----------

  ghost function ZeroPadded(v: Version, n: nat): seq<int>
    requires |v| <= n
  {
    v + seq(n - |v|, _ => 0)
  }

  ghost predicate FirstGreater(a: seq<int>, b: seq<int>)
    requires |a| == |b|
  {
    exists i :: 0 <= i < |a| && a[i] > b[i] && a[..i] == b[..i]
  }

  lemma GreaterAt(a: Version, b: Version, n: nat, i: nat)
    requires |a| <= n && |b| <= n && i < n
    ensures ZeroPadded(a, n)[i] == At(a, i) && ZeroPadded(b, n)[i] == At(b, i)
    ensures ZeroPadded(a, n)[..i] == ZeroPadded(b, n)[..i] <==> AgreeTo(a, b, i)
  {
    var x, y := ZeroPadded(a, n), ZeroPadded(b, n);
    assert forall j :: 0 <= j < n ==> x[j] == At(a, j) && y[j] == At(b, j);
    if x[..i] == y[..i] {
      forall j: nat | j < i ensures At(a, j) == At(b, j) {
        assert x[..i][j] == y[..i][j];
      }
    }
  }

  /** With zeros added up to a common length, versions are equal exactly if their numbers are, and one is the
      later exactly if at the first difference its number is the greater. */
  lemma CompareExactly(a: Version, b: Version, n: nat)
    requires |a| <= n && |b| <= n
    ensures Compare(a, b) in {-1, 0, 1}
    ensures Compare(a, b) == 0 <==> ZeroPadded(a, n) == ZeroPadded(b, n)
    ensures Compare(a, b) == 1 <==> FirstGreater(ZeroPadded(a, n), ZeroPadded(b, n))
    ensures Compare(a, b) == -1 <==> FirstGreater(ZeroPadded(b, n), ZeroPadded(a, n))
  {
    var x, y := ZeroPadded(a, n), ZeroPadded(b, n);
    CompareIsFirstDifference(a, b, 0);
    if x != y {
      var k: nat :| k < n && x[k] != y[k];
      GreaterAt(a, b, n, k);
      var i := FirstDifference(a, b, k);
      GreaterAt(a, b, n, i);
      GreaterAt(b, a, n, i);
      assert x[..i] == y[..i];
    } else {
      forall i: nat ensures At(a, i) == At(b, i) {
        if i < n {
          GreaterAt(a, b, n, i);
        }
      }
    }
    forall i: nat | i < n && x[..i] == y[..i] && x[i] != y[i] ensures Compare(a, b) == Sign(x[i] - y[i]) {
      GreaterAt(a, b, n, i);
      assert DifferAt(a, b, i);
    }
  }

  // ---------- What stays in the directory ----------

  /** After a pruning in which no removal throws, exactly this is left of the directory: what is no
      directory, what has a name that begins with a dot, the versions that are retained, and the current
      one. */
  lemma StaysExactly(before: seq<Entry>, after: seq<Entry>, keep: int, current: Option<string>, throws: string -> bool,
                     upTo: nat, e: Entry)
    requires Pruned(before, after, keep, current, throws, false, upTo)
    ensures e in after <==>
              && e in before
              && (|| !e.directory || (e.name != "" && e.name[0] == '.')
                  || e.name in Retained(VersionNames(before), keep) || current == Some(e.name))
  {
    KeptExactly(before, Staying(Retained(VersionNames(before), keep), current), e);
  }
}
