/** Strings as the program's string functions treat them: trimming, splitting at and joining with line
    feeds. A `char` stands for one UTF-16 code unit. */
module Text {

  /** What `trim` and `\s` take for white space. */
  predicate IsSpace(c: char) {
    || c in {' ', '\t', '\n', '\r', '\U{000B}', '\U{000C}', '\U{00A0}', '\U{1680}', '\U{2028}', '\U{2029}'}
    || c in {'\U{202F}', '\U{205F}', '\U{3000}', '\U{FEFF}'}
    || '\U{2000}' <= c <= '\U{200A}'
  }

  function TrimStart(s: string): (t: string)
    ensures |t| <= |s|
  {
    if s != "" && IsSpace(s[0]) then TrimStart(s[1..]) else s
  }

  function TrimEnd(s: string): string {
    if s != "" && IsSpace(s[|s| - 1]) then TrimEnd(s[..|s| - 1]) else s
  }

  function Trim(s: string): string {
    TrimEnd(TrimStart(s))
  }

  predicate Trimmed(s: string) {
    s != "" ==> !IsSpace(s[0]) && !IsSpace(s[|s| - 1])
  }

  /** `t` is a stretch of `s`, from `k` on. */
  ghost predicate StretchAt(t: string, s: string, k: nat) {
    k + |t| <= |s| && t == s[k..k + |t|]
  }

  lemma {:induction false} TrimStartIsSuffix(s: string) returns (k: nat)
    ensures k <= |s| && TrimStart(s) == s[k..] && forall i :: 0 <= i < k ==> IsSpace(s[i])
    ensures TrimStart(s) != "" ==> !IsSpace(TrimStart(s)[0])
  {
    k := 0;
    if s != "" && IsSpace(s[0]) {
      var j := TrimStartIsSuffix(s[1..]);
      k := j + 1;
      assert s[1..][j..] == s[k..];
      forall i | 0 <= i < k ensures IsSpace(s[i]) {
        assert i > 0 ==> s[i] == s[1..][i - 1];
      }
    }
  }

  lemma {:induction false} TrimEndIsPrefix(s: string)
    ensures TrimEnd(s) <= s && forall i :: |TrimEnd(s)| <= i < |s| ==> IsSpace(s[i])
    ensures TrimEnd(s) != "" ==> !IsSpace(TrimEnd(s)[|TrimEnd(s)| - 1])
  {
    if s != "" && IsSpace(s[|s| - 1]) {
      TrimEndIsPrefix(s[..|s| - 1]);
    }
  }

  /** Trimming yields the one stretch that starts and ends with something visible and has only white
      space around it; `k` is where it starts. */
  lemma TrimIsStretch(s: string) returns (k: nat)
    ensures Trimmed(Trim(s))
    ensures StretchAt(Trim(s), s, k)
    ensures forall i :: 0 <= i < k || k + |Trim(s)| <= i < |s| ==> IsSpace(s[i])
  {
    k := TrimStartIsSuffix(s);
    TrimEndIsPrefix(TrimStart(s));
    var t := Trim(s);
    assert s[k..][..|t|] == s[k..k + |t|];
    forall i | k + |t| <= i < |s| ensures IsSpace(s[i]) {
      assert s[i] == s[k..][i - k];
    }
  }

  lemma TrimmedStays(s: string)
    requires Trimmed(s)
    ensures Trim(s) == s && TrimStart(s) == s && TrimEnd(s) == s
  {
  }

  lemma {:induction false} TrimDropsLeading(a: string, s: string)
    requires forall i :: 0 <= i < |a| ==> IsSpace(a[i])
    ensures TrimStart(a + s) == TrimStart(s)
  {
    if a == "" {
      assert a + s == s;
    } else {
      assert (a + s)[1..] == a[1..] + s;
      TrimDropsLeading(a[1..], s);
    }
  }

  lemma {:induction false} TrimEndDropsTrailing(s: string, b: string)
    requires forall i :: 0 <= i < |b| ==> IsSpace(b[i])
    ensures TrimEnd(s + b) == TrimEnd(s)
    decreases |b|
  {
    if b == "" {
      assert s + b == s;
    } else {
      assert (s + b)[..|s + b| - 1] == s + b[..|b| - 1];
      TrimEndDropsTrailing(s, b[..|b| - 1]);
    }
  }

  lemma TrimEndStays(s: string)
    requires s != "" && !IsSpace(s[|s| - 1])
    ensures TrimEnd(s) == s
  {
  }

  predicate Blank(s: string) {
    Trim(s) == ""
  }

  lemma BlankIsAllSpace(s: string)
    ensures Blank(s) <==> forall i :: 0 <= i < |s| ==> IsSpace(s[i])
  {
    var k := TrimIsStretch(s);
    if Trim(s) != "" {
      assert Trim(s)[0] == s[k];
    }
  }

  lemma VisibleIsNotBlank(s: string, i: nat)
    requires i < |s| && !IsSpace(s[i])
    ensures !Blank(s)
  {
    BlankIsAllSpace(s);
  }

  lemma TrimEndKeepsVisible(s: string, t: string)
    requires !Blank(t)
    ensures |TrimEnd(s + t)| > |s| && TrimEnd(s + t)[|s|] == t[0]
  {
    BlankIsAllSpace(t);
    var j :| 0 <= j < |t| && !IsSpace(t[j]);
    TrimEndIsPrefix(s + t);
    assert (s + t)[|s| + j] == t[j] && (s + t)[|s|] == t[0];
  }

  lemma {:induction false} TrimStartAppend(a: string, b: string)
    requires !Blank(a)
    ensures TrimStart(a + b) == TrimStart(a) + b && !Blank(a + b)
  {
    BlankIsAllSpace(a);
    BlankIsAllSpace(a + b);
    var i :| 0 <= i < |a| && !IsSpace(a[i]);
    assert (a + b)[i] == a[i];
    if IsSpace(a[0]) {
      VisibleIsNotBlank(a[1..], i - 1);
      assert (a + b)[1..] == a[1..] + b;
      TrimStartAppend(a[1..], b);
    } else {
      assert (a + b)[0] == a[0];
    }
  }

  lemma {:induction false} TrimEndAppend(a: string, b: string)
    requires !Blank(b)
    ensures TrimEnd(a + b) == a + TrimEnd(b)
    decreases |b|
  {
    BlankIsAllSpace(b);
    var n := |b| - 1;
    assert (a + b)[|a + b| - 1] == b[n];
    if IsSpace(b[n]) {
      var i :| 0 <= i < |b| && !IsSpace(b[i]);
      VisibleIsNotBlank(b[..n], i);
      assert (a + b)[..|a + b| - 1] == a + b[..n];
      TrimEndAppend(a, b[..n]);
    }
  }

  // ---------- Letters and runs ----------

  function LowerChar(c: char): char {
    if 'A' <= c <= 'Z' then (c as int + 32) as char else c
  }

  /** `toLowerCase`, for the letters of ASCII. */
  function Lower(s: string): string {
    seq(|s|, i requires 0 <= i < |s| => LowerChar(s[i]))
  }

  /** The same letter, or its capital for a small one. */
  predicate SameLetter(c: char, small: char) {
    c == small || ('A' <= c <= 'Z' && c as int + 32 == small as int)
  }

  /** The word is spelt like the name, in any case. */
  ghost predicate SpeltLike(word: string, name: string) {
    |word| == |name| && forall i :: 0 <= i < |word| ==> SameLetter(word[i], name[i])
  }

  ghost predicate IsLower(name: string) {
    forall i :: 0 <= i < |name| ==> !('A' <= name[i] <= 'Z')
  }

  lemma LowerExactly(word: string, name: string)
    requires IsLower(name)
    ensures Lower(word) == name <==> SpeltLike(word, name)
  {
    if SpeltLike(word, name) {
      assert Lower(word) == name;
    }
  }

  function SkipRun(s: string, p: char -> bool): (t: string)
    ensures |t| <= |s|
  {
    if s != "" && p(s[0]) then SkipRun(s[1..], p) else s
  }

  /** Every run of characters of the class becomes one blank. */
  function Squeeze(s: string, p: char -> bool): string
    decreases |s|
  {
    if s == "" then ""
    else if p(s[0]) then " " + Squeeze(SkipRun(s[1..], p), p)
    else [s[0]] + Squeeze(s[1..], p)
  }

  // ---------- Lines ----------

  /** `s.split(sep)`. */
  function Split(s: string, sep: char): (parts: seq<string>)
    ensures |parts| > 0
  {
    if s == "" then [""]
    else if s[0] == sep then [""] + Split(s[1..], sep)
    else
      var rest := Split(s[1..], sep);
      [[s[0]] + rest[0]] + rest[1..]
  }

  lemma {:induction false} SplitOfFirst(part: string, s: string, sep: char)
    requires sep !in part
    ensures Split(part, sep) == [part] && Split(part + [sep] + s, sep) == [part] + Split(s, sep)
  {
    if part == "" {
      assert (part + [sep] + s)[1..] == s;
    } else {
      SplitOfFirst(part[1..], s, sep);
      assert (part + [sep] + s)[1..] == part[1..] + [sep] + s;
      assert [part[0]] + part[1..] == part;
    }
  }

  /** `s.split("\n")`. */
  function Lines(s: string): (lines: seq<string>)
    ensures |lines| > 0
  {
    Split(s, '\n')
  }

  /** `lines.join("\n")`. */
  function JoinLines(lines: seq<string>): string {
    if lines == [] then ""
    else if |lines| == 1 then lines[0]
    else lines[0] + "\n" + JoinLines(lines[1..])
  }

  predicate OneLine(s: string) {
    '\n' !in s
  }

  lemma {:induction false} LinesAreOneLine(s: string)
    ensures forall l :: l in Lines(s) ==> OneLine(l)
  {
    if s != "" {
      LinesAreOneLine(s[1..]);
      var rest := Lines(s[1..]);
      assert rest[0] in rest && forall l :: l in rest[1..] ==> l in rest;
    }
  }

  lemma {:induction false} JoinOfLines(s: string)
    ensures JoinLines(Lines(s)) == s
  {
    if s != "" {
      JoinOfLines(s[1..]);
      var rest := Lines(s[1..]);
      if s[0] == '\n' {
        assert ([""] + rest)[1..] == rest;
      } else {
        var whole := [[s[0]] + rest[0]] + rest[1..];
        assert whole[1..] == rest[1..];
        assert JoinLines(whole) == [s[0]] + JoinLines(rest);
      }
    }
  }

  /** Lines that contain no line feed come back from joining and splitting. */
  lemma {:induction false} LinesOfJoin(lines: seq<string>)
    requires lines != [] && forall l :: l in lines ==> OneLine(l)
    ensures Lines(JoinLines(lines)) == lines
  {
    assert OneLine(lines[0]);
    if |lines| == 1 {
      SplitOfFirst(lines[0], "", '\n');
    } else {
      LinesOfJoin(lines[1..]);
      SplitOfFirst(lines[0], JoinLines(lines[1..]), '\n');
      assert lines == [lines[0]] + lines[1..];
    }
  }

  lemma {:induction false} LinesKeepChars(s: string, l: string, c: char)
    requires l in Lines(s) && c in l
    ensures c in s
  {
    if s != "" {
      var rest := Lines(s[1..]);
      if s[0] == '\n' {
        assert l in rest;
        LinesKeepChars(s[1..], l, c);
      } else if l in rest[1..] {
        assert l in rest;
        LinesKeepChars(s[1..], l, c);
      } else if c != s[0] {
        assert c in rest[0] && rest[0] in rest;
        LinesKeepChars(s[1..], rest[0], c);
      }
    }
  }

  lemma {:induction false} JoinSplit(a: seq<string>, b: seq<string>)
    requires a != [] && b != []
    ensures JoinLines(a + b) == JoinLines(a) + "\n" + JoinLines(b)
  {
    assert (a + b)[0] == a[0] && (a + b)[1..] == a[1..] + b;
    if |a| == 1 {
      assert a[1..] + b == b;
    } else {
      JoinSplit(a[1..], b);
    }
  }

  lemma {:induction false} JoinIsVisible(lines: seq<string>, i: nat)
    requires i < |lines| && !Blank(lines[i])
    ensures !Blank(JoinLines(lines))
  {
    if |lines| > 1 {
      BlankIsAllSpace(JoinLines(lines));
      if i == 0 {
        TrimStartAppend(lines[0], "\n" + JoinLines(lines[1..]));
        assert JoinLines(lines) == lines[0] + ("\n" + JoinLines(lines[1..]));
      } else {
        JoinIsVisible(lines[1..], i - 1);
        var rest := JoinLines(lines[1..]);
        BlankIsAllSpace(rest);
        var k :| 0 <= k < |rest| && !IsSpace(rest[k]);
        assert JoinLines(lines)[|lines[0]| + 1 + k] == rest[k];
      }
    }
  }

  lemma {:induction false} JoinKeepsChars(lines: seq<string>, c: char)
    requires c != '\n' && c in JoinLines(lines)
    ensures exists i :: 0 <= i < |lines| && c in lines[i]
  {
    if |lines| > 1 && c !in lines[0] {
      JoinKeepsChars(lines[1..], c);
      var i :| 0 <= i < |lines[1..]| && c in lines[1..][i];
      assert lines[i + 1] == lines[1..][i];
    }
  }

  /** What stands between line feeds, or the ends, is a line. */
  lemma {:induction false} LineBetween(a: string, line: string, b: string)
    requires OneLine(line) && (a == "" || a[|a| - 1] == '\n') && (b == "" || b[0] == '\n')
    ensures line in Lines(a + line + b)
  {
    if a == "" {
      assert a + line + b == line + b;
      if b == "" {
        assert line + b == line;
        SplitOfFirst(line, "", '\n');
      } else {
        assert line + b == line + "\n" + b[1..];
        SplitOfFirst(line, b[1..], '\n');
      }
    } else {
      LineBetween(a[1..], line, b);
      assert (a + line + b)[1..] == a[1..] + line + b;
      if a[0] != '\n' {
        LineNotFirst(a[1..], line, b);
      }
    }
  }

  /** Before a line feed there is another line. */
  lemma {:induction false} LineNotFirst(a: string, line: string, b: string)
    requires OneLine(line) && a != "" && a[|a| - 1] == '\n' && (b == "" || b[0] == '\n')
    ensures line in Lines(a + line + b)[1..]
  {
    assert (a + line + b)[0] == a[0] && (a + line + b)[1..] == a[1..] + line + b;
    if a[0] == '\n' {
      LineBetween(a[1..], line, b);
    } else {
      LineNotFirst(a[1..], line, b);
    }
  }

  function LineFeeds(s: string): nat {
    if s == "" then 0 else (if s[0] == '\n' then 1 else 0) + LineFeeds(s[1..])
  }

  lemma {:induction false} LineFeedsAppend(a: string, b: string)
    ensures LineFeeds(a + b) == LineFeeds(a) + LineFeeds(b)
  {
    if a == "" {
      assert a + b == b;
    } else {
      assert (a + b)[1..] == a[1..] + b;
      LineFeedsAppend(a[1..], b);
    }
  }

  lemma StretchHasNoMoreLineFeeds(t: string, s: string, k: nat)
    requires StretchAt(t, s, k)
    ensures LineFeeds(t) <= LineFeeds(s)
  {
    assert s == s[..k] + (t + s[k + |t|..]);
    LineFeedsAppend(s[..k], t + s[k + |t|..]);
    LineFeedsAppend(t, s[k + |t|..]);
  }

  lemma {:induction false} LinesCountLineFeeds(s: string)
    ensures |Lines(s)| == LineFeeds(s) + 1
  {
    if s != "" {
      LinesCountLineFeeds(s[1..]);
    }
  }
}
