/** The line patterns of the contract parser, each as the function its regular expression computes. */
module MarkdownLines {
  import opened Options
  import opened Text

  /** What `.` does not match. */
  predicate IsTerminator(c: char) {
    c == '\n' || c == '\r' || c == '\U{2028}' || c == '\U{2029}'
  }

  /** `.*` matches all of it. */
  predicate Dotted(s: string) {
    forall i :: 0 <= i < |s| ==> !IsTerminator(s[i])
  }

  // ---------- A title: \s+(.+?)\s*$ ----------

  /** A way to match the pattern: white space up to `a`, the title up to `b`, white space to the end. */
  ghost predicate TitleAt(t: string, a: nat, b: nat) {
    && 0 < a < b <= |t|
    && (forall i :: 0 <= i < a || b <= i < |t| ==> IsSpace(t[i]))
    && (forall i :: a <= i < b ==> !IsTerminator(t[i]))
  }

  function LastDotted(u: string): Option<string> {
    if u == "" then None
    else if !IsTerminator(u[|u| - 1]) then Some(u[|u| - 1..])
    else LastDotted(u[..|u| - 1])
  }

  function Title(t: string): Option<string> {
    if t == "" || !IsSpace(t[0]) then None
    else if Trim(t) != "" then (if Dotted(Trim(t)) then Some(Trim(t)) else None)
    else LastDotted(t[1..])
  }

  lemma {:induction false} LastDottedIsLast(u: string) returns (k: nat)
    ensures LastDotted(u) == None ==> k == 0 && forall i :: 0 <= i < |u| ==> IsTerminator(u[i])
    ensures LastDotted(u).Some?
            ==> k < |u| && LastDotted(u).value == [u[k]] && !IsTerminator(u[k])
                && forall i :: k < i < |u| ==> IsTerminator(u[i])
  {
    k := 0;
    if u != "" {
      if IsTerminator(u[|u| - 1]) {
        k := LastDottedIsLast(u[..|u| - 1]);
      } else {
        k := |u| - 1;
      }
    }
  }

  /** `Title` is what the regular expression captures: there is a match exactly if it is not `None`, and
      then the title of the match whose leading white space is longest and whose title is then shortest.
      `a` and `b` are its ends. */
  lemma TitleIsTheMatch(t: string) returns (a: nat, b: nat)
    ensures Title(t) == None ==> forall x: nat, y: nat :: !TitleAt(t, x, y)
    ensures Title(t).Some? ==> TitleAt(t, a, b) && Title(t).value == t[a..b]
    ensures Title(t).Some? ==> forall x: nat, y: nat :: TitleAt(t, x, y) ==> x < a || (x == a && b <= y)
  {
    a, b := 0, 0;
    if t == "" || !IsSpace(t[0]) {
      return;
    }
    var k := TrimIsStretch(t);
    if Trim(t) != "" {
      a, b := k, k + |Trim(t)|;
      TitleOfVisible(t, a, b);
    } else {
      k := LastDottedIsLast(t[1..]);
      a, b := k + 1, k + 2;
      TitleOfBlank(t, k);
    }
  }

  lemma TitleOfVisible(t: string, a: nat, b: nat)
    requires a < b <= |t| && IsSpace(t[0]) && !IsSpace(t[a]) && !IsSpace(t[b - 1])
    requires forall i :: 0 <= i < a || b <= i < |t| ==> IsSpace(t[i])
    ensures Dotted(t[a..b]) ==> TitleAt(t, a, b)
    ensures forall x: nat, y: nat :: TitleAt(t, x, y) ==> Dotted(t[a..b]) && (x < a || (x == a && b <= y))
  {
    forall x: nat, y: nat | TitleAt(t, x, y) ensures Dotted(t[a..b]) && (x < a || (x == a && b <= y)) {
      assert x <= a && b <= y;
    }
  }

  lemma TitleOfBlank(t: string, k: nat)
    requires t != "" && forall i :: 0 <= i < |t| ==> IsSpace(t[i])
    requires LastDotted(t[1..]) == None ==> forall i :: 1 <= i < |t| ==> IsTerminator(t[i])
    requires LastDotted(t[1..]).Some?
             ==> k + 1 < |t| && !IsTerminator(t[k + 1]) && forall i :: k + 1 < i < |t| ==> IsTerminator(t[i])
    ensures LastDotted(t[1..]).Some? ==> TitleAt(t, k + 1, k + 2)
    ensures forall x: nat, y: nat :: TitleAt(t, x, y) ==>
              LastDotted(t[1..]).Some? && (x < k + 1 || (x == k + 1 && k + 2 <= y))
  {
    forall x: nat, y: nat | TitleAt(t, x, y)
      ensures LastDotted(t[1..]).Some? && (x < k + 1 || (x == k + 1 && k + 2 <= y)) {
      assert !IsTerminator(t[x]);
    }
  }

  // ---------- The patterns ----------

  /** `\s+`, as far as it goes. */
  function AfterSpace(s: string): Option<string> {
    if s != "" && IsSpace(s[0]) then Some(TrimStart(s)) else None
  }

  /** `^##\s+(.+?)\s*$` */
  function HeadingText(line: string): Option<string> {
    if "##" <= line then Title(line[2..]) else None
  }

  predicate IsBullet(c: char) {
    c == '-' || c == '*' || c == '+'
  }

  predicate IsDigit(c: char) {
    '0' <= c <= '9'
  }

  /** `^\s*(?:[-*+]|\d+[.)])\s+(.+?)\s*$` */
  function ItemText(line: string): Option<string> {
    var s := TrimStart(line);
    if s == "" then None
    else if IsBullet(s[0]) then Title(s[1..])
    else
      var rest := SkipRun(s, IsDigit);
      if rest != s && rest != "" && (rest[0] == '.' || rest[0] == ')') then Title(rest[1..]) else None
  }

  /** `^\s*[-*]\s+\[([ xX])\]\s+(.*)$`, the text trimmed. */
  function CheckboxText(line: string): Option<string> {
    var s := TrimStart(line);
    if s == "" || (s[0] != '-' && s[0] != '*') then None
    else
      var box := AfterSpace(s[1..]).UnwrapOr("");
      if |box| >= 3 && box[0] == '[' && box[1] in {' ', 'x', 'X'} && box[2] == ']'
      then DottedText(AfterSpace(box[3..]))
      else None
  }

  function DottedText(text: Option<string>): Option<string> {
    if text.Some? && Dotted(text.value) then Some(Trim(text.value)) else None
  }

  /** `^\s*(?:[-*+]\s+)?Evidence\s*:\s*(.*)$`, in any case, the text trimmed. */
  function EvidenceText(line: string): Option<string> {
    var s := TrimStart(line);
    var e := if s != "" && IsBullet(s[0]) then AfterSpace(s[1..]).UnwrapOr("") else s;
    if |e| >= 8 && Lower(e[..8]) == "evidence" then
      var colon := TrimStart(e[8..]);
      if colon != "" && colon[0] == ':' then DottedText(Some(TrimStart(colon[1..]))) else None
    else None
  }
}
