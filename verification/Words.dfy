/** Words joined by runs of separators, and what squeezing the runs makes of them. */
module Words {
  import opened Text

  predicate AllOf(s: string, p: char -> bool) {
    forall i :: 0 <= i < |s| ==> p(s[i])
  }

  predicate NoneOf(s: string, p: char -> bool) {
    forall i :: 0 <= i < |s| ==> !p(s[i])
  }

  /** The words, one after the other, with what joins them in between. */
  function Weave(words: seq<string>, joins: seq<string>): string
    requires words != [] && |joins| == |words| - 1
  {
    if |words| == 1 then words[0] else words[0] + (joins[0] + Weave(words[1..], joins[1..]))
  }

  ghost predicate AreWords(words: seq<string>, p: char -> bool) {
    words != [] && forall i :: 0 <= i < |words| ==> words[i] != "" && NoneOf(words[i], p)
  }

  ghost predicate AreJoins(joins: seq<string>, p: char -> bool) {
    forall i :: 0 <= i < |joins| ==> joins[i] != "" && AllOf(joins[i], p)
  }

  function Blanks(n: nat): seq<string> {
    seq(n, _ => " ")
  }

  /** The words with one blank between any two. */
  function Spaced(words: seq<string>): string
    requires words != []
  {
    Weave(words, Blanks(|words| - 1))
  }

  /** The ends of woven words are the ends of the first and the last. */
  lemma {:induction false} WeaveEnds(words: seq<string>, joins: seq<string>)
    requires words != [] && |joins| == |words| - 1 && forall i :: 0 <= i < |words| ==> words[i] != ""
    ensures var s, last := Weave(words, joins), words[|words| - 1];
            s != "" && s[0] == words[0][0] && s[|s| - 1] == last[|last| - 1]
  {
    if |words| > 1 {
      WeaveEnds(words[1..], joins[1..]);
    }
  }

  /** One more word. */
  lemma {:induction false} WeaveOneMore(words: seq<string>, joins: seq<string>, join: string, word: string)
    requires words != [] && |joins| == |words| - 1
    ensures Weave(words + [word], joins + [join]) == Weave(words, joins) + (join + word)
  {
    assert (words + [word])[1..] == words[1..] + [word];
    if |words| == 1 {
      assert (words + [word])[1..] == [word] && (joins + [join])[1..] == [];
    } else {
      assert (joins + [join])[1..] == joins[1..] + [join];
      WeaveOneMore(words[1..], joins[1..], join, word);
    }
  }

  /** The words with something put to the last one. */
  function Marked(words: seq<string>, marks: string): seq<string>
    requires words != []
  {
    words[..|words| - 1] + [words[|words| - 1] + marks]
  }

  lemma {:induction false} WeaveMarked(words: seq<string>, joins: seq<string>, marks: string)
    requires words != [] && |joins| == |words| - 1
    ensures Weave(Marked(words, marks), joins) == Weave(words, joins) + marks
  {
    if |words| > 1 {
      assert Marked(words, marks)[1..] == Marked(words[1..], marks);
      WeaveMarked(words[1..], joins[1..], marks);
    }
  }

  // ---------- Squeezing ----------

  lemma {:induction false} SkipRunAppend(a: string, b: string, p: char -> bool)
    requires b == "" || !p(b[0])
    ensures SkipRun(a + b, p) == SkipRun(a, p) + b
  {
    if a == "" {
      assert a + b == b;
    } else {
      assert (a + b)[1..] == a[1..] + b;
      SkipRunAppend(a[1..], b, p);
    }
  }

  /** A run ends where something else begins. */
  lemma {:induction false} SqueezeAppend(a: string, b: string, p: char -> bool)
    requires b == "" || !p(b[0])
    ensures Squeeze(a + b, p) == Squeeze(a, p) + Squeeze(b, p)
    decreases |a|
  {
    if a == "" {
      assert a + b == b;
    } else {
      assert (a + b)[1..] == a[1..] + b;
      if p(a[0]) {
        SkipRunAppend(a[1..], b, p);
        SqueezeAppend(SkipRun(a[1..], p), b, p);
      } else {
        SqueezeAppend(a[1..], b, p);
      }
    }
  }

  lemma {:induction false} SqueezeNone(s: string, p: char -> bool)
    requires NoneOf(s, p)
    ensures Squeeze(s, p) == s
  {
    if s != "" {
      SqueezeNone(s[1..], p);
    }
  }

  lemma {:induction false} SqueezeAll(s: string, p: char -> bool)
    requires AllOf(s, p)
    ensures Squeeze(s, p) == if s == "" then "" else " "
  {
    if s != "" {
      SkipAll(s[1..], p);
    }
  }

  lemma {:induction false} SkipAll(s: string, p: char -> bool)
    requires AllOf(s, p)
    ensures SkipRun(s, p) == ""
  {
    if s != "" {
      SkipAll(s[1..], p);
    }
  }

  lemma {:induction false} SkipRunIsSuffix(s: string, p: char -> bool) returns (k: nat)
    ensures k <= |s| && SkipRun(s, p) == s[k..] && forall i :: 0 <= i < k ==> p(s[i])
    ensures k < |s| ==> !p(s[k])
  {
    k := 0;
    if s != "" && p(s[0]) {
      var j := SkipRunIsSuffix(s[1..], p);
      k := j + 1;
      assert s[1..][j..] == s[k..];
      forall i | 0 <= i < k ensures p(s[i]) {
        assert i > 0 ==> s[i] == s[1..][i - 1];
      }
    }
  }

  /** Squeezing leaves blanks where the runs were, and everything else. */
  lemma {:induction false} SqueezeKeeps(s: string, p: char -> bool, q: char -> bool)
    requires q(' ') && forall i :: 0 <= i < |s| ==> p(s[i]) || q(s[i])
    ensures AllOf(Squeeze(s, p), q) && (s != "" ==> Squeeze(s, p) != "")
    decreases |s|
  {
    if s != "" {
      if p(s[0]) {
        var k := SkipRunIsSuffix(s[1..], p);
        SqueezeKeeps(s[1..][k..], p, q);
      } else {
        SqueezeKeeps(s[1..], p, q);
      }
    }
  }

  function SqueezeEach(joins: seq<string>, p: char -> bool): seq<string> {
    seq(|joins|, i requires 0 <= i < |joins| => Squeeze(joins[i], p))
  }

  /** Words without the class are kept, and what joins or follows them is squeezed by itself. */
  lemma {:induction false} SqueezeWeave(words: seq<string>, joins: seq<string>, trail: string, p: char -> bool)
    requires AreWords(words, p) && |joins| == |words| - 1
    ensures Squeeze(Weave(words, joins) + trail, p) == Weave(words, SqueezeEach(joins, p)) + Squeeze(trail, p)
  {
    if |words| == 1 {
      SqueezeWord(words[0], trail, p);
    } else {
      SqueezeWeave(words[1..], joins[1..], trail, p);
      WeaveEnds(words[1..], joins[1..]);
      assert SqueezeEach(joins, p)[1..] == SqueezeEach(joins[1..], p);
      SqueezeJoined(words[0], joins[0], Weave(words[1..], joins[1..]), trail, p);
    }
  }

  lemma SqueezeJoined(word: string, join: string, rest: string, trail: string, p: char -> bool)
    requires NoneOf(word, p) && rest != "" && !p(rest[0])
    ensures Squeeze(word + (join + rest) + trail, p) == word + (Squeeze(join, p) + Squeeze(rest + trail, p))
  {
    SqueezeAppend(join, rest + trail, p);
    SqueezeWord(word, join + (rest + trail), p);
    assert word + (join + rest) + trail == word + (join + (rest + trail));
  }

  lemma {:induction false} SqueezeWord(word: string, s: string, p: char -> bool)
    requires NoneOf(word, p)
    ensures Squeeze(word + s, p) == word + Squeeze(s, p)
  {
    if word == "" {
      assert word + s == s;
    } else {
      assert (word + s)[1..] == word[1..] + s;
      SqueezeWord(word[1..], s, p);
    }
  }

  /** So words come out with one blank between any two, however long the runs between them are. */
  lemma SqueezeIsSpaced(words: seq<string>, joins: seq<string>, trail: string, p: char -> bool)
    requires AreWords(words, p) && AreJoins(joins, p) && |joins| == |words| - 1
    ensures Squeeze(Weave(words, joins) + trail, p) == Spaced(words) + Squeeze(trail, p)
  {
    SqueezeWeave(words, joins, trail, p);
    forall i | 0 <= i < |joins| ensures SqueezeEach(joins, p)[i] == " " {
      SqueezeAll(joins[i], p);
    }
    assert SqueezeEach(joins, p) == Blanks(|joins|);
  }

  // ---------- Trimming ----------

  lemma TrimLead(lead: string, s: string, p: char -> bool) returns (l: string)
    requires AllOf(lead, p) && s != "" && !IsSpace(s[0])
    ensures AllOf(l, p) && TrimStart(lead + s) == l + s && (Blank(lead) ==> l == "")
  {
    if Blank(lead) {
      l := "";
      BlankIsAllSpace(lead);
      TrimDropsLeading(lead, s);
    } else {
      l := TrimStart(lead);
      TrimStartAppend(lead, s);
      var k := TrimStartIsSuffix(lead);
    }
  }

  lemma TrimTrail(s: string, trail: string, p: char -> bool) returns (t: string)
    requires AllOf(trail, p) && s != "" && !IsSpace(s[|s| - 1])
    ensures AllOf(t, p) && TrimEnd(s + trail) == s + t && (Blank(trail) ==> t == "")
  {
    if Blank(trail) {
      t := "";
      BlankIsAllSpace(trail);
      TrimEndDropsTrailing(s, trail);
      TrimEndStays(s);
      assert s + t == s;
    } else {
      t := TrimEnd(trail);
      TrimEndAppend(s, trail);
      TrimEndIsPrefix(trail);
    }
  }

  /** Of separators around something visible, trimming leaves separators, and no blanks alone. */
  lemma TrimFrame(lead: string, s: string, trail: string, p: char -> bool) returns (l: string, t: string)
    requires AllOf(lead, p) && AllOf(trail, p) && s != "" && Trimmed(s)
    ensures AllOf(l, p) && AllOf(t, p) && Trim(lead + (s + trail)) == l + (s + t)
    ensures (Blank(lead) ==> l == "") && (Blank(trail) ==> t == "")
  {
    l := TrimLead(lead, s + trail, p);
    assert l + (s + trail) == (l + s) + trail;
    t := TrimTrail(l + s, trail, p);
    assert l + (s + t) == (l + s) + t;
  }

  // ---------- Words with one blank between any two are told apart ----------

  /** What follows the first word. */
  function Following(words: seq<string>): string
    requires words != []
  {
    if |words| == 1 then "" else " " + Spaced(words[1..])
  }

  lemma {:induction false} SpacedTellsApart(a: seq<string>, b: seq<string>)
    requires AreWords(a, c => c == ' ') && AreWords(b, c => c == ' ') && Spaced(a) == Spaced(b)
    ensures a == b
  {
    SpacedStarts(a);
    SpacedStarts(b);
    FirstWord(a[0], Following(a), b[0], Following(b));
    if |a| > 1 && |b| > 1 {
      assert Following(a)[1..] == Spaced(a[1..]) && Following(b)[1..] == Spaced(b[1..]);
      SpacedTellsApart(a[1..], b[1..]);
      assert a == [a[0]] + a[1..] && b == [b[0]] + b[1..];
    }
  }

  lemma SpacedStarts(words: seq<string>)
    requires words != []
    ensures Spaced(words) == words[0] + Following(words)
  {
    if |words| > 1 {
      assert Blanks(|words| - 1)[1..] == Blanks(|words| - 2);
    }
  }

  lemma FirstWord(a: string, restA: string, b: string, restB: string)
    requires a + restA == b + restB && ' ' !in a && ' ' !in b
    requires (restA != "" ==> restA[0] == ' ') && (restB != "" ==> restB[0] == ' ')
    ensures a == b && restA == restB
  {
    var s := a + restA;
    assert forall i :: 0 <= i < |a| ==> s[i] == a[i] && a[i] != ' ';
    assert forall i :: 0 <= i < |b| ==> s[i] == b[i] && b[i] != ' ';
    assert |a| < |s| ==> s[|a|] == restA[0];
    assert |b| < |s| ==> s[|b|] == restB[0];
    if |a| == |b| {
      assert a == s[..|a|] && b == s[..|b|] && restA == s[|a|..] && restB == s[|b|..];
    }
  }

  // ---------- Every text is woven ----------

  /** Every text is words with what joins them, and something before and after, unless it holds nothing but
      separators. */
  lemma {:induction false} EveryTextIsWoven(s: string, p: char -> bool)
    returns (lead: string, words: seq<string>, joins: seq<string>, trail: string)
    requires !AllOf(s, p)
    ensures AllOf(lead, p) && AllOf(trail, p) && AreWords(words, p) && AreJoins(joins, p) && |joins| == |words| - 1
    ensures s == lead + Weave(words, joins) + trail
    decreases |s|
  {
    var c, rest := s[0], s[1..];
    assert s == [c] + rest;
    if AllOf(rest, p) {
      lead, words, joins, trail := "", [[c]], [], rest;
    } else {
      lead, words, joins, trail := EveryTextIsWoven(rest, p);
      if p(c) {
        lead := [c] + lead;
      } else if lead == "" {
        assert Weave([[c] + words[0]] + words[1..], joins) == [c] + Weave(words, joins);
        words := [[c] + words[0]] + words[1..];
      } else {
        var before := words;
        words, joins, lead := [[c]] + words, [lead] + joins, "";
        assert words[1..] == before;
      }
    }
  }
}
