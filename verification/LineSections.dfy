/** Cutting lines into sections at heading lines, for any notion of heading, and putting them together. */
module LineSections {

  /** A heading line and the lines under it. */
  datatype Section = Section(head: string, body: seq<string>)

  function AddTo(sections: seq<Section>, line: string, heads: string -> bool): seq<Section> {
    if heads(line) then sections + [Section(line, [])]
    else if sections == [] then []
    else
      var last := sections[|sections| - 1];
      sections[..|sections| - 1] + [last.(body := last.body + [line])]
  }

  function Sections(lines: seq<string>, heads: string -> bool): seq<Section> {
    if lines == [] then [] else AddTo(Sections(lines[..|lines| - 1], heads), lines[|lines| - 1], heads)
  }

  /** The lines before the first heading, which belong to no section. */
  function Preamble(lines: seq<string>, heads: string -> bool): seq<string> {
    if lines == [] then []
    else
      var before, line := Preamble(lines[..|lines| - 1], heads), lines[|lines| - 1];
      if Sections(lines[..|lines| - 1], heads) == [] && !heads(line) then before + [line] else before
  }

  // ---------- Putting together ----------

  function SectionLines(s: Section): seq<string> {
    [s.head] + s.body
  }

  function Flat(sections: seq<Section>): seq<string> {
    if sections == [] then [] else Flat(sections[..|sections| - 1]) + SectionLines(sections[|sections| - 1])
  }

  predicate NoHeading(lines: seq<string>, heads: string -> bool) {
    forall i :: 0 <= i < |lines| ==> !heads(lines[i])
  }

  predicate Proper(s: Section, heads: string -> bool) {
    heads(s.head) && NoHeading(s.body, heads)
  }

  ghost predicate AllProper(sections: seq<Section>, heads: string -> bool) {
    forall i :: 0 <= i < |sections| ==> Proper(sections[i], heads)
  }

  lemma FlatAppend(sections: seq<Section>, s: Section, heads: string -> bool)
    ensures Flat(sections + [s]) == Flat(sections) + SectionLines(s)
    ensures AllProper(sections + [s], heads) <==> AllProper(sections, heads) && Proper(s, heads)
  {
    var all := sections + [s];
    assert all[..|sections|] == sections && all[|sections|] == s;
    assert forall i :: 0 <= i < |sections| ==> all[i] == sections[i];
  }

  lemma FlatOfAdd(sections: seq<Section>, line: string, heads: string -> bool)
    requires AllProper(sections, heads) && (heads(line) || sections != [])
    ensures Flat(AddTo(sections, line, heads)) == Flat(sections) + [line]
            && AllProper(AddTo(sections, line, heads), heads)
  {
    if heads(line) {
      FlatAppend(sections, Section(line, []), heads);
    } else {
      var before, last := sections[..|sections| - 1], sections[|sections| - 1];
      assert sections == before + [last];
      FlatAppend(before, last, heads);
      FlatAppend(before, last.(body := last.body + [line]), heads);
      assert SectionLines(last.(body := last.body + [line])) == SectionLines(last) + [line];
    }
  }

  /** Splitting loses nothing, and every heading starts a section. */
  lemma {:induction false} SplitIsLossless(lines: seq<string>, heads: string -> bool)
    ensures Preamble(lines, heads) + Flat(Sections(lines, heads)) == lines
    ensures NoHeading(Preamble(lines, heads), heads) && AllProper(Sections(lines, heads), heads)
  {
    if lines != [] {
      var shorter, line := lines[..|lines| - 1], lines[|lines| - 1];
      SplitIsLossless(shorter, heads);
      assert lines == shorter + [line];
      if heads(line) || Sections(shorter, heads) != [] {
        FlatOfAdd(Sections(shorter, heads), line, heads);
        assert Preamble(shorter, heads) + (Flat(Sections(shorter, heads)) + [line]) == lines;
      }
    }
  }

  lemma SplitStep(lines: seq<string>, line: string, heads: string -> bool)
    ensures Sections(lines + [line], heads) == AddTo(Sections(lines, heads), line, heads)
    ensures Preamble(lines + [line], heads)
            == Preamble(lines, heads) + if Sections(lines, heads) == [] && !heads(line) then [line] else []
  {
    assert (lines + [line])[..|lines|] == lines;
  }

  lemma {:induction false} BodyGrows(lines: seq<string>, before: seq<Section>, s: Section, more: seq<string>,
                                     heads: string -> bool)
    requires NoHeading(more, heads) && Sections(lines, heads) == before + [s]
    ensures Sections(lines + more, heads) == before + [Section(s.head, s.body + more)]
            && Preamble(lines + more, heads) == Preamble(lines, heads)
    decreases |more|
  {
    if more == [] {
      assert lines + more == lines && s.body + more == s.body;
    } else {
      var fewer, line := more[..|more| - 1], more[|more| - 1];
      BodyGrows(lines, before, s, fewer, heads);
      SplitStep(lines + fewer, line, heads);
      assert lines + more == lines + fewer + [line] && s.body + more == s.body + fewer + [line];
      LineGoesLast(before, Section(s.head, s.body + fewer), line, heads);
    }
  }

  lemma LineGoesLast(before: seq<Section>, s: Section, line: string, heads: string -> bool)
    requires !heads(line)
    ensures AddTo(before + [s], line, heads) == before + [Section(s.head, s.body + [line])]
  {
    assert (before + [s])[..|before|] == before;
  }

  lemma {:induction false} SplitPreamble(preamble: seq<string>, heads: string -> bool)
    requires NoHeading(preamble, heads)
    ensures Sections(preamble, heads) == [] && Preamble(preamble, heads) == preamble
  {
    if preamble != [] {
      SplitPreamble(preamble[..|preamble| - 1], heads);
    }
  }

  lemma SplitOneMore(lines: seq<string>, s: Section, heads: string -> bool)
    requires Proper(s, heads)
    ensures Sections(lines + SectionLines(s), heads) == Sections(lines, heads) + [s]
    ensures Preamble(lines + SectionLines(s), heads) == Preamble(lines, heads)
  {
    SplitStep(lines, s.head, heads);
    BodyGrows(lines + [s.head], Sections(lines, heads), Section(s.head, []), s.body, heads);
    assert lines + SectionLines(s) == lines + [s.head] + s.body;
    assert s == Section(s.head, [] + s.body);
  }

  lemma Regroup(a: seq<string>, b: seq<string>, c: seq<string>)
    ensures a + (b + c) == a + b + c
  {
  }

  /** Splitting finds exactly the sections that were put together. */
  lemma {:induction false} SplitOfFlat(preamble: seq<string>, sections: seq<Section>, heads: string -> bool)
    requires NoHeading(preamble, heads) && AllProper(sections, heads)
    ensures Sections(preamble + Flat(sections), heads) == sections
    ensures Preamble(preamble + Flat(sections), heads) == preamble
  {
    if sections == [] {
      SplitPreamble(preamble, heads);
      assert preamble + Flat(sections) == preamble;
    } else {
      var before, last := sections[..|sections| - 1], sections[|sections| - 1];
      assert AllProper(before, heads) && Proper(last, heads);
      SplitOfFlat(preamble, before, heads);
      SplitOneMore(preamble + Flat(before), last, heads);
      Regroup(preamble, Flat(before), SectionLines(last));
      assert Flat(sections) == Flat(before) + SectionLines(last);
      assert before + [last] == sections;
    }
  }
}
