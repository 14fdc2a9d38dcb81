/** Removing, replacing and inserting one section of a report, line by line. */
module ReleaseRepair {
  import opened Common
  import opened Text
  import opened Lists

  const REPAIR_HEADING := "Release Gate Follow-up Repairs"
  const FINAL_HEADING := "Final QA Gate Status"

  // ---------------------------------------------------------------- lines

  predicate IsBlank(line: string) { RStrip(line) == "" }

  /** A second-level heading. */
  predicate IsHeading(line: string) {
    var t := RStrip(line);
    |t| >= 2 && t[..2] == "##" && (|t| == 2 || IsSpace(t[2]))
  }

  /** The second-level heading with this title. */
  predicate IsTarget(line: string, title: string) {
    var t := RStrip(line);
    IsHeading(line) && |t| > 2 && DropLeading(t[2..], IsSpace) == title
  }

  /** Two hashes, white space, the title, and nothing but white space make the heading of a title. */
  lemma HeadingIsTarget(gap: string, title: string, rest: string)
    requires gap != "" && forall i | 0 <= i < |gap| :: IsSpace(gap[i])
    requires forall i | 0 <= i < |rest| :: IsSpace(rest[i])
    requires title != "" && !IsSpace(title[0]) && !IsSpace(title[|title| - 1])
    ensures IsTarget("##" + gap + title + rest, title)
    ensures forall other | IsTarget("##" + gap + title + rest, other) :: other == title
  {
    var line := "##" + gap + title;
    SpaceIsDropped(line, rest);
    SpaceIsSkipped(gap, title);
    assert line[..2] == "##" && line[2..] == gap + title && line[2] == gap[0];
  }

  lemma {:induction false} SpaceIsDropped(s: string, rest: string)
    requires s != "" && !IsSpace(s[|s| - 1]) && forall i | 0 <= i < |rest| :: IsSpace(rest[i])
    ensures RStrip(s + rest) == s
  {
    if rest == "" {
      assert s + rest == s;
    } else {
      var n := |rest| - 1;
      assert (s + rest)[..|s + rest| - 1] == s + rest[..n];
      SpaceIsDropped(s, rest[..n]);
    }
  }

  lemma {:induction false} SpaceIsSkipped(gap: string, s: string)
    requires s != "" && !IsSpace(s[0]) && forall i | 0 <= i < |gap| :: IsSpace(gap[i])
    ensures DropLeading(gap + s, IsSpace) == s
  {
    if gap == "" {
      assert gap + s == s;
    } else {
      assert (gap + s)[1..] == gap[1..] + s;
      SpaceIsSkipped(gap[1..], s);
    }
  }

  lemma {:induction false} RStripTwice(s: string)
    ensures RStrip(RStrip(s)) == RStrip(s)
  {
    if s != "" && IsSpace(s[|s| - 1]) { RStripTwice(s[..|s| - 1]); }
  }

  lemma TrimmedLineIsTheSame(line: string, title: string)
    ensures IsBlank(RStrip(line)) == IsBlank(line) && IsHeading(RStrip(line)) == IsHeading(line)
    ensures IsTarget(RStrip(line), title) == IsTarget(line, title)
    ensures IsBlank(line) ==> !IsHeading(line)
  {
    RStripTwice(line);
  }

  /** The text without trailing white space. */
  function Trimmed(doc: seq<string>): seq<string> {
    if doc == [] then []
    else if IsBlank(doc[|doc| - 1]) then Trimmed(doc[..|doc| - 1])
    else doc[..|doc| - 1] + [RStrip(doc[|doc| - 1])]
  }

  /** The lines that are not blank, without trailing white space: the text as far as blank lines do not matter. */
  function Substance(doc: seq<string>): seq<string> {
    if doc == [] then []
    else if IsBlank(doc[0]) then Substance(doc[1..])
    else [RStrip(doc[0])] + Substance(doc[1..])
  }

  // ---------------------------------------------------------------- the operations

  predicate InsideAfter(line: string, title: string, inside: bool) {
    if IsHeading(line) then IsTarget(line, title) else inside
  }

  function Emitted(line: string, title: string, text: seq<string>, inside: bool): seq<string> {
    if IsTarget(line, title) then text else if InsideAfter(line, title, inside) then [] else [line]
  }

  /** Puts `text` in the place of every section with the title; `inside` says whether the first line is within one. */
  function Substitute(doc: seq<string>, title: string, text: seq<string>, inside: bool): seq<string> {
    if doc == [] then []
    else Emitted(doc[0], title, text, inside) + Substitute(doc[1..], title, text, InsideAfter(doc[0], title, inside))
  }

  function Without(doc: seq<string>, title: string): seq<string> { Substitute(doc, title, [], false) }

  function RemoveSection(doc: seq<string>, title: string): seq<string> { Trimmed(Without(Trimmed(doc), title)) }

  function RemoveReleaseRepairSection(doc: seq<string>): seq<string> { RemoveSection(doc, REPAIR_HEADING) }

  function CountTargets(doc: seq<string>, title: string): nat {
    if doc == [] then 0 else (if IsTarget(doc[0], title) then 1 else 0) + CountTargets(doc[1..], title)
  }

  /** The first heading with the title, or the end. */
  function FirstTarget(doc: seq<string>, title: string): (p: nat)
    ensures p <= |doc|
  {
    if doc == [] || IsTarget(doc[0], title) then 0 else 1 + FirstTarget(doc[1..], title)
  }

  /** The empty text is one empty line when something follows it. */
  function AsLines(doc: seq<string>): seq<string> { if doc == [] then [""] else doc }

  /** The section before the final QA section, or else at the end. */
  function InsertSection(stripped: seq<string>, section: seq<string>): seq<string> {
    var last := FirstTarget(stripped, FINAL_HEADING);
    if last < |stripped| then
      AsLines(Trimmed(stripped[..last])) + [""] + Trimmed(section) + [""] + stripped[last..] + [""]
    else if stripped == [] then section
    else stripped + [""] + section
  }

  function ReplaceOrInsertSection(doc: seq<string>, title: string, section: seq<string>): seq<string> {
    var stripped := Trimmed(doc);
    if CountTargets(stripped, title) > 0 then
      Trimmed(Substitute(stripped, title, Trimmed(section) + [""], false)) + [""]
    else InsertSection(stripped, section)
  }

  /** A section as the repair writes it: its heading, no other heading, one newline at the end. */
  ghost predicate IsSection(section: seq<string>, title: string) {
    && section != [] && IsTarget(section[0], title)
    && (forall i | 1 <= i < |section| :: !IsHeading(section[i]))
    && section == Trimmed(section) + [""]
  }

  // ---------------------------------------------------------------- trimming

  lemma TrimmedBlank(doc: seq<string>, line: string)
    requires IsBlank(line)
    ensures Trimmed(doc + [line]) == Trimmed(doc)
  {
    TakeAppend(doc, [line]);
  }

  lemma TrimmedSolid(doc: seq<string>, line: string)
    requires !IsBlank(line)
    ensures Trimmed(doc + [line]) == doc + [RStrip(line)]
  {
    TakeAppend(doc, [line]);
  }

  /** A trimmed text ends in a line that is neither blank nor followed by white space. */
  ghost predicate IsTrimmed(doc: seq<string>) {
    doc == [] || (!IsBlank(doc[|doc| - 1]) && RStrip(doc[|doc| - 1]) == doc[|doc| - 1])
  }

  lemma {:induction false} TrimmedShape(doc: seq<string>)
    ensures IsTrimmed(Trimmed(doc)) && |Trimmed(doc)| <= |doc|
    ensures IsTrimmed(doc) ==> Trimmed(doc) == doc
  {
    if doc != [] {
      var line := doc[|doc| - 1];
      TrimmedShape(doc[..|doc| - 1]);
      RStripTwice(line);
      SplitLast(doc);
    }
  }

  lemma {:induction false} SubstanceAppend(a: seq<string>, b: seq<string>)
    ensures Substance(a + b) == Substance(a) + Substance(b)
  {
    if a == [] {
      assert a + b == b;
    } else {
      hide RStrip, IsBlank;
      SubstanceAppend(a[1..], b);
      assert (a + b)[0] == a[0] && (a + b)[1..] == a[1..] + b;
      AppendAssociates([RStrip(a[0])], Substance(a[1..]), Substance(b));
    }
  }

  lemma {:induction false} TrimmedKeepsSubstance(doc: seq<string>)
    ensures Substance(Trimmed(doc)) == Substance(doc)
  {
    if doc != [] {
      var n := |doc| - 1;
      SplitLast(doc);
      SubstanceAppend(doc[..n], [doc[n]]);
      if IsBlank(doc[n]) {
        TrimmedKeepsSubstance(doc[..n]);
      } else {
        SubstanceAppend(doc[..n], [RStrip(doc[n])]);
        RStripTwice(doc[n]);
      }
    }
  }

  // ---------------------------------------------------------------- what the substitution does to sections

  /** The text cut at its headings: what precedes the first, then every section with its heading line. */
  function Sections(doc: seq<string>): (r: seq<seq<string>>)
    ensures r != []
  {
    if doc == [] then [[]]
    else
      var rest := Sections(doc[1..]);
      var first := [doc[0]] + rest[0];
      if IsHeading(doc[0]) then [[], first] + rest[1..] else [first] + rest[1..]
  }

  function Flat(parts: seq<seq<string>>): seq<string> {
    if parts == [] then [] else parts[0] + Flat(parts[1..])
  }

  predicate IsTargetSection(section: seq<string>, title: string) { section != [] && IsTarget(section[0], title) }

  /** `text` instead of every section with the title. */
  function Replaced(sections: seq<seq<string>>, title: string, text: seq<string>): seq<seq<string>> {
    if sections == [] then []
    else [if IsTargetSection(sections[0], title) then text else sections[0]] + Replaced(sections[1..], title, text)
  }

  lemma {:induction false} SectionsCoverText(doc: seq<string>)
    ensures Flat(Sections(doc)) == doc
    ensures forall i | 1 <= i < |Sections(doc)| :: Sections(doc)[i] != [] && IsHeading(Sections(doc)[i][0])
  {
    if doc != [] {
      var rest := Sections(doc[1..]);
      SectionsCoverText(doc[1..]);
      var first := [doc[0]] + rest[0];
      AppendAssociates([doc[0]], rest[0], Flat(rest[1..]));
      assert ([first] + rest[1..])[1..] == rest[1..];
      if IsHeading(doc[0]) {
        assert ([[], first] + rest[1..])[1..] == [first] + rest[1..];
      }
    }
  }

  /** Substitution works section by section: sections with the title give way, all others stay as they are. */
  lemma {:induction false} SubstituteWorksBySection(doc: seq<string>, title: string, text: seq<string>, inside: bool)
    ensures var sections := Sections(doc);
      Substitute(doc, title, text, inside)
      == (if inside then [] else sections[0]) + Flat(Replaced(sections[1..], title, text))
  {
    hide IsHeading, IsTarget, Replaced, Flat, Sections;
    if doc == [] {
      NoSections(title, text);
    } else {
      var next, rest := InsideAfter(doc[0], title, inside), Sections(doc[1..]);
      SubstituteWorksBySection(doc[1..], title, text, next);
      SectionsStep(doc, title);
      FirstLineTurns(doc[0], title, text, inside, rest[0], Flat(Replaced(rest[1..], title, text)));
      if IsHeading(doc[0]) { SectionTurn([doc[0]] + rest[0], rest[1..], title, text); }
    }
  }

  /** What becomes of a line and of the rest of its section. */
  lemma FirstLineTurns(line: string, title: string, text: seq<string>, inside: bool, rest: seq<string>,
                       others: seq<string>)
    ensures var next := InsideAfter(line, title, inside);
      Emitted(line, title, text, inside) + ((if next then [] else rest) + others)
      == if IsHeading(line) then (if IsTarget(line, title) then text else [line] + rest) + others
         else (if inside then [] else [line] + rest) + others
  {
    assert IsTarget(line, title) ==> IsHeading(line);
    hide IsHeading, IsTarget;
    assert [line] + (rest + others) == ([line] + rest) + others;
    assert text + ([] + others) == text + others;
  }

  lemma NoSections(title: string, text: seq<string>)
    ensures Sections([]) == [[]] && Flat(Replaced(Sections([])[1..], title, text)) == []
  {
  }

  lemma SectionsStep(doc: seq<string>, title: string)
    requires doc != []
    ensures var rest := Sections(doc[1..]); var first := [doc[0]] + rest[0];
      && (IsHeading(doc[0]) ==> Sections(doc)[0] == [] && Sections(doc)[1..] == [first] + rest[1..])
      && (!IsHeading(doc[0]) ==> Sections(doc)[0] == first && Sections(doc)[1..] == rest[1..])
      && (IsTargetSection(first, title) <==> IsTarget(doc[0], title))
  {
    hide IsHeading, IsTarget;
    var rest := Sections(doc[1..]);
    var first := [doc[0]] + rest[0];
    TwoInFront([], first, rest[1..]);
    assert first[0] == doc[0];
  }

  lemma TwoInFront(a: seq<string>, b: seq<string>, rest: seq<seq<string>>)
    ensures ([a, b] + rest)[0] == a && ([a, b] + rest)[1..] == [b] + rest
    ensures ([b] + rest)[0] == b && ([b] + rest)[1..] == rest
  {
  }

  lemma SectionTurn(first: seq<string>, rest: seq<seq<string>>, title: string, text: seq<string>)
    ensures Flat(Replaced([first] + rest, title, text))
         == (if IsTargetSection(first, title) then text else first) + Flat(Replaced(rest, title, text))
  {
    assert ([first] + rest)[1..] == rest;
    var head := if IsTargetSection(first, title) then text else first;
    assert ([head] + Replaced(rest, title, text))[1..] == Replaced(rest, title, text);
  }

  // ---------------------------------------------------------------- substitution, piece by piece

  function InsideAtEnd(doc: seq<string>, title: string, inside: bool): bool {
    if doc == [] then inside else InsideAtEnd(doc[1..], title, InsideAfter(doc[0], title, inside))
  }

  lemma {:induction false} SubstituteAppend(a: seq<string>, b: seq<string>, title: string, text: seq<string>,
                                            inside: bool)
    ensures Substitute(a + b, title, text, inside)
         == Substitute(a, title, text, inside) + Substitute(b, title, text, InsideAtEnd(a, title, inside))
    ensures InsideAtEnd(a + b, title, inside) == InsideAtEnd(b, title, InsideAtEnd(a, title, inside))
    decreases a
  {
    if a == [] {
      assert a + b == b;
    } else {
      assert (a + b)[1..] == a[1..] + b;
      SubstituteAppend(a[1..], b, title, text, InsideAfter(a[0], title, inside));
      AppendAssociates(Emitted(a[0], title, text, inside),
                       Substitute(a[1..], title, text, InsideAfter(a[0], title, inside)),
                       Substitute(b, title, text, InsideAtEnd(a, title, inside)));
    }
  }

  lemma {:induction false} CountAppend(a: seq<string>, b: seq<string>, title: string)
    ensures CountTargets(a + b, title) == CountTargets(a, title) + CountTargets(b, title)
  {
    if a == [] {
      assert a + b == b;
    } else {
      assert (a + b)[1..] == a[1..] + b;
      CountAppend(a[1..], b, title);
    }
  }

  /** Outside sections with the title nothing changes. */
  lemma {:induction false} NothingToSubstitute(doc: seq<string>, title: string, text: seq<string>)
    requires CountTargets(doc, title) == 0
    ensures Substitute(doc, title, text, false) == doc && !InsideAtEnd(doc, title, false)
  {
    if doc != [] { NothingToSubstitute(doc[1..], title, text); }
  }

  /** Inside such a section everything up to the next heading goes. */
  lemma {:induction false} InsideGoes(doc: seq<string>, title: string, text: seq<string>)
    requires forall i | 0 <= i < |doc| :: !IsHeading(doc[i])
    ensures Substitute(doc, title, text, true) == [] && InsideAtEnd(doc, title, true)
    ensures CountTargets(doc, title) == 0
  {
    if doc != [] { InsideGoes(doc[1..], title, text); }
  }

  /** A text that is one section with the title. */
  ghost predicate IsOneSection(section: seq<string>, title: string) {
    section != [] && IsTarget(section[0], title) && forall i | 1 <= i < |section| :: !IsHeading(section[i])
  }

  lemma OneSectionGivesWay(section: seq<string>, title: string, text: seq<string>, inside: bool)
    requires IsOneSection(section, title)
    ensures Substitute(section, title, text, inside) == text && InsideAtEnd(section, title, inside)
    ensures CountTargets(section, title) == 1
  {
    InsideGoes(section[1..], title, text);
  }

  /** What is removed after a replacement is what would have been removed without it. */
  lemma {:induction false} RemoveAfterSubstitute(doc: seq<string>, title: string, section: seq<string>, inside: bool)
    requires IsOneSection(section, title)
    ensures Substitute(Substitute(doc, title, section, inside), title, [], inside) == Substitute(doc, title, [], inside)
    decreases doc
  {
    if doc != [] {
      var next := InsideAfter(doc[0], title, inside);
      var rest := Substitute(doc[1..], title, section, next);
      RemoveAfterSubstitute(doc[1..], title, section, next);
      SubstituteAppend(Emitted(doc[0], title, section, inside), rest, title, [], inside);
      if IsTarget(doc[0], title) {
        OneSectionGivesWay(section, title, [], inside);
      } else if !next {
        OneLine(doc[0], title, [], inside);
      }
    }
  }

  lemma OneLine(line: string, title: string, text: seq<string>, inside: bool)
    requires !InsideAfter(line, title, inside)
    ensures Substitute([line], title, text, inside) == [line] && !InsideAtEnd([line], title, inside)
  {
    assert [line][1..] == [];
  }

  /** Replacing twice with the same section replaces once. */
  lemma {:induction false} SubstituteTwice(doc: seq<string>, title: string, section: seq<string>, inside: bool)
    requires IsOneSection(section, title)
    ensures Substitute(Substitute(doc, title, section, inside), title, section, inside)
         == Substitute(doc, title, section, inside)
    decreases doc
  {
    if doc != [] {
      var next := InsideAfter(doc[0], title, inside);
      var rest := Substitute(doc[1..], title, section, next);
      SubstituteTwice(doc[1..], title, section, next);
      SubstituteAppend(Emitted(doc[0], title, section, inside), rest, title, section, inside);
      if IsTarget(doc[0], title) {
        OneSectionGivesWay(section, title, section, inside);
      } else if !next {
        OneLine(doc[0], title, section, inside);
      }
    }
  }

  lemma {:induction false} CountAfterSubstitute(doc: seq<string>, title: string, section: seq<string>, inside: bool)
    requires IsOneSection(section, title)
    ensures CountTargets(Substitute(doc, title, section, inside), title) == CountTargets(doc, title)
  {
    if doc != [] {
      var next := InsideAfter(doc[0], title, inside);
      CountAfterSubstitute(doc[1..], title, section, next);
      CountAppend(Emitted(doc[0], title, section, inside), Substitute(doc[1..], title, section, next), title);
      if IsTarget(doc[0], title) {
        OneSectionGivesWay(section, title, section, inside);
      } else if !next {
        assert CountTargets([doc[0]], title) == 0 by { assert [doc[0]][1..] == []; }
      }
    }
  }

  lemma {:induction false} NoneLeft(doc: seq<string>, title: string, inside: bool)
    ensures CountTargets(Substitute(doc, title, [], inside), title) == 0
  {
    if doc != [] {
      var next := InsideAfter(doc[0], title, inside);
      NoneLeft(doc[1..], title, next);
      CountAppend(Emitted(doc[0], title, [], inside), Substitute(doc[1..], title, [], next), title);
      assert CountTargets([doc[0]], title) == (if IsTarget(doc[0], title) then 1 else 0) by {
        assert [doc[0]][1..] == [];
      }
    }
  }

  // ---------------------------------------------------------------- trimming and substituting

  lemma {:induction false} TrimmedKeepsCount(doc: seq<string>, title: string)
    ensures CountTargets(Trimmed(doc), title) == CountTargets(doc, title)
  {
    if doc != [] {
      var n := |doc| - 1;
      SplitLast(doc);
      TrimmedLineIsTheSame(doc[n], title);
      CountAppend(doc[..n], [doc[n]], title);
      assert CountTargets([doc[n]], title) == (if IsTarget(doc[n], title) then 1 else 0) by {
        assert [doc[n]][1..] == [];
      }
      if IsBlank(doc[n]) {
        TrimmedKeepsCount(doc[..n], title);
      } else {
        var line := RStrip(doc[n]);
        CountAppend(doc[..n], [line], title);
        assert CountTargets([line], title) == (if IsTarget(line, title) then 1 else 0) by { assert [line][1..] == []; }
      }
    }
  }

  /** Trimming before the substitution makes no difference to the trimmed result. */
  lemma {:induction false} TrimFirst(doc: seq<string>, title: string, text: seq<string>)
    ensures Trimmed(Substitute(Trimmed(doc), title, text, false)) == Trimmed(Substitute(doc, title, text, false))
  {
    if doc != [] {
      var n := |doc| - 1;
      SplitLast(doc);
      SubstituteAppend(doc[..n], [doc[n]], title, text, false);
      LastLine(doc[..n], doc[n], title, text);
      if IsBlank(doc[n]) { TrimFirst(doc[..n], title, text); }
    }
  }

  lemma LastLine(front: seq<string>, line: string, title: string, text: seq<string>)
    ensures var whole := Trimmed(Substitute(front + [line], title, text, false));
      whole == if IsBlank(line) then Trimmed(Substitute(front, title, text, false))
               else Trimmed(Substitute(front + [RStrip(line)], title, text, false))
  {
    var inside, before := InsideAtEnd(front, title, false), Substitute(front, title, text, false);
    SubstituteAppend(front, [line], title, text, false);
    SubstituteAppend(front, [RStrip(line)], title, text, false);
    TrimmedLineIsTheSame(line, title);
    RStripTwice(line);
    assert [line][1..] == [] && [RStrip(line)][1..] == [];
    assert Substitute([line], title, text, inside) == Emitted(line, title, text, inside);
    assert Substitute([RStrip(line)], title, text, inside) == Emitted(RStrip(line), title, text, inside);
    assert before + [] == before;
    if !IsTarget(line, title) && !InsideAfter(line, title, inside) {
      if IsBlank(line) {
        TrimmedBlank(before, line);
      } else {
        TrimmedSolid(before, line);
        TrimmedSolid(before, RStrip(line));
      }
    }
  }

  // ---------------------------------------------------------------- removal

  /** Removal leaves no section with the title, and the trimmed rest of the text as it was. */
  lemma RemovalIsExact(doc: seq<string>, title: string)
    ensures CountTargets(RemoveSection(doc, title), title) == 0
    ensures RemoveSection(doc, title)
         == Trimmed(Sections(Trimmed(doc))[0] + Flat(Replaced(Sections(Trimmed(doc))[1..], title, [])))
  {
    NoneLeft(Trimmed(doc), title, false);
    TrimmedKeepsCount(Without(Trimmed(doc), title), title);
    SubstituteWorksBySection(Trimmed(doc), title, [], false);
  }

  lemma RemovalIsIdempotent(doc: seq<string>, title: string)
    ensures RemoveSection(RemoveSection(doc, title), title) == RemoveSection(doc, title)
  {
    var removed := RemoveSection(doc, title);
    RemovalIsExact(doc, title);
    TrimmedShape(Without(Trimmed(doc), title));
    TrimmedShape(removed);
    NothingToSubstitute(removed, title, []);
  }

  // ---------------------------------------------------------------- replacement or insertion

  lemma SectionBody(section: seq<string>, title: string)
    requires IsSection(section, title)
    ensures IsOneSection(Trimmed(section), title) && IsOneSection(section, title)
  {
    var body := Trimmed(section);
    assert body != [] by { TrimmedLineIsTheSame(section[0], title); assert section != [""]; }
    assert forall i | 0 <= i < |body| :: body[i] == section[i];
  }

  /** The text before and after the place of an insertion, when the title is not there yet. */
  lemma {:induction false} FirstTargetIsExact(doc: seq<string>, title: string)
    ensures var p := FirstTarget(doc, title);
      && (p < |doc| ==> IsTarget(doc[p], title))
      && (forall i | 0 <= i < p :: !IsTarget(doc[i], title))
  {
    if doc != [] && !IsTarget(doc[0], title) { FirstTargetIsExact(doc[1..], title); }
  }

  /** An inserted section can be taken out again without a trace, wherever it starts. */
  lemma InsertedSection(before: seq<string>, section: seq<string>, after: seq<string>, title: string, text: seq<string>)
    requires CountTargets(before, title) == 0 && CountTargets(after, title) == 0 && IsOneSection(section, title)
    requires after == [] || IsHeading(after[0])
    ensures Substitute(before + section + after, title, text, false) == before + text + after
    ensures CountTargets(before + section + after, title) == 1
  {
    NothingToSubstitute(before, title, text);
    OneSectionGivesWay(section, title, text, false);
    SubstituteAppend(before, section, title, text, false);
    SubstituteAppend(before + section, after, title, text, false);
    CountAppend(before, section, title);
    CountAppend(before + section, after, title);
    NothingToSubstitute(after, title, text);
    if after != [] { assert InsideAfter(after[0], title, true) == InsideAfter(after[0], title, false); }
  }

  lemma NoTargetInBlank(title: string)
    ensures CountTargets([""], title) == 0 && IsBlank("") && Substance([""]) == []
  {
    TrimmedLineIsTheSame("", title);
    assert [""][1..] == [];
  }

  lemma TrimmedTail(front: seq<string>, tail: seq<string>)
    requires tail != [] && IsTrimmed(tail)
    ensures Trimmed(front + tail + [""]) == front + tail
  {
    NoTargetInBlank("");
    TrimmedBlank(front + tail, "");
    assert (front + tail)[|front + tail| - 1] == tail[|tail| - 1];
    TrimmedShape(front + tail);
  }

  lemma CountTrimmedFront(doc: seq<string>, p: nat, title: string)
    requires p <= |doc| && CountTargets(doc, title) == 0
    ensures CountTargets(AsLines(Trimmed(doc[..p])) + [""], title) == 0 && CountTargets(doc[p..], title) == 0
  {
    assert doc[..p] + doc[p..] == doc;
    CountAppend(doc[..p], doc[p..], title);
    TrimmedKeepsCount(doc[..p], title);
    NoTargetInBlank(title);
    CountAppend(AsLines(Trimmed(doc[..p])), [""], title);
  }

  lemma SubstanceOfFront(doc: seq<string>, p: nat)
    requires p <= |doc|
    ensures Substance(AsLines(Trimmed(doc[..p])) + [""]) + Substance(doc[p..]) == Substance(doc)
  {
    hide *;
    SubstanceOfLines(Trimmed(doc[..p]));
    assert doc[..p] + doc[p..] == doc;
    SubstanceAppend(doc[..p], doc[p..]);
    TrimmedKeepsSubstance(doc[..p]);
  }

  lemma SubstanceOfLines(doc: seq<string>)
    ensures Substance(AsLines(doc) + [""]) == Substance(doc)
  {
    NoTargetInBlank("");
    SubstanceAppend(AsLines(doc), [""]);
    AppendEmpty(Substance(AsLines(doc)));
  }

  lemma Regroup<T>(a: seq<T>, b: seq<T>, c: seq<T>, x: seq<T>)
    ensures a + x + b + x + c + x == (a + x) + (b + x) + (c + x)
  {
  }

  lemma RegroupTail<T>(a: seq<T>, b: seq<T>, c: seq<T>)
    ensures a + (b + c) == a + b + c
  {
  }

  /** A text that is `stripped` with the section put in between two pieces of it. */
  ghost predicate IsInserted(result: seq<string>, stripped: seq<string>, title: string, section: seq<string>,
                             before: seq<string>, after: seq<string>)
  {
    && result == before + section + after
    && CountTargets(before, title) == 0 && CountTargets(after, title) == 0
    && (after == [] || IsHeading(after[0]))
    && Substance(before) + Substance(after) == Substance(stripped)
    && Trimmed(result) + [""] == result
  }

  lemma InsertBeforeFinal(stripped: seq<string>, p: nat, title: string, section: seq<string>)
    requires IsTrimmed(stripped) && CountTargets(stripped, title) == 0
    requires p < |stripped| && IsHeading(stripped[p]) && section == Trimmed(section) + [""]
    ensures IsInserted(AsLines(Trimmed(stripped[..p])) + [""] + Trimmed(section) + [""] + stripped[p..] + [""],
                       stripped, title, section, AsLines(Trimmed(stripped[..p])) + [""], stripped[p..] + [""])
  {
    hide Trimmed, Substance, CountTargets, AsLines, RStrip, IsBlank, IsHeading;
    var before, tail := AsLines(Trimmed(stripped[..p])) + [""], stripped[p..];
    CountTrimmedFront(stripped, p, title);
    SubstanceOfFront(stripped, p);
    NoTargetInBlank(title);
    CountAppend(tail, [""], title);
    SubstanceAppend(tail, [""]);
    TrimmedTail(before + section, tail);
    RegroupTail(before + section, tail, [""]);
    Regroup(AsLines(Trimmed(stripped[..p])), Trimmed(section), tail, [""]);
  }

  lemma AppendEmpty<T>(a: seq<T>)
    ensures a + [] == a && [] + a == a
  {
  }

  lemma AppendSection(before: seq<string>, stripped: seq<string>, title: string, section: seq<string>)
    requires CountTargets(before, title) == 0 && IsSection(section, title) && Substance(before) == Substance(stripped)
    ensures IsInserted(before + section, stripped, title, section, before, [])
  {
    SectionBody(section, title);
    TrimmedShape(section);
    TrimmedTail(before, Trimmed(section));
    RegroupTail(before, Trimmed(section), [""]);
    AppendEmpty(before + section);
    AppendEmpty(Substance(before));
  }

  /** Where a section that was not there is put. */
  lemma InsertionShape(stripped: seq<string>, title: string, section: seq<string>)
    returns (before: seq<string>, after: seq<string>)
    requires IsTrimmed(stripped) && IsSection(section, title) && CountTargets(stripped, title) == 0
    ensures IsInserted(InsertSection(stripped, section), stripped, title, section, before, after)
  {
    var p := FirstTarget(stripped, FINAL_HEADING);
    if p < |stripped| {
      FirstTargetIsExact(stripped, FINAL_HEADING);
      InsertBeforeFinal(stripped, p, title, section);
      before, after := AsLines(Trimmed(stripped[..p])) + [""], stripped[p..] + [""];
    } else if stripped == [] {
      before, after := [], [];
      AppendSection(before, stripped, title, section);
      AppendEmpty(section);
    } else {
      before, after := stripped + [""], [];
      NoTargetInBlank(title);
      CountAppend(stripped, [""], title);
      SubstanceAppend(stripped, [""]);
      AppendEmpty(Substance(stripped));
      AppendSection(before, stripped, title, section);
    }
  }

  /**
   Where a new section goes: directly before the first final QA heading, only a blank line between them, with what
   follows the heading kept line by line; without such a heading, to the end.
   */
  lemma InsertedBeforeFinal(doc: seq<string>, title: string, section: seq<string>)
    requires CountTargets(Trimmed(doc), title) == 0
    ensures var stripped, inserted := Trimmed(doc), ReplaceOrInsertSection(doc, title, section);
      && (forall last: nat | IsFirstFinal(stripped, last) :: exists p: nat ::
            StandsBefore(inserted, Trimmed(section), stripped, last, p))
      && ((forall k | 0 <= k < |stripped| :: !IsTarget(stripped[k], FINAL_HEADING)) ==>
            inserted == if stripped == [] then section else stripped + [""] + section)
  {
    hide IsTarget, Trimmed, Substance, CountTargets;
    var stripped, inserted := Trimmed(doc), ReplaceOrInsertSection(doc, title, section);
    FirstTargetIsExact(stripped, FINAL_HEADING);
    var p := FirstTarget(stripped, FINAL_HEADING);
    forall last: nat | IsFirstFinal(stripped, last)
      ensures exists p: nat :: StandsBefore(inserted, Trimmed(section), stripped, last, p)
    {
      assert p == last;
      var before, after := AsLines(Trimmed(stripped[..last])) + [""], stripped[last..] + [""];
      SubstanceOfLines(Trimmed(stripped[..last]));
      TrimmedKeepsSubstance(stripped[..last]);
      PutBetween(before, Trimmed(section), after);
      assert inserted == before + Trimmed(section) + [""] + after;
      assert StandsBefore(inserted, Trimmed(section), stripped, last, |before|);
    }
  }

  lemma PutBetween(before: seq<string>, part: seq<string>, after: seq<string>)
    ensures (before + part + [""] + after)[..|before|] == before
    ensures (before + part + [""] + after)[|before|..] == part + [""] + after
  {
  }

  /** Line `last` is the first heading of the final QA section. */
  ghost predicate IsFirstFinal(doc: seq<string>, last: nat) {
    && last < |doc| && IsTarget(doc[last], FINAL_HEADING)
    && forall k | 0 <= k < last :: !IsTarget(doc[k], FINAL_HEADING)
  }

  /** In `inserted` the part begins at line `p`, after the lines before `last` and directly before the rest. */
  ghost predicate StandsBefore(inserted: seq<string>, part: seq<string>, doc: seq<string>, last: nat, p: nat)
    requires last <= |doc|
  {
    && p <= |inserted| && inserted[p..] == part + [""] + (doc[last..] + [""])
    && Substance(inserted[..p]) == Substance(doc[..last])
  }

  /** With the title there at most once before, it is there exactly once after. */
  lemma ExactlyOneSection(doc: seq<string>, title: string, section: seq<string>)
    requires IsSection(section, title)
    ensures CountTargets(ReplaceOrInsertSection(doc, title, section), title)
         == if CountTargets(doc, title) == 0 then 1 else CountTargets(doc, title)
  {
    var stripped := Trimmed(doc);
    TrimmedKeepsCount(doc, title);
    SectionBody(section, title);
    if CountTargets(stripped, title) > 0 {
      var replaced := Substitute(stripped, title, section, false);
      CountAfterSubstitute(stripped, title, section, false);
      TrimmedKeepsCount(replaced, title);
      NoTargetInBlank(title);
      CountAppend(Trimmed(replaced), [""], title);
    } else {
      TrimmedShape(doc);
      var before, after := InsertionShape(stripped, title, section);
      InsertedSection(before, section, after, title, []);
    }
  }

  /** Replacing or inserting again changes nothing. */
  lemma ReplaceOrInsertIsIdempotent(doc: seq<string>, title: string, section: seq<string>)
    requires IsSection(section, title)
    ensures var once := ReplaceOrInsertSection(doc, title, section);
      ReplaceOrInsertSection(once, title, section) == once
  {
    var stripped, once := Trimmed(doc), ReplaceOrInsertSection(doc, title, section);
    SectionBody(section, title);
    ExactlyOneSection(doc, title, section);
    TrimmedKeepsCount(doc, title);
    TrimmedKeepsCount(once, title);
    assert ReplaceOrInsertSection(once, title, section)
        == Trimmed(Substitute(Trimmed(once), title, section, false)) + [""];
    TrimFirst(once, title, section);
    if CountTargets(stripped, title) > 0 {
      var replaced := Substitute(stripped, title, section, false);
      NoTargetInBlank(title);
      TrimmedBlank(Trimmed(replaced), "");
      TrimmedShape(replaced);
      TrimmedShape(Trimmed(replaced));
      TrimFirst(replaced, title, section);
      SubstituteTwice(stripped, title, section, false);
    } else {
      TrimmedShape(doc);
      var before, after := InsertionShape(stripped, title, section);
      InsertedSection(before, section, after, title, section);
    }
  }

  /** What removal leaves does not depend on the white space at the end. */
  lemma SubstanceOfRest(doc: seq<string>, title: string)
    ensures Substance(Without(Trimmed(doc), title)) == Substance(Without(doc, title))
    ensures Substance(RemoveSection(doc, title)) == Substance(Without(doc, title))
  {
    TrimFirst(doc, title, []);
    TrimmedKeepsSubstance(Without(Trimmed(doc), title));
    TrimmedKeepsSubstance(Without(doc, title));
  }

  lemma RestAfterReplacing(stripped: seq<string>, title: string, section: seq<string>)
    requires IsOneSection(section, title)
    ensures Substance(Without(Trimmed(Substitute(stripped, title, section, false)) + [""], title))
         == Substance(Without(stripped, title))
  {
    var replaced := Substitute(stripped, title, section, false);
    NoTargetInBlank(title);
    TrimmedBlank(Trimmed(replaced), "");
    TrimmedShape(replaced);
    TrimmedShape(Trimmed(replaced));
    SubstanceOfRest(replaced, title);
    SubstanceOfRest(Trimmed(replaced) + [""], title);
    RemoveAfterSubstitute(stripped, title, section, false);
  }

  lemma RestAfterInserting(stripped: seq<string>, title: string, before: seq<string>, section: seq<string>,
                           after: seq<string>)
    requires CountTargets(stripped, title) == 0 && IsOneSection(section, title)
    requires IsInserted(before + section + after, stripped, title, section, before, after)
    ensures Substance(Without(before + section + after, title)) == Substance(Without(stripped, title))
  {
    InsertedSection(before, section, after, title, []);
    SubstanceAppend(before, after);
    AppendEmpty(before);
    NothingToSubstitute(stripped, title, []);
  }

  /** Every other section stays, in order, and removal undoes replacing or inserting, up to blank lines. */
  lemma RemovalUndoesInsertion(doc: seq<string>, title: string, section: seq<string>)
    requires IsSection(section, title)
    ensures var result := ReplaceOrInsertSection(doc, title, section);
      && Substance(Without(result, title)) == Substance(Without(doc, title))
      && Substance(RemoveSection(result, title)) == Substance(RemoveSection(doc, title))
  {
    var stripped, result := Trimmed(doc), ReplaceOrInsertSection(doc, title, section);
    SectionBody(section, title);
    SubstanceOfRest(doc, title);
    SubstanceOfRest(result, title);
    if CountTargets(stripped, title) > 0 {
      RestAfterReplacing(stripped, title, section);
    } else {
      TrimmedShape(doc);
      var before, after := InsertionShape(stripped, title, section);
      RestAfterInserting(stripped, title, before, section, after);
    }
  }

  // ---------------------------------------------------------------- exactly when replacing is idempotent

  function CountHeadings(doc: seq<string>): nat {
    if doc == [] then 0 else (if IsHeading(doc[0]) then 1 else 0) + CountHeadings(doc[1..])
  }

  lemma {:induction false} HeadingsAppend(a: seq<string>, b: seq<string>)
    ensures CountHeadings(a + b) == CountHeadings(a) + CountHeadings(b)
  {
    if a == [] {
      assert a + b == b;
    } else {
      assert (a + b)[1..] == a[1..] + b;
      HeadingsAppend(a[1..], b);
    }
  }

  lemma OneLineHeadings(line: string)
    ensures CountHeadings([line]) == if IsHeading(line) then 1 else 0
  {
    assert [line][1..] == [];
  }

  lemma {:induction false} TrimmedKeepsHeadings(doc: seq<string>)
    ensures CountHeadings(Trimmed(doc)) == CountHeadings(doc)
  {
    if doc != [] {
      var n := |doc| - 1;
      SplitLast(doc);
      HeadingsAppend(doc[..n], [doc[n]]);
      OneLineHeadings(doc[n]);
      TrimmedLineIsTheSame(doc[n], "");
      if IsBlank(doc[n]) {
        TrimmedKeepsHeadings(doc[..n]);
      } else {
        HeadingsAppend(doc[..n], [RStrip(doc[n])]);
        OneLineHeadings(RStrip(doc[n]));
      }
    }
  }

  lemma {:induction false} SomeHeading(doc: seq<string>, i: nat)
    requires i < |doc| && IsHeading(doc[i])
    ensures CountHeadings(doc) >= 1
  {
    if i > 0 { SomeHeading(doc[1..], i - 1); }
  }

  /** Every replacement by a text with two headings or more adds a heading. */
  lemma {:induction false} SubstituteAddsHeadings(doc: seq<string>, title: string, text: seq<string>)
    requires CountHeadings(text) >= 2
    ensures forall inside ::
      CountHeadings(Substitute(doc, title, text, inside)) >= CountHeadings(doc) + CountTargets(doc, title)
  {
    if doc != [] {
      SubstituteAddsHeadings(doc[1..], title, text);
      forall inside
        ensures CountHeadings(Substitute(doc, title, text, inside)) >= CountHeadings(doc) + CountTargets(doc, title)
      {
        var next := InsideAfter(doc[0], title, inside);
        HeadingsAppend(Emitted(doc[0], title, text, inside), Substitute(doc[1..], title, text, next));
        OneLineHeadings(doc[0]);
      }
    }
  }

  lemma WrittenTwice(title: string, section: seq<string>)
    requires section != [] && IsTarget(section[0], title) && section == Trimmed(section) + [""]
    ensures ReplaceOrInsertSection([], title, section) == section
    ensures ReplaceOrInsertSection(section, title, section)
         == Trimmed(Substitute(Trimmed(section), title, section, false)) + [""]
    ensures CountTargets(Trimmed(section), title) > 0
  {
    hide IsTarget, Substitute, InsertSection;
    TrimmedKeepsCount(section, title);
    assert InsertSection([], section) == section by { InsertIntoNothing(section); }
  }

  lemma InsertIntoNothing(section: seq<string>)
    ensures InsertSection([], section) == section
  {
  }

  /** Written back with two headings or more, the section has more of them the second time. */
  lemma SecondHeadingGrows(title: string, section: seq<string>, i: nat)
    requires section != [] && IsTarget(section[0], title) && section == Trimmed(section) + [""]
    requires 1 <= i < |section| && IsHeading(section[i])
    ensures var once := ReplaceOrInsertSection([], title, section);
      once == section && ReplaceOrInsertSection(once, title, section) != once
  {
    WrittenTwice(title, section);
    TwoHeadings(title, section, i);
    hide *;
    var replaced := Substitute(Trimmed(section), title, section, false);
    TrimmedKeepsHeadings(section);
    SubstituteAddsHeadings(Trimmed(section), title, section);
    TrimmedKeepsHeadings(replaced);
    HeadingsAppend(Trimmed(replaced), [""]);
  }

  lemma TargetIsHeading(line: string, title: string)
    requires IsTarget(line, title)
    ensures IsHeading(line)
  {
  }

  lemma HeadingCounts(doc: seq<string>)
    requires doc != [] && IsHeading(doc[0])
    ensures CountHeadings(doc) == 1 + CountHeadings(doc[1..])
  {
    hide IsHeading;
  }

  lemma TwoHeadings(title: string, section: seq<string>, i: nat)
    requires 1 <= i < |section| && IsTarget(section[0], title) && IsHeading(section[i])
    ensures CountHeadings(section) >= 2
  {
    hide *;
    TargetIsHeading(section[0], title);
    HeadingCounts(section);
    assert section[1..][i - 1] == section[i];
    SomeHeading(section[1..], i - 1);
  }

  /**
   For a section that starts with its heading and ends with one newline: replacing or inserting it is idempotent on
   every report exactly when it has no second heading.
   */
  lemma IdempotentExactlyWhen(title: string, section: seq<string>)
    requires section != [] && IsTarget(section[0], title) && section == Trimmed(section) + [""]
    ensures (forall doc: seq<string> ::
               ReplaceOrInsertSection(ReplaceOrInsertSection(doc, title, section), title, section)
               == ReplaceOrInsertSection(doc, title, section))
       <==> forall i | 1 <= i < |section| :: !IsHeading(section[i])
  {
    if i :| 1 <= i < |section| && IsHeading(section[i]) {
      SecondHeadingGrows(title, section, i);
    } else {
      forall doc: seq<string>
        ensures ReplaceOrInsertSection(ReplaceOrInsertSection(doc, title, section), title, section)
             == ReplaceOrInsertSection(doc, title, section)
      {
        ReplaceOrInsertIsIdempotent(doc, title, section);
      }
    }
  }

  /** A section that brings a second heading along piles up: replacing it again leaves that heading there once more. */
  lemma SecondHeadingsPileUp(title: string, heading: string, extra: string)
    requires IsTarget(heading, title) && RStrip(heading) == heading
    requires IsHeading(extra) && !IsTarget(extra, title) && RStrip(extra) == extra
    ensures var section := [heading, extra, ""]; var once := ReplaceOrInsertSection([], title, section);
      once == section && ReplaceOrInsertSection(once, title, section) == [heading, extra, "", extra, ""]
  {
    var section := [heading, extra, ""];
    TrimmedLineIsTheSame(extra, title);
    NoTargetInBlank(title);
    assert section == [heading, extra] + [""];
    TrimmedBlank([heading, extra], "");
    TrimmedSolid([heading], extra);
    assert [heading, extra] == [heading] + [extra];
    assert Trimmed(section) == [heading, extra];
    assert [heading, extra][1..] == [extra] && [extra][1..] == [];
    OneLine(extra, title, section, true);
    assert InsideAfter(heading, title, false);
    assert Substitute([heading, extra], title, section, false) == section + [extra];
    TrimmedSolid(section, extra);
  }

  // ---------------------------------------------------------------- the warning repair

  datatype GateIssue = GateIssue(id: string, isBlocker: bool)

  datatype RepairTask = RepairTask(id: string, issueId: string)

  datatype Target = Target(taskId: string, issueId: string)

  function TargetOf(issues: seq<GateIssue>): RepairTask -> seq<Target> {
    (task: RepairTask) =>
      if GateIssue(task.issueId, false) in issues then [Target(task.id, task.issueId)] else []
  }

  /** The tasks that follow up an issue of the gate that does not block. */
  method ReleaseRepairTargets(issues: seq<GateIssue>, tasks: seq<RepairTask>) returns (targets: seq<Target>)
    ensures targets == Collect(tasks, TargetOf(issues))
  {
    var open: set<string> := set i | 0 <= i < |issues| && !issues[i].isBlocker :: issues[i].id;
    targets := [];
    for i := 0 to |tasks|
      invariant targets == Collect(tasks[..i], TargetOf(issues))
    {
      assert tasks[..i + 1][..i] == tasks[..i];
      OpenIssue(issues, tasks[i].issueId);
      if tasks[i].issueId in open {
        targets := targets + [Target(tasks[i].id, tasks[i].issueId)];
      }
    }
    assert tasks[..|tasks|] == tasks;
  }

  lemma OpenIssue(issues: seq<GateIssue>, id: string)
    ensures GateIssue(id, false) in issues
       <==> id in set i | 0 <= i < |issues| && !issues[i].isBlocker :: issues[i].id
  {
    if i :| 0 <= i < |issues| && !issues[i].isBlocker && issues[i].id == id {
      assert issues[i] == GateIssue(id, false);
    }
  }

  datatype RepairResult = RepairResult(doc: seq<string>, changed: bool)

  function ApplyWarningRepair(doc: seq<string>, allowed: bool, targets: seq<Target>): RepairResult {
    if allowed && targets == [] then RepairResult(doc, false)
    else
      var repaired := RemoveReleaseRepairSection(doc);
      RepairResult(repaired, AsLines(repaired) != AsLines(doc))
  }

  /** With something to record the repaired report has no follow-up section, and repairing it again changes nothing. */
  lemma WarningRepairSettles(doc: seq<string>, allowed: bool, targets: seq<Target>)
    ensures var result := ApplyWarningRepair(doc, allowed, targets);
      && (!result.changed <==> AsLines(result.doc) == AsLines(doc))
      && (!allowed || targets != [] ==> CountTargets(result.doc, REPAIR_HEADING) == 0)
      && !ApplyWarningRepair(result.doc, allowed, targets).changed
  {
    if !allowed || targets != [] {
      RemovalIsExact(doc, REPAIR_HEADING);
      RemovalIsIdempotent(doc, REPAIR_HEADING);
    }
  }

  /** A task is followed up exactly when it names an issue of the gate that does not block. */
  lemma TargetsAreExact(issues: seq<GateIssue>, tasks: seq<RepairTask>, target: Target)
    ensures target in Collect(tasks, TargetOf(issues)) <==>
      && RepairTask(target.taskId, target.issueId) in tasks
      && exists i :: 0 <= i < |issues| && issues[i].id == target.issueId && !issues[i].isBlocker
  {
    CollectHas(tasks, TargetOf(issues), target);
    OpenIssue(issues, target.issueId);
    var task := RepairTask(target.taskId, target.issueId);
    if task in tasks && GateIssue(target.issueId, false) in issues { assert target in TargetOf(issues)(task); }
  }
}
