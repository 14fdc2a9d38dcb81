/**
 When the citation repair works: the exact condition, read off a report and its evidence, and the reports that fail it.

 Two things can go wrong. A repaired line can stay a strong conclusion that cites something weak. And removing the
 citations of a line can leave a heading, under which lines below turn strong that were not.
 */
module CitationRepair {
  import opened Common
  import opened Text
  import opened CitationPolicy
  import opened CitationWording
  import opened CitationLines

  // ---------------------------------------------------------------- lines that become headings

  /** What stands before the text of a heading. */
  ghost predicate IsFront(front: string) {
    var n := HashRun(front);
    1 <= n <= 4 && n < |front| && forall i | n <= i < |front| :: IsSpace(front[i])
  }

  ghost predicate IsEdged(s: string) { s != "" && !IsSpace(s[0]) && !IsSpace(s[|s| - 1]) }

  lemma {:induction false} StripFront(spaces: string, s: string)
    requires IsEdged(s) && forall i | 0 <= i < |spaces| :: IsSpace(spaces[i])
    ensures Strip(spaces + s) == s
  {
    if spaces == "" {
      assert spaces + s == s;
      TrimKeeps(s, IsSpace);
    } else {
      assert (spaces + s)[1..] == spaces[1..] + s;
      StripFront(spaces[1..], s);
    }
  }

  lemma HeadingOf(front: string, s: string)
    requires IsFront(front) && IsEdged(s)
    ensures HeadingText(front + s) == Some(s)
  {
    var n, line := HashRun(front), front + s;
    HashRunIs(front);
    HashRunOf(line, n);
    StripFront(front[n..], s);
    DropAppend(front, s, n);
    assert line[0] == '#' && line[n] == front[n];
    assert DropLeading(line, IsSpace) == line;
  }

  lemma HeadingShape(text: string) returns (front: string)
    requires Strip(text) == text && HeadingText(text).Some?
    ensures IsFront(front) && IsEdged(HeadingText(text).value) && text == front + HeadingText(text).value
  {
    StripShape(text);
    assert DropLeading(text, IsSpace) == text;
    var n := HashRun(text);
    HashRunIs(text);
    var t := text[n..];
    var from := TrimShape(t, IsSpace);
    assert t[|t| - 1] == text[|text| - 1] && t[0] == text[n];
    var h := Strip(t);
    assert from + |h| == |t|;
    front := text[..n + from];
    assert text == front + h;
    assert forall i | n <= i < n + from :: front[i] == t[i - n];
    HashRunOf(front, n);
  }

  lemma FrontIsFree(c: char, letter: char -> bool)
    requires c == '#' || IsSpace(c)
    ensures !IsLower(FoldChar(c)) && !IsWordChar(c, letter)
  {
  }

  /** Toning leaves hashes and white space in front alone. */
  lemma {:induction false} ReplaceFront(front: string, s: string, word: string, other: string, letter: char -> bool)
    requires word != "" && IsLower(word[0])
    requires forall i | 0 <= i < |front| :: front[i] == '#' || IsSpace(front[i])
    ensures Replace(front + s, word, other, letter, true) == front + Replace(s, word, other, letter, true)
  {
    if front == "" {
      assert front + s == s;
    } else {
      var c, rest := front[0], front[1..];
      FrontIsFree(c, letter);
      ReplaceFront(rest, s, word, other, letter);
      assert front == [c] + rest && (front + s)[0] == c && !WordHere(front + s, word, letter);
      hide IsSpace, IsWordChar, FoldChar, IsLower, WordHere;
      DropAppend(front, s, 1);
      AppendAssociates([c], rest, Replace(s, word, other, letter, true));
    }
  }

  lemma {:induction false} ToneFront(front: string, s: string, table: seq<(string, string)>, letter: char -> bool)
    requires Lengthens(table) && forall i | 0 <= i < |table| :: IsLower(table[i].0[0])
    requires forall i | 0 <= i < |front| :: front[i] == '#' || IsSpace(front[i])
    ensures ToneWith(front + s, table, letter) == front + ToneWith(s, table, letter)
  {
    hide IsSpace;
    if table != [] {
      var n := |table| - 1;
      ToneFront(front, s, table[..n], letter);
      ReplaceFront(front, ToneWith(s, table[..n], letter), table[n].0, table[n].1, letter);
    }
  }

  lemma TonedAreLower()
    ensures forall i | 0 <= i < |TONED| :: TONED[i].0 != "" && IsLower(TONED[i].0[0])
  {
  }

  /** A line that is toned down where removing its citations has left a heading. */
  predicate BecomesHeading(text: string, letter: char -> bool) { IsToned(text, letter) && HeadingText(text).Some? }

  /** The heading it becomes: the toned heading, with the references or the note behind it. */
  function NewHeading(text: string, ids: seq<string>, letter: char -> bool): string
    requires BecomesHeading(text, letter)
  {
    Tone(HeadingText(text).value, letter) + Behind(ids)
  }

  lemma HeadingIsNotOverall(text: string)
    requires Strip(text) == text && text != "" && text[0] == '#'
    ensures !IsOverall(text)
  {
    TextStarts(text);
    assert OVERALL[0] == 'o';
  }

  lemma TonedHeading(text: string, ids: seq<string>, letter: char -> bool)
    requires Strip(text) == text && BecomesHeading(text, letter)
    ensures HeadingText(Downgrade(text, letter) + Behind(ids)) == Some(NewHeading(text, ids, letter))
  {
    var h := HeadingText(text).value;
    var front := HeadingShape(text);
    FrontStarts(front);
    HeadingIsNotOverall(text);
    ToneChanges(text, letter);
    hide HeadingText, IsToned, IsOverall, Tone, Strip, Behind, WithoutCaveat, AfterBar;
    assert Downgrade(text, letter) == Tone(text, letter);
    TonedText(front, h, letter);
    TonedFirst(h, letter);
    BehindEnds(ids);
    NotSpace(Tone(h, letter)[0]);
    AppendAssociates(front, Tone(h, letter), Behind(ids));
    HeadingOf(front, Tone(h, letter) + Behind(ids));
  }

  lemma FrontStarts(front: string)
    requires IsFront(front)
    ensures front[0] == '#' && forall i | 0 <= i < |front| :: front[i] == '#' || IsSpace(front[i])
  {
    HashRunIs(front);
  }

  lemma TonedText(front: string, h: string, letter: char -> bool)
    requires forall i | 0 <= i < |front| :: front[i] == '#' || IsSpace(front[i])
    ensures Tone(front + h, letter) == front + Tone(h, letter)
  {
    TonedLengthens();
    TonedAreLower();
    ToneFront(front, h, TONED, letter);
  }

  lemma NotSpace(c: char)
    ensures IsLower(c) ==> !IsSpace(c)
  {
  }

  lemma HeadingOfRepaired(evidence: seq<Evidence>, line: string, letter: char -> bool)
    ensures HeadingText(RepairLine(SourceWording(letter), evidence, line))
         == if BecomesHeading(TextOf(line), letter)
            then Some(NewHeading(TextOf(line), StrongIds(evidence, 2), letter)) else None
  {
    var text, ids := TextOf(line), StrongIds(evidence, 2);
    RepairLineIs(evidence, line, letter);
    StripTwice(RStrip(WithoutCitations(line, 0)));
    BehindEnds(ids);
    hide RepairLine, Downgrade, HeadingText, IsToned, NewHeading, Strip;
    if BecomesHeading(text, letter) {
      TonedHeading(text, ids, letter);
    } else {
      RepairedIsNoHeading(text, Behind(ids), letter);
    }
  }

  /** The heading in force before line `k` once the report is repaired, read off the report as it is. */
  function HeadingAfter(lines: seq<string>, evidence: seq<Evidence>, letter: char -> bool, k: nat): string
    requires k <= |lines|
  {
    if k == 0 then ""
    else
      var line := lines[k - 1];
      if HeadingText(line).Some? then HeadingText(line).value
      else if Violates(lines, SourceWording(letter), Table(evidence), k - 1)
              && BecomesHeading(TextOf(line), letter) then
        NewHeading(TextOf(line), StrongIds(evidence, 2), letter)
      else HeadingAfter(lines, evidence, letter, k - 1)
  }

  lemma {:induction false} HeadingAfterIs(lines: seq<string>, evidence: seq<Evidence>, letter: char -> bool, k: nat)
    requires k <= |lines|
    ensures HeadingBefore(Repaired(lines, SourceWording(letter), evidence), SourceWording(letter), k)
         == HeadingAfter(lines, evidence, letter, k)
  {
    hide PolicyOf, Table, HeadingText, RepairLine, CitesWeak, StrongIds, Downgrade, TextOf, BecomesHeading, NewHeading;
    if k > 0 {
      var w := SourceWording(letter);
      HeadingAfterIs(lines, evidence, letter, k - 1);
      HeadingOfRepaired(evidence, lines[k - 1], letter);
      assert Repaired(lines, w, evidence)[k - 1] == RepairedAt(lines, w, evidence, k - 1);
    }
  }

  // ---------------------------------------------------------------- the exact condition

  /**
   A violating line survives its repair under a heading: there is strong evidence to cite, a word of its own is toned
   down, so that it gets no caveat, and leaves no heading; the line stays a strong conclusion all the same; and a
   citation that the removal leaves, or one of the references, is weak.
   */
  predicate Survives(heading: string, line: string, evidence: seq<Evidence>, letter: char -> bool) {
    var ids, text := StrongIds(evidence, 2), TextOf(line);
    && ids != [] && !IsOverall(text) && IsToned(text, letter) && HeadingText(text).None?
    && StaysStrong(heading, text, ids, letter)
    && (AnyStaysWeak(Table(evidence), Tokens(WithoutCitations(line, 0)), letter) || ReferencesAreWeak(evidence))
  }

  /** A line that is left alone is a strong conclusion under a heading, and cites something weak. */
  predicate TurnsStrong(heading: string, line: string, evidence: seq<Evidence>, letter: char -> bool) {
    HeadingText(line).None? && PolicyOf(heading, line, letter).StrongConclusion? && CitesWeak(Table(evidence), line)
  }

  /** Line `k` violates the policy after the repair, told from the report before it. */
  predicate StaysViolating(lines: seq<string>, evidence: seq<Evidence>, letter: char -> bool, k: nat)
    requires k < |lines|
  {
    var heading := HeadingAfter(lines, evidence, letter, k);
    if Violates(lines, SourceWording(letter), Table(evidence), k) then Survives(heading, lines[k], evidence, letter)
    else TurnsStrong(heading, lines[k], evidence, letter)
  }

  lemma ResidueIs(line: string, letter: char -> bool)
    ensures Residue(SourceWording(letter), line) == Downgrade(TextOf(line), letter)
  {
    DowngradeOfStripped(RStrip(WithoutCitations(line, 0)), letter);
  }

  lemma TonedResidue(line: string, letter: char -> bool)
    requires IsToned(TextOf(line), letter) && !IsOverall(TextOf(line))
    ensures Residue(SourceWording(letter), line) == Tone(TextOf(line), letter)
  {
    ResidueIs(line, letter);
    StripTwice(RStrip(WithoutCitations(line, 0)));
    ToneChanges(TextOf(line), letter);
  }

  /** A repaired line violates under a heading exactly when it survives. */
  lemma SurvivesExactlyWhen(heading: string, line: string, evidence: seq<Evidence>, letter: char -> bool)
    ensures var w := SourceWording(letter);
      var repaired := RepairLine(w, evidence, line);
      Survives(heading, line, evidence, letter)
      <==> w.heading(repaired).None? && w.policy(heading, repaired).StrongConclusion?
           && (CitesWeak(Table(evidence), Residue(w, line)) || ReferencesAreWeak(evidence))
  {
    var text, ids := TextOf(line), StrongIds(evidence, 2);
    RepairLineIs(evidence, line, letter);
    HeadingOfRepaired(evidence, line, letter);
    StripTwice(RStrip(WithoutCitations(line, 0)));
    hide RepairLine, HeadingText, PolicyOf, Downgrade, StaysStrong, IsToned, IsOverall, Residue, CitesWeak, Strip;
    hide RStrip;
    hide WithoutCitations, Tokens, AnyStaysWeak, ReferencesAreWeak, StrongIds, NewHeading, Behind;
    RepairedIsStrongExactlyWhen(heading, text, ids, letter);
    WeakCitationsThatStay(Table(evidence), line, letter);
    if IsToned(text, letter) && !IsOverall(text) { TonedResidue(line, letter); }
  }

  lemma StaysViolatingIs(lines: seq<string>, evidence: seq<Evidence>, letter: char -> bool, k: nat)
    requires k < |lines|
    ensures var w := SourceWording(letter);
      Violates(Repaired(lines, w, evidence), w, Table(evidence), k) <==> StaysViolating(lines, evidence, letter, k)
  {
    var w := SourceWording(letter);
    ViolatesAfterRepair(lines, w, evidence, k);
    HeadingAfterIs(lines, evidence, letter, k);
    hide Survives, RepairLine, Table, CitesWeak, Residue, ReferencesAreWeak, HeadingAfter, HeadingBefore, PolicyOf;
    hide Repaired, Violates;
    SurvivesExactlyWhen(HeadingAfter(lines, evidence, letter, k), lines[k], evidence, letter);
  }

  /**
   Exactly when the repair works, for every report: it leaves no violation if and only if no violating line survives and
   no other line turns strong, both under the headings in force after it. Then repairing again changes nothing.
   */
  lemma RepairWorksExactlyWhen(lines: seq<string>, evidence: seq<Evidence>, letter: char -> bool)
    ensures var w := SourceWording(letter);
      var repaired := Repaired(lines, w, evidence);
      && (Violations(repaired, w, Table(evidence), |lines|) == []
          <==> forall k | 0 <= k < |lines| :: !StaysViolating(lines, evidence, letter, k))
      && (Violations(repaired, w, Table(evidence), |lines|) == [] ==> Repaired(repaired, w, evidence) == repaired)
  {
    var w, table := SourceWording(letter), Table(evidence);
    var repaired := Repaired(lines, w, evidence);
    var left := Violations(repaired, w, table, |lines|);
    ViolationsAreExact(repaired, w, table, |lines|);
    hide Violates, StaysViolating, Table, Repaired, Violations;
    forall k: nat | k < |lines|
      ensures StaysViolating(lines, evidence, letter, k) <==> k in left
    {
      StaysViolatingIs(lines, evidence, letter, k);
    }
    if left == [] {
      CleanRepairIsFixpoint(lines, w, evidence);
    } else {
      assert left[0] in left;
    }
  }

  // ---------------------------------------------------------------- a sufficient condition

  lemma {:induction false} HeadingsStay(lines: seq<string>, evidence: seq<Evidence>, letter: char -> bool, k: nat)
    requires k <= |lines|
    requires forall i | 0 <= i < |lines| && Violates(lines, SourceWording(letter), Table(evidence), i) ::
      !BecomesHeading(TextOf(lines[i]), letter)
    ensures HeadingAfter(lines, evidence, letter, k) == HeadingBefore(lines, SourceWording(letter), k)
  {
    hide PolicyOf, Table, CitesWeak, TextOf, BecomesHeading, NewHeading, HeadingText;
    if k > 0 { HeadingsStay(lines, evidence, letter, k - 1); }
  }

  /** A line under an unchanged heading does not turn strong. */
  lemma UnchangedDoesNotTurn(lines: seq<string>, evidence: seq<Evidence>, letter: char -> bool, k: nat)
    requires k < |lines| && !Violates(lines, SourceWording(letter), Table(evidence), k)
    ensures !TurnsStrong(HeadingBefore(lines, SourceWording(letter), k), lines[k], evidence, letter)
  {
    var w := SourceWording(letter);
    assert w.policy(HeadingBefore(lines, w, k), lines[k]) == PolicyOf(HeadingBefore(lines, w, k), lines[k], letter);
  }

  /**
   What a report can be checked for beforehand: evidence that shares a token has one strength, its ids are well-formed,
   and in no violating line does the removal leave a weak citation, or a heading that is toned down.
   */
  lemma RepairWorks(lines: seq<string>, evidence: seq<Evidence>, letter: char -> bool)
    requires Uniform(evidence)
    requires forall e | e in evidence && e.strong && ReportId(e) != "" :: IsToken(ReportId(e))
    requires forall k | 0 <= k < |lines| && Violates(lines, SourceWording(letter), Table(evidence), k) ::
      && !BecomesHeading(TextOf(lines[k]), letter)
      && !AnyStaysWeak(Table(evidence), Tokens(WithoutCitations(lines[k], 0)), letter)
    ensures var w := SourceWording(letter);
      var repaired := Repaired(lines, w, evidence);
      Violations(repaired, w, Table(evidence), |lines|) == [] && Repaired(repaired, w, evidence) == repaired
  {
    RepairWorksExactlyWhen(lines, evidence, letter);
    AttachedReferencesAreStrong(evidence);
    hide Violates, AnyStaysWeak, BecomesHeading, Table, HeadingAfter, HeadingBefore, TurnsStrong, ReferencesAreWeak;
    hide StaysStrong, TextOf, Violations, Repaired, Uniform, StrongIds, IsOverall, IsToned, HeadingText, Tokens;
    forall k: nat | k < |lines|
      ensures !StaysViolating(lines, evidence, letter, k)
    {
      HeadingsStay(lines, evidence, letter, k);
      if !Violates(lines, SourceWording(letter), Table(evidence), k) {
        UnchangedDoesNotTurn(lines, evidence, letter, k);
      }
    }
  }

  // ---------------------------------------------------------------- without strong evidence

  /** `end` stands at the end of the text, behind a space. */
  ghost predicate EndsIn(s: string, end: string) {
    exists front :: front != "" && front[|front| - 1] == ' ' && s == front + end
  }

  /** A heading that came out of a repaired line ends in the note, and so has the word `caveat`. */
  ghost predicate IsNoted(heading: string) { EndsIn(heading, "caveat" + NOTE_REST) }

  lemma NotedIsQualitative(heading: string, text: string, letter: char -> bool)
    requires IsNoted(heading)
    ensures IsQualitative(heading + " " + text, letter)
  {
    var front :| front != "" && front[|front| - 1] == ' ' && heading == front + ("caveat" + NOTE_REST);
    NoteShape();
    var rest := NOTE_REST + (" " + text);
    assert rest[0] == NOTE_REST[0];
    assert heading + " " + text == front + ("caveat" + rest);
    CaveatIsQualitative(front, rest, letter);
  }

  lemma EndsBehind(front: string, a: string, b: string)
    requires a != "" && a[|a| - 1] == ' '
    ensures EndsIn(front + (a + b), b)
  {
    AppendAssociates(front, a, b);
    assert (front + a)[|front + a| - 1] == ' ';
  }

  lemma NewHeadingIsNoted(text: string, letter: char -> bool)
    requires BecomesHeading(text, letter)
    ensures IsNoted(NewHeading(text, [], letter))
  {
    NoteShape();
    EndsBehind(Tone(HeadingText(text).value, letter), NOTE_FRONT, "caveat" + NOTE_REST);
  }

  lemma ViolatingIsNoAppendix(lines: seq<string>, evidence: seq<Evidence>, letter: char -> bool, k: nat)
    requires k < |lines| && Violates(lines, SourceWording(letter), Table(evidence), k)
    ensures !IsAppendix(HeadingBefore(lines, SourceWording(letter), k), letter)
  {
    var w := SourceWording(letter);
    assert w.policy(HeadingBefore(lines, w, k), lines[k]) == PolicyOf(HeadingBefore(lines, w, k), lines[k], letter);
  }

  /** A heading that the repair makes is noted, and the one it covers is no appendix. */
  lemma {:induction false} NewHeadingsAreNoted(lines: seq<string>, evidence: seq<Evidence>, letter: char -> bool,
                                               k: nat)
    requires StrongIds(evidence, 2) == [] && k <= |lines|
    ensures var before := HeadingBefore(lines, SourceWording(letter), k);
      var after := HeadingAfter(lines, evidence, letter, k);
      after == before || (IsNoted(after) && !IsAppendix(before, letter))
  {
    hide IsAppendix, PolicyOf, IsNoted, Table, HeadingText, CitesWeak, StrongIds, TextOf, NewHeading, BecomesHeading;
    if k > 0 {
      NewHeadingsAreNoted(lines, evidence, letter, k - 1);
      if Violates(lines, SourceWording(letter), Table(evidence), k - 1) {
        ViolatingIsNoAppendix(lines, evidence, letter, k - 1);
        if BecomesHeading(TextOf(lines[k - 1]), letter) { NewHeadingIsNoted(TextOf(lines[k - 1]), letter); }
      }
    }
  }

  /** The line begins with the words of the overall confidence, but as part of a longer word. */
  predicate RunsOn(line: string, letter: char -> bool) {
    IsOverall(line) && !WordHere(Strip(line), OVERALL, letter)
  }

  lemma OverallIsStrong(heading: string, text: string, letter: char -> bool)
    requires WordHere(text, OVERALL, letter)
    ensures IsStrong(heading + " " + text, letter)
  {
    FindsBehind(heading + " ", text, Word(OVERALL, letter), letter, true);
    assert STRONG_WORDS[0] == OVERALL;
  }

  /** Under a noted heading a line is strong only if it was so before, unless it runs on. */
  lemma NotedHeadingWeakens(before: string, after: string, line: string, letter: char -> bool)
    requires IsNoted(after) && !IsAppendix(before, letter) && !RunsOn(line, letter)
    requires PolicyOf(after, line, letter).StrongConclusion?
    ensures PolicyOf(before, line, letter).StrongConclusion?
  {
    NotedIsQualitative(after, Strip(line), letter);
    StripTwice(line);
    assert IsOverall(Strip(line)) && IsOverall(line);
    OverallIsStrong(before, Strip(line), letter);
  }

  /**
   Without strong evidence no repaired line violates, however its citations are spelled, and a line that was left alone
   violates only if a repaired line has become its heading and it begins with the overall confidence as part of a
   longer word.
   */
  lemma OnlyRunOnLinesViolate(lines: seq<string>, evidence: seq<Evidence>, letter: char -> bool, k: nat)
    requires StrongIds(evidence, 2) == [] && k < |lines|
    ensures StaysViolating(lines, evidence, letter, k)
       <==> !Violates(lines, SourceWording(letter), Table(evidence), k)
            && RunsOn(lines[k], letter) && IsNoted(HeadingAfter(lines, evidence, letter, k))
            && TurnsStrong(HeadingAfter(lines, evidence, letter, k), lines[k], evidence, letter)
  {
    var before, after := HeadingBefore(lines, SourceWording(letter), k), HeadingAfter(lines, evidence, letter, k);
    hide IsAppendix, PolicyOf, IsNoted, Table, HeadingText, CitesWeak, TextOf, RunsOn, HeadingAfter, HeadingBefore;
    if !Violates(lines, SourceWording(letter), Table(evidence), k) {
      NewHeadingsAreNoted(lines, evidence, letter, k);
      UnchangedDoesNotTurn(lines, evidence, letter, k);
      if TurnsStrong(after, lines[k], evidence, letter) && !RunsOn(lines[k], letter) {
        NotedHeadingWeakens(before, after, lines[k], letter);
      }
    }
  }

  /**
   Exactly when the repair works without strong evidence: if no line that runs on turns strong under its new heading. So
   it does for every report without such lines, and then it is a fixpoint.
   */
  lemma CleanWithoutStrongEvidence(lines: seq<string>, evidence: seq<Evidence>, letter: char -> bool)
    requires StrongIds(evidence, 2) == []
    ensures var w := SourceWording(letter);
      Violations(Repaired(lines, w, evidence), w, Table(evidence), |lines|) == []
      <==> forall k | 0 <= k < |lines| && RunsOn(lines[k], letter) ::
             Violates(lines, w, Table(evidence), k)
             || !TurnsStrong(HeadingAfter(lines, evidence, letter, k), lines[k], evidence, letter)
    ensures (forall k | 0 <= k < |lines| :: !RunsOn(lines[k], letter)) ==>
      var repaired := Repaired(lines, SourceWording(letter), evidence);
      && Violations(repaired, SourceWording(letter), Table(evidence), |lines|) == []
      && Repaired(repaired, SourceWording(letter), evidence) == repaired
  {
    RepairWorksExactlyWhen(lines, evidence, letter);
    hide Violates, Table, RunsOn, Repaired, StrongIds, Violations, TurnsStrong, HeadingAfter, IsNoted;
    forall k: nat | k < |lines|
      ensures StaysViolating(lines, evidence, letter, k)
         <==> RunsOn(lines[k], letter) && !Violates(lines, SourceWording(letter), Table(evidence), k)
              && TurnsStrong(HeadingAfter(lines, evidence, letter, k), lines[k], evidence, letter)
    {
      OnlyRunOnLinesViolate(lines, evidence, letter, k);
    }
  }
}
