/**
 The wording rules behind the citation policy, pattern by pattern: which lines are headings, which state a strong
 conclusion, and how the repair tones a line down; and under which policy a repaired line falls.

 Word characters beyond ASCII are those of `letter` and the four that ignoring case adds to the letters; the two
 lenticular brackets and white space are none.
 */
module CitationWording {
  import opened Common
  import opened Text
  import opened CitationPolicy

  // ---------------------------------------------------------------- searching for words

  predicate IsWordChar(c: char, letter: char -> bool) {
    || IsLower(FoldChar(c)) || IsDigit(c) || c == '_'
    || (c >= '\U{80}' && c != '\U{3010}' && c != '\U{3011}' && !IsSpace(c) && letter(c))
  }

  /** The lower-case letter a character stands for when case is ignored. */
  function FoldChar(c: char): char {
    if c == '\U{17F}' then 's'
    else if c == '\U{212A}' then 'k'
    else if c == '\U{130}' || c == '\U{131}' then 'i'
    else LowerChar(c)
  }

  predicate StartsWith(s: string, word: string) {
    |word| <= |s| && forall i | 0 <= i < |word| :: FoldChar(s[i]) == word[i]
  }

  /** The word or phrase stands here and ends here. */
  predicate WordHere(s: string, word: string, letter: char -> bool) {
    StartsWith(s, word) && (|s| == |word| || !IsWordChar(s[|word|], letter))
  }

  function Word(word: string, letter: char -> bool): string -> bool { s => WordHere(s, word, letter) }

  /** `here` holds at some position behind a character that is not part of a word; `free` says so of the first. */
  predicate Finds(s: string, here: string -> bool, letter: char -> bool, free: bool) {
    s != "" && ((free && here(s)) || Finds(s[1..], here, letter, !IsWordChar(s[0], letter)))
  }

  predicate FindsAny(s: string, words: seq<string>, letter: char -> bool) {
    exists i | 0 <= i < |words| :: Finds(s, Word(words[i], letter), letter, true)
  }

  /** The phrase stands somewhere, inside words or not. */
  predicate Contains(s: string, phrase: string) {
    StartsWith(s, phrase) || (s != "" && Contains(s[1..], phrase))
  }

  predicate ContainsAny(s: string, phrases: seq<string>) {
    exists i | 0 <= i < |phrases| :: Contains(s, phrases[i])
  }

  /** `first`, any white space, `second`. */
  predicate SpacedHere(s: string, first: string, second: string) {
    StartsWith(s, first) && StartsWith(DropLeading(s[|first|..], IsSpace), second)
  }

  predicate ContainsSpaced(s: string, first: string, second: string) {
    SpacedHere(s, first, second) || (s != "" && ContainsSpaced(s[1..], first, second))
  }

  // ---------------------------------------------------------------- the patterns

  const QUALITATIVE_WORDS := [
    "caveat", "risk", "persona", "user research", "buyer research", "validation plan", "verification plan",
    "evidence gap", "limitation", "limitations"]

  const QUALITATIVE_PHRASES := [
    "证据缺口", "验证计划", "下一步采集",
    "采集与验证", "风险", "用户研究",
    "用户评价", "置信度说明", "声明校验",
    "证据风险"]

  predicate IsQualitative(s: string, letter: char -> bool) {
    FindsAny(s, QUALITATIVE_WORDS, letter) || ContainsAny(s, QUALITATIVE_PHRASES)
  }

  const APPENDIX_WORDS := [
    "appendix", "source quality", "source coverage", "release gate", "qa", "claim validation"]

  const APPENDIX_PHRASES := [
    "附录", "来源质量", "来源覆盖",
    "证据支撑", "声明校验", "证据风险",
    "用户研究证据"]

  predicate IsAppendix(heading: string, letter: char -> bool) {
    || FindsAny(heading, APPENDIX_WORDS, letter) || ContainsAny(heading, APPENDIX_PHRASES)
    || ContainsSpaced(heading, "证据与", "qa") || ContainsSpaced(heading, "场景", "qa")
    || ContainsSpaced(heading, "rag", "缺口")
  }

  const STRONG_WORDS := [
    "overall confidence", "winner", "leading option", "best option", "safer", "safest", "recommended",
    "recommendation", "executive recommendation", "executive summary", "dimension winner", "ip indemnity", "sso",
    "saml", "scim", "audit log", "pricing transparency"]

  /** The phrase `first`, white space, an optional slash if `slash` allows one, white space, and `second`. */
  predicate CodeHere(s: string, first: string, slash: bool, second: string, letter: char -> bool) {
    StartsWith(s, first) &&
    var rest := DropLeading(s[|first|..], IsSpace);
    WordHere(if slash && rest != "" && rest[0] == '/' then DropLeading(rest[1..], IsSpace) else rest, second, letter)
  }

  function Code(first: string, slash: bool, second: string, letter: char -> bool): string -> bool {
    s => CodeHere(s, first, slash, second, letter)
  }

  predicate IsStrong(s: string, letter: char -> bool) {
    || FindsAny(s, STRONG_WORDS, letter)
    || Finds(s, Code("soc", false, "2", letter), letter, true)
    || Finds(s, Code("iso", true, "iec", letter), letter, true)
  }

  const AXIS_WORDS := ["pricing", "price", "feature", "capability", "tier", "plan"]

  const OVERALL := "overall confidence"

  predicate LowerStarts(s: string, prefix: string) {
    |prefix| <= |s| && forall i | 0 <= i < |prefix| :: LowerChar(s[i]) == prefix[i]
  }

  predicate IsOverall(line: string) { LowerStarts(Strip(line), OVERALL) }

  /** The policy of a line under a heading. */
  function PolicyOf(heading: string, line: string, letter: char -> bool): Policy {
    var text := Strip(line);
    var combined := heading + " " + text;
    if text == "" then AuditAppendix
    else if IsAppendix(heading, letter) then AuditAppendix
    else if IsQualitative(combined, letter) && !IsOverall(text) then QualitativeSignal
    else if IsStrong(combined, letter) then StrongConclusion
    else if FindsAny(combined, AXIS_WORDS, letter) then FactualComparison
    else AuditAppendix
  }

  function HashRun(s: string): nat { if s != "" && s[0] == '#' then 1 + HashRun(s[1..]) else 0 }

  /** One to four hashes, white space, and something. */
  function HeadingText(line: string): Option<string> {
    var s := DropLeading(line, IsSpace);
    var n := HashRun(s);
    if 1 <= n <= 4 && n + 2 <= |s| && IsSpace(s[n]) then Some(Strip(s[n..])) else None
  }

  // ---------------------------------------------------------------- toning a line down

  /** Every occurrence of the word or phrase, replaced. */
  function Replace(s: string, word: string, other: string, letter: char -> bool, free: bool): string
    requires word != ""
    decreases |s|
  {
    if s == "" then ""
    else if free && WordHere(s, word, letter) then other + Replace(s[|word|..], word, other, letter, false)
    else [s[0]] + Replace(s[1..], word, other, letter, !IsWordChar(s[0], letter))
  }

  const TONED: seq<(string, string)> := [
    ("recommended", "tentatively suggested"), ("recommendation", "draft recommendation"),
    ("winner", "current evidence leader"), ("leading option", "current evidence leader"),
    ("best option", "current evidence leader"), ("safer", "lower-observed-risk"), ("safest", "lowest-observed-risk")]

  /** Every entry replaces a phrase by a longer one. */
  ghost predicate Lengthens(table: seq<(string, string)>) {
    forall i | 0 <= i < |table| :: 0 < |table[i].0| < |table[i].1|
  }

  function ToneWith(s: string, table: seq<(string, string)>, letter: char -> bool): string
    requires Lengthens(table)
  {
    if table == [] then s
    else
      var last := table[|table| - 1];
      Replace(ToneWith(s, table[..|table| - 1], letter), last.0, last.1, letter, true)
  }

  lemma TonedLengthens()
    ensures Lengthens(TONED)
  {
  }

  function Tone(s: string, letter: char -> bool): string {
    TonedLengthens();
    ToneWith(s, TONED, letter)
  }

  predicate FindsFrom(s: string, table: seq<(string, string)>, letter: char -> bool) {
    exists i | 0 <= i < |table| :: Finds(s, Word(table[i].0, letter), letter, true)
  }

  /** The line has a word or phrase that is toned down. */
  predicate IsToned(s: string, letter: char -> bool) { FindsFrom(s, TONED, letter) }

  function AfterBar(s: string): string { if s == "" then "" else if s[0] == '|' then s[1..] else AfterBar(s[1..]) }

  function WithoutCaveat(s: string): string {
    if StartsWith(s, "caveat:") then DropLeading(s[7..], IsSpace) else s
  }

  const EVIDENCE_CAVEAT := "Evidence caveat: "
  const DRAFT_CAVEAT := "Draft caveat: "

  /** A line with a toned-down wording, or else marked as a caveat. */
  function Downgrade(line: string, letter: char -> bool): string {
    var s := Strip(line);
    if IsOverall(s) then
      var remainder := Strip(AfterBar(s));
      EVIDENCE_CAVEAT + WithoutCaveat(if remainder != "" then remainder else s)
    else if Tone(s, letter) == s then DRAFT_CAVEAT + s
    else Tone(s, letter)
  }

  function SourceWording(letter: char -> bool): Wording {
    Wording((heading, line) => PolicyOf(heading, line, letter), HeadingText, line => Downgrade(line, letter))
  }

  // ---------------------------------------------------------------- a line is toned down when it has such a word

  lemma {:induction false} ReplaceGrows(s: string, word: string, other: string, letter: char -> bool, free: bool)
    requires 0 < |word| < |other|
    ensures |Replace(s, word, other, letter, free)| >= |s|
    ensures Finds(s, Word(word, letter), letter, free) ==> |Replace(s, word, other, letter, free)| > |s|
    ensures !Finds(s, Word(word, letter), letter, free) ==> Replace(s, word, other, letter, free) == s
    decreases |s|
  {
    if s != "" {
      if free && WordHere(s, word, letter) {
        ReplaceGrows(s[|word|..], word, other, letter, false);
      } else {
        ReplaceGrows(s[1..], word, other, letter, !IsWordChar(s[0], letter));
        assert [s[0]] + s[1..] == s;
      }
    }
  }

  lemma {:induction false} ToneGrows(s: string, table: seq<(string, string)>, letter: char -> bool)
    requires Lengthens(table)
    ensures |ToneWith(s, table, letter)| >= |s|
    ensures FindsFrom(s, table, letter) ==> |ToneWith(s, table, letter)| > |s|
    ensures !FindsFrom(s, table, letter) ==> ToneWith(s, table, letter) == s
  {
    if table != [] {
      var n := |table| - 1;
      ToneGrows(s, table[..n], letter);
      ReplaceGrows(ToneWith(s, table[..n], letter), table[n].0, table[n].1, letter, true);
      assert FindsFrom(s, table, letter) <==>
        FindsFrom(s, table[..n], letter) || Finds(s, Word(table[n].0, letter), letter, true);
    }
  }

  /** Toning changes a line exactly when it finds one of its words. */
  lemma ToneChanges(s: string, letter: char -> bool)
    ensures Tone(s, letter) != s <==> IsToned(s, letter)
  {
    TonedLengthens();
    ToneGrows(s, TONED, letter);
  }

  // ---------------------------------------------------------------- a caveat is no strong conclusion

  /** What is found behind a piece of text that ends a word is found in the whole. */
  lemma {:induction false} FindsBehind(front: string, s: string, here: string -> bool, letter: char -> bool, free: bool)
    requires front != "" && !IsWordChar(front[|front| - 1], letter) && Finds(s, here, letter, true)
    ensures Finds(front + s, here, letter, free)
    decreases |front|
  {
    var next := !IsWordChar(front[0], letter);
    assert (front + s)[1..] == front[1..] + s;
    if |front| == 1 {
      assert front[1..] + s == s;
    } else {
      FindsBehind(front[1..], s, here, letter, next);
    }
  }

  lemma CaveatHere(rest: string, letter: char -> bool)
    requires rest != "" && !IsWordChar(rest[0], letter)
    ensures Finds("caveat" + rest, Word("caveat", letter), letter, true)
  {
    assert forall i | 0 <= i < 6 :: FoldChar(("caveat" + rest)[i]) == "caveat"[i];
  }

  /** The word `caveat`, wherever it stands, makes a text qualitative. */
  lemma CaveatIsQualitative(front: string, rest: string, letter: char -> bool)
    requires front != "" && !IsWordChar(front[|front| - 1], letter)
    requires rest != "" && !IsWordChar(rest[0], letter)
    ensures IsQualitative(front + ("caveat" + rest), letter)
  {
    CaveatHere(rest, letter);
    FindsBehind(front, "caveat" + rest, Word("caveat", letter), letter, true);
    assert QUALITATIVE_WORDS[0] == "caveat";
  }

  /** So no line with that word is a strong conclusion, unless it begins with the overall confidence. */
  lemma CaveatIsNotStrong(heading: string, front: string, rest: string, letter: char -> bool)
    requires front != "" && !IsWordChar(front[|front| - 1], letter)
    requires rest != "" && !IsWordChar(rest[0], letter)
    requires Strip(front + ("caveat" + rest)) == front + ("caveat" + rest) && !IsOverall(front + ("caveat" + rest))
    ensures !PolicyOf(heading, front + ("caveat" + rest), letter).StrongConclusion?
  {
    var line := front + ("caveat" + rest);
    CaveatIsQualitative(heading + " " + front, rest, letter);
    assert heading + " " + line == heading + " " + front + ("caveat" + rest);
  }

  // ---------------------------------------------------------------- toning never makes an overall confidence

  /** At no place in the overall confidence does the replacement fit. */
  ghost predicate Clashes(other: string) {
    |other| >= 2 && forall j | 0 <= j < |OVERALL| ::
      LowerChar(other[0]) != OVERALL[j] || (j + 1 < |OVERALL| && LowerChar(other[1]) != OVERALL[j + 1])
  }

  lemma ReplacementsClash()
    ensures forall i | 0 <= i < |TONED| :: Clashes(TONED[i].1)
  {
    assert TONED[0].1[..2] == "te" && TONED[1].1[..2] == "dr" && TONED[2].1[..2] == "cu" && TONED[3].1[..2] == "cu";
    assert TONED[4].1[..2] == "cu" && TONED[5].1[..2] == "lo" && TONED[6].1[..2] == "lo";
  }

  lemma ReplacementBlocks(other: string, rest: string, behind: string, j: nat)
    requires Clashes(other) && j < |OVERALL|
    ensures !LowerStarts(other + rest + behind, OVERALL[j..])
  {
    var s, target := other + rest + behind, OVERALL[j..];
    assert s[0] == other[0] && s[1] == other[1] && target[0] == OVERALL[j];
    assert j + 1 < |OVERALL| ==> target[1] == OVERALL[j + 1];
  }

  lemma {:induction false} ReplaceKeepsStart(s: string, word: string, other: string, letter: char -> bool, free: bool,
                                             behind: string, j: nat)
    requires word != "" && Clashes(other) && j <= |OVERALL|
    requires LowerStarts(Replace(s, word, other, letter, free) + behind, OVERALL[j..])
    ensures LowerStarts(s + behind, OVERALL[j..])
    decreases |s|
  {
    hide IsWordChar, FoldChar, LowerChar;
    var replaced := Replace(s, word, other, letter, free);
    if s != "" && j < |OVERALL| {
      hide LowerStarts, Clashes;
      if free && WordHere(s, word, letter) {
        ReplacementBlocks(other, Replace(s[|word|..], word, other, letter, false), behind, j);
      } else {
        var rest := Replace(s[1..], word, other, letter, !IsWordChar(s[0], letter));
        assert replaced + behind == [s[0]] + (rest + behind);
        DropFirst(s[0], rest + behind, j);
        ReplaceKeepsStart(s[1..], word, other, letter, !IsWordChar(s[0], letter), behind, j + 1);
        assert s + behind == [s[0]] + (s[1..] + behind);
        DropFirst(s[0], s[1..] + behind, j);
      }
    }
  }

  lemma DropFirst(c: char, s: string, j: nat)
    requires j < |OVERALL|
    ensures LowerStarts([c] + s, OVERALL[j..]) <==> LowerChar(c) == OVERALL[j] && LowerStarts(s, OVERALL[j + 1..])
  {
    var target := OVERALL[j..];
    assert target == [OVERALL[j]] + OVERALL[j + 1..];
    ConsStarts(c, s, OVERALL[j], OVERALL[j + 1..]);
  }

  lemma ConsStarts(c: char, s: string, d: char, prefix: string)
    ensures LowerStarts([c] + s, [d] + prefix) <==> LowerChar(c) == d && LowerStarts(s, prefix)
  {
    var t, q := [c] + s, [d] + prefix;
    if LowerStarts(t, q) {
      assert LowerChar(t[0]) == q[0];
      forall i | 0 <= i < |prefix|
        ensures LowerChar(s[i]) == prefix[i]
      {
        assert t[i + 1] == s[i] && q[i + 1] == prefix[i];
      }
    }
  }

  lemma {:induction false} ToneKeepsStart(s: string, table: seq<(string, string)>, letter: char -> bool, behind: string)
    requires Lengthens(table) && forall i | 0 <= i < |table| :: Clashes(table[i].1)
    requires LowerStarts(ToneWith(s, table, letter) + behind, OVERALL)
    ensures LowerStarts(s + behind, OVERALL)
  {
    assert OVERALL[0..] == OVERALL;
    if table != [] {
      var n := |table| - 1;
      ReplaceKeepsStart(ToneWith(s, table[..n], letter), table[n].0, table[n].1, letter, true, behind, 0);
      ToneKeepsStart(s, table[..n], letter, behind);
    }
  }

  /** A piece of text that the repair appends, which the overall confidence cannot run into. */
  predicate IsAppended(behind: string) {
    |behind| >= 2 && behind[0] == ' ' && LowerChar(behind[1]) != 'c'
  }

  lemma TonedIsNotOverall(s: string, letter: char -> bool, behind: string)
    requires !LowerStarts(s, OVERALL) && IsAppended(behind)
    ensures !LowerStarts(Tone(s, letter) + behind, OVERALL)
  {
    if LowerStarts(Tone(s, letter) + behind, OVERALL) {
      TonedLengthens();
      ReplacementsClash();
      ToneKeepsStart(s, TONED, letter, behind);
      RunsInto(s, behind);
    }
  }

  lemma RunsInto(s: string, behind: string)
    requires LowerStarts(s + behind, OVERALL) && IsAppended(behind)
    ensures LowerStarts(s, OVERALL)
  {
    if |s| < |OVERALL| {
      TooShort(s, behind);
    } else {
      assert forall i | 0 <= i < |OVERALL| :: (s + behind)[i] == s[i];
    }
  }

  lemma TooShort(s: string, behind: string)
    requires |s| < |OVERALL| && IsAppended(behind)
    ensures !LowerStarts(s + behind, OVERALL)
  {
    assert (s + behind)[|s|] == ' ' && (s + behind)[|s| + 1] == behind[1];
    assert OVERALL[8] == 'c' && forall n | 0 <= n < |OVERALL| && OVERALL[n] == ' ' :: n == 7;
  }

  // ---------------------------------------------------------------- repaired lines

  /** What is left of a line once its plain citations are removed. */
  function TextOf(line: string): string { Strip(RStrip(WithoutCitations(line, 0))) }

  lemma StripShape(s: string)
    ensures Strip(Strip(s)) == Strip(s)
    ensures Strip(s) != "" ==> !IsSpace(Strip(s)[0]) && !IsSpace(Strip(s)[|Strip(s)| - 1])
  {
    StripTwice(s);
    var from := TrimShape(s, IsSpace);
  }

  lemma {:induction false} ReplaceFirst(s: string, word: string, other: string, letter: char -> bool)
    requires word != "" && other != "" && s != ""
    ensures Replace(s, word, other, letter, true) != ""
    ensures Replace(s, word, other, letter, true)[0] == s[0] || Replace(s, word, other, letter, true)[0] == other[0]
  {
  }

  lemma {:induction false} ToneFirst(s: string, table: seq<(string, string)>, letter: char -> bool)
    requires Lengthens(table) && s != ""
    ensures ToneWith(s, table, letter) != ""
    ensures var toned := ToneWith(s, table, letter);
      toned[0] == s[0] || exists i | 0 <= i < |table| :: toned[0] == table[i].1[0]
  {
    if table != [] {
      var n := |table| - 1;
      ToneFirst(s, table[..n], letter);
      ReplaceFirst(ToneWith(s, table[..n], letter), table[n].0, table[n].1, letter);
    }
  }

  /** A toned line begins as it did or with a letter. */
  lemma TonedFirst(s: string, letter: char -> bool)
    requires s != ""
    ensures Tone(s, letter) != "" && (Tone(s, letter)[0] == s[0] || IsLower(Tone(s, letter)[0]))
  {
    TonedLengthens();
    ToneFirst(s, TONED, letter);
    assert forall i | 0 <= i < |TONED| :: IsLower(TONED[i].1[0]);
  }

  /** A repaired line does not begin with white space, and not with a hash unless its text does. */
  lemma DowngradeFirst(text: string, letter: char -> bool)
    requires Strip(text) == text
    ensures var d := Downgrade(text, letter);
      d != "" && !IsSpace(d[0]) && (d[0] == '#' ==> text != "" && text[0] == '#')
  {
    StripShape(text);
    ToneChanges(text, letter);
    if IsToned(text, letter) {
      if text == "" { NothingToTone(letter); } else { TonedFirst(text, letter); }
    }
  }

  lemma NothingToTone(letter: char -> bool)
    ensures !IsToned("", letter)
  {
  }

  lemma DowngradeOfStripped(line: string, letter: char -> bool)
    ensures Downgrade(line, letter) == Downgrade(Strip(line), letter)
  {
    StripTwice(line);
  }

  /** With its end behind it the repaired line has no white space around it. */
  lemma RepairedIsStripped(text: string, behind: string, letter: char -> bool)
    requires Strip(text) == text && behind != "" && !IsSpace(behind[|behind| - 1])
    ensures Strip(Downgrade(text, letter) + behind) == Downgrade(text, letter) + behind
  {
    DowngradeFirst(text, letter);
    TrimKeeps(Downgrade(text, letter) + behind, IsSpace);
  }

  lemma MarkedIsNotStrong(heading: string, front: string, tail: string, letter: char -> bool)
    requires |front| >= 2 && front[|front| - 1] == ' ' && LowerChar(front[0]) != 'o'
    requires Strip(front + ("caveat" + (": " + tail))) == front + ("caveat" + (": " + tail))
    ensures !PolicyOf(heading, front + ("caveat" + (": " + tail)), letter).StrongConclusion?
  {
    hide PolicyOf, Trim;
    assert (front + ("caveat" + (": " + tail)))[0] == front[0] && OVERALL[0] == 'o';
    CaveatIsNotStrong(heading, front, ": " + tail, letter);
  }

  lemma Regroup(front: string, rest: string)
    ensures front + "caveat" + ": " + rest == front + ("caveat" + (": " + rest))
  {
  }

  lemma CaveatMarks()
    ensures EVIDENCE_CAVEAT == "Evidence " + "caveat" + ": " && DRAFT_CAVEAT == "Draft " + "caveat" + ": "
  {
  }

  /** A repaired line has the word `caveat` unless a word of it is toned down. */
  lemma UntonedIsNotStrong(heading: string, text: string, behind: string, letter: char -> bool)
    requires Strip(text) == text && behind != "" && !IsSpace(behind[|behind| - 1])
    requires IsOverall(text) || !IsToned(text, letter)
    ensures !PolicyOf(heading, Downgrade(text, letter) + behind, letter).StrongConclusion?
  {
    RepairedIsStripped(text, behind, letter);
    ToneChanges(text, letter);
    hide PolicyOf, Tone, IsToned, IsOverall, Trim, WithoutCaveat;
    CaveatMarks();
    if IsOverall(text) {
      var remainder := Strip(AfterBar(text));
      MarkSplit("Evidence ", WithoutCaveat(if remainder != "" then remainder else text), behind, letter, heading);
    } else {
      MarkSplit("Draft ", text, behind, letter, heading);
    }
  }

  lemma MarkSplit(front: string, text: string, behind: string, letter: char -> bool, heading: string)
    requires |front| >= 2 && front[|front| - 1] == ' ' && LowerChar(front[0]) != 'o'
    requires var line := front + "caveat" + ": " + text + behind; Strip(line) == line
    ensures !PolicyOf(heading, front + "caveat" + ": " + text + behind, letter).StrongConclusion?
  {
    AppendAssociates(front + "caveat" + ": ", text, behind);
    Regroup(front, text + behind);
    MarkedIsNotStrong(heading, front, text + behind, letter);
  }

  /** Without strong evidence the note at the end has the word, whatever is toned down. */
  lemma NotedIsNotStrong(heading: string, text: string, letter: char -> bool)
    requires Strip(text) == text
    ensures !PolicyOf(heading, Downgrade(text, letter) + NO_CITATION, letter).StrongConclusion?
  {
    NoteEnds();
    if IsOverall(text) || !IsToned(text, letter) {
      UntonedIsNotStrong(heading, text, NO_CITATION, letter);
    } else {
      RepairedIsStripped(text, NO_CITATION, letter);
      ToneChanges(text, letter);
      TextStarts(text);
      TonedIsNotOverall(text, letter, NO_CITATION);
      NoteIsNotStrong(heading, Tone(text, letter), letter);
    }
  }

  lemma TextStarts(text: string)
    requires Strip(text) == text
    ensures IsOverall(text) <==> LowerStarts(text, OVERALL)
  {
  }

  const NOTE_FRONT := NOTE_1 + NOTE_2 + "draft "
  const NOTE_REST := " until stronger evidence " + NOTE_4

  lemma NoteShape()
    ensures NO_CITATION == NOTE_FRONT + ("caveat" + NOTE_REST)
    ensures NOTE_FRONT[|NOTE_FRONT| - 1] == ' ' && NOTE_REST[0] == ' '
  {
    assert NOTE_3 == "draft " + "caveat" + " until stronger evidence ";
  }

  lemma NoteEnds()
    ensures IsAppended(NO_CITATION) && !IsSpace(NO_CITATION[|NO_CITATION| - 1])
  {
    assert NOTE_4[|NOTE_4| - 1] == '.';
    assert NOTE_1[0] == ' ' && NOTE_1[1] == 'N';
  }

  lemma NoteIsNotStrong(heading: string, toned: string, letter: char -> bool)
    requires Strip(toned + NO_CITATION) == toned + NO_CITATION && !LowerStarts(toned + NO_CITATION, OVERALL)
    ensures !PolicyOf(heading, toned + NO_CITATION, letter).StrongConclusion?
  {
    NoteShape();
    hide PolicyOf, Trim, LowerStarts;
    AppendAssociates(toned, NOTE_FRONT, "caveat" + NOTE_REST);
    var front := toned + NOTE_FRONT;
    assert front[|front| - 1] == ' ';
    CaveatIsNotStrong(heading, front, NOTE_REST, letter);
  }

  // ---------------------------------------------------------------- when the repair works

  /** What the repair puts behind the toned text. */
  function Behind(ids: seq<string>): string { if ids == [] then NO_CITATION else " " + References(ids) }

  lemma RepairLineIs(evidence: seq<Evidence>, line: string, letter: char -> bool)
    ensures RepairLine(SourceWording(letter), evidence, line)
         == Downgrade(TextOf(line), letter) + Behind(StrongIds(evidence, 2))
  {
    var ids, w := StrongIds(evidence, 2), SourceWording(letter);
    DowngradeOfStripped(RStrip(WithoutCitations(line, 0)), letter);
    assert Residue(w, line) == Downgrade(TextOf(line), letter);
    if ids != [] {
      ReferencesEnd(ids);
      var full := Residue(w, line) + " " + References(ids);
      assert full[|full| - 1] == ']';
      AppendAssociates(Residue(w, line), " ", References(ids));
    }
  }

  lemma BehindEnds(ids: seq<string>)
    ensures Behind(ids) != "" && !IsSpace(Behind(ids)[|Behind(ids)| - 1])
    ensures IsAppended(Behind(ids))
  {
    NoteShape();
    NoteEnds();
    if ids != [] {
      ReferencesEnd(ids);
      ReferencesStart(ids);
    }
  }

  lemma {:induction false} ReferencesStart(ids: seq<string>)
    requires ids != []
    ensures References(ids) != "" && References(ids)[0] == '['
  {
    if |ids| > 1 { ReferencesStart(ids[..|ids| - 1]); }
  }

  lemma {:induction false} HashRunIs(s: string)
    ensures HashRun(s) <= |s| && forall i | 0 <= i < HashRun(s) :: s[i] == '#'
    ensures HashRun(s) < |s| ==> s[HashRun(s)] != '#'
  {
    if s != "" && s[0] == '#' {
      HashRunIs(s[1..]);
      assert forall i | 1 <= i < HashRun(s) :: s[i] == s[1..][i - 1];
    }
  }

  lemma {:induction false} HashRunOf(s: string, n: nat)
    requires n <= |s| && (forall i | 0 <= i < n :: s[i] == '#') && (n < |s| ==> s[n] != '#')
    ensures HashRun(s) == n
  {
    if n > 0 {
      assert forall i | 0 <= i < n - 1 :: s[1..][i] == s[i + 1];
      HashRunOf(s[1..], n - 1);
    }
  }

  /** The hashes at the beginning stay, and behind them what was there or a letter. */
  ghost predicate SameHashes(s: string, toned: string) {
    var n := HashRun(s);
    && n <= |s| && HashRun(toned) == n && (n == |s| ==> toned == s)
    && (n < |s| ==> n < |toned| && (toned[n] == s[n] || IsLower(toned[n])))
  }

  lemma {:induction false} ReplaceHashes(s: string, word: string, other: string, letter: char -> bool, free: bool)
    requires word != "" && word[0] != '#' && other != "" && IsLower(other[0])
    ensures SameHashes(s, Replace(s, word, other, letter, free))
    decreases |s|
  {
    if s != "" && s[0] == '#' {
      assert !WordHere(s, word, letter);
      ReplaceHashes(s[1..], word, other, letter, !IsWordChar(s[0], letter));
    }
  }

  lemma {:induction false} ToneHashes(s: string, table: seq<(string, string)>, letter: char -> bool)
    requires Lengthens(table) && forall i | 0 <= i < |table| :: table[i].0[0] != '#' && IsLower(table[i].1[0])
    ensures SameHashes(s, ToneWith(s, table, letter))
  {
    if table == [] {
      HashRunIs(s);
    } else {
      var n := |table| - 1;
      ToneHashes(s, table[..n], letter);
      ReplaceHashes(ToneWith(s, table[..n], letter), table[n].0, table[n].1, letter, true);
    }
  }

  lemma TonedEdges()
    ensures forall i | 0 <= i < |TONED| :: TONED[i].0 != "" && TONED[i].0[0] != '#'
    ensures forall i | 0 <= i < |TONED| :: TONED[i].1 != "" && IsLower(TONED[i].1[0])
  {
  }

  lemma TonedIsNoHeading(text: string, behind: string, letter: char -> bool)
    requires Strip(text) == text && HeadingText(text).None? && IsToned(text, letter) && IsAppended(behind)
    ensures HeadingText(Tone(text, letter) + behind).None?
  {
    var toned := Tone(text, letter);
    TonedLengthens();
    ToneChanges(text, letter);
    StripShape(text);
    if text == "" {
      NothingToTone(letter);
    } else {
      TonedFirst(text, letter);
      TonedEdges();
      ToneHashes(text, TONED, letter);
      hide Tone, IsToned, Trim, Lengthens, ToneWith;
      var n := HashRun(text);
      HashRunIs(toned);
      assert (toned + behind)[n] == toned[n];
      HashRunOf(toned + behind, n);
    }
  }

  lemma RepairedIsNoHeading(text: string, behind: string, letter: char -> bool)
    requires Strip(text) == text && IsAppended(behind) && (HeadingText(text).None? || !IsToned(text, letter))
    ensures HeadingText(Downgrade(text, letter) + behind).None?
  {
    ToneChanges(text, letter);
    var line := Downgrade(text, letter) + behind;
    if !IsOverall(text) && IsToned(text, letter) {
      TonedIsNoHeading(text, behind, letter);
    } else {
      assert line[0] == 'E' || line[0] == 'D';
    }
  }

  /** The toned wording under its heading, with the references, reads as a strong conclusion and not as qualitative. */
  predicate StaysStrong(heading: string, text: string, ids: seq<string>, letter: char -> bool)
    requires ids != []
  {
    var wording := heading + " " + (Tone(text, letter) + " " + References(ids));
    !IsAppendix(heading, letter) && IsStrong(wording, letter) && !IsQualitative(wording, letter)
  }

  /** A toned line with references: which policy it falls under. */
  lemma TonedPolicy(heading: string, text: string, ids: seq<string>, letter: char -> bool)
    requires Strip(text) == text && !IsOverall(text) && IsToned(text, letter) && ids != []
    ensures PolicyOf(heading, Downgrade(text, letter) + Behind(ids), letter).StrongConclusion?
       <==> StaysStrong(heading, text, ids, letter)
  {
    BehindEnds(ids);
    RepairedIsStripped(text, Behind(ids), letter);
    ToneChanges(text, letter);
    TextStarts(text);
    TonedIsNotOverall(text, letter, Behind(ids));
    AppendAssociates(Tone(text, letter), " ", References(ids));
    hide IsAppendix, IsStrong, IsQualitative, Tone, IsToned;
    var line := Downgrade(text, letter) + Behind(ids);
    assert line == Tone(text, letter) + " " + References(ids);
    TextStarts(line);
  }

  /**
   When a repaired line is a strong conclusion, under any heading: there are references to cite, a word of its own is
   toned down so that it gets no caveat, and the toned wording stays strong all the same.
   */
  lemma RepairedIsStrongExactlyWhen(heading: string, text: string, ids: seq<string>, letter: char -> bool)
    requires Strip(text) == text
    ensures PolicyOf(heading, Downgrade(text, letter) + Behind(ids), letter).StrongConclusion?
       <==> ids != [] && !IsOverall(text) && IsToned(text, letter) && StaysStrong(heading, text, ids, letter)
  {
    hide PolicyOf, IsAppendix, IsStrong, IsQualitative, Tone, Downgrade, IsToned;
    BehindEnds(ids);
    if ids == [] {
      NotedIsNotStrong(heading, text, letter);
    } else if IsOverall(text) || !IsToned(text, letter) {
      UntonedIsNotStrong(heading, text, Behind(ids), letter);
    } else {
      TonedPolicy(heading, text, ids, letter);
    }
  }
}
