/**
 Reports that the citation repair leaves in violation of the policy, one for each way in which it can fail: a citation
 in another spelling, a line that becomes a heading beside strong evidence, and one without.
 */
module CitationFailures {
  import opened Common
  import opened Text
  import opened CitationPolicy
  import opened CitationWording
  import opened CitationLines
  import opened CitationRepair

  // ---------------------------------------------------------------- what a text does not say

  lemma {:induction false} FoundAt(s: string, here: string -> bool, letter: char -> bool, free: bool) returns (p: nat)
    requires Finds(s, here, letter, free)
    ensures p < |s| && here(s[p..])
  {
    if free && here(s) {
      p := 0;
      assert s[0..] == s;
    } else {
      p := FoundAt(s[1..], here, letter, !IsWordChar(s[0], letter));
      DropDrop(s, 1, p);
      p := p + 1;
    }
  }

  lemma {:induction false} ContainedAt(s: string, phrase: string) returns (p: nat)
    requires Contains(s, phrase)
    ensures p <= |s| && StartsWith(s[p..], phrase)
  {
    if StartsWith(s, phrase) {
      p := 0;
      assert s[0..] == s;
    } else {
      p := ContainedAt(s[1..], phrase);
      DropDrop(s, 1, p);
      p := p + 1;
    }
  }

  lemma StartsAt(s: string, p: nat, word: string, i: nat)
    requires p <= |s| && StartsWith(s[p..], word) && i < |word|
    ensures p + i < |s| && FoldChar(s[p + i]) == word[i]
  {
    assert s[p..][i] == s[p + i];
  }

  lemma StartsAtBoth(s: string, p: nat, word: string, i: nat, j: nat)
    requires p <= |s| && StartsWith(s[p..], word) && i < |word| && j < |word|
    ensures p + i < |s| && FoldChar(s[p + i]) == word[i] && p + j < |s| && FoldChar(s[p + j]) == word[j]
  {
    StartsAt(s, p, word, i);
    StartsAt(s, p, word, j);
  }

  /** None of the letters, in either case. */
  predicate Lacks(s: string, letters: string) { forall i | 0 <= i < |s| :: FoldChar(s[i]) !in letters }

  predicate Without(s: string, c: char) { forall i | 0 <= i < |s| :: FoldChar(s[i]) != c }

  predicate LacksPair(s: string, c: char, d: char) {
    forall i, j | 0 <= i && j == i + 1 < |s| :: !(FoldChar(s[i]) == c && FoldChar(s[j]) == d)
  }

  lemma LacksNotFound(s: string, word: string, i: nat, letters: string, letter: char -> bool, free: bool)
    requires i < |word| && word[i] in letters && Lacks(s, letters)
    ensures !Finds(s, Word(word, letter), letter, free)
  {
    if Finds(s, Word(word, letter), letter, free) {
      var p := FoundAt(s, Word(word, letter), letter, free);
      StartsAt(s, p, word, i);
    }
  }

  lemma PairNotFound(s: string, word: string, i: nat, letter: char -> bool, free: bool)
    requires i + 1 < |word| && LacksPair(s, word[i], word[i + 1])
    ensures !Finds(s, Word(word, letter), letter, free)
  {
    var j: nat := i + 1;
    if Finds(s, Word(word, letter), letter, free) {
      var p := FoundAt(s, Word(word, letter), letter, free);
      StartsAtBoth(s, p, word, i, j);
    }
  }

  lemma PairAppend(a: string, b: string, c: char, d: char)
    requires LacksPair(a, c, d) && LacksPair(b, c, d) && c != ' ' && d != ' '
    requires a == "" || b == "" || a[|a| - 1] == ' ' || b[0] == ' '
    ensures LacksPair(a + b, c, d)
  {
    var s := a + b;
    forall i, j | 0 <= i && j == i + 1 < |s|
      ensures !(FoldChar(s[i]) == c && FoldChar(s[j]) == d)
    {
      if j < |a| {
        assert s[i] == a[i] && s[j] == a[j];
      } else if i >= |a| {
        assert s[i] == b[i - |a|] && s[j] == b[j - |a|];
      }
    }
  }

  predicate IsAscii(s: string) { forall i | 0 <= i < |s| :: s[i] < '\U{80}' && FoldChar(s[i]) < '\U{80}' }

  lemma NoPhrase(s: string, phrase: string)
    requires IsAscii(s) && phrase != "" && phrase[0] >= '\U{80}'
    ensures !Contains(s, phrase)
  {
    if Contains(s, phrase) {
      var p := ContainedAt(s, phrase);
      StartsAt(s, p, phrase, 0);
    }
  }

  lemma {:induction false} NoSpacedPhrase(s: string, first: string, second: string)
    requires IsAscii(s) && first != "" && second != "" && (first[0] >= '\U{80}' || second[0] >= '\U{80}')
    ensures !ContainsSpaced(s, first, second)
  {
    if StartsWith(s, first) {
      assert FoldChar(s[0]) == first[0];
      DropLeadingShape(s[|first|..], IsSpace);
      var rest := DropLeading(s[|first|..], IsSpace);
      assert rest != "" ==> rest[0] == s[|s| - |rest|];
    }
    if s != "" { NoSpacedPhrase(s[1..], first, second); }
  }

  /** ASCII text without any of five letters: one is in every word that makes a text qualitative. */
  predicate IsMute(s: string) { IsAscii(s) && Lacks(s, "vkphl") }

  lemma NotQualitative(s: string, letter: char -> bool)
    requires IsMute(s)
    ensures !IsQualitative(s, letter)
  {
    forall i: nat | i < |QUALITATIVE_WORDS|
      ensures !Finds(s, Word(QUALITATIVE_WORDS[i], letter), letter, true)
    {
      var k := QualitativeLetters(i);
      LacksNotFound(s, QUALITATIVE_WORDS[i], k, "vkphl", letter, true);
    }
    assert forall i | 0 <= i < |QUALITATIVE_PHRASES| ::
      QUALITATIVE_PHRASES[i] != "" && QUALITATIVE_PHRASES[i][0] >= '\U{80}';
    forall i: nat | i < |QUALITATIVE_PHRASES|
      ensures !Contains(s, QUALITATIVE_PHRASES[i])
    {
      NoPhrase(s, QUALITATIVE_PHRASES[i]);
    }
  }

  lemma QualitativeLetters(i: nat) returns (k: nat)
    requires i < |QUALITATIVE_WORDS|
    ensures k < |QUALITATIVE_WORDS[i]| && QUALITATIVE_WORDS[i][k] in "vkphl"
  {
    var word := QUALITATIVE_WORDS[i];
    assert |QUALITATIVE_WORDS| == 10;
    k := if i == 0 then 2 else if i == 1 then 3 else if i == 2 then 0 else if i == 3 then 12 else if i == 4 then 13
         else if i == 5 then 0 else if i == 6 then 0 else if i == 7 then 1 else 0;
  }

  lemma NotAppendix(s: string, letter: char -> bool)
    requires IsAscii(s) && Lacks(s, "qx")
    requires !Finds(s, Word("source coverage", letter), letter, true)
    requires !Finds(s, Word("release gate", letter), letter, true)
    requires !Finds(s, Word("claim validation", letter), letter, true)
    ensures !IsAppendix(s, letter)
  {
    LacksNotFound(s, "appendix", 7, "qx", letter, true);
    LacksNotFound(s, "source quality", 7, "qx", letter, true);
    LacksNotFound(s, "qa", 0, "qx", letter, true);
    assert !FindsAny(s, APPENDIX_WORDS, letter);
    forall i: nat | i < |APPENDIX_PHRASES|
      ensures !Contains(s, APPENDIX_PHRASES[i])
    {
      NoPhrase(s, APPENDIX_PHRASES[i]);
    }
    NoSpacedPhrase(s, "证据与", "qa");
    NoSpacedPhrase(s, "场景", "qa");
    NoSpacedPhrase(s, "rag", "缺口");
  }

  /** In every word of a strong conclusion but four stands one of six letters. */
  lemma StrongLetters(i: nat) returns (k: nat)
    requires i < |STRONG_WORDS| && i != 0 && i != 4 && i != 5 && i != 12
    ensures k < |STRONG_WORDS[i]| && STRONG_WORDS[i][k] in "wgpmx2"
  {
    assert |STRONG_WORDS| == 17;
    k := if i == 1 then 0 else if i == 2 then 6 else if i == 3 then 6 else if i == 6 || i == 7 then 4
         else if i == 8 || i == 9 then 1 else if i == 10 then 2 else if i == 11 then 1 else if i == 13 then 2
         else if i == 14 then 3 else if i == 15 then 8 else 0;
  }

  lemma CodeEnds(s: string, letter: char -> bool) returns (q: nat)
    requires Finds(s, Code("soc", false, "2", letter), letter, true)
    ensures q < |s| && FoldChar(s[q]) == '2'
  {
    var p := FoundAt(s, Code("soc", false, "2", letter), letter, true);
    DropLeadingShape(s[p..][3..], IsSpace);
    var rest := DropLeading(s[p..][3..], IsSpace);
    q := |s| - |rest|;
    assert rest[0] == s[q];
  }

  lemma NoCode(s: string, letter: char -> bool)
    requires Lacks(s, "wgpmx2") && LacksPair(s, 'i', 's')
    ensures !Finds(s, Code("soc", false, "2", letter), letter, true)
    ensures !Finds(s, Code("iso", true, "iec", letter), letter, true)
  {
    if Finds(s, Code("soc", false, "2", letter), letter, true) {
      var q := CodeEnds(s, letter);
    }
    if Finds(s, Code("iso", true, "iec", letter), letter, true) {
      var p := FoundAt(s, Code("iso", true, "iec", letter), letter, true);
      StartsAtBoth(s, p, "iso", 0, 1);
    }
  }

  lemma NotStrong(s: string, letter: char -> bool)
    requires Lacks(s, "wgpmx2") && LacksPair(s, 's', 'a') && LacksPair(s, 's', 's') && LacksPair(s, 'i', 's')
    requires !Finds(s, Word(OVERALL, letter), letter, true)
    ensures !IsStrong(s, letter)
  {
    NoCode(s, letter);
    forall i: nat | i < |STRONG_WORDS|
      ensures !Finds(s, Word(STRONG_WORDS[i], letter), letter, true)
    {
      if i == 4 || i == 5 || i == 12 {
        PairNotFound(s, STRONG_WORDS[i], 0, letter, true);
      } else if i != 0 {
        var k := StrongLetters(i);
        LacksNotFound(s, STRONG_WORDS[i], k, "wgpmx2", letter, true);
      }
    }
  }

  // ---------------------------------------------------------------- toning a recommendation

  lemma ToneStep(s: string, j: nat, letter: char -> bool)
    requires j < |TONED| && Lengthens(TONED)
    ensures ToneWith(s, TONED[..j + 1], letter)
         == Replace(ToneWith(s, TONED[..j], letter), TONED[j].0, TONED[j].1, letter, true)
  {
    assert TONED[..j + 1][..j] == TONED[..j] && TONED[..j + 1][j] == TONED[j];
  }

  lemma NotFoundStays(s: string, j: nat, letter: char -> bool)
    requires j < |TONED| && Lengthens(TONED)
    requires !Finds(ToneWith(s, TONED[..j], letter), Word(TONED[j].0, letter), letter, true)
    ensures ToneWith(s, TONED[..j + 1], letter) == ToneWith(s, TONED[..j], letter)
  {
    ToneStep(s, j, letter);
    ReplaceGrows(ToneWith(s, TONED[..j], letter), TONED[j].0, TONED[j].1, letter, true);
  }

  lemma {:induction false} ToneStays(s: string, j: nat, letter: char -> bool)
    requires j <= |TONED| && Lengthens(TONED)
    requires forall i | j <= i < |TONED| ::
      !Finds(ToneWith(s, TONED[..j], letter), Word(TONED[i].0, letter), letter, true)
    ensures ToneWith(s, TONED, letter) == ToneWith(s, TONED[..j], letter)
    decreases |TONED| - j
  {
    if j < |TONED| {
      NotFoundStays(s, j, letter);
      ToneStays(s, j + 1, letter);
    } else {
      assert TONED[..j] == TONED;
    }
  }

  const NOUN := "recommendation"
  const DRAFT := "draft "

  lemma NounStands(rest: string, letter: char -> bool)
    requires rest == "" || rest[0] == ' '
    ensures WordHere(NOUN + rest, NOUN, letter)
  {
    assert forall i | 0 <= i < |NOUN| :: FoldChar(NOUN[i]) == NOUN[i];
    assert forall i | 0 <= i < |NOUN| :: (NOUN + rest)[i] == NOUN[i];
  }

  lemma NounIsStrong(front: string, rest: string, letter: char -> bool)
    requires front != "" && front[|front| - 1] == ' ' && (rest == "" || rest[0] == ' ')
    ensures IsStrong(front + (NOUN + rest), letter)
  {
    NounStands(rest, letter);
    assert Finds(NOUN + rest, Word(NOUN, letter), letter, true);
    FindsBehind(front, NOUN + rest, Word(NOUN, letter), letter, true);
    assert STRONG_WORDS[7] == NOUN;
  }

  /** Nothing behind the word that would be toned as well. */
  predicate IsTame(rest: string) { (rest == "" || rest[0] == ' ') && Lacks(rest, "adlmpw") }

  lemma NoParticiple(rest: string, letter: char -> bool)
    requires IsTame(rest)
    ensures !Finds(NOUN + rest, Word("recommended", letter), letter, true)
  {
    var s := NOUN + rest;
    if Finds(s, Word("recommended", letter), letter, true) {
      assert forall i | 0 <= i < |NOUN| && FoldChar(NOUN[i]) == 'd' :: i == 8;
      assert forall i | 0 <= i < |s| :: s[i] == if i < |NOUN| then NOUN[i] else rest[i - |NOUN|];
      assert FoldChar(s[9]) == 'a' && 'd' in "adlmpw";
      hide FoldChar;
      var p := FoundAt(s, Word("recommended", letter), letter, true);
      StartsAtBoth(s, p, "recommended", 8, 9);
    }
  }

  lemma NoComparative(rest: string, word: string, letter: char -> bool)
    requires IsTame(rest) && |word| >= 2 && word[0] == 's' && word[1] == 'a'
    ensures !Finds(DRAFT + NOUN + rest, Word(word, letter), letter, true)
  {
    var front := DRAFT + NOUN;
    var s := front + rest;
    if Finds(s, Word(word, letter), letter, true) {
      assert forall i | 0 <= i < |front| :: FoldChar(front[i]) != 's';
      assert forall i | 0 <= i < |s| :: s[i] == if i < |front| then front[i] else rest[i - |front|];
      assert 'a' in "adlmpw";
      hide FoldChar;
      var p := FoundAt(s, Word(word, letter), letter, true);
      StartsAtBoth(s, p, word, 0, 1);
    }
  }

  lemma NoOther(rest: string, word: string, i: nat, letter: char -> bool)
    requires IsTame(rest) && i < |word| && (word[i] == 'w' || word[i] == 'l' || word[i] == 'p')
    ensures !Finds(DRAFT + NOUN + rest, Word(word, letter), letter, true)
  {
    var front := DRAFT + NOUN;
    assert Lacks(front, "wlp");
    assert forall i | 0 <= i < |rest| :: FoldChar(rest[i]) !in "wlp";
    assert Lacks(front + rest, "wlp");
    LacksNotFound(front + rest, word, i, "wlp", letter, true);
  }

  lemma OthersAreNotFound(rest: string, letter: char -> bool)
    requires IsTame(rest)
    ensures forall j | 2 <= j < |TONED| :: !Finds(DRAFT + NOUN + rest, Word(TONED[j].0, letter), letter, true)
  {
    NoOther(rest, "winner", 0, letter);
    NoOther(rest, "leading option", 0, letter);
    NoOther(rest, "best option", 6, letter);
    NoComparative(rest, "safer", letter);
    NoComparative(rest, "safest", letter);
    hide Finds, Lacks, FoldChar, Word;
  }

  lemma NounIsReplaced(rest: string, letter: char -> bool)
    requires IsTame(rest)
    ensures Replace(NOUN + rest, NOUN, TONED[1].1, letter, true) == DRAFT + NOUN + rest
  {
    var other := TONED[1].1;
    assert other == DRAFT + NOUN;
    NounStands(rest, letter);
    assert NOUN[4] in "adlmpw";
    LacksNotFound(rest, NOUN, 4, "adlmpw", letter, false);
    hide FoldChar, StartsWith;
    ReplaceGrows(rest, NOUN, other, letter, false);
    TakeAppend(NOUN, rest);
  }

  lemma NounIsToned(rest: string, letter: char -> bool)
    requires IsTame(rest)
    ensures Tone(NOUN + rest, letter) == DRAFT + NOUN + rest && IsToned(NOUN + rest, letter)
  {
    var s := NOUN + rest;
    TonedLengthens();
    NoParticiple(rest, letter);
    NounIsReplaced(rest, letter);
    OthersAreNotFound(rest, letter);
    ToneChanges(s, letter);
    hide Replace, Finds, Word, IsToned;
    assert TONED[..0] == [] && ToneWith(s, TONED[..0], letter) == s;
    NotFoundStays(s, 0, letter);
    ToneStep(s, 1, letter);
    ToneStays(s, 2, letter);
    assert |DRAFT + NOUN + rest| > |s|;
  }

  // ---------------------------------------------------------------- evidence

  lemma ShortTokens(id: string, strong: bool)
    requires |id| == 1 && IsToken(id) && id[0] != '#'
    ensures TokensOf(Evidence(id, id, [], strong)) == [id, id] && Normalize(id) == id && Strip(id) == id
  {
    TrimKeeps(id, IsSpace);
    assert UpTo(id, '#') == id;
    assert [id, id] + [] == [id, id];
    assert NonBlank([id]) == [id];
  }

  /** One weak and one strong item. */
  const PAIR := [Evidence("b", "b", [], false), Evidence("s", "s", [], true)]

  lemma PairToken(e: Evidence, token: string)
    requires e in PAIR && token in TokensOf(e)
    ensures Normalize(token) == e.id && (e.strong <==> e.id == "s")
  {
    ShortTokens("b", false);
    ShortTokens("s", true);
    hide TokensOf, Normalize;
  }

  lemma PairIsUniform()
    ensures Uniform(PAIR)
  {
    hide TokensOf, Normalize;
    forall e, f, t, u | e in PAIR && f in PAIR && t in TokensOf(e) && u in TokensOf(f) && Normalize(t) == Normalize(u)
      ensures e.strong == f.strong
    {
      PairToken(e, t);
      PairToken(f, u);
    }
  }

  lemma PairIds()
    ensures StrongIds(PAIR, 2) == ["s"]
  {
    ShortTokens("s", true);
    hide TokensOf, Normalize, Trim;
    assert PAIR[..1] == [PAIR[0]] && [PAIR[0]][..0] == [];
    assert StrongIds([PAIR[0]], 2) == [];
  }

  lemma PairTable()
    ensures IsWeak(Table(PAIR), "b")
  {
    var b, s := PAIR[0], PAIR[1];
    ShortTokens("b", false);
    ShortTokens("s", true);
    hide TokensOf, Normalize;
    assert PAIR[..1] == [b] && [b][..0] == [] && ["b", "b"][1..] == ["b"] && ["s", "s"][1..] == ["s"];
    assert Assign(map[], ["b", "b"], b) == Assign(map["b" := b], ["b"], b) == map["b" := b];
    assert Table([b]) == map["b" := b];
    assert Assign(Table([b]), ["s", "s"], s) == Assign(Table([b])["s" := s], ["s"], s);
    assert Assign(Table([b])["s" := s], ["s"], s) == Table([b])["s" := s];
  }

  lemma ShortIsNotToned(id: string, letter: char -> bool)
    requires |id| == 1
    ensures Tone(id, letter) == id
  {
    ToneChanges(id, letter);
    forall i: nat | i < |TONED|
      ensures !Finds(id, Word(TONED[i].0, letter), letter, true)
    {
      TooShortToFind(id, TONED[i].0, letter, true);
    }
  }


  const WEAK_ITEM := [Evidence("b", "b", [], false)]

  lemma WeakItemFacts()
    ensures StrongIds(WEAK_ITEM, 2) == [] && IsWeak(Table(WEAK_ITEM), "b")
  {
    var b := WEAK_ITEM[0];
    ShortTokens("b", false);
    hide TokensOf, Normalize;
    assert WEAK_ITEM[..0] == [] && ["b", "b"][1..] == ["b"];
    assert Assign(map[], ["b", "b"], b) == Assign(map["b" := b], ["b"], b) == map["b" := b];
  }

  // ---------------------------------------------------------------- a citation in another spelling

  const CITED_B := " [Source:b]"
  const REFERENCE_S := " [source:s]"
  const STUBBORN := NOUN + CITED_B
  const STUBBORN_PIECES := [Words(NOUN + " "), Other('[', "Source:", "b")]

  lemma TwoPieces(p: Piece, q: Piece)
    requires !p.Cite? && !q.Cite?
    ensures Render([p, q]) == RenderPiece(p) + (RenderPiece(q) + "") && Kept([p, q]) == [p, q]
    ensures p.Words? && q.Other? ==> OtherIds([p, q]) == [q.id]
  {
    hide RenderPiece;
    assert [p, q][1..] == [q] && [q][1..] == [];
    assert Render([q]) == RenderPiece(q) + "" && Kept([q]) == [q] + Kept([]);
    assert Kept([p, q]) == [p] + Kept([q]) && (q.Other? ==> OtherIds([q]) == [q.id] + []);
  }


  lemma StubbornRender()
    ensures ArePieces(STUBBORN_PIECES) && Render(STUBBORN_PIECES) == STUBBORN
    ensures OtherIds(STUBBORN_PIECES) == ["b"] && Kept(STUBBORN_PIECES) == STUBBORN_PIECES
    ensures Tokens(STUBBORN) == ["b"]
  {
    StubbornSpelling();
    TwoPieces(STUBBORN_PIECES[0], STUBBORN_PIECES[1]);
    StubbornTokens();
  }

  lemma StubbornSpelling()
    ensures CITED_B == " " + Spelled('[', "Source:", "b") && IsKeyword("Source:")
  {
    assert Lower("Source:"[1..]) == "ource:";
  }

  lemma StubbornTokens()
    ensures Tokens(STUBBORN) == ["b"]
  {
    var cite := Spelled('[', "Source:", "b");
    StubbornSpelling();
    hide TokenAt, Spelled, IsKeyword;
    assert STUBBORN == NOUN + " " + (cite + "");
    WordsHaveNoTokens(NOUN + " ", cite + "");
    SpelledTokens('[', "Source:", "b", "");
  }

  lemma StubbornEdges()
    ensures STUBBORN != "" && STUBBORN[0] == 'r' && STUBBORN[|STUBBORN| - 1] == ']'
  {
    assert STUBBORN[|STUBBORN| - 1] == CITED_B[|CITED_B| - 1];
  }

  lemma StubbornText()
    ensures Strip(STUBBORN) == STUBBORN && TextOf(STUBBORN) == STUBBORN
    ensures !IsOverall(STUBBORN) && HeadingText(STUBBORN).None?
  {
    StubbornRender();
    StubbornEdges();
    var line := STUBBORN;
    PlainCitationsAreRemoved(STUBBORN_PIECES);
    hide Render, Kept;
    TrimKeeps(line, IsSpace);
    assert OVERALL[0] == 'o';
  }

  lemma References1(id: string)
    ensures References([id]) == Reference(id) && " " + References(["s"]) == REFERENCE_S
  {
  }

  lemma MuteNoun()
    ensures IsMute(NOUN)
  {
  }

  lemma MuteWords()
    ensures IsMute(NOUN) && IsMute(DRAFT) && IsMute(" ")
  {
    MuteNoun();
  }

  lemma MuteReference()
    ensures IsMute(REFERENCE_S)
  {
  }

  lemma MuteCitations()
    ensures IsMute(CITED_B) && IsMute(REFERENCE_S)
  {
    MuteReference();
  }

  lemma MuteAppend(a: string, b: string)
    requires IsMute(a) && IsMute(b)
    ensures IsMute(a + b)
  {
    hide FoldChar;
  }

  lemma MuteParts()
    ensures IsMute(" " + (NOUN + CITED_B)) && IsMute(" " + DRAFT + (NOUN + (CITED_B + REFERENCE_S)))
  {
    MuteWords();
    MuteCitations();
    hide IsMute;
    MuteAppend(NOUN, CITED_B);
    MuteAppend(" ", NOUN + CITED_B);
    MuteAppend(" ", DRAFT);
    MuteAppend(CITED_B, REFERENCE_S);
    MuteAppend(NOUN, CITED_B + REFERENCE_S);
    MuteAppend(" " + DRAFT, NOUN + (CITED_B + REFERENCE_S));
  }

  lemma NoHeadingNoAppendix(letter: char -> bool)
    ensures !IsAppendix("", letter)
  {
  }

  lemma StubbornIsStrong(letter: char -> bool)
    ensures PolicyOf("", STUBBORN, letter).StrongConclusion?
  {
    StubbornText();
    NoHeadingNoAppendix(letter);
    MuteParts();
    hide IsStrong, IsQualitative, IsAppendix, Trim, IsMute;
    assert "" + " " + STUBBORN == " " + (NOUN + CITED_B);
    NotQualitative(" " + (NOUN + CITED_B), letter);
    NounIsStrong(" ", CITED_B, letter);
  }

  lemma TameCitation()
    ensures IsTame(CITED_B) && IsTame("")
  {
  }

  lemma StubbornStaysStrong(letter: char -> bool)
    ensures StaysStrong("", STUBBORN, ["s"], letter) && IsToned(STUBBORN, letter)
  {
    NoHeadingNoAppendix(letter);
    TameCitation();
    NounIsToned(CITED_B, letter);
    MuteParts();
    References1("s");
    hide IsStrong, IsQualitative, IsAppendix, IsMute, Tone, IsToned, References;
    var after := " " + DRAFT + (NOUN + (CITED_B + REFERENCE_S));
    var toned, cited := DRAFT + NOUN + CITED_B, References(["s"]);
    AppendAssociates(toned, " ", cited);
    assert "" + " " + (toned + " " + cited) == " " + (toned + (" " + cited)) == after;
    NotQualitative(after, letter);
    NounIsStrong(" " + DRAFT, CITED_B + REFERENCE_S, letter);
  }

  lemma FailsAt(lines: seq<string>, evidence: seq<Evidence>, letter: char -> bool, k: nat)
    requires k < |lines| && StaysViolating(lines, evidence, letter, k)
    ensures var w := SourceWording(letter);
      Violations(Repaired(lines, w, evidence), w, Table(evidence), |lines|) != []
  {
    RepairWorksExactlyWhen(lines, evidence, letter);
  }

  lemma StubbornViolates(letter: char -> bool)
    ensures Violates([STUBBORN], SourceWording(letter), Table(PAIR), 0)
  {
    PairTable();
    StubbornText();
    StubbornRender();
    StubbornIsStrong(letter);
    hide Table, PolicyOf, HeadingText, IsWeak, Tokens, TextOf, Strip;
    CitesFirst(STUBBORN, PAIR);
  }

  lemma WeakIdStays(evidence: seq<Evidence>, letter: char -> bool)
    requires IsWeak(Table(evidence), "b")
    ensures AnyStaysWeak(Table(evidence), ["b"], letter)
  {
    ShortIsNotToned("b", letter);
    assert IsToken("b");
    hide Tone, IsToken, IsWeak, Table;
    assert StaysWeak(Table(evidence), ["b"][0], letter);
  }

  lemma StubbornSurvives(letter: char -> bool)
    ensures Survives("", STUBBORN, PAIR, letter)
  {
    PairIds();
    PairTable();
    StubbornText();
    StubbornRender();
    StubbornStaysStrong(letter);
    OtherCitationsAreLeft(STUBBORN_PIECES);
    hide IsToned, TextOf, Table, StaysStrong, HeadingText, IsWeak, Render, Kept, OtherIds, StrongIds, Tokens;
    hide WithoutCitations, IsOverall, AnyStaysWeak, ReferencesAreWeak, Strip;
    WeakIdStays(PAIR, letter);
  }

  lemma CitesFirst(line: string, evidence: seq<Evidence>)
    requires Tokens(line) == ["b"] && IsWeak(Table(evidence), "b")
    ensures CitesWeak(Table(evidence), line)
  {
    hide IsWeak;
    assert Tokens(line)[0] == "b";
  }

  /**
   A citation in another spelling stays: with one strong and one weak item, a recommendation that cites the weak one
   with a capital, as `recommendation [Source:b]`, is toned down, keeps its citation, and still violates the policy.
   */
  lemma OtherSpellingFails(lines: seq<string>, evidence: seq<Evidence>, letter: char -> bool)
    requires lines == [STUBBORN] && evidence == PAIR
    ensures var w := SourceWording(letter);
      Uniform(evidence) && Violations(Repaired(lines, w, evidence), w, Table(evidence), 1) != []
  {
    PairIsUniform();
    StubbornViolates(letter);
    StubbornSurvives(letter);
    hide Table, Uniform, Violates, Survives, Repaired, Violations;
    FailsAt(lines, evidence, letter, 0);
  }

  // ---------------------------------------------------------------- a line that becomes a heading

  const TITLE := "#[source:b] " + NOUN
  const TITLE_PIECES := [Words("#"), Cite("b"), Words(" " + NOUN)]
  const TITLE_TEXT := "# " + NOUN

  lemma ThreePieces(p: Piece, q: Piece, r: Piece)
    requires !p.Cite? && q.Cite? && !r.Cite?
    ensures Render([p, q, r]) == RenderPiece(p) + (RenderPiece(q) + (RenderPiece(r) + ""))
    ensures Render(Kept([p, q, r])) == RenderPiece(p) + (RenderPiece(r) + "")
  {
    hide RenderPiece;
    assert [p, q, r][1..] == [q, r] && [q, r][1..] == [r] && [r][1..] == [] && [p, r][1..] == [r];
    assert Render([r]) == RenderPiece(r) + "" && Render([q, r]) == RenderPiece(q) + Render([r]);
    assert Kept([r]) == [r] + [] && Kept([q, r]) == [r] && Kept([p, q, r]) == [p] + [r];
    assert [p] + [r] == [p, r];
  }

  lemma TitlePieces()
    ensures ArePieces(TITLE_PIECES) && TITLE_PIECES == [Words("#"), Cite("b"), Words(" " + NOUN)]
  {
  }

  lemma TitleStrings()
    ensures TITLE == "#" + (Reference("b") + (" " + NOUN + "")) && TITLE_TEXT == "#" + (" " + NOUN + "")
  {
    assert " " + NOUN + "" == " " + NOUN;
    assert Reference("b") == "[source:b]";
  }

  lemma TitleRender()
    ensures ArePieces(TITLE_PIECES) && Render(TITLE_PIECES) == TITLE && Render(Kept(TITLE_PIECES)) == TITLE_TEXT
  {
    TitlePieces();
    TitleStrings();
    hide Render, Kept, ArePieces;
    ThreePieces(Words("#"), Cite("b"), Words(" " + NOUN));
  }

  lemma TitleTokens()
    ensures Tokens(TITLE) == ["b"]
  {
    var cite := Spelled('[', "source:", "b");
    assert Lower("source:"[1..]) == "ource:";
    assert TITLE == "#" + (cite + (" " + NOUN));
    WordsHaveNoTokens("#", cite + (" " + NOUN));
    SpelledTokens('[', "source:", "b", " " + NOUN);
    NoOpeningNoTokens(" " + NOUN, 0);
  }

  lemma TitleHashes()
    ensures IsFront("# ")
  {
    HashRunOf("# ", 1);
  }

  lemma TitleEdges()
    ensures IsEdged(TITLE) && IsEdged(TITLE_TEXT) && IsEdged(NOUN)
  {
    assert TITLE_TEXT[|TITLE_TEXT| - 1] == NOUN[|NOUN| - 1] && TITLE[|TITLE| - 1] == NOUN[|NOUN| - 1];
  }

  lemma TitleText()
    ensures TextOf(TITLE) == TITLE_TEXT && Strip(TITLE) == TITLE && HeadingText(TITLE_TEXT) == Some(NOUN)
  {
    TitleHashes();
    TitleRender();
    TitleEdges();
    PlainCitationsAreRemoved(TITLE_PIECES);
    HeadingOf("# ", NOUN);
    hide Render, Kept, WithoutCitations, IsSpace, HeadingText, IsFront;
    TrimKeeps(TITLE_TEXT, IsSpace);
    TrimKeeps(TITLE, IsSpace);
  }

  lemma TitleIsNoHeading()
    ensures HeadingText(TITLE).None?
  {
    HashRunOf(TITLE, 1);
    assert TITLE[1] == '[';
    hide HashRun;
  }

  lemma TitleIsToned(letter: char -> bool)
    ensures IsToned(TITLE_TEXT, letter)
  {
    NounStands("", letter);
    assert NOUN + "" == NOUN && Finds(NOUN, Word(NOUN, letter), letter, true);
    FindsBehind("# ", NOUN, Word(NOUN, letter), letter, true);
    assert TONED[1].0 == NOUN;
  }

  const TITLE_FRONT := " #[source:b] "

  lemma TitleFront()
    ensures IsMute(TITLE_FRONT) && TITLE_FRONT[|TITLE_FRONT| - 1] == ' '
  {
  }

  lemma TitleIsStrong(letter: char -> bool)
    ensures PolicyOf("", TITLE, letter).StrongConclusion?
  {
    TitleText();
    NoHeadingNoAppendix(letter);
    MuteWords();
    TitleFront();
    hide IsStrong, IsQualitative, IsAppendix, Trim, IsMute, Finds;
    assert NOUN + "" == NOUN && TITLE_FRONT + NOUN == "" + " " + TITLE;
    MuteAppend(TITLE_FRONT, NOUN);
    NotQualitative(TITLE_FRONT + NOUN, letter);
    NounIsStrong(TITLE_FRONT, "", letter);
  }

  /** The heading that the line becomes. */
  lemma TitleBecomes(ids: seq<string>, letter: char -> bool)
    ensures BecomesHeading(TextOf(TITLE), letter)
    ensures NewHeading(TextOf(TITLE), ids, letter) == DRAFT + NOUN + Behind(ids)
  {
    TitleText();
    TitleIsToned(letter);
    TameCitation();
    NounIsToned("", letter);
    assert NOUN + "" == NOUN && DRAFT + NOUN + "" == DRAFT + NOUN;
  }

  lemma TitleViolates(lines: seq<string>, evidence: seq<Evidence>, letter: char -> bool)
    requires lines != [] && lines[0] == TITLE && IsWeak(Table(evidence), "b")
    ensures Violates(lines, SourceWording(letter), Table(evidence), 0)
  {
    TitleText();
    TitleIsNoHeading();
    TitleTokens();
    TitleIsStrong(letter);
    hide Table, PolicyOf, HeadingText, IsWeak, Tokens;
    assert Tokens(TITLE)[0] == "b";
  }

  /** Such a line is rewritten when the report is repaired again: it gets a caveat in front. */
  lemma RepairedAgain(lines: seq<string>, evidence: seq<Evidence>, letter: char -> bool, k: nat)
    requires k < |lines| && StaysViolating(lines, evidence, letter, k)
    requires !Violates(lines, SourceWording(letter), Table(evidence), k)
    requires lines[k] != "" && lines[k][0] != 'D' && lines[k][0] != 'E'
    requires IsOverall(TextOf(lines[k])) || !IsToned(TextOf(lines[k]), letter)
    ensures var w := SourceWording(letter);
      var repaired := Repaired(lines, w, evidence);
      Repaired(repaired, w, evidence) != repaired
  {
    var w, line := SourceWording(letter), lines[k];
    var repaired := Repaired(lines, w, evidence);
    StaysViolatingIs(lines, evidence, letter, k);
    RepairLineIs(evidence, line, letter);
    StripTwice(RStrip(WithoutCitations(line, 0)));
    ToneChanges(TextOf(line), letter);
    var again := Downgrade(TextOf(line), letter);
    assert again != "" && (again[0] == 'D' || again[0] == 'E');
    assert (again + Behind(StrongIds(evidence, 2)))[0] == again[0];
    hide Violates, Table, RepairLine, Downgrade, Behind, TextOf, StaysViolating;
    assert repaired[k] == RepairedAt(lines, w, evidence, k) == line;
    assert Repaired(repaired, w, evidence)[k] == RepairedAt(repaired, w, evidence, k) == RepairLine(w, evidence, line);
  }

  /** A line below it, not a conclusion before, violates the policy afterwards if it is one under the new heading. */
  lemma LineBelowFails(lines: seq<string>, evidence: seq<Evidence>, letter: char -> bool)
    requires |lines| == 2 && lines[0] == TITLE && IsWeak(Table(evidence), "b")
    requires HeadingText(lines[1]).None? && !PolicyOf("", lines[1], letter).StrongConclusion?
    requires TurnsStrong(DRAFT + NOUN + Behind(StrongIds(evidence, 2)), lines[1], evidence, letter)
    requires lines[1] != "" && lines[1][0] != 'D' && lines[1][0] != 'E'
    requires IsOverall(TextOf(lines[1])) || !IsToned(TextOf(lines[1]), letter)
    ensures var w := SourceWording(letter);
      var repaired := Repaired(lines, w, evidence);
      && Violations(lines, w, Table(evidence), 2) == [0]
      && Violations(repaired, w, Table(evidence), 2) != [] && Repaired(repaired, w, evidence) != repaired
  {
    var w := SourceWording(letter);
    TitleViolates(lines, evidence, letter);
    TitleIsNoHeading();
    TitleBecomes(StrongIds(evidence, 2), letter);
    hide Table, PolicyOf, HeadingText, IsWeak, TextOf, BecomesHeading, NewHeading, StrongIds, TurnsStrong, Behind;
    hide Repaired;
    assert HeadingBefore(lines, w, 1) == "" && w.policy("", lines[1]) == PolicyOf("", lines[1], letter);
    assert !Violates(lines, w, Table(evidence), 1);
    assert Violations(lines, w, Table(evidence), 0) == [] && Violations(lines, w, Table(evidence), 1) == [0];
    assert HeadingAfter(lines, evidence, letter, 1) == DRAFT + NOUN + Behind(StrongIds(evidence, 2));
    hide Violates, HeadingAfter;
    FailsAt(lines, evidence, letter, 1);
    RepairedAgain(lines, evidence, letter, 1);
  }

  const CITE := "[source:b]"
  const NOTE_LINE := "note " + CITE

  lemma LineShape(words: string)
    requires IsEdged(words) && IsToken("b") && forall i | 0 <= i < |words| :: !IsOpening(words[i])
    ensures var line := words + " " + CITE;
      && Tokens(line) == ["b"] && Strip(line) == line && TextOf(line) == words
      && (words[0] != '#' ==> HeadingText(line).None?)
  {
    var pieces, line := [Words(words + " "), Cite("b")], words + " " + CITE;
    var cite := Spelled('[', "source:", "b");
    assert cite == CITE == Reference("b");
    assert Lower("source:"[1..]) == "ource:";
    WordsHaveNoTokens(words + " ", cite + "");
    SpelledTokens('[', "source:", "b", "");
    assert line == words + " " + (cite + "");
    WordsAreKept(words + " ", Reference("b") + "");
    CitationIsRemoved("b", "");
    assert words + " " + (Reference("b") + "") == line;
    hide Spelled, WithoutCitations, TokensFrom, PlainEnd;
    assert WithoutCitations(line, 0) == words + " " + "";
    TrimKeeps(line, IsSpace);
    TrailingSpace(words);
  }

  lemma TrailingSpace(words: string)
    requires IsEdged(words)
    ensures Strip(RStrip(words + " " + "")) == words
  {
    assert words + " " + "" == words + " " && (words + " ")[..|words|] == words;
    assert RStrip(words) == words;
    TrimKeeps(words, IsSpace);
  }

  lemma NoteLineFacts()
    ensures Tokens(NOTE_LINE) == ["b"] && Strip(NOTE_LINE) == NOTE_LINE && TextOf(NOTE_LINE) == "note"
    ensures HeadingText(NOTE_LINE).None?
  {
    assert NOTE_LINE == "note" + " " + CITE;
    LineShape("note");
  }

  lemma NoteIsMute()
    ensures IsMute(" " + NOTE_LINE)
  {
  }

  lemma NotePlacesOfS()
    ensures var s := " " + NOTE_LINE;
      |s| > 8 && s[8] == 'o' && forall i | 0 <= i < |s| && FoldChar(s[i]) == 's' :: i == 7
    ensures Without(" " + NOTE_LINE, 'i')
  {
  }

  lemma NoteLacks()
    ensures Lacks(" " + NOTE_LINE, "wgpmx2")
  {
  }

  lemma NotePairs()
    ensures var s := " " + NOTE_LINE; LacksPair(s, 's', 'a') && LacksPair(s, 's', 's') && LacksPair(s, 'i', 's')
    ensures Lacks(" " + NOTE_LINE, "wgpmx2")
  {
    NotePlacesOfS();
    NoteLacks();
    assert FoldChar('o') == 'o';
    hide FoldChar, Lacks;
  }

  lemma NoteHasNoOverall(letter: char -> bool)
    ensures !Finds(" " + NOTE_LINE, Word(OVERALL, letter), letter, true)
  {
    NoteIsMute();
    assert OVERALL[1] == 'v' && 'v' in "vkphl";
    hide Lacks, IsAscii, Finds;
    LacksNotFound(" " + NOTE_LINE, OVERALL, 1, "vkphl", letter, true);
  }

  lemma NoteIsNotStrong(letter: char -> bool)
    ensures !PolicyOf("", NOTE_LINE, letter).StrongConclusion?
  {
    NoteLineFacts();
    NotePairs();
    NoteHasNoOverall(letter);
    hide Strip, Lacks, LacksPair, Finds, IsQualitative, IsAppendix, IsStrong;
    assert "" + " " + NOTE_LINE == " " + NOTE_LINE;
    NotStrong(" " + NOTE_LINE, letter);
  }

  lemma HeadingIsMute()
    ensures var heading := DRAFT + NOUN + REFERENCE_S; IsMute(heading) && Lacks(heading, "qx")
  {
    MuteWords();
    MuteCitations();
    MuteAppend(DRAFT, NOUN);
    MuteAppend(DRAFT + NOUN, REFERENCE_S);
    assert Lacks(DRAFT, "qx") && Lacks(NOUN, "qx") && Lacks(REFERENCE_S, "qx");
    hide FoldChar, IsMute;
  }

  lemma HeadingIsNoAppendix(letter: char -> bool)
    ensures !IsAppendix(DRAFT + NOUN + REFERENCE_S, letter)
  {
    var heading := DRAFT + NOUN + REFERENCE_S;
    HeadingIsMute();
    hide Lacks, IsAscii;
    LacksNotFound(heading, "source coverage", 9, "vkphl", letter, true);
    LacksNotFound(heading, "release gate", 2, "vkphl", letter, true);
    LacksNotFound(heading, "claim validation", 1, "vkphl", letter, true);
    NotAppendix(heading, letter);
  }

  lemma NoteTurnsStrong(letter: char -> bool)
    ensures PolicyOf(DRAFT + NOUN + REFERENCE_S, NOTE_LINE, letter).StrongConclusion?
  {
    var heading := DRAFT + NOUN + REFERENCE_S;
    NoteLineFacts();
    NoteIsMute();
    HeadingIsMute();
    HeadingIsNoAppendix(letter);
    hide IsMute, Lacks, IsAscii, IsAppendix, IsStrong, IsQualitative, Strip;
    MuteAppend(heading, " " + NOTE_LINE);
    assert heading + (" " + NOTE_LINE) == heading + " " + NOTE_LINE;
    BehindNoun(REFERENCE_S, NOTE_LINE);
    NotQualitative(heading + " " + NOTE_LINE, letter);
    NounIsStrong(DRAFT, REFERENCE_S + " " + NOTE_LINE, letter);
  }

  lemma BehindNoun(behind: string, line: string)
    requires behind != ""
    ensures DRAFT + NOUN + behind + " " + line == DRAFT + (NOUN + (behind + " " + line))
    ensures (behind + " " + line)[0] == behind[0]
  {
  }

  /**
   A line becomes a heading: removing the citation of `#[source:b] recommendation` leaves a heading, which is toned down
   and cited, and the line below, `note [source:b]`, no violation before, now is a strong conclusion that cites
   something weak. Repairing again changes it.
   */
  lemma NewHeadingFails(lines: seq<string>, evidence: seq<Evidence>, letter: char -> bool)
    requires lines == [TITLE, NOTE_LINE] && evidence == PAIR
    ensures var w := SourceWording(letter);
      var repaired := Repaired(lines, w, evidence);
      && Uniform(evidence) && Violations(lines, w, Table(evidence), 2) == [0]
      && Violations(repaired, w, Table(evidence), 2) != [] && Repaired(repaired, w, evidence) != repaired
  {
    PairIsUniform();
    PairIds();
    PairTable();
    References1("s");
    NoteLineFacts();
    NoteIsNotStrong(letter);
    NoteTurnsStrong(letter);
    NoteIsNotToned(letter);
    CitesFirst(NOTE_LINE, evidence);
    hide Table, PolicyOf, HeadingText, IsWeak, Tokens, StrongIds, Uniform, Repaired, Violations, TextOf, References;
    hide CitesWeak;
    LineBelowFails(lines, evidence, letter);
  }

  lemma NoteIsNotToned(letter: char -> bool)
    ensures !IsToned("note", letter)
  {
    forall i: nat | i < |TONED|
      ensures !Finds("note", Word(TONED[i].0, letter), letter, true)
    {
      TooShortToFind("note", TONED[i].0, letter, true);
    }
  }

  // ---------------------------------------------------------------- the same without strong evidence

  const RUN_WORDS := "overall confidences"
  const RUN_LINE := RUN_WORDS + " " + CITE

  lemma RunLineFacts()
    ensures Tokens(RUN_LINE) == ["b"] && Strip(RUN_LINE) == RUN_LINE && TextOf(RUN_LINE) == RUN_WORDS
    ensures HeadingText(RUN_LINE).None?
  {
    LineShape(RUN_WORDS);
  }

  lemma RunsOverall()
    ensures LowerStarts(RUN_WORDS, OVERALL) && LowerStarts(RUN_LINE, OVERALL)
  {
    assert forall i | 0 <= i < |OVERALL| :: RUN_LINE[i] == RUN_WORDS[i];
  }

  lemma RunIsOverall()
    ensures IsOverall(RUN_LINE) && IsOverall(RUN_WORDS)
  {
    RunLineFacts();
    RunsOverall();
    hide LowerStarts;
    TrimKeeps(RUN_WORDS, IsSpace);
  }

  lemma RunPairs()
    ensures var s := " " + RUN_LINE; LacksPair(s, 's', 'a') && LacksPair(s, 's', 's') && LacksPair(s, 'i', 's')
  {
    var s := " " + RUN_LINE;
    assert forall i | 0 <= i < |s| && FoldChar(s[i]) == 's' :: i == 19 || i == 22;
    assert s[18] == 'e' && s[20] == ' ' && s[21] == '[' && s[23] == 'o';
  }

  lemma RunLetters()
    ensures Lacks(" " + RUN_LINE, "wgpmx2")
  {
  }

  lemma RunPlaces()
    ensures var s := " " + RUN_LINE;
      |s| > 19 && s[19] == 's' && forall i | 0 <= i < |s| && FoldChar(s[i]) == 'v' :: i == 2
  {
  }

  lemma RunHasNoOverall(letter: char -> bool)
    ensures !Finds(" " + RUN_LINE, Word(OVERALL, letter), letter, true)
  {
    var s := " " + RUN_LINE;
    RunPlaces();
    assert IsWordChar('s', letter) && |OVERALL| == 18 && OVERALL[1] == 'v';
    if Finds(s, Word(OVERALL, letter), letter, true) {
      hide FoldChar, IsWordChar;
      var p := FoundAt(s, Word(OVERALL, letter), letter, true);
      StartsAt(s, p, OVERALL, 1);
      EndsAt(s, p, OVERALL, letter);
    }
  }

  lemma EndsAt(s: string, p: nat, word: string, letter: char -> bool)
    requires p + |word| < |s| && WordHere(s[p..], word, letter)
    ensures !IsWordChar(s[p + |word|], letter)
  {
    assert s[p..][|word|] == s[p + |word|];
  }

  lemma RunIsNotStrong(letter: char -> bool)
    ensures !PolicyOf("", RUN_LINE, letter).StrongConclusion?
  {
    RunLineFacts();
    RunPairs();
    RunLetters();
    RunHasNoOverall(letter);
    hide Strip, Lacks, LacksPair, Finds, IsQualitative, IsAppendix, IsStrong;
    assert "" + " " + RUN_LINE == " " + RUN_LINE;
    NotStrong(" " + RUN_LINE, letter);
  }

  /** What the heading may hold without being an appendix. */
  predicate IsBody(s: string) {
    IsPlainText(s) && LacksPair(s, 'o', 'u') && LacksPair(s, 'g', 'a') && LacksPair(s, 'i', 'm')
  }

  predicate IsPlainChar(c: char) { c < '\U{80}' && c != 'q' && c != 'Q' && c != 'x' && c != 'X' }

  predicate IsPlainText(s: string) { forall i | 0 <= i < |s| :: IsPlainChar(s[i]) }

  lemma BodyAppend(a: string, b: string)
    requires IsBody(a) && IsBody(b) && (a == "" || b == "" || a[|a| - 1] == ' ' || b[0] == ' ')
    ensures IsBody(a + b)
  {
    PairAppend(a, b, 'o', 'u');
    PairAppend(a, b, 'g', 'a');
    PairAppend(a, b, 'i', 'm');
    hide LacksPair, FoldChar;
  }

  lemma WithoutPair(s: string, c: char, d: char)
    requires Without(s, c) || Without(s, d)
    ensures LacksPair(s, c, d)
  {
    hide FoldChar;
  }

  lemma WordsArePlain()
    ensures IsPlainText(DRAFT) && IsPlainText(NOUN)
  {
  }

  lemma WordsLack()
    ensures Without(DRAFT, 'u') && Without(DRAFT, 'g') && Without(DRAFT, 'm')
    ensures Without(NOUN, 'u') && Without(NOUN, 'g')
  {
  }

  lemma NounHasNoPair()
    ensures LacksPair(NOUN, 'i', 'm')
  {
    assert forall i | 0 <= i < |NOUN| && FoldChar(NOUN[i]) == 'i' :: i == 11;
    assert NOUN[12] == 'o' && FoldChar('o') != 'm';
    hide FoldChar;
  }

  lemma WordsAreBody()
    ensures IsBody(DRAFT) && IsBody(NOUN)
  {
    WordsArePlain();
    WordsLack();
    NounHasNoPair();
    hide IsPlainText, Without, LacksPair;
    WithoutPair(DRAFT, 'o', 'u');
    WithoutPair(DRAFT, 'g', 'a');
    WithoutPair(DRAFT, 'i', 'm');
    WithoutPair(NOUN, 'o', 'u');
    WithoutPair(NOUN, 'g', 'a');
  }

  lemma FirstNotesArePlain()
    ensures IsPlainText(NOTE_1) && IsPlainText(NOTE_2)
  {
  }

  lemma LastNotesArePlain()
    ensures IsPlainText(NOTE_3) && IsPlainText(NOTE_4)
  {
  }

  lemma FirstNoteLacks()
    ensures Without(NOTE_1, 'u') && Without(NOTE_1, 'm')
  {
  }

  lemma SecondNoteLacks()
    ensures Without(NOTE_2, 'o') && Without(NOTE_2, 'g')
  {
  }

  lemma SecondNoteHasNoM()
    ensures Without(NOTE_2, 'm')
  {
  }

  lemma LastNotesLack()
    ensures Without(NOTE_3, 'm') && Without(NOTE_4, 'u') && Without(NOTE_4, 'g') && Without(NOTE_4, 'm')
  {
  }

  lemma NotePlaces()
    ensures forall i | 0 <= i < |NOTE_1| && FoldChar(NOTE_1[i]) == 'g' :: i == 6
    ensures forall i | 0 <= i < |NOTE_3| && FoldChar(NOTE_3[i]) == 'g' :: i == 24
    ensures forall i | 0 <= i < |NOTE_3| && FoldChar(NOTE_3[i]) == 'u' :: i == 13
    ensures NOTE_1[7] == 'h' && NOTE_3[25] == 'e' && NOTE_3[12] == ' '
  {
  }

  lemma NotesHaveNoPair()
    ensures LacksPair(NOTE_1, 'g', 'a') && LacksPair(NOTE_3, 'g', 'a') && LacksPair(NOTE_3, 'o', 'u')
  {
    NotePlaces();
    assert FoldChar('h') != 'a' && FoldChar('e') != 'a' && FoldChar(' ') != 'o';
    hide FoldChar;
  }

  lemma NotesAreBody()
    ensures IsBody(NOTE_1) && IsBody(NOTE_2) && IsBody(NOTE_3) && IsBody(NOTE_4)
  {
    FirstNotesArePlain();
    LastNotesArePlain();
    FirstNoteLacks();
    SecondNoteLacks();
    SecondNoteHasNoM();
    LastNotesLack();
    NotesHaveNoPair();
    hide IsPlainText, Without, LacksPair;
    WithoutPair(NOTE_1, 'o', 'u');
    WithoutPair(NOTE_1, 'i', 'm');
    WithoutPair(NOTE_2, 'o', 'u');
    WithoutPair(NOTE_2, 'g', 'a');
    WithoutPair(NOTE_2, 'i', 'm');
    WithoutPair(NOTE_3, 'i', 'm');
    WithoutPair(NOTE_4, 'o', 'u');
    WithoutPair(NOTE_4, 'g', 'a');
    WithoutPair(NOTE_4, 'i', 'm');
  }

  lemma NoteIsBody()
    ensures IsBody(DRAFT + NOUN + NO_CITATION)
  {
    WordsAreBody();
    NotesAreBody();
    assert NOTE_1[|NOTE_1| - 1] == ' ' && NOTE_2[|NOTE_2| - 1] == ' ' && NOTE_3[|NOTE_3| - 1] == ' ';
    hide IsBody;
    BodyAppend(DRAFT, NOUN);
    BodyAppend(NOTE_1, NOTE_2);
    BodyAppend(NOTE_1 + NOTE_2, NOTE_3);
    BodyAppend(NOTE_1 + NOTE_2 + NOTE_3, NOTE_4);
    NoteEnds();
    BodyAppend(DRAFT + NOUN, NO_CITATION);
  }

  lemma PlainIsAscii(s: string)
    requires IsPlainText(s)
    ensures IsAscii(s) && Lacks(s, "qx")
  {
    assert forall c | IsPlainChar(c) :: FoldChar(c) < '\U{80}' && FoldChar(c) !in "qx";
    hide FoldChar, IsPlainChar;
  }

  lemma NoSourceCoverage(s: string, letter: char -> bool)
    requires LacksPair(s, 'o', 'u')
    ensures !Finds(s, Word("source coverage", letter), letter, true)
  {
    hide LacksPair, Finds;
    PairNotFound(s, "source coverage", 1, letter, true);
  }

  lemma NoReleaseGate(s: string, letter: char -> bool)
    requires LacksPair(s, 'g', 'a')
    ensures !Finds(s, Word("release gate", letter), letter, true)
  {
    hide LacksPair, Finds;
    PairNotFound(s, "release gate", 8, letter, true);
  }

  lemma NoClaimValidation(s: string, letter: char -> bool)
    requires LacksPair(s, 'i', 'm')
    ensures !Finds(s, Word("claim validation", letter), letter, true)
  {
    hide LacksPair, Finds;
    PairNotFound(s, "claim validation", 3, letter, true);
  }

  lemma BodyIsNoAppendix(s: string, letter: char -> bool)
    requires IsBody(s)
    ensures !IsAppendix(s, letter)
  {
    PlainIsAscii(s);
    hide FoldChar, IsPlainText, LacksPair, Finds, IsAppendix, IsAscii, Lacks;
    NoSourceCoverage(s, letter);
    NoReleaseGate(s, letter);
    NoClaimValidation(s, letter);
    NotAppendix(s, letter);
  }

  lemma RunTurnsStrong(letter: char -> bool)
    ensures PolicyOf(DRAFT + NOUN + NO_CITATION, RUN_LINE, letter).StrongConclusion?
  {
    var heading := DRAFT + NOUN + NO_CITATION;
    RunLineFacts();
    RunIsOverall();
    NoteIsBody();
    NoteEnds();
    BodyIsNoAppendix(heading, letter);
    hide IsBody, IsAppendix, IsStrong, IsQualitative, Strip, IsOverall;
    BehindNoun(NO_CITATION, RUN_LINE);
    NounIsStrong(DRAFT, NO_CITATION + " " + RUN_LINE, letter);
  }

  /**
   Without strong evidence: `#[source:b] recommendation` becomes a heading that ends in the note, and below it a line
   that begins with `overall confidences` turns strong, because such a line is never read as qualitative.
   */
  lemma NewHeadingFailsWithoutStrong(lines: seq<string>, evidence: seq<Evidence>, letter: char -> bool)
    requires lines == [TITLE, RUN_LINE] && evidence == WEAK_ITEM
    ensures var w := SourceWording(letter);
      var repaired := Repaired(lines, w, evidence);
      && StrongIds(evidence, 2) == [] && Violations(lines, w, Table(evidence), 2) == [0]
      && Violations(repaired, w, Table(evidence), 2) != [] && Repaired(repaired, w, evidence) != repaired
  {
    WeakItemFacts();
    RunLineFacts();
    RunIsNotStrong(letter);
    RunTurnsStrong(letter);
    RunIsOverall();
    CitesFirst(RUN_LINE, evidence);
    assert RUN_LINE[0] == 'o' && Behind([]) == NO_CITATION;
    hide Table, PolicyOf, HeadingText, IsWeak, Tokens, StrongIds, Repaired, Violations, TextOf, CitesWeak, IsOverall;
    LineBelowFails(lines, evidence, letter);
  }
}
