/**
 Which words of a line decide whether it stays a strong conclusion when it is toned down: the words that are not toned,
 those of its heading, and `recommendation`, which its replacement repeats, keep it strong; `safer` and `safest`, whose
 replacements speak of risk, make it qualitative.
 */
module CitationWords {
  import opened Common
  import opened Text
  import opened CitationPolicy
  import opened CitationWording
  import opened CitationLines
  import opened CitationRepair

  // ---------------------------------------------------------------- words that do not overlap

  predicate DiffersAt(a: string, b: string, i: nat) { i < |a| && i < |b| && a[i] != b[i] }

  /** The two cannot stand at one place. */
  predicate Differ(a: string, b: string) {
    || DiffersAt(a, b, 0) || DiffersAt(a, b, 1) || DiffersAt(a, b, 2) || DiffersAt(a, b, 4) || DiffersAt(a, b, 9)
  }

  /** `word` cannot stand where a word within the phrase begins. */
  predicate Apart(phrase: string, word: string) {
    forall j | 1 <= j < |phrase| && phrase[j - 1] == ' ' :: Differ(phrase[j..], word)
  }

  predicate IsPhrase(phrase: string) {
    && phrase != "" && IsLower(phrase[|phrase| - 1])
    && forall i | 0 <= i < |phrase| :: IsLower(phrase[i]) || phrase[i] == ' '
  }

  lemma ApartRest(phrase: string, word: string)
    requires phrase != "" && Apart(phrase, word)
    ensures Apart(phrase[1..], word)
    ensures |phrase| > 1 && phrase[0] == ' ' ==> Differ(phrase[1..], word)
  {
    forall j | 1 <= j < |phrase[1..]| && phrase[1..][j - 1] == ' '
      ensures Differ(phrase[1..][j..], word)
    {
      var k := j + 1;
      assert phrase[1..][j - 1] == phrase[k - 1] && phrase[1..][j..] == phrase[k..];
    }
  }

  lemma DifferentStarts(s: string, a: string, b: string)
    requires Differ(a, b) && StartsWith(s, a)
    ensures !StartsWith(s, b)
  {
  }

  /** A phrase that stands somewhere is not changed by a replacement that stands apart from it. */
  lemma {:induction false} HereStays(s: string, phrase: string, word: string, other: string, letter: char -> bool,
                                     free: bool)
    requires WordHere(s, phrase, letter) && word != "" && IsLower(word[0])
    requires forall i | 0 <= i < |phrase| :: IsLower(phrase[i]) || phrase[i] == ' '
    requires Apart(phrase, word) && (free && phrase != "" ==> Differ(phrase, word))
    ensures WordHere(Replace(s, word, other, letter, free), phrase, letter)
    decreases |phrase|
  {
    var r := Replace(s, word, other, letter, free);
    if phrase == "" {
      assert s != "" ==> !IsWordChar(s[0], letter);
    } else {
      if free { DifferentStarts(s, phrase, word); }
      var next := !IsWordChar(s[0], letter);
      ApartRest(phrase, word);
      assert FoldChar(s[0]) == phrase[0];
      StartsRest(s, phrase, letter);
      HereStays(s[1..], phrase[1..], word, other, letter, next);
      assert r == [s[0]] + Replace(s[1..], word, other, letter, next);
      StartsCons(s[0], Replace(s[1..], word, other, letter, next), phrase, letter);
    }
  }

  lemma StartsRest(s: string, phrase: string, letter: char -> bool)
    requires phrase != "" && WordHere(s, phrase, letter)
    ensures WordHere(s[1..], phrase[1..], letter)
  {
    assert forall i | 0 <= i < |phrase| - 1 :: s[1..][i] == s[i + 1] && phrase[1..][i] == phrase[i + 1];
    if |s| > |phrase| { assert s[1..][|phrase| - 1] == s[|phrase|]; }
  }

  lemma StartsCons(c: char, s: string, phrase: string, letter: char -> bool)
    requires phrase != "" && FoldChar(c) == phrase[0] && WordHere(s, phrase[1..], letter)
    ensures WordHere([c] + s, phrase, letter)
  {
    var t := [c] + s;
    forall i | 0 <= i < |phrase|
      ensures FoldChar(t[i]) == phrase[i]
    {
      if i > 0 { assert t[i] == s[i - 1] && phrase[i] == phrase[1..][i - 1]; }
    }
    if |t| > |phrase| { assert t[|phrase|] == s[|phrase| - 1]; }
  }

  /** What is found in a text that begins with a word apart from it is found behind that word. */
  lemma {:induction false} SkipWord(s: string, word: string, phrase: string, letter: char -> bool, free: bool)
    requires IsPhrase(word) && StartsWith(s, word) && Finds(s, Word(phrase, letter), letter, free)
    requires Apart(word, phrase) && (free ==> Differ(word, phrase))
    ensures Finds(s[|word|..], Word(phrase, letter), letter, false)
    decreases |word|
  {
    if free { DifferentStarts(s, word, phrase); }
    var next := !IsWordChar(s[0], letter);
    assert FoldChar(s[0]) == word[0];
    assert Finds(s[1..], Word(phrase, letter), letter, next);
    if |word| > 1 {
      ApartRest(word, phrase);
      assert forall i | 0 <= i < |word| - 1 :: s[1..][i] == s[i + 1] && word[1..][i] == word[i + 1];
      SkipWord(s[1..], word[1..], phrase, letter, next);
      DropDrop(s, 1, |word| - 1);
    }
  }

  /** What is found in a text is found in it behind another. */
  lemma {:induction false} FoundBehind(front: string, s: string, here: string -> bool, letter: char -> bool, free: bool)
    requires front != "" && Finds(s, here, letter, !IsWordChar(front[|front| - 1], letter))
    ensures Finds(front + s, here, letter, free)
    decreases |front|
  {
    assert (front + s)[1..] == front[1..] + s;
    if |front| == 1 {
      assert front[1..] + s == s;
    } else {
      FoundBehind(front[1..], s, here, letter, !IsWordChar(front[0], letter));
    }
  }

  ghost predicate AreApart(phrase: string, word: string) {
    IsPhrase(phrase) && IsPhrase(word) && Differ(phrase, word) && Differ(word, phrase)
    && Apart(phrase, word) && Apart(word, phrase) && IsLower(word[0])
  }

  /** A phrase that is found stays found when a word apart from it is replaced. */
  lemma {:induction false} FindsStays(s: string, phrase: string, word: string, other: string, letter: char -> bool,
                                      free: bool)
    requires AreApart(phrase, word) && other != "" && IsLower(other[|other| - 1])
    requires Finds(s, Word(phrase, letter), letter, free)
    ensures Finds(Replace(s, word, other, letter, free), Word(phrase, letter), letter, free)
    decreases |s|
  {
    if free && WordHere(s, word, letter) {
      SkipWord(s, word, phrase, letter, free);
      FindsStays(s[|word|..], phrase, word, other, letter, false);
      LowerIsWord(other[|other| - 1], letter);
      FoundBehind(other, Replace(s[|word|..], word, other, letter, false), Word(phrase, letter), letter, free);
    } else {
      var next := !IsWordChar(s[0], letter);
      var r := Replace(s[1..], word, other, letter, next);
      assert ([s[0]] + r)[1..] == r;
      if free && WordHere(s, phrase, letter) {
        HereStays(s, phrase, word, other, letter, free);
      } else {
        FindsStays(s[1..], phrase, word, other, letter, next);
      }
    }
  }

  lemma LowerIsWord(c: char, letter: char -> bool)
    requires IsLower(c)
    ensures IsWordChar(c, letter)
  {
  }

  /** A replacement that ends in a phrase leaves that phrase where the word was. */
  lemma {:induction false} ReplacementIsFound(s: string, word: string, front: string, phrase: string,
                                              letter: char -> bool, free: bool)
    requires IsPhrase(word) && IsPhrase(phrase) && front != "" && !IsWordChar(front[|front| - 1], letter)
    requires Finds(s, Word(word, letter), letter, free)
    ensures Finds(Replace(s, word, front + phrase, letter, free), Word(phrase, letter), letter, free)
    decreases |s|
  {
    var other := front + phrase;
    if free && WordHere(s, word, letter) {
      var rest := s[|word|..];
      var r := Replace(rest, word, other, letter, false);
      assert rest != "" ==> rest[0] == s[|word|] && r != "" && r[0] == rest[0];
      PhraseStands(phrase, r, letter);
      FindsBehind(front, phrase + r, Word(phrase, letter), letter, free);
      AppendAssociates(front, phrase, r);
    } else {
      var next := !IsWordChar(s[0], letter);
      var r := Replace(s[1..], word, other, letter, next);
      assert ([s[0]] + r)[1..] == r;
      ReplacementIsFound(s[1..], word, front, phrase, letter, next);
    }
  }

  lemma PhraseStands(phrase: string, rest: string, letter: char -> bool)
    requires IsPhrase(phrase) && (rest == "" || !IsWordChar(rest[0], letter))
    ensures Finds(phrase + rest, Word(phrase, letter), letter, true)
  {
    assert forall i | 0 <= i < |phrase| :: (phrase + rest)[i] == phrase[i] && FoldChar(phrase[i]) == phrase[i];
    assert rest != "" ==> (phrase + rest)[|phrase|] == rest[0];
  }

  // ---------------------------------------------------------------- through the whole table

  ghost predicate IsApartFrom(phrase: string, entry: (string, string)) {
    AreApart(phrase, entry.0) && entry.1 != "" && IsLower(entry.1[|entry.1| - 1])
  }

  /** What is found after the first `k` entries of the table have been replaced is found when all have been. */
  lemma {:induction false} FindsStaysFrom(s: string, phrase: string, table: seq<(string, string)>, k: nat, n: nat,
                                          letter: char -> bool)
    requires Lengthens(table) && k <= n <= |table|
    requires forall i | k <= i < n :: IsApartFrom(phrase, table[i])
    requires Finds(ToneWith(s, table[..k], letter), Word(phrase, letter), letter, true)
    ensures Finds(ToneWith(s, table[..n], letter), Word(phrase, letter), letter, true)
  {
    hide Finds, Replace;
    if k < n {
      var m := n - 1;
      FindsStaysFrom(s, phrase, table, k, m, letter);
      assert table[..n][..m] == table[..m] && table[..n][m] == table[m];
      FindsStays(ToneWith(s, table[..m], letter), phrase, table[m].0, table[m].1, letter, true);
    }
  }

  lemma ReplacementsEndLower()
    ensures forall i | 0 <= i < |TONED| :: TONED[i].1 != "" && IsLower(TONED[i].1[|TONED[i].1| - 1])
  {
  }

  /** The strong words that toning leaves alone. */
  const KEPT_WORDS := [
    "overall confidence", "executive summary", "ip indemnity", "sso", "saml", "scim", "audit log",
    "pricing transparency"]

  predicate IsSingle(word: string) { word != "" && forall i | 0 <= i < |word| :: IsLower(word[i]) }

  lemma JoinedApart(first: string, second: string, word: string)
    requires IsSingle(first) && IsSingle(second) && Differ(second, word)
    ensures Apart(first + " " + second, word) && IsPhrase(first + " " + second)
  {
    var phrase := first + " " + second;
    assert forall i | 0 <= i < |first| :: phrase[i] == first[i];
    assert forall i | |first| < i < |phrase| :: phrase[i] == second[i - |first| - 1];
    forall j | 1 <= j < |phrase| && phrase[j - 1] == ' '
      ensures Differ(phrase[j..], word)
    {
      assert j == |first| + 1 && phrase[j..] == second;
    }
  }

  lemma SingleApart(word: string, other: string)
    requires IsSingle(word)
    ensures IsPhrase(word) && Apart(word, other)
  {
  }

  /** At no place where a toned word or the second of a toned pair stands. */
  predicate DiffersFromToned(phrase: string) {
    && Differ(phrase, "recommended") && Differ(phrase, "recommendation") && Differ(phrase, "winner")
    && Differ(phrase, "leading option") && Differ(phrase, "best option") && Differ(phrase, "safer")
    && Differ(phrase, "safest")
  }

  lemma DifferSwaps(a: string, b: string)
    requires Differ(a, b)
    ensures Differ(b, a)
  {
  }

  lemma TonedShapes()
    ensures IsSingle("recommended") && IsSingle("recommendation") && IsSingle("winner") && IsSingle("leading")
    ensures IsSingle("best") && IsSingle("option") && IsSingle("safer") && IsSingle("safest")
  {
  }

  /** A phrase and an entry, each apart from the other. */
  lemma EntryApart(phrase: string, i: nat)
    requires i < |TONED| && IsPhrase(phrase) && DiffersFromToned(phrase) && Differ("option", phrase)
    requires Apart(phrase, TONED[i].0)
    ensures IsApartFrom(phrase, TONED[i])
  {
    TonedShapes();
    ReplacementsEndLower();
    assert TONED[3].0 == "leading" + " " + "option" && TONED[4].0 == "best" + " " + "option";
    hide IsPhrase, Differ, Apart, IsSingle;
    DifferSwaps(phrase, TONED[i].0);
    if i == 3 {
      JoinedApart("leading", "option", phrase);
    } else if i == 4 {
      JoinedApart("best", "option", phrase);
    } else {
      SingleApart(TONED[i].0, phrase);
    }
  }

  lemma SingleIsApart(word: string, i: nat)
    requires i < |TONED| && IsSingle(word) && DiffersFromToned(word) && Differ("option", word)
    ensures IsApartFrom(word, TONED[i])
  {
    SingleApart(word, TONED[i].0);
    hide IsSingle, Differ, Apart, IsPhrase;
    EntryApart(word, i);
  }

  lemma PairIsApart(first: string, second: string, i: nat)
    requires i < |TONED| && IsSingle(first) && IsSingle(second)
    requires DiffersFromToned(second) && DiffersFromToned(first + " " + second)
    requires Differ("option", first + " " + second)
    ensures IsApartFrom(first + " " + second, TONED[i])
  {
    hide IsSingle, Differ, Apart, IsPhrase;
    JoinedApart(first, second, TONED[i].0);
    EntryApart(first + " " + second, i);
  }

  lemma SinglesAreApart(i: nat)
    requires i < |TONED|
    ensures IsApartFrom("sso", TONED[i]) && IsApartFrom("saml", TONED[i]) && IsApartFrom("scim", TONED[i])
  {
    assert IsSingle("sso") && IsSingle("saml") && IsSingle("scim");
    assert DiffersFromToned("sso") && DiffersFromToned("saml") && DiffersFromToned("scim");
    assert Differ("option", "sso") && Differ("option", "saml") && Differ("option", "scim");
    hide IsSingle, DiffersFromToned, Differ, IsApartFrom;
    SingleIsApart("sso", i);
    SingleIsApart("saml", i);
    SingleIsApart("scim", i);
  }

  lemma FirstPairsAreApart(i: nat)
    requires i < |TONED|
    ensures IsApartFrom("overall" + " " + "confidence", TONED[i])
    ensures IsApartFrom("executive" + " " + "summary", TONED[i])
  {
    assert IsSingle("overall") && IsSingle("confidence") && IsSingle("executive") && IsSingle("summary");
    var p, q := "overall" + " " + "confidence", "executive" + " " + "summary";
    assert p[0] == 'o' && p[1] == 'v' && q[0] == 'e';
    assert DiffersFromToned(p) && DiffersFromToned("confidence") && DiffersFromToned(q) && DiffersFromToned("summary");
    assert Differ("option", p) && Differ("option", q);
    hide IsSingle, DiffersFromToned, Differ, IsApartFrom;
    PairIsApart("overall", "confidence", i);
    PairIsApart("executive", "summary", i);
  }

  lemma MorePairsAreApart(i: nat)
    requires i < |TONED|
    ensures IsApartFrom("ip" + " " + "indemnity", TONED[i]) && IsApartFrom("audit" + " " + "log", TONED[i])
    ensures IsApartFrom("pricing" + " " + "transparency", TONED[i])
  {
    assert IsSingle("ip") && IsSingle("indemnity") && IsSingle("audit") && IsSingle("log");
    assert IsSingle("pricing") && IsSingle("transparency");
    var p, q, r := "ip" + " " + "indemnity", "audit" + " " + "log", "pricing" + " " + "transparency";
    assert p[0] == 'i' && q[0] == 'a' && r[0] == 'p';
    assert DiffersFromToned(p) && DiffersFromToned("indemnity") && DiffersFromToned(q) && DiffersFromToned("log");
    assert DiffersFromToned(r) && DiffersFromToned("transparency");
    assert Differ("option", p) && Differ("option", q) && Differ("option", r);
    hide IsSingle, DiffersFromToned, Differ, IsApartFrom;
    PairIsApart("ip", "indemnity", i);
    PairIsApart("audit", "log", i);
    PairIsApart("pricing", "transparency", i);
  }

  lemma KeptPairs()
    ensures KEPT_WORDS[0] == "overall" + " " + "confidence" && KEPT_WORDS[1] == "executive" + " " + "summary"
    ensures KEPT_WORDS[2] == "ip" + " " + "indemnity" && KEPT_WORDS[6] == "audit" + " " + "log"
    ensures KEPT_WORDS[7] == "pricing" + " " + "transparency"
  {
  }

  lemma KeptAreApart(k: nat, i: nat)
    requires k < |KEPT_WORDS| && i < |TONED|
    ensures IsApartFrom(KEPT_WORDS[k], TONED[i])
  {
    SinglesAreApart(i);
    FirstPairsAreApart(i);
    MorePairsAreApart(i);
    KeptPairs();
    hide IsApartFrom;
  }

  /** A strong word that is not toned is still there when a text has been toned. */
  lemma KeptWordStays(text: string, k: nat, letter: char -> bool)
    requires k < |KEPT_WORDS| && Finds(text, Word(KEPT_WORDS[k], letter), letter, true)
    ensures Finds(Tone(text, letter), Word(KEPT_WORDS[k], letter), letter, true)
  {
    TonedLengthens();
    hide IsApartFrom, Finds;
    forall i: nat | i < |TONED|
      ensures IsApartFrom(KEPT_WORDS[k], TONED[i])
    {
      KeptAreApart(k, i);
    }
    assert TONED[..0] == [] && TONED[..|TONED|] == TONED;
    FindsStaysFrom(text, KEPT_WORDS[k], TONED, 0, |TONED|, letter);
  }

  lemma NounIsApart(i: nat)
    requires i < |TONED| && i != 1
    ensures IsApartFrom("recommendation", TONED[i])
  {
    TonedShapes();
    ReplacementsEndLower();
    var noun := "recommendation";
    assert Differ(noun, "recommended") && Differ(noun, "winner") && Differ(noun, "leading option");
    assert Differ(noun, "best option") && Differ(noun, "safer") && Differ(noun, "safest") && Differ("option", noun);
    assert TONED[3].0 == "leading" + " " + "option" && TONED[4].0 == "best" + " " + "option";
    hide IsPhrase, Differ, Apart, IsSingle;
    DifferSwaps(noun, TONED[i].0);
    SingleApart(noun, TONED[i].0);
    if i == 3 {
      JoinedApart("leading", "option", noun);
    } else if i == 4 {
      JoinedApart("best", "option", noun);
    } else {
      SingleApart(TONED[i].0, noun);
    }
  }

  lemma FoundBeforeEntry(text: string, phrase: string, k: nat, letter: char -> bool)
    requires k < |TONED| && Lengthens(TONED) && Finds(text, Word(phrase, letter), letter, true)
    requires forall i | 0 <= i < k :: IsApartFrom(phrase, TONED[i])
    ensures Finds(ToneWith(text, TONED[..k], letter), Word(phrase, letter), letter, true)
  {
    hide IsApartFrom, Finds;
    assert TONED[..0] == [];
    FindsStaysFrom(text, phrase, TONED, 0, k, letter);
  }

  /** The replacement of a word that is found ends in a phrase, and nothing toned later takes that phrase away. */
  lemma ReplacementStays(text: string, k: nat, front: string, phrase: string, letter: char -> bool)
    requires k < |TONED| && Lengthens(TONED) && TONED[k].1 == front + phrase
    requires IsPhrase(TONED[k].0) && IsPhrase(phrase) && front != "" && !IsWordChar(front[|front| - 1], letter)
    requires Finds(ToneWith(text, TONED[..k], letter), Word(TONED[k].0, letter), letter, true)
    requires forall i | k < i < |TONED| :: IsApartFrom(phrase, TONED[i])
    ensures Finds(Tone(text, letter), Word(phrase, letter), letter, true)
  {
    hide IsApartFrom, Finds, IsPhrase;
    var n := k + 1;
    assert TONED[..n][..k] == TONED[..k] && TONED[..n][k] == TONED[k] && TONED[..|TONED|] == TONED;
    ReplacementIsFound(ToneWith(text, TONED[..k], letter), TONED[k].0, front, phrase, letter, true);
    FindsStaysFrom(text, phrase, TONED, n, |TONED|, letter);
  }

  lemma NounShape()
    ensures IsPhrase("recommendation") && TONED[1] == ("recommendation", "draft " + "recommendation")
  {
    TonedShapes();
    SingleApart("recommendation", "");
    assert TONED[1].0 == "recommendation" && TONED[1].1 == "draft " + "recommendation";
    hide IsPhrase, Differ, Apart, IsSingle;
  }

  /** `recommendation` is still there, behind `draft`. */
  lemma NounStays(text: string, letter: char -> bool)
    requires Finds(text, Word("recommendation", letter), letter, true)
    ensures Finds(Tone(text, letter), Word("recommendation", letter), letter, true)
  {
    var noun := "recommendation";
    TonedLengthens();
    NounShape();
    hide IsApartFrom, Finds, IsPhrase, IsSingle, Lengthens, Differ, Apart;
    forall i: nat | i < |TONED| && i != 1
      ensures IsApartFrom(noun, TONED[i])
    {
      NounIsApart(i);
    }
    FoundBeforeEntry(text, noun, 1, letter);
    ReplacementStays(text, 1, "draft ", noun, letter);
  }

  lemma SaferIsApart(i: nat)
    requires i < 5
    ensures IsApartFrom("safer", TONED[i]) && IsApartFrom("safest", TONED[i])
  {
    TonedShapes();
    ReplacementsEndLower();
    assert Differ("safer", TONED[i].0) && Differ("safest", TONED[i].0);
    assert Differ("option", "safer") && Differ("option", "safest");
    assert TONED[3].0 == "leading" + " " + "option" && TONED[4].0 == "best" + " " + "option";
    hide IsPhrase, Differ, Apart, IsSingle;
    ComparativeApart("safer", i);
    ComparativeApart("safest", i);
  }

  lemma ComparativeApart(word: string, i: nat)
    requires i < 5 && IsSingle(word) && Differ(word, TONED[i].0) && Differ("option", word)
    ensures IsApartFrom(word, TONED[i])
  {
    TonedShapes();
    ReplacementsEndLower();
    assert TONED[3].0 == "leading" + " " + "option" && TONED[4].0 == "best" + " " + "option";
    hide IsPhrase, Differ, Apart, IsSingle;
    DifferSwaps(word, TONED[i].0);
    SingleApart(word, TONED[i].0);
    if i == 3 {
      JoinedApart("leading", "option", word);
    } else if i == 4 {
      JoinedApart("best", "option", word);
    } else {
      SingleApart(TONED[i].0, word);
    }
  }

  lemma SuperlativeIsApart()
    ensures IsApartFrom("safest", TONED[5]) && IsApartFrom("risk", TONED[6])
  {
    TonedShapes();
    ReplacementsEndLower();
    assert IsSingle("risk");
    assert Differ("safest", "safer") && Differ("safer", "safest");
    assert Differ("risk", "safest") && Differ("safest", "risk");
    hide Differ, Apart, IsSingle, IsPhrase;
    SingleApart("safest", "safer");
    SingleApart("safer", "safest");
    SingleApart("risk", "safest");
    SingleApart("safest", "risk");
  }

  /** Where something is called safer or safest, the toned text speaks of risk. */
  lemma SaferBecomesRisk(text: string, letter: char -> bool)
    requires Finds(text, Word("safer", letter), letter, true) || Finds(text, Word("safest", letter), letter, true)
    ensures Finds(Tone(text, letter), Word("risk", letter), letter, true)
  {
    TonedLengthens();
    SuperlativeIsApart();
    assert IsPhrase("safer") && IsPhrase("safest") && IsPhrase("risk");
    assert TONED[5].1 == "lower-observed-" + "risk" && TONED[6].1 == "lowest-observed-" + "risk";
    hide IsApartFrom, Finds, IsPhrase;
    forall i: nat | i < 5
      ensures IsApartFrom("safer", TONED[i]) && IsApartFrom("safest", TONED[i])
    {
      SaferIsApart(i);
    }
    if Finds(text, Word("safer", letter), letter, true) {
      FoundBeforeEntry(text, "safer", 5, letter);
      ReplacementStays(text, 5, "lower-observed-", "risk", letter);
    } else {
      FoundBeforeEntry(text, "safest", 6, letter);
      ReplacementStays(text, 6, "lowest-observed-", "risk", letter);
    }
  }

  // ---------------------------------------------------------------- what it means for a line

  /** What is found in a text is found when more follows that is no part of a word. */
  lemma {:induction false} FoundBefore(s: string, phrase: string, rest: string, letter: char -> bool, free: bool)
    requires rest != "" && !IsWordChar(rest[0], letter) && phrase != ""
    requires Finds(s, Word(phrase, letter), letter, free)
    ensures Finds(s + rest, Word(phrase, letter), letter, free)
  {
    var t := s + rest;
    assert t[0] == s[0] && t[1..] == s[1..] + rest;
    if free && WordHere(s, phrase, letter) {
      assert forall i | 0 <= i < |phrase| :: t[i] == s[i];
      assert t[|phrase|] == if |s| == |phrase| then rest[0] else s[|phrase|];
    } else {
      FoundBefore(s[1..], phrase, rest, letter, !IsWordChar(s[0], letter));
    }
  }

  function TonedWording(heading: string, text: string, ids: seq<string>, letter: char -> bool): string
    requires ids != []
  {
    heading + " " + (Tone(text, letter) + " " + References(ids))
  }

  lemma FoundInText(heading: string, text: string, phrase: string, ids: seq<string>, letter: char -> bool)
    requires ids != [] && phrase != "" && Finds(Tone(text, letter), Word(phrase, letter), letter, true)
    ensures Finds(TonedWording(heading, text, ids, letter), Word(phrase, letter), letter, true)
  {
    var toned, rest := Tone(text, letter), " " + References(ids);
    hide Finds, Tone, References;
    FoundBefore(toned, phrase, rest, letter, true);
    AppendAssociates(toned, " ", References(ids));
    FindsBehind(heading + " ", toned + rest, Word(phrase, letter), letter, true);
  }

  lemma FoundInHeading(heading: string, text: string, phrase: string, ids: seq<string>, letter: char -> bool)
    requires ids != [] && phrase != "" && Finds(heading, Word(phrase, letter), letter, true)
    ensures Finds(TonedWording(heading, text, ids, letter), Word(phrase, letter), letter, true)
  {
    var rest := Tone(text, letter) + " " + References(ids);
    hide Finds, Tone, References;
    AppendAssociates(heading, " ", rest);
    FoundBefore(heading, phrase, " " + rest, letter, true);
  }

  /** A strong word of the heading, one of the text that is not toned, or `recommendation`. */
  predicate HasKeptWord(heading: string, text: string, letter: char -> bool) {
    || FindsAny(heading, STRONG_WORDS, letter) || FindsAny(text, KEPT_WORDS, letter)
    || Finds(text, Word("recommendation", letter), letter, true)
  }

  lemma KeptAreStrong(k: nat)
    requires k < |KEPT_WORDS|
    ensures KEPT_WORDS[k] in STRONG_WORDS && KEPT_WORDS[k] != ""
  {
    assert KEPT_WORDS[k] == STRONG_WORDS[[0, 9, 11, 12, 13, 14, 15, 16][k]];
  }

  /** Any such word keeps a toned line strong. */
  lemma KeptWordsStayStrong(heading: string, text: string, ids: seq<string>, letter: char -> bool)
    requires ids != [] && HasKeptWord(heading, text, letter)
    ensures IsStrong(TonedWording(heading, text, ids, letter), letter)
  {
    hide Finds, TonedWording;
    assert STRONG_WORDS[7] == "recommendation" && forall i | 0 <= i < |STRONG_WORDS| :: STRONG_WORDS[i] != "";
    if i: nat :| i < |STRONG_WORDS| && Finds(heading, Word(STRONG_WORDS[i], letter), letter, true) {
      FoundInHeading(heading, text, STRONG_WORDS[i], ids, letter);
    } else if k: nat :| k < |KEPT_WORDS| && Finds(text, Word(KEPT_WORDS[k], letter), letter, true) {
      KeptAreStrong(k);
      KeptWordStays(text, k, letter);
      FoundInText(heading, text, KEPT_WORDS[k], ids, letter);
    } else {
      NounStays(text, letter);
      FoundInText(heading, text, "recommendation", ids, letter);
    }
  }

  /** `safer` and `safest` make a toned line qualitative, so that no line with one of them survives its repair. */
  lemma SaferNeverSurvives(heading: string, line: string, evidence: seq<Evidence>, letter: char -> bool)
    requires Finds(TextOf(line), Word("safer", letter), letter, true)
          || Finds(TextOf(line), Word("safest", letter), letter, true)
    ensures !Survives(heading, line, evidence, letter)
  {
    var text, ids := TextOf(line), StrongIds(evidence, 2);
    SaferBecomesRisk(text, letter);
    assert QUALITATIVE_WORDS[1] == "risk";
    hide Finds, Tone, IsStrong, IsAppendix, TextOf, StrongIds, IsToned, IsOverall, HeadingText;
    if ids != [] { FoundInText(heading, text, "risk", ids, letter); }
  }

  /**
   Exactly when a toned line with such a word survives: it is not under an appendix, not qualitative once it is toned,
   no heading, and still cites something weak, beside strong evidence.
   */
  lemma KeptWordSurvivesExactlyWhen(heading: string, line: string, evidence: seq<Evidence>, letter: char -> bool)
    requires IsToned(TextOf(line), letter) && !IsOverall(TextOf(line)) && HasKeptWord(heading, TextOf(line), letter)
    ensures var ids := StrongIds(evidence, 2);
      Survives(heading, line, evidence, letter)
      <==> ids != [] && HeadingText(TextOf(line)).None? && !IsAppendix(heading, letter)
           && !IsQualitative(TonedWording(heading, TextOf(line), ids, letter), letter)
           && (AnyStaysWeak(Table(evidence), Tokens(WithoutCitations(line, 0)), letter) || ReferencesAreWeak(evidence))
  {
    var ids := StrongIds(evidence, 2);
    hide HasKeptWord, IsStrong, IsQualitative, IsAppendix, TextOf, StrongIds, IsToned, IsOverall, HeadingText, Tone;
    hide Table, Tokens, AnyStaysWeak, ReferencesAreWeak, WithoutCitations;
    if ids != [] { KeptWordsStayStrong(heading, TextOf(line), ids, letter); }
  }
}
