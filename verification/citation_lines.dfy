/**
 What the repair does to the citations of a line: those in the plain spelling go, all others stay with their ids toned
 down like any other text. So it can be told from a line, whatever it looks like, which weak citations it keeps.
 */
module CitationLines {
  import opened Common
  import opened Text
  import opened CitationPolicy
  import opened CitationWording

  // ---------------------------------------------------------------- toning works piece by piece

  /** The word cannot reach into or across the brackets and the keyword of a citation. */
  predicate Fits(word: string) {
    && |word| >= 5 && word[1] != 'o' && word[1] != 'u'
    && forall i | 0 <= i < |word| :: IsLower(word[i]) || word[i] == ' '
  }

  predicate IsSeparator(c: char) { IsBracket(c) || c == ':' }

  lemma HereSplit(a: string, c: char, b: string, word: string, letter: char -> bool)
    requires Fits(word) && IsSeparator(c)
    ensures WordHere(a + ([c] + b), word, letter) <==> WordHere(a, word, letter)
  {
    var s := a + ([c] + b);
    assert s[|a|] == c && FoldChar(c) == c && c !in word;
    if |word| <= |a| {
      assert forall i | 0 <= i < |word| :: s[i] == a[i];
    } else {
      assert FoldChar(s[|a|]) != word[|a|];
    }
  }

  /** Toning works piece by piece. */
  lemma {:induction false} ReplaceSplit(a: string, c: char, b: string, word: string, other: string,
                                        letter: char -> bool, free: bool)
    requires Fits(word) && IsSeparator(c)
    ensures Replace(a + ([c] + b), word, other, letter, free)
         == Replace(a, word, other, letter, free) + ([c] + Replace(b, word, other, letter, true))
    decreases |a|
  {
    var s := a + ([c] + b);
    HereSplit(a, c, b, word, letter);
    if a == "" {
      assert s[0] == c && s[1..] == b;
    } else if free && WordHere(a, word, letter) {
      DropAppend(a, [c] + b, |word|);
      ReplaceSplit(a[|word|..], c, b, word, other, letter, false);
      AppendAssociates(other, Replace(a[|word|..], word, other, letter, false),
        [c] + Replace(b, word, other, letter, true));
    } else {
      assert s[0] == a[0];
      var next := !IsWordChar(a[0], letter);
      DropAppend(a, [c] + b, 1);
      ReplaceSplit(a[1..], c, b, word, other, letter, next);
      AppendAssociates([a[0]], Replace(a[1..], word, other, letter, next), [c] + Replace(b, word, other, letter, true));
    }
  }

  lemma {:induction false} ReplaceKeepsOut(s: string, word: string, other: string, letter: char -> bool, free: bool,
                                           bad: char -> bool)
    requires word != "" && other != ""
    requires forall i | 0 <= i < |s| :: !bad(s[i])
    requires forall i | 0 <= i < |other| :: !bad(other[i])
    ensures var r := Replace(s, word, other, letter, free); forall i | 0 <= i < |r| :: !bad(r[i])
    ensures s != "" ==> Replace(s, word, other, letter, free) != ""
    decreases |s|
  {
    if s != "" {
      if free && WordHere(s, word, letter) {
        ReplaceKeepsOut(s[|word|..], word, other, letter, false, bad);
      } else {
        ReplaceKeepsOut(s[1..], word, other, letter, !IsWordChar(s[0], letter), bad);
      }
    }
  }

  lemma KeywordFolds(keyword: string)
    requires IsKeyword(keyword) && |keyword| == 7
    ensures FoldChar(keyword[1]) == 'o' && FoldChar(keyword[2]) == 'u'
  {
    assert LowerChar(keyword[1..][0]) == "ource:"[0] && LowerChar(keyword[1..][1]) == "ource:"[1];
  }

  /** No toned word is found in a keyword. */
  lemma KeywordStays(keyword: string, word: string, other: string, letter: char -> bool)
    requires IsKeyword(keyword) && Fits(word) && |word| < |other|
    ensures var body := keyword[..|keyword| - 1];
      keyword == body + ":" && Replace(body, word, other, letter, true) == body
  {
    var body := keyword[..|keyword| - 1];
    KeywordEnds(keyword);
    if |keyword| == 7 { KeywordFolds(keyword); }
    hide FoldChar, Replace, Finds, Lower;
    NothingFits(body, word, letter, true);
    ReplaceGrows(body, word, other, letter, true);
  }

  lemma KeywordEnds(keyword: string)
    requires IsKeyword(keyword)
    ensures keyword == keyword[..|keyword| - 1] + ":"
  {
    if |keyword| == 7 {
      assert LowerChar(keyword[1..][5]) == "ource:"[5];
    }
  }

  lemma NothingFits(body: string, word: string, letter: char -> bool, free: bool)
    requires Fits(word) && |body| <= 6
    requires |body| == 6 ==> FoldChar(body[1]) == 'o' && FoldChar(body[2]) == 'u'
    requires |body| == 5 ==> FoldChar(body[1]) == 'u'
    ensures !Finds(body, Word(word, letter), letter, free)
  {
    if |body| >= 5 {
      assert !StartsWith(body, word);
      NothingFits(body[1..], word, letter, !IsWordChar(body[0], letter));
    } else {
      TooShortToFind(body, word, letter, free);
    }
  }

  lemma {:induction false} TooShortToFind(s: string, word: string, letter: char -> bool, free: bool)
    requires |s| < |word|
    ensures !Finds(s, Word(word, letter), letter, free)
  {
    if s != "" { TooShortToFind(s[1..], word, letter, !IsWordChar(s[0], letter)); }
  }

  lemma SpelledSplit(text: string, opening: char, body: string, id: string, rest: string)
    ensures text + (Spelled(opening, body + ":", id) + rest)
         == text + ([opening] + (body + ([':'] + (id + ([Closing(opening)] + rest)))))
  {
  }

  lemma ReplaceCited(text: string, opening: char, keyword: string, id: string, rest: string, word: string,
                     other: string, letter: char -> bool)
    requires IsOpening(opening) && IsKeyword(keyword) && Fits(word) && |word| < |other|
    ensures Replace(text + (Spelled(opening, keyword, id) + rest), word, other, letter, true)
         == Replace(text, word, other, letter, true)
            + (Spelled(opening, keyword, Replace(id, word, other, letter, true))
               + Replace(rest, word, other, letter, true))
  {
    var body, closing := keyword[..|keyword| - 1], Closing(opening);
    KeywordStays(keyword, word, other, letter);
    SpelledSplit(text, opening, body, id, rest);
    ReplaceSplit(text, opening, body + ([':'] + (id + ([closing] + rest))), word, other, letter, true);
    ReplaceSplit(body, ':', id + ([closing] + rest), word, other, letter, true);
    ReplaceSplit(id, closing, rest, word, other, letter, true);
    SpelledSplit(Replace(text, word, other, letter, true), opening, body, Replace(id, word, other, letter, true),
      Replace(rest, word, other, letter, true));
  }

  // ---------------------------------------------------------------- toning makes no citation

  /** A replacement begins as nothing in a keyword does, and has a space if the word it replaces has one. */
  predicate IsEntry(word: string, other: string) {
    && Fits(word) && |word| < |other| && NoBrackets(other) && (' ' in word ==> ' ' in other)
    && (other[0] == 't' || other[0] == 'd' || other[0] == 'l' || (other[0] == 'c' && other[1] == 'u'))
  }

  predicate Outside(c: char) { !IsTokenChar(c) }

  ghost predicate HasOutside(s: string) { exists p :: 0 <= p < |s| && Outside(s[p]) }

  lemma OutsideBehind(a: string, b: string)
    requires HasOutside(b)
    ensures HasOutside(a + b)
  {
    var p :| 0 <= p < |b| && Outside(b[p]);
    assert (a + b)[|a| + p] == b[p];
  }

  /** What is not an id does not become one. */
  lemma {:induction false} ReplaceKeepsOutside(s: string, word: string, other: string, letter: char -> bool, free: bool)
    requires IsEntry(word, other) && HasOutside(s)
    ensures HasOutside(Replace(s, word, other, letter, free))
    decreases |s|
  {
    var p :| 0 <= p < |s| && Outside(s[p]);
    if free && WordHere(s, word, letter) {
      if p < |word| {
        assert FoldChar(s[p]) == word[p] && word[p] == ' ';
        var q :| 0 <= q < |other| && other[q] == ' ';
        assert Replace(s, word, other, letter, free)[q] == ' ';
      } else {
        assert s[|word|..][p - |word|] == s[p];
        ReplaceKeepsOutside(s[|word|..], word, other, letter, false);
        OutsideBehind(other, Replace(s[|word|..], word, other, letter, false));
      }
    } else if p == 0 {
      assert Replace(s, word, other, letter, free)[0] == s[0];
    } else {
      assert s[1..][p - 1] == s[p];
      ReplaceKeepsOutside(s[1..], word, other, letter, !IsWordChar(s[0], letter));
      OutsideBehind([s[0]], Replace(s[1..], word, other, letter, !IsWordChar(s[0], letter)));
    }
  }

  /** A piece of the result in which no replacement begins has been copied. */
  lemma {:induction false} CopiedPrefix(s: string, word: string, other: string, letter: char -> bool, free: bool,
                                        n: nat)
    requires word != "" && |other| >= 2 && n <= |Replace(s, word, other, letter, free)|
    requires forall i | 0 <= i < n :: !(other[..2] <= Replace(s, word, other, letter, free)[i..])
    ensures n <= |s| && s[..n] == Replace(s, word, other, letter, free)[..n]
    decreases |s|
  {
    var r := Replace(s, word, other, letter, free);
    if n > 0 {
      assert r[0..] == r;
      if !(free && WordHere(s, word, letter)) {
        var next := !IsWordChar(s[0], letter);
        var rest := Replace(s[1..], word, other, letter, next);
        forall i | 0 <= i < n - 1
          ensures !(other[..2] <= rest[i..])
        {
          assert rest[i..] == r[i + 1..];
        }
        CopiedPrefix(s[1..], word, other, letter, next, n - 1);
        assert s[..n] == [s[0]] + s[1..][..n - 1] && r[..n] == [s[0]] + rest[..n - 1];
      }
    }
  }

  lemma KeywordShape(opening: char, r: string) returns (keyword: string)
    requires KeywordEnd([opening] + r, 1).Some?
    ensures IsKeyword(keyword) && keyword <= r && KeywordEnd([opening] + r, 1) == Some(1 + |keyword|)
  {
    var s := [opening] + r;
    keyword := r[..KeywordEnd(s, 1).value - 1];
    assert s[1] == r[0] && (|s| >= 8 ==> s[2..8] == r[1..7] == r[..7][1..]) && (|s| >= 4 ==> s[1..4] == r[..3]);
  }

  lemma NoReplacementInKeyword(keyword: string, r: string, word: string, other: string, i: nat)
    requires IsKeyword(keyword) && keyword <= r && IsEntry(word, other) && i < |keyword|
    ensures !(other[..2] <= r[i..])
  {
    assert r[i] == keyword[i] && (i + 1 < |r| ==> r[i..][1] == r[i + 1]);
    assert other[..2][0] == other[0] && other[..2][1] == other[1];
    if |keyword| == 7 && i > 0 {
      assert LowerChar(keyword[1..][i - 1]) == "ource:"[i - 1];
      if i == 4 { assert LowerChar(keyword[1..][4]) == "ource:"[4] && r[5] == keyword[5]; }
    }
  }

  /** A keyword of the result was there before. */
  lemma KeywordWasThere(opening: char, b: string, word: string, other: string, letter: char -> bool)
    returns (keyword: string)
    requires IsEntry(word, other) && KeywordEnd([opening] + Replace(b, word, other, letter, true), 1).Some?
    ensures IsKeyword(keyword) && keyword <= b
  {
    var r := Replace(b, word, other, letter, true);
    keyword := KeywordShape(opening, r);
    hide KeywordEnd, Replace;
    forall i | 0 <= i < |keyword|
      ensures !(other[..2] <= r[i..])
    {
      NoReplacementInKeyword(keyword, r, word, other, i);
    }
    CopiedPrefix(b, word, other, letter, true, |keyword|);
    assert b[..|keyword|] == r[..|keyword|] == keyword;
  }

  lemma BehindKeyword(keyword: string, rest: string, word: string, other: string, letter: char -> bool)
    requires IsKeyword(keyword) && Fits(word) && |word| < |other|
    ensures Replace(keyword + rest, word, other, letter, true) == keyword + Replace(rest, word, other, letter, true)
  {
    KeywordStays(keyword, word, other, letter);
    hide IsKeyword, Replace;
    var body := keyword[..|keyword| - 1];
    assert keyword + rest == body + ([':'] + rest);
    ReplaceSplit(body, ':', rest, word, other, letter, true);
    assert keyword + Replace(rest, word, other, letter, true)
        == body + ([':'] + Replace(rest, word, other, letter, true));
  }

  /** A citation of the result was one before. */
  lemma TokenWasThere(opening: char, b: string, word: string, other: string, letter: char -> bool)
    requires IsOpening(opening) && IsEntry(word, other)
    requires TokenAt([opening] + Replace(b, word, other, letter, true), 0).Some?
    ensures TokenAt([opening] + b, 0).Some?
  {
    var keyword := KeywordWasThere(opening, b, word, other, letter);
    var rest := b[|keyword|..];
    BehindKeyword(keyword, rest, word, other, letter);
    hide TokenAt, Replace, IsKeyword, IsEntry, Fits;
    assert b == keyword + rest;
    AppendAssociates([opening], keyword, rest);
    AppendAssociates([opening], keyword, Replace(rest, word, other, letter, true));
    IdWasThere(opening, keyword, rest, word, other, letter);
  }

  lemma IdWasThere(opening: char, keyword: string, rest: string, word: string, other: string, letter: char -> bool)
    requires IsOpening(opening) && IsKeyword(keyword) && IsEntry(word, other)
    requires TokenAt([opening] + keyword + Replace(rest, word, other, letter, true), 0).Some?
    ensures TokenAt([opening] + keyword + rest, 0).Some?
  {
    var n := IdShape(opening, keyword, Replace(rest, word, other, letter, true));
    var q := ClosedIdWasThere(rest, n, Closing(opening), word, other, letter);
    var id, last := rest[..q], rest[q + 1..];
    assert Spelled(opening, keyword, id) + last == [opening] + keyword + rest;
    assert NoBrackets(id);
    hide Replace, IsEntry, TokenAt;
    SpelledTokenAt(opening, keyword, id, last);
  }

  lemma ClosedIdWasThere(s: string, n: nat, closing: char, word: string, other: string, letter: char -> bool)
    returns (q: nat)
    requires IsEntry(word, other) && IsBracket(closing)
    requires var toned := Replace(s, word, other, letter, true);
      0 < n < |toned| && IsToken(toned[..n]) && toned[n] == closing
    ensures 0 < q < |s| && IsToken(s[..q]) && s[q] == closing
  {
    var toned := Replace(s, word, other, letter, true);
    q := RunEnd(s, 0, c => !IsBracket(c));
    var id := s[..q];
    ReplaceKeepsOut(id, word, other, letter, true, IsBracket);
    hide Replace, IsEntry, Fits, IsTokenChar, IsBracket;
    assert q == |s| ==> id == s;
    assert forall i | 0 <= i < n :: toned[..n][i] == toned[i];
    hide IsToken;
    if q < |s| {
      var to := Replace(id, word, other, letter, true);
      assert s == id + ([s[q]] + s[q + 1..]);
      ReplaceSplit(id, s[q], s[q + 1..], word, other, letter, true);
      assert toned == to + ([s[q]] + Replace(s[q + 1..], word, other, letter, true));
      FirstBracket(to, s[q], Replace(s[q + 1..], word, other, letter, true), n);
      if HasOutside(id) { ReplaceKeepsOutside(id, word, other, letter, true); }
    }
  }

  /** An id with a bracket behind it reaches up to the first bracket. */
  lemma FirstBracket(a: string, c: char, b: string, n: nat)
    requires NoBrackets(a) && IsBracket(c) && n < |a + ([c] + b)|
    requires (forall i | 0 <= i < n :: IsTokenChar((a + ([c] + b))[i])) && IsBracket((a + ([c] + b))[n])
    ensures n == |a| && (a + ([c] + b))[..n] == a && (a + ([c] + b))[n] == c
  {
    assert (a + ([c] + b))[|a|] == c;
  }

  /** A citation right behind an opening bracket and a keyword. */
  lemma IdShape(opening: char, keyword: string, rest: string) returns (n: nat)
    requires IsOpening(opening) && IsKeyword(keyword) && TokenAt([opening] + keyword + rest, 0).Some?
    ensures 0 < n < |rest| && IsToken(rest[..n]) && rest[n] == Closing(opening)
  {
    var s := [opening] + keyword + rest;
    assert s[1..1 + |keyword|] == keyword;
    KeywordFound(s, keyword);
    var found := TokenAt(s, 0).value;
    n := found.1 - found.0;
    assert forall i | 0 <= i < n :: rest[..n][i] == s[found.0 + i];
    assert rest[n] == s[found.1];
  }

  // ---------------------------------------------------------------- the citations of a toned text

  function OnlyTokens(ids: seq<string>): seq<string> {
    if ids == [] then [] else (if IsToken(ids[0]) then [ids[0]] else []) + OnlyTokens(ids[1..])
  }

  function ReplacedAll(ids: seq<string>, word: string, other: string, letter: char -> bool): seq<string>
    requires word != ""
  {
    if ids == [] then []
    else [Replace(ids[0], word, other, letter, true)] + ReplacedAll(ids[1..], word, other, letter)
  }

  /** The citations of a text in which a word has been replaced: those there were, if they still are ids. */
  lemma {:induction false} TokensOfReplaced(s: string, word: string, other: string, letter: char -> bool)
    requires IsEntry(word, other)
    ensures Tokens(Replace(s, word, other, letter, true)) == OnlyTokens(ReplacedAll(Tokens(s), word, other, letter))
    decreases |s|, 1
  {
    var p := RunEnd(s, 0, c => !IsOpening(c));
    var a := s[..p];
    ReplaceKeepsOut(a, word, other, letter, true, IsOpening);
    if p == |s| {
      assert a == s;
      NoOpeningNoTokens(s, 0);
      NoOpeningNoTokens(Replace(s, word, other, letter, true), 0);
    } else {
      var opening, b := s[p], s[p + 1..];
      assert s == a + ([opening] + b);
      ReplaceSplit(a, opening, b, word, other, letter, true);
      WordsHaveNoTokens(a, [opening] + b);
      WordsHaveNoTokens(Replace(a, word, other, letter, true), [opening] + Replace(b, word, other, letter, true));
      TokensBehindOpening(opening, b, word, other, letter);
    }
  }

  lemma {:induction false} TokensBehindOpening(opening: char, b: string, word: string, other: string,
                                               letter: char -> bool)
    requires IsOpening(opening) && IsEntry(word, other)
    ensures Tokens([opening] + Replace(b, word, other, letter, true))
         == OnlyTokens(ReplacedAll(Tokens([opening] + b), word, other, letter))
    decreases |b| + 1, 0
  {
    hide TokenAt, IsToken, NoBrackets;
    if TokenAt([opening] + b, 0).Some? {
      var keyword, id, rest := CitationShape(opening, b);
      SpelledTokens(opening, keyword, id, rest);
      CiteIsReplaced(opening, keyword, id, rest, b, word, other, letter);
      TokensOfReplaced(rest, word, other, letter);
      assert ([id] + Tokens(rest))[1..] == Tokens(rest);
    } else {
      TokensOfReplaced(b, word, other, letter);
      if TokenAt([opening] + Replace(b, word, other, letter, true), 0).Some? {
        TokenWasThere(opening, b, word, other, letter);
      } else {
        TokensSuffix([opening], b, 0);
        TokensSuffix([opening], Replace(b, word, other, letter, true), 0);
      }
    }
  }

  lemma Assembled(opening: char, keyword: string, id: string, rest: string)
    ensures [opening] + (keyword + (id + ([Closing(opening)] + rest))) == Spelled(opening, keyword, id) + rest
    ensures [opening] + (keyword + (id + ([Closing(opening)] + rest)))
         == [opening] + keyword + (id + ([Closing(opening)] + rest))
  {
  }

  lemma BehindShape(opening: char, b: string) returns (keyword: string, behind: string)
    requires TokenAt([opening] + b, 0).Some?
    ensures IsKeyword(keyword) && b == keyword + behind && [opening] + b == [opening] + keyword + behind
  {
    keyword := KeywordShape(opening, b);
    behind := b[|keyword|..];
  }

  lemma IdInside(opening: char, keyword: string, behind: string) returns (id: string, rest: string)
    requires IsOpening(opening) && IsKeyword(keyword) && TokenAt([opening] + keyword + behind, 0).Some?
    ensures IsToken(id) && behind == id + ([Closing(opening)] + rest)
  {
    var n := IdShape(opening, keyword, behind);
    id, rest := behind[..n], behind[n + 1..];
  }

  lemma CitationShape(opening: char, b: string) returns (keyword: string, id: string, rest: string)
    requires IsOpening(opening) && TokenAt([opening] + b, 0).Some?
    ensures IsKeyword(keyword) && id != "" && IsToken(id) && NoBrackets(id) && |rest| < |b|
    ensures [opening] + b == Spelled(opening, keyword, id) + rest
  {
    hide *;
    var behind;
    keyword, behind := BehindShape(opening, b);
    id, rest := IdInside(opening, keyword, behind);
    TokenHasNoBrackets(id);
    Assembled(opening, keyword, id, rest);
  }

  lemma TokenHasNoBrackets(id: string)
    requires IsToken(id)
    ensures NoBrackets(id) && id != ""
  {
  }

  lemma CiteIsReplaced(opening: char, keyword: string, id: string, rest: string, b: string, word: string, other: string,
                       letter: char -> bool)
    requires IsOpening(opening) && IsKeyword(keyword) && id != "" && NoBrackets(id) && IsEntry(word, other)
    requires [opening] + b == Spelled(opening, keyword, id) + rest
    ensures var toned := Replace(id, word, other, letter, true);
      Tokens([opening] + Replace(b, word, other, letter, true))
      == (if IsToken(toned) then [toned] else []) + Tokens(Replace(rest, word, other, letter, true))
  {
    var toned, last := Replace(id, word, other, letter, true), Replace(rest, word, other, letter, true);
    ReplaceKeepsOut(id, word, other, letter, true, IsBracket);
    ReplaceCited("", opening, keyword, id, rest, word, other, letter);
    ReplaceSplit("", opening, b, word, other, letter, true);
    assert "" + ([opening] + b) == "" + (Spelled(opening, keyword, id) + rest);
    assert Replace("", word, other, letter, true) == "";
    assert "" + ([opening] + Replace(b, word, other, letter, true))
        == [opening] + Replace(b, word, other, letter, true);
    assert "" + (Spelled(opening, keyword, toned) + last) == Spelled(opening, keyword, toned) + last;
    SpelledTokens(opening, keyword, toned, last);
  }

  function TonedAll(ids: seq<string>, table: seq<(string, string)>, letter: char -> bool): seq<string>
    requires Lengthens(table)
  {
    if ids == [] then [] else [ToneWith(ids[0], table, letter)] + TonedAll(ids[1..], table, letter)
  }

  ghost predicate AreEntries(table: seq<(string, string)>) {
    forall i | 0 <= i < |table| :: IsEntry(table[i].0, table[i].1)
  }

  lemma TonedFit()
    ensures forall i | 0 <= i < |TONED| :: Fits(TONED[i].0)
  {
    assert Fits("recommended") && Fits("recommendation") && Fits("winner") && Fits("leading option");
    assert Fits("best option") && Fits("safer") && Fits("safest");
    hide Fits;
  }

  lemma ReplacementsFit()
    ensures forall i | 0 <= i < |TONED| :: NoBrackets(TONED[i].1)
  {
    assert NoBrackets("tentatively suggested") && NoBrackets("draft recommendation");
    assert NoBrackets("current evidence leader");
    assert NoBrackets("lower-observed-risk") && NoBrackets("lowest-observed-risk");
    hide NoBrackets;
  }

  lemma SpacesStay()
    ensures forall i | 0 <= i < |TONED| && ' ' in TONED[i].0 :: ' ' in TONED[i].1
  {
    assert "current evidence leader"[7] == ' ';
    assert forall i | 0 <= i < |TONED| && (i < 3 || i > 4) :: ' ' !in TONED[i].0;
  }

  lemma TonedAreEntries()
    ensures AreEntries(TONED)
  {
    TonedFit();
    ReplacementsFit();
    SpacesStay();
    hide Fits, NoBrackets;
    forall i | 0 <= i < |TONED|
      ensures IsEntry(TONED[i].0, TONED[i].1)
    {
    }
  }

  lemma {:induction false} NoIdIsNoId(id: string, word: string, other: string, letter: char -> bool)
    requires IsEntry(word, other) && !IsToken(id)
    ensures !IsToken(Replace(id, word, other, letter, true))
  {
    if id != "" {
      assert HasOutside(id) by { var p :| 0 <= p < |id| && !IsTokenChar(id[p]); assert Outside(id[p]); }
      ReplaceKeepsOutside(id, word, other, letter, true);
    }
  }

  lemma {:induction false} OnlyTokensOnce(ids: seq<string>, word: string, other: string, letter: char -> bool)
    requires IsEntry(word, other)
    ensures OnlyTokens(ReplacedAll(OnlyTokens(ids), word, other, letter))
         == OnlyTokens(ReplacedAll(ids, word, other, letter))
  {
    hide IsToken;
    if ids != [] {
      var rest := OnlyTokens(ids[1..]);
      OnlyTokensOnce(ids[1..], word, other, letter);
      if IsToken(ids[0]) {
        assert ([ids[0]] + rest)[1..] == rest;
      } else {
        NoIdIsNoId(ids[0], word, other, letter);
        var first, last := Replace(ids[0], word, other, letter, true), ReplacedAll(ids[1..], word, other, letter);
        assert ([first] + last)[1..] == last;
        assert OnlyTokens(ids) == rest && OnlyTokens([first] + last) == [] + OnlyTokens(last);
      }
    }
  }

  lemma {:induction false} TonedStep(ids: seq<string>, table: seq<(string, string)>, letter: char -> bool)
    requires table != [] && Lengthens(table)
    ensures var last := table[|table| - 1];
      TonedAll(ids, table, letter) == ReplacedAll(TonedAll(ids, table[..|table| - 1], letter), last.0, last.1, letter)
  {
    if ids != [] {
      TonedStep(ids[1..], table, letter);
      var earlier := TonedAll(ids[1..], table[..|table| - 1], letter);
      assert TonedAll(ids, table[..|table| - 1], letter)[1..] == earlier;
    }
  }

  lemma {:induction false} NothingToned(ids: seq<string>, letter: char -> bool)
    ensures TonedAll(ids, [], letter) == ids
  {
    if ids != [] { NothingToned(ids[1..], letter); }
  }

  lemma {:induction false} TokensAreIds(s: string, p: nat)
    requires p <= |s|
    ensures OnlyTokens(TokensFrom(s, p)) == TokensFrom(s, p)
    decreases |s| - p
  {
    if p < |s| {
      var found := TokenAt(s, p);
      if found.Some? {
        TokensAreIds(s, found.value.1 + 1);
        var id := s[found.value.0..found.value.1];
        assert forall i | 0 <= i < |id| :: id[i] == s[found.value.0 + i];
        assert ([id] + TokensFrom(s, found.value.1 + 1))[1..] == TokensFrom(s, found.value.1 + 1);
      } else {
        TokensAreIds(s, p + 1);
      }
    }
  }

  /** The citations of a toned text are the toned ids of its citations, so far as they still are ids. */
  lemma {:induction false} TokensOfToned(s: string, table: seq<(string, string)>, letter: char -> bool)
    requires Lengthens(table) && AreEntries(table)
    ensures Tokens(ToneWith(s, table, letter)) == OnlyTokens(TonedAll(Tokens(s), table, letter))
  {
    hide TokensFrom, OnlyTokens, TonedAll, Replace, IsEntry, ReplacedAll;
    if table == [] {
      NothingToned(Tokens(s), letter);
      TokensAreIds(s, 0);
    } else {
      var n := |table| - 1;
      TokensOfToned(s, table[..n], letter);
      TokensOfReplaced(ToneWith(s, table[..n], letter), table[n].0, table[n].1, letter);
      OnlyTokensOnce(TonedAll(Tokens(s), table[..n], letter), table[n].0, table[n].1, letter);
      TonedStep(Tokens(s), table, letter);
    }
  }

  lemma SpaceDoesNotOpen()
    ensures forall c | IsSpace(c) :: !IsOpening(c)
  {
  }

  lemma TokensOfTrimmedEnd(s: string)
    ensures Tokens(RStrip(s)) == Tokens(s)
  {
    hide IsSpace, IsOpening, DropTrailing, TokensFrom;
    DropTrailingShape(s, IsSpace);
    SpaceDoesNotOpen();
    var r := RStrip(s);
    var trail := s[|r|..];
    assert s == r + trail && forall i | 0 <= i < |trail| :: trail[i] == s[|r| + i];
    if trail == "" {
      assert r == s;
    } else {
      TokensPrefix(r, trail, 0);
      NoOpeningNoTokens(trail, 0);
    }
  }

  lemma TokensOfStripped(s: string)
    ensures Tokens(Strip(s)) == Tokens(s)
  {
    DropLeadingShape(s, IsSpace);
    assert forall c | IsSpace(c) :: !IsOpening(c);
    hide IsSpace, IsOpening, DropLeading, DropTrailing;
    var r := DropLeading(s, IsSpace);
    var lead := s[..|s| - |r|];
    assert s == lead + r;
    WordsHaveNoTokens(lead, r);
    TokensOfTrimmedEnd(r);
  }

  // ---------------------------------------------------------------- which weak citations stay

  /** Once it is toned like the text around it, the id still is one of weak evidence. */
  predicate StaysWeak(table: map<string, Evidence>, id: string, letter: char -> bool) {
    IsToken(Tone(id, letter)) && IsWeak(table, Tone(id, letter))
  }

  predicate AnyStaysWeak(table: map<string, Evidence>, ids: seq<string>, letter: char -> bool) {
    exists i | 0 <= i < |ids| :: StaysWeak(table, ids[i], letter)
  }

  lemma {:induction false} WeakAmongToned(table: map<string, Evidence>, ids: seq<string>, letter: char -> bool)
    requires Lengthens(TONED)
    ensures AnyWeak(table, OnlyTokens(TonedAll(ids, TONED, letter))) <==> AnyStaysWeak(table, ids, letter)
  {
    hide IsToken, IsWeak, Lengthens, ToneWith;
    if ids != [] {
      var id, rest := ToneWith(ids[0], TONED, letter), TonedAll(ids[1..], TONED, letter);
      WeakAmongToned(table, ids[1..], letter);
      var front := if IsToken(id) then [id] else [];
      assert Tone(ids[0], letter) == id;
      assert ([id] + rest)[1..] == rest;
      AnyWeakAppend(table, front, OnlyTokens(rest));
      assert IsToken(id) ==> front[0] == id;
      assert AnyWeak(table, front) <==> StaysWeak(table, ids[0], letter);
      AnyStaysWeakFirst(table, ids, letter);
    }
  }

  lemma AnyStaysWeakFirst(table: map<string, Evidence>, ids: seq<string>, letter: char -> bool)
    requires ids != []
    ensures AnyStaysWeak(table, ids, letter)
       <==> StaysWeak(table, ids[0], letter) || AnyStaysWeak(table, ids[1..], letter)
  {
    hide StaysWeak;
    if i: nat :| i < |ids| && StaysWeak(table, ids[i], letter) {
      if i > 0 { assert ids[1..][i - 1] == ids[i]; }
    }
    if i: nat :| i < |ids[1..]| && StaysWeak(table, ids[1..][i], letter) { assert ids[i + 1] == ids[1..][i]; }
  }

  /**
   Which citations of weak evidence the text of a line keeps, whatever words are toned down around them: those that the
   removal leaves and whose ids, toned, still are ids of weak evidence.
   */
  lemma WeakCitationsThatStay(table: map<string, Evidence>, line: string, letter: char -> bool)
    ensures CitesWeak(table, Tone(TextOf(line), letter))
       <==> AnyStaysWeak(table, Tokens(WithoutCitations(line, 0)), letter)
  {
    TonedLengthens();
    TonedAreEntries();
    var left := WithoutCitations(line, 0);
    TokensOfTrimmedEnd(left);
    TokensOfStripped(RStrip(left));
    TokensOfToned(TextOf(line), TONED, letter);
    WeakAmongToned(table, Tokens(left), letter);
  }

  function OtherIds(pieces: seq<Piece>): seq<string> {
    if pieces == [] then []
    else (if pieces[0].Other? then [pieces[0].id] else []) + OtherIds(pieces[1..])
  }

  /** In a line of text and citations the removal leaves exactly the citations in another spelling. */
  lemma {:induction false} OtherCitationsAreLeft(pieces: seq<Piece>)
    requires ArePieces(pieces)
    ensures Tokens(WithoutCitations(Render(pieces), 0)) == OtherIds(pieces)
  {
    PlainCitationsAreRemoved(pieces);
    if pieces != [] {
      OtherCitationsAreLeft(pieces[1..]);
      PlainCitationsAreRemoved(pieces[1..]);
      var rest := Render(Kept(pieces[1..]));
      match pieces[0]
      case Words(text) =>
        KeptFirst(pieces);
        WordsHaveNoTokens(text, rest);
      case Cite(_) =>
      case Other(opening, keyword, id) =>
        KeptFirst(pieces);
        SpelledTokens(opening, keyword, id, rest);
    }
  }

  lemma KeptFirst(pieces: seq<Piece>)
    requires pieces != [] && !pieces[0].Cite?
    ensures Render(Kept(pieces)) == RenderPiece(pieces[0]) + Render(Kept(pieces[1..]))
  {
    assert Kept(pieces)[1..] == Kept(pieces[1..]);
  }
}
