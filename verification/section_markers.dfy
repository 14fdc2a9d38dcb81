/** Printing and parsing the structured comment that may precede a report heading. */
module SectionMarkers {
  import opened Common
  import opened Text

  datatype Layer = Core | Support | Audit

  datatype Marker = Marker(key: Option<string>, layer: Option<Layer>)

  function LayerText(layer: Layer): string {
    match layer
    case Core => "core"
    case Support => "support"
    case Audit => "audit"
  }

  function LayerOfText(text: string): Option<Layer> {
    if text == "core" then Some(Core)
    else if text == "support" then Some(Support)
    else if text == "audit" then Some(Audit)
    else None
  }

  predicate IsKeyChar(c: char) { IsLower(c) || IsDigit(c) || c == '_' || c == ':' || c == '-' }

  function SafeKey(key: string, fold: string -> string): string { Filter(fold(key), IsKeyChar) }

  const OPENING := "<!--"
  const TAG := "report-section:"
  const CLOSING := "-->"

  /** The attributes between the tag and the end of the comment. */
  function Attributes(safeKey: string, layer: Layer): string {
    "key=" + safeKey + " layer=" + LayerText(layer) + " "
  }

  /** `fold` is the case folding of the key. */
  function Print(key: string, layer: Layer, fold: string -> string): string {
    OPENING + " " + TAG + Attributes(SafeKey(key, fold), layer) + CLOSING
  }

  // ---------------------------------------------------------------- parsing

  predicate IsNameStart(c: char) { IsLower(c) || IsUpper(c) || c == '_' }

  predicate IsNameChar(c: char) { IsNameStart(c) || IsDigit(c) || c == '-' }

  predicate IsValueChar(c: char) { IsLower(c) || IsUpper(c) || IsDigit(c) || c == '_' || c == ':' || c == '-' }

  /** All `name=value` pairs, found from left to right without overlap. */
  function FindPairs(s: string, p: nat): seq<(string, string)>
    requires p <= |s|
    decreases |s| - p
  {
    if p == |s| then []
    else if !IsNameStart(s[p]) then FindPairs(s, p + 1)
    else
      var e := RunEnd(s, p, IsNameChar);
      if e + 1 < |s| && s[e] == '=' && IsValueChar(s[e + 1]) then
        var v := RunEnd(s, e + 1, IsValueChar);
        [(s[p..e], s[e + 1..v])] + FindPairs(s, v)
      else FindPairs(s, p + 1)
  }

  /** The value of the last pair whose lower-cased name is `name`. */
  function Lookup(pairs: seq<(string, string)>, name: string): Option<string> {
    if pairs == [] then None
    else if Lower(pairs[|pairs| - 1].0) == name then Some(pairs[|pairs| - 1].1)
    else Lookup(pairs[..|pairs| - 1], name)
  }

  predicate StartsWith(s: string, prefix: string) { |prefix| <= |s| && s[..|prefix|] == prefix }

  predicate EndsWith(s: string, suffix: string) { |suffix| <= |s| && s[|s| - |suffix|..] == suffix }

  /** What stands between the tag and the end of a comment that is a section marker. */
  function Inner(line: string): Option<string> {
    var s := Strip(line);
    if !StartsWith(s, OPENING) then None else
      var rest := DropLeading(s[|OPENING|..], IsSpace);
      if !StartsWith(rest, TAG) then None else
        var t := rest[|TAG|..];
        if !EndsWith(t, CLOSING) || '>' in t[..|t| - |CLOSING|] then None
        else Some(t[..|t| - |CLOSING|])
  }

  function MarkerOf(pairs: seq<(string, string)>): Option<Marker> {
    var layerText, keyText := Lookup(pairs, "layer"), Lookup(pairs, "key");
    var layer := if layerText.Some? then LayerOfText(layerText.value) else None;
    var safe := if keyText.Some? then Filter(Lower(keyText.value), IsKeyChar) else "";
    var key := if safe == "" then None else Some(safe);
    if key.None? && layer.None? then None else Some(Marker(key, layer))
  }

  function Parse(line: string): Option<Marker> {
    var inner := Inner(line);
    if inner.None? then None else MarkerOf(FindPairs(inner.value, 0))
  }

  // ---------------------------------------------------------------- the round trip

  /** Case folding leaves text alone that consists of key characters only. */
  ghost predicate Folds(fold: string -> string) {
    forall s | AllKeyChars(s) :: fold(s) == s
  }

  predicate AllKeyChars(s: string) { forall i | 0 <= i < |s| :: IsKeyChar(s[i]) }

  lemma {:induction false} FilterKeeps(s: string)
    requires AllKeyChars(s)
    ensures Filter(s, IsKeyChar) == s
  {
    if s != [] { FilterKeeps(s[1..]); }
  }

  lemma SafeKeyIsSafe(key: string, fold: string -> string)
    ensures AllKeyChars(SafeKey(key, fold))
  {
    FilterKeepsOnly(fold(key), IsKeyChar);
  }

  lemma LowerKeeps(s: string)
    requires AllKeyChars(s)
    ensures Lower(s) == s
  {
  }

  /** A pair printed as `name=value `, wherever it starts, is found as it was printed. */
  lemma PairAt(s: string, p: nat, name: string, value: string)
    requires name != "" && IsNameStart(name[0]) && forall i | 0 <= i < |name| :: IsNameChar(name[i])
    requires value != "" && forall i | 0 <= i < |value| :: IsValueChar(value[i])
    requires p + |name| + 1 + |value| < |s|
    requires s[p..p + |name|] == name && s[p + |name|] == '='
    requires s[p + |name| + 1..p + |name| + 1 + |value|] == value && s[p + |name| + 1 + |value|] == ' '
    ensures FindPairs(s, p) == [(name, value)] + FindPairs(s, p + |name| + 1 + |value|)
  {
    var e := p + |name|;
    var v := e + 1 + |value|;
    assert forall i | p <= i < e :: s[i] == s[p..e][i - p];
    assert forall i | e + 1 <= i < v :: s[i] == s[e + 1..v][i - e - 1];
    RunEndIs(s, p, IsNameChar, e);
    RunEndIs(s, e + 1, IsValueChar, v);
  }

  /** The pairs found in printed attributes are the two that were printed, or one when the key is empty. */
  lemma PrintedPairs(safeKey: string, layer: Layer)
    requires AllKeyChars(safeKey)
    ensures FindPairs(Attributes(safeKey, layer), 0)
         == (if safeKey == "" then [] else [("key", safeKey)]) + [("layer", LayerText(layer))]
  {
    var s, k := Attributes(safeKey, layer), |safeKey|;
    AttributesShape(safeKey, layer);
    hide Attributes, LayerText, FindPairs;
    PrintedLayer(s, 4 + k, layer);
    if safeKey == "" {
      EmptyKeyIsSkipped(s);
    } else {
      PairAt(s, 0, "key", safeKey);
    }
  }

  lemma AttributesShape(safeKey: string, layer: Layer)
    ensures var s, k, text := Attributes(safeKey, layer), |safeKey|, LayerText(layer);
      && |s| == 12 + k + |text|
      && s[..3] == "key" && s[3] == '=' && s[4..4 + k] == safeKey && s[4 + k] == ' '
      && s[5 + k..10 + k] == "layer" && s[10 + k] == '=' && s[11 + k..11 + k + |text|] == text
      && s[11 + k + |text|] == ' '
  {
  }

  lemma PrintedLayer(s: string, p: nat, layer: Layer)
    requires var text := LayerText(layer);
      && |s| == p + 8 + |text| && s[p] == ' '
      && s[p + 1..p + 6] == "layer" && s[p + 6] == '=' && s[p + 7..p + 7 + |text|] == text
      && s[p + 7 + |text|] == ' '
    ensures FindPairs(s, p) == [("layer", LayerText(layer))]
  {
    PairAt(s, p + 1, "layer", LayerText(layer));
    assert FindPairs(s, |s| - 1) == FindPairs(s, |s|) == [];
  }

  lemma EmptyKeyIsSkipped(s: string)
    requires |s| > 4 && s[..3] == "key" && s[3] == '=' && s[4] == ' '
    ensures FindPairs(s, 0) == FindPairs(s, 4)
  {
    assert s[0] == s[..3][0] && s[1] == s[..3][1] && s[2] == s[..3][2];
    RunEndIs(s, 0, IsNameChar, 3);
    RunEndIs(s, 1, IsNameChar, 3);
    RunEndIs(s, 2, IsNameChar, 3);
    assert FindPairs(s, 0) == FindPairs(s, 1);
    assert FindPairs(s, 1) == FindPairs(s, 2);
    assert FindPairs(s, 2) == FindPairs(s, 3);
    assert FindPairs(s, 3) == FindPairs(s, 4);
  }

  lemma AttributesAreClosed(safeKey: string, layer: Layer)
    requires AllKeyChars(safeKey)
    ensures '>' !in Attributes(safeKey, layer) && '\n' !in Attributes(safeKey, layer)
  {
    assert '>' !in safeKey && '\n' !in safeKey;
  }

  /** Reading back a comment gives exactly what was put between its tag and its end. */
  lemma InnerOf(inner: string)
    requires '>' !in inner
    ensures Inner(OPENING + " " + TAG + inner + CLOSING) == Some(inner)
  {
    var line := OPENING + " " + TAG + inner + CLOSING;
    var rest := TAG + inner + CLOSING;
    CommentShape(inner);
    SkipOneSpace(rest);
    InnerShape(line, rest, inner);
  }

  lemma CommentShape(inner: string)
    ensures var line, rest := OPENING + " " + TAG + inner + CLOSING, TAG + inner + CLOSING;
      && line[0] == '<' && line[|line| - 1] == '>'
      && line[..|OPENING|] == OPENING && line[|OPENING|..] == " " + rest
      && rest[0] == 'r' && rest[..|TAG|] == TAG && rest[|TAG|..] == inner + CLOSING
  {
  }

  lemma InnerShape(line: string, rest: string, inner: string)
    requires line != "" && !IsSpace(line[0]) && !IsSpace(line[|line| - 1])
    requires StartsWith(line, OPENING) && DropLeading(line[|OPENING|..], IsSpace) == rest
    requires StartsWith(rest, TAG) && rest[|TAG|..] == inner + CLOSING && '>' !in inner
    ensures Inner(line) == Some(inner)
  {
    TrimKeeps(line, IsSpace);
    TakeAppend(inner, CLOSING);
  }

  lemma SkipOneSpace(rest: string)
    requires rest != "" && !IsSpace(rest[0])
    ensures DropLeading(" " + rest, IsSpace) == rest
  {
    assert (" " + rest)[1..] == rest;
  }

  /**
   Whatever the key, parsing a printed marker gives the layer and the folded, filtered key, and nothing else: no key
   can add an attribute or end the comment early.
   */
  lemma PrintParseRoundTrip(key: string, layer: Layer, fold: string -> string)
    ensures var safe := SafeKey(key, fold);
      && Inner(Print(key, layer, fold)) == Some(Attributes(safe, layer))
      && Parse(Print(key, layer, fold)) == Some(Marker(if safe == "" then None else Some(safe), Some(layer)))
  {
    var safe := SafeKey(key, fold);
    SafeKeyIsSafe(key, fold);
    AttributesAreClosed(safe, layer);
    InnerOf(Attributes(safe, layer));
    assert OPENING + " " + TAG + Attributes(safe, layer) + CLOSING == Print(key, layer, fold);
    PrintedPairs(safe, layer);
    PrintedMarker(safe, layer);
  }

  lemma PrintedMarker(safe: string, layer: Layer)
    requires AllKeyChars(safe)
    ensures MarkerOf((if safe == "" then [] else [("key", safe)]) + [("layer", LayerText(layer))])
         == Some(Marker(if safe == "" then None else Some(safe), Some(layer)))
  {
    var pairs := (if safe == "" then [] else [("key", safe)]) + [("layer", LayerText(layer))];
    LowerKeeps("layer");
    LowerKeeps("key");
    LowerKeeps(safe);
    FilterKeeps(safe);
    assert "layer" != "key";
    assert Lookup(pairs, "layer") == Some(LayerText(layer));
    if safe != "" {
      assert pairs[..1] == [("key", safe)];
      assert Lookup(pairs, "key") == Some(safe);
    } else {
      assert pairs == [("layer", LayerText(layer))];
      assert Lower("layer") != "key";
      assert Lookup(pairs, "key") == Lookup(pairs[..0], "key") == None;
    }
  }

  /** Keys that come out of the parser are made of key characters. */
  lemma ParsedKeyIsSafe(line: string)
    ensures Parse(line).Some? && Parse(line).value.key.Some? ==> AllKeyChars(Parse(line).value.key.value)
  {
    if Parse(line).Some? && Parse(line).value.key.Some? {
      FilterKeepsOnly(Lower(Lookup(FindPairs(Inner(line).value, 0), "key").value), IsKeyChar);
    }
  }

  /** A marker read with both of its attributes survives printing and reading again. */
  lemma ParsePrintRoundTrip(line: string, fold: string -> string)
    requires Folds(fold)
    requires Parse(line).Some? && Parse(line).value.key.Some? && Parse(line).value.layer.Some?
    ensures var marker := Parse(line).value;
      Parse(Print(marker.key.value, marker.layer.value, fold)) == Some(marker)
  {
    var marker := Parse(line).value;
    ParsedKeyIsSafe(line);
    FilterKeeps(marker.key.value);
    PrintParseRoundTrip(marker.key.value, marker.layer.value, fold);
  }

  // ---------------------------------------------------------------- the text of a marker

  const HEAD := "<!-- report-section:key="
  const CORE_TAIL := " layer=core -->"
  const SUPPORT_TAIL := " layer=support -->"
  const AUDIT_TAIL := " layer=audit -->"

  /** The comment, letter by letter, that stands for a key of key characters. */
  lemma MarkerText(safeKey: string, fold: string -> string)
    requires AllKeyChars(safeKey) && Folds(fold)
    ensures Print(safeKey, Core, fold) == HEAD + safeKey + CORE_TAIL
    ensures Print(safeKey, Support, fold) == HEAD + safeKey + SUPPORT_TAIL
    ensures Print(safeKey, Audit, fold) == HEAD + safeKey + AUDIT_TAIL
  {
    FilterKeeps(safeKey);
    Pieces();
    PrintedWith(HEAD, safeKey, Core, fold, CORE_TAIL);
    PrintedWith(HEAD, safeKey, Support, fold, SUPPORT_TAIL);
    PrintedWith(HEAD, safeKey, Audit, fold, AUDIT_TAIL);
  }

  lemma Pieces()
    ensures OPENING + " " + TAG + "key=" == HEAD
    ensures " layer=" + LayerText(Core) + " " + CLOSING == CORE_TAIL
    ensures " layer=" + LayerText(Support) + " " + CLOSING == SUPPORT_TAIL
    ensures " layer=" + LayerText(Audit) + " " + CLOSING == AUDIT_TAIL
  {
  }

  lemma PrintedWith(head: string, safeKey: string, layer: Layer, fold: string -> string, tail: string)
    requires SafeKey(safeKey, fold) == safeKey
    requires head == OPENING + " " + TAG + "key=" && tail == " layer=" + LayerText(layer) + " " + CLOSING
    ensures Print(safeKey, layer, fold) == head + safeKey + tail
  {
    hide LayerText;
    Regroup(OPENING + " " + TAG, "key=", safeKey, " layer=", LayerText(layer), " ", CLOSING);
  }

  lemma Regroup(a: string, b: string, c: string, d: string, e: string, f: string, g: string)
    ensures a + (b + c + d + e + f) + g == (a + b) + c + (d + e + f + g)
  {
  }

  /** Attribute `k` is the last with this name, in any case. */
  ghost predicate IsLastNamed(pairs: seq<(string, string)>, name: string, k: nat) {
    k < |pairs| && Lower(pairs[k].0) == name && forall i | k < i < |pairs| :: Lower(pairs[i].0) != name
  }

  /** When a comment repeats an attribute the last one counts; one that is not there has no value. */
  lemma {:induction false} LookupGivesLast(pairs: seq<(string, string)>, name: string)
    ensures forall k: nat | IsLastNamed(pairs, name, k) :: Lookup(pairs, name) == Some(pairs[k].1)
    ensures (forall i | 0 <= i < |pairs| :: Lower(pairs[i].0) != name) ==> Lookup(pairs, name).None?
  {
    hide Lower;
    if pairs != [] {
      var n := |pairs| - 1;
      LookupGivesLast(pairs[..n], name);
      forall k: nat | IsLastNamed(pairs, name, k)
        ensures Lookup(pairs, name) == Some(pairs[k].1)
      {
        if k < n { LastInFront(pairs, name, k); }
      }
    }
  }

  lemma LastInFront(pairs: seq<(string, string)>, name: string, k: nat)
    requires IsLastNamed(pairs, name, k) && k < |pairs| - 1
    ensures IsLastNamed(pairs[..|pairs| - 1], name, k) && Lower(pairs[|pairs| - 1].0) != name
  {
    hide Lower;
  }

  /** `name=value` stands in the text at `q`, and the value ends where its characters end. */
  ghost predicate PairStandsAt(s: string, q: nat, name: string, value: string) {
    var v := q + |name| + 1;
    && name != "" && value != "" && v + |value| <= |s|
    && s[q..q + |name|] == name && s[v - 1] == '=' && s[v..v + |value|] == value
    && (forall i | 0 <= i < |name| :: IsNameChar(name[i])) && (forall i | 0 <= i < |value| :: IsValueChar(value[i]))
    && (v + |value| < |s| ==> !IsValueChar(s[v + |value|]))
  }

  /** Every attribute that is read stands in the comment. */
  lemma {:induction false} PairsStandInText(s: string, p: nat, k: nat)
    requires p <= |s| && k < |FindPairs(s, p)|
    ensures exists q: nat :: p <= q && PairStandsAt(s, q, FindPairs(s, p)[k].0, FindPairs(s, p)[k].1)
    decreases |s| - p
  {
    if IsNameStart(s[p]) {
      var e := RunEnd(s, p, IsNameChar);
      if e + 1 < |s| && s[e] == '=' && IsValueChar(s[e + 1]) {
        var v := RunEnd(s, e + 1, IsValueChar);
        if k == 0 {
          var name, value := s[p..e], s[e + 1..v];
          assert FindPairs(s, p)[0] == (name, value);
          assert PairStandsAt(s, p, name, value);
        } else {
          PairsStandInText(s, v, k - 1);
          assert FindPairs(s, p)[k] == FindPairs(s, v)[k - 1];
        }
      } else {
        PairsStandInText(s, p + 1, k);
      }
    } else {
      PairsStandInText(s, p + 1, k);
    }
  }

  /** The one closing bracket of a marker is its last character. */
  lemma MarkerIsClosedOnce(line: string)
    requires Parse(line).Some?
    ensures Strip(line) != "" && '>' !in Strip(line)[..|Strip(line)| - 1]
  {
    var s := Strip(line);
    var after := s[|OPENING|..];
    var rest := DropLeading(after, IsSpace);
    DropLeadingShape(after, IsSpace);
    NoBracketIn();
    PartsOfMarker(s, |after| - |rest|);
  }

  lemma PartsOfMarker(s: string, skipped: nat)
    requires |OPENING| + skipped + |TAG| + |CLOSING| <= |s|
    requires var after := s[|OPENING|..]; var t := after[skipped..][|TAG|..];
      && s[..|OPENING|] == OPENING && (forall i | 0 <= i < skipped :: IsSpace(after[i]))
      && after[skipped..][..|TAG|] == TAG && '>' !in t[..|t| - |CLOSING|] && t[|t| - |CLOSING|..] == CLOSING
    ensures '>' !in s[..|s| - 1]
  {
    NoBracketIn();
    hide *;
    var after := s[|OPENING|..];
    var t := after[skipped..][|TAG|..];
    var n := |OPENING| + skipped + |TAG|;
    assert s[n..] == t;
    forall i | 0 <= i < |s| - 1
      ensures s[i] != '>'
    {
      if i < |OPENING| {
        assert s[i] == s[..|OPENING|][i];
      } else if i < |OPENING| + skipped {
        IsNoBracket(after[i - |OPENING|]);
      } else if i < n {
        assert s[i] == after[skipped..][..|TAG|][i - |OPENING| - skipped];
      } else if i < |s| - |CLOSING| {
        assert s[i] == t[..|t| - |CLOSING|][i - n];
      } else {
        assert s[i] == t[|t| - |CLOSING|..][i - |s| + |CLOSING|];
      }
    }
  }

  lemma IsNoBracket(c: char)
    ensures IsSpace(c) ==> c != '>'
  {
  }

  lemma NoBracketIn()
    ensures forall i | 0 <= i < |OPENING| :: OPENING[i] != '>'
    ensures forall i | 0 <= i < |TAG| :: TAG[i] != '>'
    ensures forall i | 0 <= i < |CLOSING| - 1 :: CLOSING[i] != '>'
  {
  }
}
