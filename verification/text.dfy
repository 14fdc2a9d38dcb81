/** The Python string operations the repository relies on, character by character. */
module Text {
  import opened Common

  /** `str.isspace` for one character; `\s` in a text pattern matches the same characters. */
  predicate IsSpace(c: char) {
    || '\t' <= c <= '\r' || '\U{1C}' <= c <= ' ' || c == '\U{85}' || c == '\U{A0}' || c == '\U{1680}'
    || '\U{2000}' <= c <= '\U{200A}' || c == '\U{2028}' || c == '\U{2029}' || c == '\U{202F}'
    || c == '\U{205F}' || c == '\U{3000}'
  }

  predicate IsLower(c: char) { 'a' <= c <= 'z' }

  predicate IsUpper(c: char) { 'A' <= c <= 'Z' }

  predicate IsDigit(c: char) { '0' <= c <= '9' }

  /** `s` without the leading characters that satisfy `p`. */
  function DropLeading(s: string, p: char -> bool): string {
    if s != [] && p(s[0]) then DropLeading(s[1..], p) else s
  }

  function DropTrailing(s: string, p: char -> bool): string {
    if s != [] && p(s[|s| - 1]) then DropTrailing(s[..|s| - 1], p) else s
  }

  function Trim(s: string, p: char -> bool): string { DropTrailing(DropLeading(s, p), p) }

  lemma {:induction false} DropLeadingShape(s: string, p: char -> bool)
    ensures var r := DropLeading(s, p);
      && |r| <= |s| && r == s[|s| - |r|..]
      && (r != [] ==> !p(r[0]))
      && (forall i | 0 <= i < |s| - |r| :: p(s[i]))
  {
    if s != [] && p(s[0]) {
      var rest := s[1..];
      DropLeadingShape(rest, p);
      var n := |rest| - |DropLeading(rest, p)|;
      assert rest[n..] == s[n + 1..];
      assert forall i | 1 <= i < n + 1 :: s[i] == rest[i - 1];
    }
  }

  lemma {:induction false} DropTrailingShape(s: string, p: char -> bool)
    ensures var r := DropTrailing(s, p);
      && |r| <= |s| && r == s[..|r|]
      && (r != [] ==> !p(r[|r| - 1]))
      && (forall i | |r| <= i < |s| :: p(s[i]))
  {
    if s != [] && p(s[|s| - 1]) { DropTrailingShape(s[..|s| - 1], p); }
  }

  /** What is left after trimming is a slice of `s` that begins and ends with characters to keep. */
  lemma TrimShape(s: string, p: char -> bool) returns (from: nat)
    ensures var r := Trim(s, p);
      && from + |r| <= |s| && r == s[from..from + |r|]
      && (r != [] ==> !p(r[0]) && !p(r[|r| - 1]))
      && (forall i | 0 <= i < from :: p(s[i]))
      && (forall i | from + |r| <= i < |s| :: p(s[i]))
  {
    DropLeadingShape(s, p);
    var front := DropLeading(s, p);
    DropTrailingShape(front, p);
    from := |s| - |front|;
    var r := Trim(s, p);
    assert forall i | from <= i < |s| :: s[i] == front[i - from];
    assert r != [] ==> r[0] == front[0];
  }

  lemma TrimKeeps(s: string, p: char -> bool)
    requires s != "" && !p(s[0]) && !p(s[|s| - 1])
    ensures Trim(s, p) == s
  {
  }

  lemma StripTwice(s: string)
    ensures Strip(Strip(s)) == Strip(s)
  {
    var from := TrimShape(s, IsSpace);
    if Strip(s) != "" { TrimKeeps(Strip(s), IsSpace); }
  }

  function Strip(s: string): string { Trim(s, IsSpace) }

  function RStrip(s: string): string { DropTrailing(s, IsSpace) }

  function LowerChar(c: char): char { if IsUpper(c) then c - 'A' + 'a' else c }

  /** Lower-casing of ASCII text. */
  function Lower(s: string): string {
    seq(|s|, i requires 0 <= i < |s| => LowerChar(s[i]))
  }

  function Filter(s: string, keep: char -> bool): string {
    if s == [] then [] else if keep(s[0]) then [s[0]] + Filter(s[1..], keep) else Filter(s[1..], keep)
  }

  lemma {:induction false} FilterKeepsOnly(s: string, keep: char -> bool)
    ensures forall i | 0 <= i < |Filter(s, keep)| :: keep(Filter(s, keep)[i])
  {
    if s != [] { FilterKeepsOnly(s[1..], keep); }
  }

  /** What precedes the first `sep`; all of `s` when there is none. */
  function UpTo(s: string, sep: char): string {
    if s == [] || s[0] == sep then [] else [s[0]] + UpTo(s[1..], sep)
  }

  lemma {:induction false} UpToStops(s: string, sep: char, rest: string)
    requires sep !in s
    ensures UpTo(s, sep) == s && UpTo(s + [sep] + rest, sep) == s
  {
    if s != "" {
      UpToStops(s[1..], sep, rest);
      assert (s + [sep] + rest)[1..] == s[1..] + [sep] + rest;
      assert s == [s[0]] + s[1..];
    }
  }

  /** The first position, from `p` on, of a character outside the class. */
  function RunEnd(s: string, p: nat, inClass: char -> bool): (e: nat)
    requires p <= |s|
    ensures p <= e <= |s|
    ensures forall i | p <= i < e :: inClass(s[i])
    ensures e < |s| ==> !inClass(s[e])
    decreases |s| - p
  {
    if p < |s| && inClass(s[p]) then RunEnd(s, p + 1, inClass) else p
  }

  lemma RunEndIs(s: string, p: nat, inClass: char -> bool, e: nat)
    requires p <= e <= |s|
    requires forall i | p <= i < e :: inClass(s[i])
    requires e < |s| ==> !inClass(s[e])
    ensures RunEnd(s, p, inClass) == e
  {
  }

  /** `a` comes before `b` in a dictionary: they agree up to a character that is smaller in `a`. */
  ghost predicate Precedes(a: string, b: string) {
    exists k: nat :: DiffersFirst(a, b, k) && a[k] < b[k]
  }

  predicate DiffersFirst(a: string, b: string, k: nat) {
    k < |a| && k < |b| && a[k] != b[k] && forall i | 0 <= i < k :: a[i] == b[i]
  }

  lemma PrecedesIsStrict(a: string, b: string)
    ensures !(Precedes(a, b) && Precedes(b, a)) && !Precedes(a, a)
  {
  }

  predicate BarFree(s: string) { '|' !in s }

  lemma BarAt(x: string, rest: string, i: nat)
    requires BarFree(x)
    ensures (x + "|" + rest)[|x|] == '|'
    ensures i < |x| ==> (x + "|" + rest)[i] != '|'
  {
    if i < |x| { assert (x + "|" + rest)[i] == x[i]; }
  }

  /** The first part of a joined text can be read back when it has no bar. */
  lemma FirstPart(x: string, a: string, y: string, b: string)
    requires BarFree(x) && BarFree(y) && x + "|" + a == y + "|" + b
    ensures x == y && a == b
  {
    var s := x + "|" + a;
    BarAt(x, a, |y|);
    BarAt(y, b, |x|);
    assert s[..|x|] == x && s[..|y|] == y;
    assert s[|x| + 1..] == a && s[|y| + 1..] == b;
  }
}
