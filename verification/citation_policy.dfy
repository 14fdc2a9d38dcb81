/**
 The citation policy of a report and its automatic repair. A line that states a strong conclusion may cite only
 evidence that can carry one; the repair removes the citations of every other such line, tones its wording down
 and cites strong evidence instead.

 Finding citations and removing them are two different patterns in the code. Both are modelled character by
 character here, because the difference between them decides whether the repair works.
 */
module CitationPolicy {
  import opened Common
  import opened Text

  // ---------------------------------------------------------------- citations in a line

  /** Letters, also the four that ignoring case adds to them, digits and `_.:#-`. */
  predicate IsTokenChar(c: char) {
    || IsLower(c) || IsUpper(c) || IsDigit(c) || c == '_' || c == '.' || c == ':' || c == '#' || c == '-'
    || c == '\U{130}' || c == '\U{131}' || c == '\U{17F}' || c == '\U{212A}'
  }

  predicate IsOpening(c: char) { c == '[' || c == '\U{3010}' }

  function Closing(c: char): char { if c == '[' then ']' else '\U{3011}' }

  predicate IsS(c: char) { c == 's' || c == 'S' || c == '\U{17F}' }

  /** `source:` in any case, or its Chinese form, ends at this position when it starts at `p`. */
  function KeywordEnd(s: string, p: nat): Option<nat> {
    if p + 7 <= |s| && IsS(s[p]) && Lower(s[p + 1..p + 7]) == "ource:" then Some(p + 7)
    else if p + 3 <= |s| && s[p..p + 3] == "\U{6765}\U{6E90}:" then Some(p + 3)
    else None
  }

  /** Where the token lies of a citation that starts at `p`. */
  function TokenAt(s: string, p: nat): (r: Option<(nat, nat)>)
    ensures r.Some? ==> p < r.value.0 < r.value.1 < |s|
  {
    if p < |s| && IsOpening(s[p]) && KeywordEnd(s, p + 1).Some? then
      var from := KeywordEnd(s, p + 1).value;
      var to := RunEnd(s, from, IsTokenChar);
      if from < to < |s| && s[to] == Closing(s[p]) then Some((from, to)) else None
    else None
  }

  /** The tokens of all citations from `p` on. */
  function TokensFrom(s: string, p: nat): seq<string>
    requires p <= |s|
    decreases |s| - p
  {
    if p == |s| then []
    else
      var found := TokenAt(s, p);
      if found.Some? then [s[found.value.0..found.value.1]] + TokensFrom(s, found.value.1 + 1)
      else TokensFrom(s, p + 1)
  }

  function Tokens(s: string): seq<string> { TokensFrom(s, 0) }

  function Normalize(token: string): string { Strip(UpTo(token, '#')) }

  // ---------------------------------------------------------------- removing citations

  const PLAIN := "[source:"

  predicate NotClosing(c: char) { c != ']' }

  /** Where a citation that starts at `p` ends for the pattern that removes it: lower case and square brackets only. */
  function PlainEnd(s: string, p: nat): (r: Option<nat>)
    ensures r.Some? ==> p + 8 < r.value <= |s|
  {
    if p + 8 <= |s| && s[p..p + 8] == PLAIN then
      var to := RunEnd(s, p + 8, NotClosing);
      if p + 8 < to < |s| then Some(to + 1) else None
    else None
  }

  function WithoutCitations(s: string, p: nat): string
    requires p <= |s|
    decreases |s| - p
  {
    if p == |s| then ""
    else
      var end := PlainEnd(s, p);
      if end.Some? then WithoutCitations(s, end.value) else [s[p]] + WithoutCitations(s, p + 1)
  }

  // ---------------------------------------------------------------- evidence

  datatype Evidence = Evidence(id: string, rawId: string, otherIds: seq<string>, strong: bool)

  function NonBlank(values: seq<string>): seq<string> {
    if values == [] then []
    else if Strip(values[0]) == "" then NonBlank(values[1..])
    else [values[0]] + NonBlank(values[1..])
  }

  function TokensOf(e: Evidence): seq<string> { NonBlank([Strip(e.id), Strip(e.rawId)] + e.otherIds) }

  function ReportId(e: Evidence): string { if Strip(e.rawId) != "" then Strip(e.rawId) else Strip(e.id) }

  function Assign(table: map<string, Evidence>, tokens: seq<string>, e: Evidence): map<string, Evidence>
    decreases tokens
  {
    if tokens == [] then table else Assign(table[Normalize(tokens[0]) := e], tokens[1..], e)
  }

  /** Which evidence a normalised token stands for: the last item that claims it. */
  function Table(evidence: seq<Evidence>): map<string, Evidence> {
    if evidence == [] then map[]
    else
      var last := evidence[|evidence| - 1];
      Assign(Table(evidence[..|evidence| - 1]), TokensOf(last), last)
  }

  predicate IsWeak(table: map<string, Evidence>, token: string) {
    Normalize(token) in table && !table[Normalize(token)].strong
  }

  predicate AnyWeak(table: map<string, Evidence>, tokens: seq<string>) {
    exists i | 0 <= i < |tokens| :: IsWeak(table, tokens[i])
  }

  predicate CitesWeak(table: map<string, Evidence>, line: string) { AnyWeak(table, Tokens(line)) }

  lemma AnyWeakAppend(table: map<string, Evidence>, a: seq<string>, b: seq<string>)
    ensures AnyWeak(table, a + b) <==> AnyWeak(table, a) || AnyWeak(table, b)
  {
    if i: nat :| i < |a| && IsWeak(table, a[i]) { assert (a + b)[i] == a[i]; }
    if i: nat :| i < |b| && IsWeak(table, b[i]) { assert (a + b)[|a| + i] == b[i]; }
  }

  /** At most `limit` distinct report ids of evidence that can carry a strong conclusion, first come first served. */
  function StrongIds(evidence: seq<Evidence>, limit: nat): seq<string> {
    if evidence == [] then []
    else
      var ids, last := StrongIds(evidence[..|evidence| - 1], limit), evidence[|evidence| - 1];
      if |ids| < limit && last.strong && ReportId(last) != "" && ReportId(last) !in ids then ids + [ReportId(last)]
      else ids
  }

  method SourceIdsForLine(evidence: seq<Evidence>, limit: nat) returns (ids: seq<string>)
    requires limit > 0
    ensures ids == StrongIds(evidence, limit)
  {
    ids := [];
    var seen: set<string> := {};
    var i := 0;
    while i < |evidence|
      invariant i <= |evidence|
      invariant ids == StrongIds(evidence[..i], limit) && |ids| < limit
      invariant forall id :: id in seen <==> id in ids
    {
      var item := evidence[i];
      assert evidence[..i + 1][..i] == evidence[..i];
      i := i + 1;
      if item.strong && ReportId(item) != "" && ReportId(item) !in seen {
        seen := seen + {ReportId(item)};
        ids := ids + [ReportId(item)];
        if |ids| >= limit {
          FullStays(evidence, i, limit);
          return;
        }
      }
    }
    assert evidence[..|evidence|] == evidence;
  }

  lemma {:induction false} FullStays(evidence: seq<Evidence>, i: nat, limit: nat)
    requires i <= |evidence| && |StrongIds(evidence[..i], limit)| >= limit
    ensures StrongIds(evidence, limit) == StrongIds(evidence[..i], limit)
  {
    if i < |evidence| {
      assert evidence[..|evidence| - 1][..i] == evidence[..i];
      FullStays(evidence[..|evidence| - 1], i, limit);
    } else {
      assert evidence[..i] == evidence;
    }
  }

  /** Every id the repair cites belongs to strong evidence, and there is none exactly when there is no such evidence. */
  lemma {:induction false} StrongIdsAreStrong(evidence: seq<Evidence>, limit: nat)
    ensures |StrongIds(evidence, limit)| <= limit
    ensures forall i | 0 <= i < |StrongIds(evidence, limit)| :: IdOfStrong(evidence, StrongIds(evidence, limit)[i])
    ensures limit > 0 ==>
      (StrongIds(evidence, limit) == [] <==> forall e | e in evidence && e.strong :: ReportId(e) == "")
  {
    if evidence != [] {
      var n := |evidence| - 1;
      StrongIdsAreStrong(evidence[..n], limit);
      assert forall e :: e in evidence <==> e in evidence[..n] || e == evidence[n];
    }
  }

  /**
   First come first served: no id is cited twice, looking at more evidence only adds ids at the end, and an id of strong
   evidence is left out only when the limit has been reached.
   */
  lemma {:induction false} StrongIdsComeFirst(evidence: seq<Evidence>, limit: nat, k: nat)
    requires k <= |evidence|
    ensures forall i, j | 0 <= i < j < |StrongIds(evidence, limit)| ::
      StrongIds(evidence, limit)[i] != StrongIds(evidence, limit)[j]
    ensures StrongIds(evidence[..k], limit) <= StrongIds(evidence, limit)
    ensures |StrongIds(evidence, limit)| < limit ==> forall e | e in evidence && e.strong && ReportId(e) != "" ::
      ReportId(e) in StrongIds(evidence, limit)
  {
    hide ReportId;
    if evidence != [] {
      var n := |evidence| - 1;
      StrongIdsComeFirst(evidence[..n], limit, if k < n then k else n);
      assert forall e :: e in evidence <==> e in evidence[..n] || e == evidence[n];
      if k <= n { assert evidence[..n][..k] == evidence[..k]; } else { assert evidence[..k] == evidence; }
    }
  }

  ghost predicate IdOfStrong(evidence: seq<Evidence>, id: string) {
    id != "" && exists e :: e in evidence && e.strong && ReportId(e) == id
  }

  // ---------------------------------------------------------------- the report

  datatype Policy = StrongConclusion | FactualComparison | QualitativeSignal | AuditAppendix

  /** The wording rules: the policy of a line under a heading, which lines are headings, and how text is toned down. */
  datatype Wording = Wording(policy: (string, string) -> Policy, heading: string -> Option<string>,
                             downgrade: string -> string)

  /** The heading in force before line `k`. */
  function HeadingBefore(lines: seq<string>, w: Wording, k: nat): string
    requires k <= |lines|
  {
    if k == 0 then ""
    else
      var heading := w.heading(lines[k - 1]);
      if heading.Some? then heading.value else HeadingBefore(lines, w, k - 1)
  }

  /** Line `k` states a strong conclusion and cites evidence that cannot carry it. */
  predicate Violates(lines: seq<string>, w: Wording, table: map<string, Evidence>, k: nat)
    requires k < |lines|
  {
    && w.heading(lines[k]).None?
    && w.policy(HeadingBefore(lines, w, k), lines[k]).StrongConclusion?
    && CitesWeak(table, lines[k])
  }

  /** The violating lines, in order. */
  function Violations(lines: seq<string>, w: Wording, table: map<string, Evidence>, k: nat): seq<nat>
    requires k <= |lines|
  {
    if k == 0 then []
    else
      var earlier := Violations(lines, w, table, k - 1);
      if Violates(lines, w, table, k - 1) then earlier + [k - 1] else earlier
  }

  lemma {:induction false} ViolationsAreExact(lines: seq<string>, w: Wording, table: map<string, Evidence>, k: nat)
    requires k <= |lines|
    ensures forall i: nat :: i in Violations(lines, w, table, k) <==> i < k && Violates(lines, w, table, i)
  {
    if k > 0 { ViolationsAreExact(lines, w, table, k - 1); }
  }

  method FindViolations(lines: seq<string>, w: Wording, table: map<string, Evidence>) returns (found: seq<nat>)
    ensures found == Violations(lines, w, table, |lines|)
  {
    found := [];
    var sectionHeading := "";
    for k := 0 to |lines|
      invariant sectionHeading == HeadingBefore(lines, w, k)
      invariant found == Violations(lines, w, table, k)
    {
      var heading := w.heading(lines[k]);
      if heading.Some? {
        sectionHeading := heading.value;
      } else if w.policy(sectionHeading, lines[k]).StrongConclusion? && CitesWeak(table, lines[k]) {
        found := found + [k];
      }
    }
  }

  const NOTE_1 := " No high-confidence verified citation "
  const NOTE_2 := "is currently attached; keep this as a "
  const NOTE_3 := "draft caveat until stronger evidence "
  const NOTE_4 := "is collected."
  const NO_CITATION := NOTE_1 + NOTE_2 + NOTE_3 + NOTE_4

  function Reference(id: string): string { PLAIN + id + "]" }

  function References(ids: seq<string>): string
    requires ids != []
  {
    if |ids| == 1 then Reference(ids[0]) else References(ids[..|ids| - 1]) + " " + Reference(ids[|ids| - 1])
  }

  /** The text that is left of a violating line before strong evidence is cited. */
  function Residue(w: Wording, line: string): string {
    w.downgrade(RStrip(WithoutCitations(line, 0)))
  }

  function RepairLine(w: Wording, evidence: seq<Evidence>, line: string): string {
    var ids := StrongIds(evidence, 2);
    if ids == [] then Residue(w, line) + NO_CITATION
    else RStrip(Residue(w, line) + " " + References(ids))
  }

  function RepairedAt(lines: seq<string>, w: Wording, evidence: seq<Evidence>, k: nat): string
    requires k < |lines|
  {
    if Violates(lines, w, Table(evidence), k) then RepairLine(w, evidence, lines[k]) else lines[k]
  }

  function Repaired(lines: seq<string>, w: Wording, evidence: seq<Evidence>): seq<string> {
    seq(|lines|, k requires 0 <= k < |lines| => RepairedAt(lines, w, evidence, k))
  }

  method RepairStrongConclusionLine(w: Wording, evidence: seq<Evidence>, line: string) returns (repaired: string)
    ensures repaired == RepairLine(w, evidence, line)
  {
    var ids := SourceIdsForLine(evidence, 2);
    var residue := Residue(w, line);
    if ids == [] {
      return residue + NO_CITATION;
    }
    return RStrip(residue + " " + References(ids));
  }

  /** Repairs a report; without violations it is returned as it is. */
  method Repair(lines: seq<string>, w: Wording, evidence: seq<Evidence>)
    returns (repaired: seq<string>, repairedCount: nat)
    ensures repaired == Repaired(lines, w, evidence)
    ensures repairedCount == |Violations(lines, w, Table(evidence), |lines|)|
    ensures repairedCount == 0 ==> repaired == lines
  {
    hide Table, CitesWeak, RepairLine, HeadingBefore;
    var table := Table(evidence);
    var violations := FindViolations(lines, w, table);
    ViolationsAreExact(lines, w, table, |lines|);
    repairedCount := 0;
    if violations == [] {
      NothingToRepair(lines, w, evidence);
      repaired := lines;
      return;
    }
    repaired := [];
    for k := 0 to |lines|
      invariant |repaired| == k
      invariant forall i | 0 <= i < k :: repaired[i] == RepairedAt(lines, w, evidence, i)
      invariant repairedCount == |Violations(lines, w, table, k)|
    {
      var line := lines[k];
      if k in violations {
        line := RepairStrongConclusionLine(w, evidence, line);
        repairedCount := repairedCount + 1;
      }
      repaired := repaired + [line];
    }
  }

  lemma NothingToRepair(lines: seq<string>, w: Wording, evidence: seq<Evidence>)
    requires Violations(lines, w, Table(evidence), |lines|) == []
    ensures Repaired(lines, w, evidence) == lines
  {
    ViolationsAreExact(lines, w, Table(evidence), |lines|);
    forall k: nat | k < |lines|
      ensures RepairedAt(lines, w, evidence, k) == lines[k]
    {
      assert k !in Violations(lines, w, Table(evidence), |lines|);
    }
  }

  // ---------------------------------------------------------------- citations of a repaired line

  lemma KeywordPrefix(a: string, b: string, p: nat)
    requires p <= |a| && b != "" && IsSpace(b[0])
    ensures KeywordEnd(a + b, p) == KeywordEnd(a, p)
  {
    var s := a + b;
    assert s[|a|] == b[0];
    if p + 7 <= |a| {
      assert s[p + 1..p + 7] == a[p + 1..p + 7];
    } else if p + 7 <= |s| && IsS(s[p]) {
      assert p < |a|;
      assert Lower(s[p + 1..p + 7])[|a| - p - 1] == LowerChar(b[0]);
    }
    if p + 3 <= |a| {
      assert s[p..p + 3] == a[p..p + 3];
    } else if p + 3 <= |s| {
      assert s[p..p + 3][|a| - p] == b[0];
    }
  }

  lemma RunPrefix(a: string, b: string, p: nat, inClass: char -> bool)
    requires p <= |a| && b != "" && !inClass(b[0])
    ensures RunEnd(a + b, p, inClass) == RunEnd(a, p, inClass)
  {
    var e := RunEnd(a, p, inClass);
    assert forall i | p <= i < e :: (a + b)[i] == a[i];
    RunEndIs(a + b, p, inClass, e);
  }

  /** No citation reaches across white space, so what follows it does not change what is found before it. */
  lemma TokenPrefix(a: string, b: string, p: nat)
    requires p < |a| && b != "" && IsSpace(b[0])
    ensures TokenAt(a + b, p) == TokenAt(a, p)
  {
    KeywordPrefix(a, b, p + 1);
    if KeywordEnd(a, p + 1).Some? {
      RunPrefix(a, b, KeywordEnd(a, p + 1).value, IsTokenChar);
      assert (a + b)[|a|] == b[0];
    }
  }

  lemma KeywordSuffix(a: string, b: string, p: nat)
    requires p <= |b|
    ensures KeywordEnd(a + b, |a| + p)
         == if KeywordEnd(b, p).Some? then Some(|a| + KeywordEnd(b, p).value) else None
    ensures KeywordEnd(b, p).Some? ==> p < KeywordEnd(b, p).value <= |b|
  {
    if p + 7 <= |b| { SliceSuffix(a, b, p + 1, p + 7); }
    if p + 3 <= |b| { SliceSuffix(a, b, p, p + 3); }
  }

  lemma RunSuffix(a: string, b: string, p: nat, inClass: char -> bool)
    requires p <= |b|
    ensures RunEnd(a + b, |a| + p, inClass) == |a| + RunEnd(b, p, inClass)
  {
    var e := RunEnd(b, p, inClass);
    assert forall i | |a| + p <= i < |a| + e :: (a + b)[i] == b[i - |a|];
    RunEndIs(a + b, |a| + p, inClass, |a| + e);
  }

  lemma TokenSuffix(a: string, b: string, p: nat)
    requires p < |b|
    ensures var found := TokenAt(b, p);
      TokenAt(a + b, |a| + p) == if found.Some? then Some((|a| + found.value.0, |a| + found.value.1)) else None
  {
    hide KeywordEnd, RunEnd;
    KeywordSuffix(a, b, p + 1);
    assert (a + b)[|a| + p] == b[p];
    if KeywordEnd(b, p + 1).Some? {
      var from := KeywordEnd(b, p + 1).value;
      RunSuffix(a, b, from, IsTokenChar);
      var to := RunEnd(b, from, IsTokenChar);
      assert to < |b| ==> (a + b)[|a| + to] == b[to];
    }
  }

  lemma {:induction false} TokensSuffix(a: string, b: string, p: nat)
    requires p <= |b|
    ensures TokensFrom(a + b, |a| + p) == TokensFrom(b, p)
    decreases |b| - p
  {
    hide TokenAt;
    if p < |b| {
      TokenSuffix(a, b, p);
      var found := TokenAt(b, p);
      if found.Some? {
        TokensSuffix(a, b, found.value.1 + 1);
        SliceSuffix(a, b, found.value.0, found.value.1);
      } else {
        TokensSuffix(a, b, p + 1);
      }
    }
  }

  lemma {:induction false} TokensPrefix(a: string, b: string, p: nat)
    requires p <= |a| && b != "" && IsSpace(b[0])
    ensures TokensFrom(a + b, p) == TokensFrom(a, p) + TokensFrom(b, 0)
    decreases |a| - p
  {
    hide TokenAt;
    if p == |a| {
      TokensSuffix(a, b, 0);
    } else {
      TokenPrefix(a, b, p);
      var found := TokenAt(a, p);
      if found.Some? {
        TokensPrefix(a, b, found.value.1 + 1);
        SlicePrefix(a, b, found.value.0, found.value.1);
      } else {
        TokensPrefix(a, b, p + 1);
      }
    }
  }

  /** Citations never span a space: the tokens of two pieces joined by a space are the tokens of the pieces. */
  lemma TokensJoin(a: string, b: string)
    ensures Tokens(a + " " + b) == Tokens(a) + Tokens(b)
  {
    AppendAssociates(a, " ", b);
    TokensPrefix(a, " " + b, 0);
    TokensSuffix(" ", b, 0);
    assert TokenAt(" " + b, 0).None?;
  }

  lemma {:induction false} NoOpeningNoTokens(s: string, p: nat)
    requires p <= |s| && forall i | p <= i < |s| :: !IsOpening(s[i])
    ensures TokensFrom(s, p) == []
    decreases |s| - p
  {
    if p < |s| { NoOpeningNoTokens(s, p + 1); }
  }

  lemma NoCitationHasNoTokens()
    ensures NO_CITATION != "" && NO_CITATION[0] == ' ' && Tokens(NO_CITATION) == []
  {
    NotesAreClosed();
    NoOpeningNoTokens(NO_CITATION, 0);
  }

  lemma NotesAreClosed()
    ensures NO_CITATION != "" && NO_CITATION[0] == ' '
    ensures forall i | 0 <= i < |NO_CITATION| :: !IsOpening(NO_CITATION[i])
  {
    assert NOTE_1[0] == ' ' && forall i | 0 <= i < |NOTE_1| :: !IsOpening(NOTE_1[i]);
    assert forall i | 0 <= i < |NOTE_2| :: !IsOpening(NOTE_2[i]);
    assert forall i | 0 <= i < |NOTE_3| :: !IsOpening(NOTE_3[i]);
    assert forall i | 0 <= i < |NOTE_4| :: !IsOpening(NOTE_4[i]);
  }

  lemma ReferencesEnd(ids: seq<string>)
    requires ids != []
    ensures References(ids) != "" && References(ids)[|References(ids)| - 1] == ']'
  {
    var last := Reference(ids[|ids| - 1]);
    assert last[|last| - 1] == ']';
  }

  /** The citations of a repaired line: those that were left in it, then those of the references. */
  lemma RepairedLineTokens(w: Wording, evidence: seq<Evidence>, line: string)
    ensures var ids := StrongIds(evidence, 2);
      Tokens(RepairLine(w, evidence, line))
        == if ids == [] then Tokens(Residue(w, line)) else Tokens(Residue(w, line)) + Tokens(References(ids))
  {
    var ids, residue := StrongIds(evidence, 2), Residue(w, line);
    if ids == [] {
      NoCitationHasNoTokens();
      TokensPrefix(residue, NO_CITATION, 0);
    } else {
      ReferencesEnd(ids);
      var full := residue + " " + References(ids);
      assert full[|full| - 1] == ']';
      assert RStrip(full) == full;
      TokensJoin(residue, References(ids));
    }
  }

  /** The references that the repair adds cite weak evidence. */
  predicate ReferencesAreWeak(evidence: seq<Evidence>) {
    var ids := StrongIds(evidence, 2);
    ids != [] && CitesWeak(Table(evidence), References(ids))
  }

  lemma RepairedLineCites(w: Wording, evidence: seq<Evidence>, line: string)
    ensures CitesWeak(Table(evidence), RepairLine(w, evidence, line))
       <==> CitesWeak(Table(evidence), Residue(w, line)) || ReferencesAreWeak(evidence)
  {
    RepairedLineTokens(w, evidence, line);
    var ids := StrongIds(evidence, 2);
    if ids != [] {
      AnyWeakAppend(Table(evidence), Tokens(Residue(w, line)), Tokens(References(ids)));
    }
  }

  // ---------------------------------------------------------------- the repaired report

  /** The citations of line `k` once it is repaired, if it is: something weak is among them. */
  predicate StillCitesWeak(lines: seq<string>, w: Wording, evidence: seq<Evidence>, k: nat)
    requires k < |lines|
  {
    if Violates(lines, w, Table(evidence), k)
    then CitesWeak(Table(evidence), Residue(w, lines[k])) || ReferencesAreWeak(evidence)
    else CitesWeak(Table(evidence), lines[k])
  }

  /** A violation of the repaired report, for any wording rules. */
  lemma ViolatesAfterRepair(lines: seq<string>, w: Wording, evidence: seq<Evidence>, k: nat)
    requires k < |lines|
    ensures var repaired, line := Repaired(lines, w, evidence), RepairedAt(lines, w, evidence, k);
      Violates(repaired, w, Table(evidence), k)
      <==> w.heading(line).None? && w.policy(HeadingBefore(repaired, w, k), line).StrongConclusion?
           && StillCitesWeak(lines, w, evidence, k)
  {
    hide Table, CitesWeak, RepairLine, HeadingBefore, ReferencesAreWeak;
    var repaired := Repaired(lines, w, evidence);
    assert repaired[k] == RepairedAt(lines, w, evidence, k);
    if Violates(lines, w, Table(evidence), k) {
      RepairedLineCites(w, evidence, lines[k]);
    } else {
      assert repaired[k] == lines[k];
    }
  }

  /** A clean repair is a fixpoint, and it has touched nothing but violating lines. */
  lemma CleanRepairIsFixpoint(lines: seq<string>, w: Wording, evidence: seq<Evidence>)
    requires var repaired := Repaired(lines, w, evidence);
      Violations(repaired, w, Table(evidence), |repaired|) == []
    ensures var repaired := Repaired(lines, w, evidence);
      && Repaired(repaired, w, evidence) == repaired
      && |repaired| == |lines|
      && forall k | 0 <= k < |lines| && !Violates(lines, w, Table(evidence), k) :: repaired[k] == lines[k]
  {
    NothingToRepair(Repaired(lines, w, evidence), w, evidence);
  }

  // ---------------------------------------------------------------- when references are strong

  /** Evidence that shares a token has the same strength. */
  ghost predicate Uniform(evidence: seq<Evidence>) {
    forall e, f, t, u |
      e in evidence && f in evidence && t in TokensOf(e) && u in TokensOf(f) && Normalize(t) == Normalize(u) ::
      e.strong == f.strong
  }

  predicate IsToken(id: string) { id != "" && forall i | 0 <= i < |id| :: IsTokenChar(id[i]) }

  ghost predicate Claims(e: Evidence, token: string) {
    exists t :: t in TokensOf(e) && Normalize(t) == token
  }

  lemma {:induction false} AssignClaims(table: map<string, Evidence>, tokens: seq<string>, e: Evidence, token: string)
    requires token in Assign(table, tokens, e)
    ensures (token in table && Assign(table, tokens, e)[token] == table[token])
         || (Assign(table, tokens, e)[token] == e && exists t :: t in tokens && Normalize(t) == token)
    decreases tokens
  {
    if tokens != [] {
      var table' := table[Normalize(tokens[0]) := e];
      AssignClaims(table', tokens[1..], e, token);
      assert tokens[0] in tokens;
    }
  }

  lemma {:induction false} TableClaims(evidence: seq<Evidence>, token: string)
    requires token in Table(evidence)
    ensures Table(evidence)[token] in evidence && Claims(Table(evidence)[token], token)
  {
    var n := |evidence| - 1;
    AssignClaims(Table(evidence[..n]), TokensOf(evidence[n]), evidence[n], token);
    if token in Table(evidence[..n]) && Table(evidence)[token] == Table(evidence[..n])[token] {
      TableClaims(evidence[..n], token);
    }
  }

  lemma {:induction false} NonBlankKeeps(values: seq<string>, v: string)
    requires v in values && Strip(v) != ""
    ensures v in NonBlank(values)
  {
    if values[0] != v { NonBlankKeeps(values[1..], v); }
  }

  lemma {:induction false} NonBlankHas(values: seq<string>, v: string)
    ensures v in NonBlank(values) <==> v in values && Strip(v) != ""
  {
    if values != [] { NonBlankHas(values[1..], v); }
  }

  /** What follows the first hash of a citation does not matter, and neither does white space around the rest. */
  lemma AnchorsAreIgnored(token: string, anchor: string)
    requires '#' !in token
    ensures Normalize(token) == Strip(token) && Normalize(token + "#" + anchor) == Strip(token)
  {
    UpToStops(token, '#', anchor);
    assert token + ['#'] + anchor == token + "#" + anchor;
  }

  /** An item is cited under its raw id, or under its id when it has no raw id. */
  lemma CitedUnderRawId(e: Evidence)
    requires e.strong
    ensures Strip(e.rawId) != "" ==> StrongIds([e], 1) == [Strip(e.rawId)]
    ensures Strip(e.rawId) == "" && Strip(e.id) != "" ==> StrongIds([e], 1) == [Strip(e.id)]
    ensures Strip(e.rawId) == "" && Strip(e.id) == "" ==> StrongIds([e], 1) == []
  {
    assert [e][..0] == [];
  }

  /** Every way to name an item: its id, its raw id, outer white space aside, and the ids of its metadata. */
  predicate Names(e: Evidence, t: string) {
    Strip(t) != "" && (t == Strip(e.id) || t == Strip(e.rawId) || t in e.otherIds)
  }

  lemma TokensAreNames(e: Evidence, t: string)
    ensures t in TokensOf(e) <==> Names(e, t)
  {
    var values := [Strip(e.id), Strip(e.rawId)] + e.otherIds;
    NonBlankHas(values, t);
    assert Strip(e.id) == values[0] && Strip(e.rawId) == values[1];
    assert t in values <==> t == Strip(e.id) || t == Strip(e.rawId) || t in e.otherIds;
  }

  lemma {:induction false} AssignGives(table: map<string, Evidence>, tokens: seq<string>, e: Evidence, token: string)
    ensures (exists t :: t in tokens && Normalize(t) == token) ==>
      token in Assign(table, tokens, e) && Assign(table, tokens, e)[token] == e
    ensures (forall t | t in tokens :: Normalize(t) != token) ==>
      (token in Assign(table, tokens, e) <==> token in table)
      && (token in table ==> Assign(table, tokens, e)[token] == table[token])
    decreases tokens
  {
    hide Normalize;
    if tokens != [] {
      assert tokens[0] in tokens;
      AssignGives(table[Normalize(tokens[0]) := e], tokens[1..], e, token);
    }
  }

  /** A normalised token of the item. */
  ghost predicate AnswersTo(e: Evidence, token: string) { exists t :: Names(e, t) && Normalize(t) == token }

  /** Item `k` is the last that answers to the token. */
  ghost predicate IsLastAnswer(evidence: seq<Evidence>, token: string, k: nat) {
    k < |evidence| && AnswersTo(evidence[k], token) && forall j | k < j < |evidence| :: !AnswersTo(evidence[j], token)
  }

  /** Every name of every item can be cited, and stands for the last item that has it; nothing else can. */
  lemma {:induction false} TableGivesLast(evidence: seq<Evidence>, token: string)
    ensures token in Table(evidence) <==> exists e :: e in evidence && AnswersTo(e, token)
    ensures forall k: nat | IsLastAnswer(evidence, token, k) ::
      token in Table(evidence) && Table(evidence)[token] == evidence[k]
  {
    hide AnswersTo, TokensOf, Assign;
    if evidence != [] {
      var n := |evidence| - 1;
      TableGivesLast(evidence[..n], token);
      LastAnswers(Table(evidence[..n]), evidence[n], token);
      SplitLast(evidence);
      forall k: nat | IsLastAnswer(evidence, token, k)
        ensures token in Table(evidence) && Table(evidence)[token] == evidence[k]
      {
        if k < n { LastInFront(evidence, token, k); }
      }
    }
  }

  lemma LastInFront(evidence: seq<Evidence>, token: string, k: nat)
    requires IsLastAnswer(evidence, token, k) && k < |evidence| - 1
    ensures IsLastAnswer(evidence[..|evidence| - 1], token, k) && !AnswersTo(evidence[|evidence| - 1], token)
  {
    hide AnswersTo;
  }

  lemma LastAnswers(table: map<string, Evidence>, e: Evidence, token: string)
    ensures AnswersTo(e, token) ==> token in Assign(table, TokensOf(e), e) && Assign(table, TokensOf(e), e)[token] == e
    ensures !AnswersTo(e, token) ==>
      (token in Assign(table, TokensOf(e), e) <==> token in table)
      && (token in table ==> Assign(table, TokensOf(e), e)[token] == table[token])
  {
    hide Names, Normalize, TokensOf, Assign;
    AssignGives(table, TokensOf(e), e, token);
    forall t: string
      ensures t in TokensOf(e) <==> Names(e, t)
    {
      TokensAreNames(e, t);
    }
  }

  lemma ReportIdIsToken(e: Evidence)
    requires ReportId(e) != ""
    ensures ReportId(e) in TokensOf(e)
  {
    StripTwice(e.rawId);
    StripTwice(e.id);
    var values := [Strip(e.id), Strip(e.rawId)] + e.otherIds;
    assert Strip(e.id) == values[0] && Strip(e.rawId) == values[1];
    NonBlankKeeps(values, ReportId(e));
  }

  lemma StrongIdIsNotWeak(evidence: seq<Evidence>, id: string)
    requires Uniform(evidence) && IdOfStrong(evidence, id)
    ensures !IsWeak(Table(evidence), id)
  {
    var e :| e in evidence && e.strong && ReportId(e) == id;
    ReportIdIsToken(e);
    if Normalize(id) in Table(evidence) {
      TableClaims(evidence, Normalize(id));
      var f := Table(evidence)[Normalize(id)];
      var u :| u in TokensOf(f) && Normalize(u) == Normalize(id);
      assert e.strong == f.strong;
    }
  }

  lemma ReferenceTokens(id: string)
    requires IsToken(id)
    ensures Tokens(Reference(id)) == [id]
  {
    assert Reference(id) == Spelled('[', "source:", id) + "";
    SpelledTokens('[', "source:", id, "");
  }

  // ---------------------------------------------------------------- one citation, in any spelling

  predicate IsKeyword(keyword: string) {
    || (|keyword| == 7 && IsS(keyword[0]) && Lower(keyword[1..]) == "ource:")
    || keyword == "\U{6765}\U{6E90}:"
  }

  function Spelled(opening: char, keyword: string, id: string): string { [opening] + keyword + id + [Closing(opening)] }

  predicate IsBracket(c: char) { IsOpening(c) || c == ']' || c == '\U{3011}' }

  predicate NoBrackets(s: string) { forall i | 0 <= i < |s| :: !IsBracket(s[i]) }

  lemma SpelledShape(opening: char, keyword: string, id: string, rest: string)
    ensures var s, n := Spelled(opening, keyword, id) + rest, |keyword|;
      && |Spelled(opening, keyword, id)| == n + |id| + 2
      && s[0] == opening && s[1..1 + n] == keyword && s[1 + n..1 + n + |id|] == id
      && s[1 + n + |id|] == Closing(opening) && s[n + |id| + 2..] == rest
  {
  }

  lemma KeywordFound(s: string, keyword: string)
    requires IsKeyword(keyword) && |keyword| < |s| && s[1..1 + |keyword|] == keyword
    ensures KeywordEnd(s, 1) == Some(1 + |keyword|)
  {
    if |keyword| == 7 {
      assert s[1] == keyword[0] && s[2..8] == keyword[1..];
    } else {
      assert s[1] == keyword[0];
    }
  }

  lemma KeywordHasNoBrackets(keyword: string)
    requires IsKeyword(keyword)
    ensures NoBrackets(keyword)
  {
    if |keyword| == 7 {
      forall i | 0 <= i < |keyword|
        ensures !IsBracket(keyword[i])
      {
        if i > 0 { assert LowerChar(keyword[1..][i - 1]) == "ource:"[i - 1]; }
      }
    }
  }

  /** Where the token of a citation with this keyword and id ends. */
  lemma SpelledTokenAt(opening: char, keyword: string, id: string, rest: string)
    requires IsOpening(opening) && IsKeyword(keyword) && id != "" && NoBrackets(id)
    ensures var n := 1 + |keyword|;
      TokenAt(Spelled(opening, keyword, id) + rest, 0) == if IsToken(id) then Some((n, n + |id|)) else None
  {
    var s, n := Spelled(opening, keyword, id) + rest, 1 + |keyword|;
    SpelledShape(opening, keyword, id, rest);
    KeywordFound(s, keyword);
    assert forall i | n <= i < n + |id| :: s[i] == s[n..n + |id|][i - n];
    if IsToken(id) {
      RunEndIs(s, n, IsTokenChar, n + |id|);
    }
  }

  lemma {:induction false} WordsHaveNoTokens(text: string, rest: string)
    requires forall i | 0 <= i < |text| :: !IsOpening(text[i])
    ensures Tokens(text + rest) == Tokens(rest)
  {
    if text == "" {
      assert text + rest == rest;
    } else {
      var s := text + rest;
      assert s[0] == text[0] && TokenAt(s, 0).None?;
      assert s == [text[0]] + (text[1..] + rest);
      TokensSuffix([text[0]], text[1..] + rest, 0);
      WordsHaveNoTokens(text[1..], rest);
    }
  }

  lemma FirstToken(cite: string, rest: string, from: nat, to: nat)
    requires cite != "" && TokenAt(cite + rest, 0) == Some((from, to)) && from <= to && |cite| == to + 1
    ensures Tokens(cite + rest) == [cite[from..to]] + Tokens(rest)
  {
    hide TokenAt;
    TokensSuffix(cite, rest, 0);
    SlicePrefix(cite, rest, from, to);
  }

  lemma NoFirstToken(opening: char, text: string, rest: string)
    requires TokenAt([opening] + text + rest, 0).None? && forall i | 0 <= i < |text| :: !IsOpening(text[i])
    ensures Tokens([opening] + text + rest) == Tokens(rest)
  {
    hide TokenAt;
    AppendAssociates([opening], text, rest);
    TokensSuffix([opening], text + rest, 0);
    WordsHaveNoTokens(text, rest);
  }

  /** Its token is its id, if that is one; and what follows is read as if it stood alone. */
  lemma SpelledTokens(opening: char, keyword: string, id: string, rest: string)
    requires IsOpening(opening) && IsKeyword(keyword) && id != "" && NoBrackets(id)
    ensures Tokens(Spelled(opening, keyword, id) + rest) == (if IsToken(id) then [id] else []) + Tokens(rest)
  {
    var cite, n := Spelled(opening, keyword, id), 1 + |keyword|;
    SpelledTokenAt(opening, keyword, id, rest);
    SpelledShape(opening, keyword, id, "");
    KeywordHasNoBrackets(keyword);
    hide TokenAt, IsToken, TokensFrom, IsKeyword;
    if IsToken(id) {
      FirstToken(cite, rest, n, n + |id|);
      SlicePrefix(cite, "", n, n + |id|);
    } else {
      var closed := keyword + id + [Closing(opening)];
      assert cite == [opening] + closed;
      NoFirstToken(opening, closed, rest);
    }
  }

  /** Citing ids that are well-formed tokens of uniformly strong evidence is never weak. */
  lemma {:induction false} ReferencesAreStrong(evidence: seq<Evidence>, ids: seq<string>)
    requires Uniform(evidence) && ids != []
    requires forall i | 0 <= i < |ids| :: IsToken(ids[i]) && IdOfStrong(evidence, ids[i])
    ensures !CitesWeak(Table(evidence), References(ids))
  {
    var n, table := |ids| - 1, Table(evidence);
    ReferenceTokens(ids[n]);
    StrongIdIsNotWeak(evidence, ids[n]);
    if n > 0 {
      ReferencesAreStrong(evidence, ids[..n]);
      TokensJoin(References(ids[..n]), Reference(ids[n]));
      AnyWeakAppend(table, Tokens(References(ids[..n])), [ids[n]]);
    }
  }

  /** When evidence is uniform and its ids are well-formed, the repair never attaches a weak reference. */
  lemma AttachedReferencesAreStrong(evidence: seq<Evidence>)
    requires Uniform(evidence)
    requires forall e | e in evidence && e.strong && ReportId(e) != "" :: IsToken(ReportId(e))
    ensures !ReferencesAreWeak(evidence)
  {
    var ids := StrongIds(evidence, 2);
    StrongIdsAreStrong(evidence, 2);
    if ids != [] {
      ReferencesAreStrong(evidence, ids);
    }
  }

  // ---------------------------------------------------------------- which citations the repair removes

  /** A line made of text without opening brackets, citations in the plain spelling, and citations in any other. */
  datatype Piece = Words(text: string) | Cite(id: string) | Other(opening: char, keyword: string, id: string)

  predicate IsPiece(piece: Piece) {
    match piece
    case Words(text) => forall i | 0 <= i < |text| :: !IsOpening(text[i])
    case Cite(id) => id != "" && forall i | 0 <= i < |id| :: id[i] != ']'
    case Other(opening, keyword, id) =>
      IsOpening(opening) && IsKeyword(keyword) && IsToken(id) && !(opening == '[' && keyword == "source:")
  }

  predicate ArePieces(pieces: seq<Piece>) { forall i | 0 <= i < |pieces| :: IsPiece(pieces[i]) }

  function RenderPiece(piece: Piece): string {
    match piece
    case Words(text) => text
    case Cite(id) => Reference(id)
    case Other(opening, keyword, id) => Spelled(opening, keyword, id)
  }

  function Render(pieces: seq<Piece>): string {
    if pieces == [] then "" else RenderPiece(pieces[0]) + Render(pieces[1..])
  }

  /** The pieces but for the plain citations. */
  function Kept(pieces: seq<Piece>): seq<Piece> {
    if pieces == [] then []
    else if pieces[0].Cite? then Kept(pieces[1..])
    else [pieces[0]] + Kept(pieces[1..])
  }

  lemma {:induction false} WordsAreKept(text: string, rest: string)
    requires forall i | 0 <= i < |text| :: !IsOpening(text[i])
    ensures WithoutCitations(text + rest, 0) == text + WithoutCitations(rest, 0)
  {
    if text != "" {
      var s := text + rest;
      assert s[0] == text[0];
      assert PLAIN[0] == '[' && PlainEnd(s, 0).None?;
      assert s == [text[0]] + (text[1..] + rest);
      WithoutSuffix([text[0]], text[1..] + rest, 0);
      WordsAreKept(text[1..], rest);
      assert text == [text[0]] + text[1..];
    } else {
      assert text + rest == rest;
    }
  }

  lemma PlainEndSuffix(a: string, b: string, p: nat)
    requires p <= |b|
    ensures PlainEnd(a + b, |a| + p) == if PlainEnd(b, p).Some? then Some(|a| + PlainEnd(b, p).value) else None
  {
    if p + 8 <= |b| {
      SliceSuffix(a, b, p, p + 8);
      RunSuffix(a, b, p + 8, NotClosing);
    }
  }

  lemma {:induction false} WithoutSuffix(a: string, b: string, p: nat)
    requires p <= |b|
    ensures WithoutCitations(a + b, |a| + p) == WithoutCitations(b, p)
    decreases |b| - p
  {
    hide PlainEnd;
    if p < |b| {
      PlainEndSuffix(a, b, p);
      assert (a + b)[|a| + p] == b[p];
      if PlainEnd(b, p).Some? {
        WithoutSuffix(a, b, PlainEnd(b, p).value);
      } else {
        WithoutSuffix(a, b, p + 1);
      }
    }
  }

  lemma CitationIsRemoved(id: string, rest: string)
    requires IsPiece(Cite(id))
    ensures WithoutCitations(Reference(id) + rest, 0) == WithoutCitations(rest, 0)
  {
    var s, n := Reference(id) + rest, 9 + |id|;
    ReferenceShape(id, rest);
    RunEndIs(s, 8, NotClosing, 8 + |id|);
    assert PlainEnd(s, 0) == Some(n);
    WithoutSuffix(Reference(id), rest, 0);
  }

  lemma ReferenceShape(id: string, rest: string)
    requires IsPiece(Cite(id))
    ensures var s := Reference(id) + rest;
      && |Reference(id)| == 9 + |id| && s[..8] == PLAIN && s[8 + |id|] == ']'
      && forall i | 8 <= i < 8 + |id| :: NotClosing(s[i])
  {
    var s := Reference(id) + rest;
    assert forall i | 8 <= i < 8 + |id| :: s[i] == id[i - 8];
  }

  lemma NotPlain(opening: char, keyword: string, id: string, rest: string)
    requires IsPiece(Other(opening, keyword, id))
    ensures PlainEnd(Spelled(opening, keyword, id) + rest, 0).None?
  {
    var s := Spelled(opening, keyword, id) + rest;
    SpelledShape(opening, keyword, id, rest);
    assert PLAIN[0] == '[' && PLAIN[1] == 's' && PLAIN[1..] == "source:";
  }

  lemma OtherIsKept(opening: char, keyword: string, id: string, rest: string)
    requires IsPiece(Other(opening, keyword, id))
    ensures WithoutCitations(Spelled(opening, keyword, id) + rest, 0)
         == Spelled(opening, keyword, id) + WithoutCitations(rest, 0)
  {
    var cite, closed := Spelled(opening, keyword, id), keyword + id + [Closing(opening)];
    NotPlain(opening, keyword, id, rest);
    assert cite == [opening] + closed && cite + rest == [opening] + (closed + rest);
    WithoutSuffix([opening], closed + rest, 0);
    KeywordHasNoBrackets(keyword);
    WordsAreKept(closed, rest);
    AppendAssociates([opening], closed, WithoutCitations(rest, 0));
  }

  /** The repair removes the citations in the plain spelling, and those only. */
  lemma {:induction false} PlainCitationsAreRemoved(pieces: seq<Piece>)
    requires ArePieces(pieces)
    ensures WithoutCitations(Render(pieces), 0) == Render(Kept(pieces))
  {
    if pieces != [] {
      PlainCitationsAreRemoved(pieces[1..]);
      match pieces[0]
      case Words(text) => WordsAreKept(text, Render(pieces[1..]));
      case Cite(id) => CitationIsRemoved(id, Render(pieces[1..]));
      case Other(opening, keyword, id) => OtherIsKept(opening, keyword, id, Render(pieces[1..]));
    }
  }

  /** With any other spelling the citation is found but not removed. */
  lemma OtherSpellingsSurvive(opening: char, keyword: string, id: string)
    requires IsPiece(Other(opening, keyword, id))
    ensures var line := Spelled(opening, keyword, id);
      RStrip(WithoutCitations(line, 0)) == line && Tokens(line) == [id]
  {
    var line := Spelled(opening, keyword, id);
    assert line + "" == line && line[|line| - 1] == Closing(opening);
    OtherIsKept(opening, keyword, id, "");
    SpelledTokens(opening, keyword, id, "");
  }
}
