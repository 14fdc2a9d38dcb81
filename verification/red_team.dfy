/** The red-team review: findings against claims, evidence and coverage, deduplicated by a joined text key. */
module RedTeam {
  import opened Common
  import opened Lists
  import opened Records
  import opened Text
  import Evaluator

  datatype Severity = Critical | High

  datatype FindingType = CompetitiveBias | ReportRisk | StaleOrRejectedEvidence | UnsupportedClaim | WeakEvidence

  /** A finding without its wording. */
  datatype Finding = Finding(severity: Severity, findingType: FindingType, competitorId: Option<string>,
                             dimension: Option<string>, evidenceIds: seq<string>, claimIds: seq<string>)

  /** The newest report: how many source tokens it has, and which claims and evidence it lists. */
  datatype LatestReport = LatestReport(citations: nat, claimIds: seq<string>, evidenceIds: seq<string>)

  datatype Input = Input(qa: seq<Evaluator.Finding>, dimensions: seq<string>, competitors: seq<Competitor>,
                         evidence: seq<Evidence>, claims: seq<Claim>, latest: Option<LatestReport>)

  // ---------------------------------------------------------------- builders

  function QaFinding(f: Evaluator.Finding): seq<Finding> {
    match f.severity
    case Info => []
    case Warn => [Finding(High, ReportRisk, f.competitorId, f.dimension, f.evidenceIds, f.claimIds)]
    case Blocker => [Finding(Critical, ReportRisk, f.competitorId, f.dimension, f.evidenceIds, f.claimIds)]
  }

  function UnsupportedFinding(c: Claim): Finding {
    Finding(Critical, UnsupportedClaim, Some(c.competitorId), Some(c.claimType), c.evidenceIds, [c.id])
  }

  function ClaimFinding(byId: map<string, Evidence>): Claim -> seq<Finding> {
    (c: Claim) =>
      var usable := UsableAmong(Linked(byId, c.evidenceIds));
      if usable == [] then [UnsupportedFinding(c)]
      else if c.confidence < 0.55 then
        [Finding(High, WeakEvidence, Some(c.competitorId), Some(c.claimType), Evaluator.IdsOf(usable), [c.id])]
      else []
  }

  function EvidenceFinding(e: Evidence): seq<Finding> {
    if IsBad(e) then [Finding(High, StaleOrRejectedEvidence, Some(e.competitorId), Some(e.dimension), [e.id], [])]
    else if e.reliability < 0.5 then [Finding(High, WeakEvidence, Some(e.competitorId), Some(e.dimension), [e.id], [])]
    else []
  }

  predicate IsCovered(evidence: seq<Evidence>, competitorId: string, dimension: string) {
    exists i | 0 <= i < |evidence| ::
      !IsBad(evidence[i]) && evidence[i].competitorId == competitorId && evidence[i].dimension == dimension
  }

  function MissingDimensions(dimensions: seq<string>, evidence: seq<Evidence>, competitorId: string): seq<string> {
    Collect(dimensions, (d: string) => if IsCovered(evidence, competitorId, d) then [] else [d])
  }

  function CoverageBias(dimensions: seq<string>, evidence: seq<Evidence>): Competitor -> seq<Finding> {
    (c: Competitor) =>
      var missing := MissingDimensions(dimensions, evidence, c.id);
      if missing == [] then []
      else [Finding(High, CompetitiveBias, Some(c.id), Some(Join(", ", missing)), [], [])]
  }

  function ReportFindings(latest: Option<LatestReport>): seq<Finding> {
    match latest
    case None => [Finding(High, ReportRisk, None, None, [], [])]
    case Some(r) =>
      if r.citations < (if |r.claimIds| < 2 then 1 else |r.claimIds| / 2)
      then [Finding(High, ReportRisk, None, None, r.evidenceIds, r.claimIds)] else []
  }

  function AllFindings(input: Input): seq<Finding> {
    Collect(input.qa, QaFinding)
    + Collect(input.claims, ClaimFinding(ById(input.evidence)))
    + Collect(input.evidence, EvidenceFinding)
    + Collect(input.competitors, CoverageBias(input.dimensions, input.evidence))
    + ReportFindings(input.latest)
  }

  // ---------------------------------------------------------------- deduplication and order

  function Join(sep: string, parts: seq<string>): string {
    if parts == [] then ""
    else if |parts| == 1 then parts[0]
    else Join(sep, parts[..|parts| - 1]) + sep + parts[|parts| - 1]
  }

  function TypeName(t: FindingType): string {
    match t
    case CompetitiveBias => "competitive_bias"
    case ReportRisk => "report_risk"
    case StaleOrRejectedEvidence => "stale_or_rejected_evidence"
    case UnsupportedClaim => "unsupported_claim"
    case WeakEvidence => "weak_evidence"
  }

  function OrEmpty(o: Option<string>): string { if o.Some? then o.value else "" }

  function Middle(f: Finding): string {
    OrEmpty(f.competitorId) + "|" + OrEmpty(f.dimension) + "|" + Join(",", f.evidenceIds)
  }

  /** The five parts of a finding, joined by bars. */
  function Key(f: Finding): string { TypeName(f.findingType) + "|" + (Middle(f) + "|" + Join(",", f.claimIds)) }

  function SeverityRank(s: Severity): int { if s.Critical? then 0 else 1 }

  /** Severity first, then the alphabetical position of the type's name. */
  function Rank(f: Finding): int {
    5 * SeverityRank(f.severity)
    + match f.findingType
      case CompetitiveBias => 0
      case ReportRisk => 1
      case StaleOrRejectedEvidence => 2
      case UnsupportedClaim => 3
      case WeakEvidence => 4
  }

  /** The findings of the review. */
  function Review(input: Input): seq<Finding> { StableSort(Dedupe(AllFindings(input), Key), Rank) }

  // ---------------------------------------------------------------- the same, loop by loop

  method CollectClaimFindings(evidence: seq<Evidence>, claims: seq<Claim>) returns (findings: seq<Finding>)
    ensures findings == Collect(claims, ClaimFinding(ById(evidence)))
  {
    var byId := ById(evidence);
    findings := [];
    for i := 0 to |claims|
      invariant findings == Collect(claims[..i], ClaimFinding(byId))
    {
      var c := claims[i];
      var usable := UsableAmong(Linked(byId, c.evidenceIds));
      assert claims[..i + 1][..i] == claims[..i];
      if usable == [] {
        findings := findings + [UnsupportedFinding(c)];
      } else if c.confidence < 0.55 {
        findings := findings
        + [Finding(High, WeakEvidence, Some(c.competitorId), Some(c.claimType), Evaluator.IdsOf(usable), [c.id])];
      }
    }
    assert claims[..|claims|] == claims;
  }

  method CollectEvidenceFindings(evidence: seq<Evidence>) returns (findings: seq<Finding>)
    ensures findings == Collect(evidence, EvidenceFinding)
  {
    findings := [];
    for i := 0 to |evidence|
      invariant findings == Collect(evidence[..i], EvidenceFinding)
    {
      var e := evidence[i];
      assert evidence[..i + 1][..i] == evidence[..i];
      if IsBad(e) {
        findings := findings
        + [Finding(High, StaleOrRejectedEvidence, Some(e.competitorId), Some(e.dimension), [e.id], [])];
      } else if e.reliability < 0.5 {
        findings := findings + [Finding(High, WeakEvidence, Some(e.competitorId), Some(e.dimension), [e.id], [])];
      }
    }
    assert evidence[..|evidence|] == evidence;
  }

  method RunReview(input: Input) returns (findings: seq<Finding>)
    ensures findings == Review(input)
  {
    var claimFindings := CollectClaimFindings(input.evidence, input.claims);
    var evidenceFindings := CollectEvidenceFindings(input.evidence);
    var kept := DedupeBySeen(
      Collect(input.qa, QaFinding) + claimFindings + evidenceFindings
      + Collect(input.competitors, CoverageBias(input.dimensions, input.evidence)) + ReportFindings(input.latest), Key);
    findings := StableSort(kept, Rank);
  }

  // ---------------------------------------------------------------- what the key tells apart

  lemma BarAfter(front: string, x: string, i: nat)
    requires BarFree(x)
    ensures (front + "|" + x)[|front|] == '|'
    ensures |front| < i <= |front| + |x| ==> (front + "|" + x)[i] != '|'
  {
    if |front| < i <= |front| + |x| { assert (front + "|" + x)[i] == x[i - |front| - 1]; }
  }

  /** The last part of a joined text can be read back when it has no bar. */
  lemma LastPart(a: string, x: string, b: string, y: string)
    requires BarFree(x) && BarFree(y) && a + "|" + x == b + "|" + y
    ensures a == b && x == y
  {
    var s := a + "|" + x;
    BarAfter(a, x, |b|);
    BarAfter(b, y, |a|);
    assert s[..|a|] == a && s[..|b|] == b;
    assert s[|a| + 1..] == x && s[|b| + 1..] == y;
  }

  lemma TypeNamesAreApart(t: FindingType, u: FindingType)
    requires TypeName(t) == TypeName(u)
    ensures t == u
  {
    assert |TypeName(CompetitiveBias)| == 16 && |TypeName(ReportRisk)| == 11
        && |TypeName(StaleOrRejectedEvidence)| == 26
        && |TypeName(UnsupportedClaim)| == 17 && |TypeName(WeakEvidence)| == 13;
  }

  lemma TypeNamesAreBarFree(t: FindingType)
    ensures BarFree(TypeName(t))
  {
  }

  /** Findings with one key are of one type. */
  lemma KeyTellsType(f: Finding, g: Finding)
    requires Key(f) == Key(g)
    ensures f.findingType == g.findingType
    ensures Middle(f) + "|" + Join(",", f.claimIds) == Middle(g) + "|" + Join(",", g.claimIds)
  {
    TypeNamesAreBarFree(f.findingType);
    TypeNamesAreBarFree(g.findingType);
    FirstPart(TypeName(f.findingType), Middle(f) + "|" + Join(",", f.claimIds),
              TypeName(g.findingType), Middle(g) + "|" + Join(",", g.claimIds));
    TypeNamesAreApart(f.findingType, g.findingType);
  }

  // ---------------------------------------------------------------- claims in the review

  /** The first claim without usable evidence whose finding has a key. */
  function FirstUnusable(claims: seq<Claim>, byId: map<string, Evidence>, k: string): Option<Claim> {
    if claims == [] then None
    else
      var earlier, last := FirstUnusable(claims[..|claims| - 1], byId, k), claims[|claims| - 1];
      if earlier.None? && Usable(byId, last.evidenceIds) == [] && Key(UnsupportedFinding(last)) == k
      then Some(last) else earlier
  }

  lemma {:induction false} FirstUnusableIsExact(claims: seq<Claim>, byId: map<string, Evidence>, k: string)
    ensures var d := FirstUnusable(claims, byId, k);
      d.Some? ==> d.value in claims && Usable(byId, d.value.evidenceIds) == [] && Key(UnsupportedFinding(d.value)) == k
    ensures FirstUnusable(claims, byId, k).Some?
       <==> exists c :: c in claims && Usable(byId, c.evidenceIds) == [] && Key(UnsupportedFinding(c)) == k
  {
    if claims != [] {
      var n := |claims| - 1;
      FirstUnusableIsExact(claims[..n], byId, k);
      assert forall c :: c in claims <==> c in claims[..n] || c == claims[n];
    }
  }

  lemma OtherTypeOtherKey(s: seq<Finding>, c: Claim)
    requires forall f | f in s :: !f.findingType.UnsupportedClaim?
    ensures FirstOf(s, Key, Key(UnsupportedFinding(c))).None?
  {
    var k := Key(UnsupportedFinding(c));
    FirstOfIsExact(s, Key, k);
    if f :| f in s && Key(f) == k { KeyTellsType(f, UnsupportedFinding(c)); }
  }

  lemma ClaimFindingFirst(c: Claim, byId: map<string, Evidence>, d: Claim)
    ensures var k := Key(UnsupportedFinding(d));
      FirstOf(ClaimFinding(byId)(c), Key, k)
      == if Usable(byId, c.evidenceIds) == [] && Key(UnsupportedFinding(c)) == k then Some(UnsupportedFinding(c))
         else None
  {
    if Usable(byId, c.evidenceIds) == [] {
      assert ClaimFinding(byId)(c)[..0] == [];
    } else {
      OtherTypeOtherKey(ClaimFinding(byId)(c), d);
    }
  }

  lemma {:induction false} ClaimFindingsFirst(claims: seq<Claim>, byId: map<string, Evidence>, d: Claim)
    ensures var k := Key(UnsupportedFinding(d)); var first := FirstUnusable(claims, byId, k);
      FirstOf(Collect(claims, ClaimFinding(byId)), Key, k)
      == if first.Some? then Some(UnsupportedFinding(first.value)) else None
  {
    if claims != [] {
      var n := |claims| - 1;
      ClaimFindingsFirst(claims[..n], byId, d);
      ClaimFindingFirst(claims[n], byId, d);
      FirstOfAppend(Collect(claims[..n], ClaimFinding(byId)), ClaimFinding(byId)(claims[n]), Key,
        Key(UnsupportedFinding(d)));
    }
  }

  lemma QaTypes(qa: seq<Evaluator.Finding>, f: Finding)
    requires f in Collect(qa, QaFinding)
    ensures f.findingType.ReportRisk?
  {
    CollectHas(qa, QaFinding, f);
  }

  lemma EvidenceTypes(evidence: seq<Evidence>, f: Finding)
    requires f in Collect(evidence, EvidenceFinding)
    ensures !f.findingType.UnsupportedClaim?
  {
    CollectHas(evidence, EvidenceFinding, f);
  }

  lemma BiasTypes(dimensions: seq<string>, evidence: seq<Evidence>, competitors: seq<Competitor>, f: Finding)
    requires f in Collect(competitors, CoverageBias(dimensions, evidence))
    ensures f.findingType.CompetitiveBias?
  {
    CollectHas(competitors, CoverageBias(dimensions, evidence), f);
  }

  lemma ClaimTypes(claims: seq<Claim>, byId: map<string, Evidence>, f: Finding)
    requires f in Collect(claims, ClaimFinding(byId)) && f.findingType.UnsupportedClaim?
    ensures exists c :: c in claims && Usable(byId, c.evidenceIds) == [] && f == UnsupportedFinding(c)
  {
    CollectHas(claims, ClaimFinding(byId), f);
  }

  /** Only the claim builder produces findings with the key of an unsupported claim. */
  lemma FirstComesFromClaims(input: Input, d: Claim)
    ensures var k := Key(UnsupportedFinding(d));
      FirstOf(AllFindings(input), Key, k) == FirstOf(Collect(input.claims, ClaimFinding(ById(input.evidence))), Key, k)
  {
    var k := Key(UnsupportedFinding(d));
    var qa := Collect(input.qa, QaFinding);
    var claims := Collect(input.claims, ClaimFinding(ById(input.evidence)));
    var evidence := Collect(input.evidence, EvidenceFinding);
    var bias := Collect(input.competitors, CoverageBias(input.dimensions, input.evidence));
    var report := ReportFindings(input.latest);
    forall f | f in qa ensures !f.findingType.UnsupportedClaim? { QaTypes(input.qa, f); }
    forall f | f in evidence ensures !f.findingType.UnsupportedClaim? { EvidenceTypes(input.evidence, f); }
    forall f | f in bias ensures !f.findingType.UnsupportedClaim? {
      BiasTypes(input.dimensions, input.evidence, input.competitors, f);
    }
    OtherTypeOtherKey(qa, d);
    OtherTypeOtherKey(evidence, d);
    OtherTypeOtherKey(bias, d);
    OtherTypeOtherKey(report, d);
    FirstOfAppend(qa + claims + evidence + bias, report, Key, k);
    FirstOfAppend(qa + claims + evidence, bias, Key, k);
    FirstOfAppend(qa + claims, evidence, Key, k);
    FirstOfAppend(qa, claims, Key, k);
  }

  /**
   The finding against a claim survives the deduplication exactly when the first claim without usable evidence
   that shares its joined key shares the finding too.
   */
  lemma UnsupportedExactlyWhen(input: Input, c: Claim)
    ensures var first := FirstUnusable(input.claims, ById(input.evidence), Key(UnsupportedFinding(c)));
      UnsupportedFinding(c) in Review(input)
      <==> first.Some? && UnsupportedFinding(first.value) == UnsupportedFinding(c)
  {
    var f := UnsupportedFinding(c);
    SortHas(Dedupe(AllFindings(input), Key), Rank, f);
    DedupeKeepsFirst(AllFindings(input), Key, f);
    FirstComesFromClaims(input, c);
    ClaimFindingsFirst(input.claims, ById(input.evidence), c);
  }

  ghost predicate PlainIds(claims: seq<Claim>) {
    && (forall c | c in claims :: BarFree(c.id))
    && (forall i, j | 0 <= i < j < |claims| :: claims[i].id != claims[j].id)
  }

  /** With distinct claim ids without bars, a claim has its finding exactly when it has no usable evidence. */
  lemma UnsupportedIsExact(input: Input, c: Claim)
    requires c in input.claims && PlainIds(input.claims)
    ensures UnsupportedFinding(c) in Review(input) <==> Usable(ById(input.evidence), c.evidenceIds) == []
  {
    var byId, f := ById(input.evidence), UnsupportedFinding(c);
    UnsupportedExactlyWhen(input, c);
    FirstUnusableIsExact(input.claims, byId, Key(f));
    var first := FirstUnusable(input.claims, byId, Key(f));
    if first.Some? {
      var g := UnsupportedFinding(first.value);
      KeyTellsType(f, g);
      LastPart(Middle(f), c.id, Middle(g), first.value.id);
      assert first.value == c;
    }
  }

  /** Whatever the ids, some finding of the type is there exactly when some claim has no usable evidence. */
  lemma SomeUnsupported(input: Input)
    ensures (exists f :: f in Review(input) && f.findingType.UnsupportedClaim?)
       <==> (exists c :: c in input.claims && Usable(ById(input.evidence), c.evidenceIds) == [])
  {
    var byId := ById(input.evidence);
    if c :| c in input.claims && Usable(byId, c.evidenceIds) == [] {
      FirstUnusableIsExact(input.claims, byId, Key(UnsupportedFinding(c)));
      var d := FirstUnusable(input.claims, byId, Key(UnsupportedFinding(c))).value;
      UnsupportedExactlyWhen(input, d);
      assert UnsupportedFinding(d) in Review(input);
    }
    if f :| f in Review(input) && f.findingType.UnsupportedClaim? { UnsupportedComesFromClaim(input, f); }
  }

  lemma UnsupportedComesFromClaim(input: Input, f: Finding)
    requires f in Review(input) && f.findingType.UnsupportedClaim?
    ensures exists c ::
      c in input.claims && Usable(ById(input.evidence), c.evidenceIds) == [] && f == UnsupportedFinding(c)
  {
    SortHas(Dedupe(AllFindings(input), Key), Rank, f);
    DedupeIsExact(AllFindings(input), Key);
    assert f in AllFindings(input);
    if f in Collect(input.qa, QaFinding) {
      QaTypes(input.qa, f);
    } else if f in Collect(input.evidence, EvidenceFinding) {
      EvidenceTypes(input.evidence, f);
    } else if f in Collect(input.competitors, CoverageBias(input.dimensions, input.evidence)) {
      BiasTypes(input.dimensions, input.evidence, input.competitors, f);
    } else {
      ClaimTypes(input.claims, ById(input.evidence), f);
    }
  }

  const SPLIT_IN_EVIDENCE := Claim("k", "acme", "pricing", ["e|x"], 1.0, {})
  const SPLIT_IN_CLAIM := Claim("x|k", "acme", "pricing", ["e"], 1.0, {})

  lemma BarsJoinKeys()
    ensures Key(UnsupportedFinding(SPLIT_IN_EVIDENCE)) == Key(UnsupportedFinding(SPLIT_IN_CLAIM))
  {
    var head := "acme" + "|" + "pricing" + "|";
    assert Middle(UnsupportedFinding(SPLIT_IN_EVIDENCE)) == head + "e|x";
    assert Middle(UnsupportedFinding(SPLIT_IN_CLAIM)) == head + "e";
    assert (head + "e|x") + "|" + "k" == (head + "e") + "|" + "x|k";
  }

  /** Ids with bars can hide a finding: two claims without any evidence share one finding, the first claim's. */
  lemma BarsHideFindings()
    ensures UnsupportedFinding(SPLIT_IN_CLAIM)
      !in Review(Input([], [], [], [], [SPLIT_IN_EVIDENCE, SPLIT_IN_CLAIM], None))
  {
    var claims := [SPLIT_IN_EVIDENCE, SPLIT_IN_CLAIM];
    var k := Key(UnsupportedFinding(SPLIT_IN_CLAIM));
    BarsJoinKeys();
    assert claims[..1] == [SPLIT_IN_EVIDENCE] && claims[..1][..0] == [];
    assert FirstUnusable(claims[..1], map[], k) == Some(SPLIT_IN_EVIDENCE);
    UnsupportedExactlyWhen(Input([], [], [], [], claims, None), SPLIT_IN_CLAIM);
  }

  // ---------------------------------------------------------------- every finding, over the records

  ghost predicate ChallengesQa(qa: seq<Evaluator.Finding>, f: Finding) {
    exists q :: q in qa && (q.severity == Evaluator.Blocker || q.severity == Evaluator.Warn)
      && f == Finding(if q.severity == Evaluator.Blocker then Critical else High, ReportRisk,
                      q.competitorId, q.dimension, q.evidenceIds, q.claimIds)
  }

  /** A claim without usable evidence, or one that has some but is itself of low confidence. */
  ghost predicate ChallengesClaim(evidence: seq<Evidence>, claims: seq<Claim>, f: Finding) {
    exists c :: c in claims && DoubtsClaim(evidence, c, f)
  }

  ghost predicate DoubtsClaim(evidence: seq<Evidence>, c: Claim, f: Finding) {
    if Evaluator.LeadsNowhere(evidence, c) then
      f == Finding(Critical, UnsupportedClaim, Some(c.competitorId), Some(c.claimType), c.evidenceIds, [c.id])
    else
      c.confidence < 0.55
      && f == Finding(High, WeakEvidence, Some(c.competitorId), Some(c.claimType),
                      Evaluator.IdsOf(Usable(ById(evidence), c.evidenceIds)), [c.id])
  }

  /** An item that is rejected or stale, or one that is neither but hardly reliable. */
  ghost predicate ChallengesEvidence(evidence: seq<Evidence>, f: Finding) {
    exists e :: e in evidence && DoubtsEvidence(e, f)
  }

  predicate DoubtsEvidence(e: Evidence, f: Finding) {
    if e.quality == Rejected || e.quality == Stale then
      f == Finding(High, StaleOrRejectedEvidence, Some(e.competitorId), Some(e.dimension), [e.id], [])
    else
      e.reliability < 0.5 && f == Finding(High, WeakEvidence, Some(e.competitorId), Some(e.dimension), [e.id], [])
  }

  /** Usable evidence of the competitor under exactly this dimension name. */
  ghost predicate HasExact(evidence: seq<Evidence>, competitorId: string, dimension: string) {
    exists e :: e in evidence && (e.quality == Accepted || e.quality == Unreviewed)
      && e.competitorId == competitorId && e.dimension == dimension
  }

  /** A competitor lacks some of the dimensions; one finding names all of them, in the order of the plan. */
  ghost predicate ChallengesCoverage(input: Input, f: Finding) {
    exists c :: c in input.competitors
      && (exists d :: d in input.dimensions && !HasExact(input.evidence, c.id, d))
      && f == Finding(High, CompetitiveBias, Some(c.id),
                      Some(Join(", ", MissingDimensions(input.dimensions, input.evidence, c.id))), [], [])
  }

  /** There is no report, or the newest has no citation, or fewer than one for every two claims it lists. */
  ghost predicate ChallengesReport(latest: Option<LatestReport>, f: Finding) {
    if latest.None? then f == Finding(High, ReportRisk, None, None, [], [])
    else
      && (latest.value.citations == 0 || 2 * latest.value.citations + 1 < |latest.value.claimIds|)
      && f == Finding(High, ReportRisk, None, None, latest.value.evidenceIds, latest.value.claimIds)
  }

  ghost predicate Challenges(input: Input, f: Finding) {
    || ChallengesQa(input.qa, f)
    || ChallengesClaim(input.evidence, input.claims, f)
    || ChallengesEvidence(input.evidence, f)
    || ChallengesCoverage(input, f)
    || ChallengesReport(input.latest, f)
  }

  /** The missing dimensions are those of the plan without exact usable evidence, each as often as the plan has it. */
  lemma {:induction false} MissingIsExact(dimensions: seq<string>, evidence: seq<Evidence>, competitorId: string)
    ensures forall d :: d in MissingDimensions(dimensions, evidence, competitorId)
                   <==> d in dimensions && !HasExact(evidence, competitorId, d)
    ensures |MissingDimensions(dimensions, evidence, competitorId)|
         == Count(dimensions, (d: string) => !IsCovered(evidence, competitorId, d))
  {
    if dimensions != [] {
      var n := |dimensions| - 1;
      MissingIsExact(dimensions[..n], evidence, competitorId);
      MissingGrows(dimensions, evidence, competitorId);
      CoveredMeans(evidence, competitorId, dimensions[n]);
      SplitLast(dimensions);
    }
  }

  lemma MissingGrows(dimensions: seq<string>, evidence: seq<Evidence>, competitorId: string)
    requires dimensions != []
    ensures var n := |dimensions| - 1;
      MissingDimensions(dimensions, evidence, competitorId)
      == MissingDimensions(dimensions[..n], evidence, competitorId)
         + (if IsCovered(evidence, competitorId, dimensions[n]) then [] else [dimensions[n]])
  {
    hide IsCovered;
  }

  lemma CoveredMeans(evidence: seq<Evidence>, competitorId: string, dimension: string)
    ensures IsCovered(evidence, competitorId, dimension) <==> HasExact(evidence, competitorId, dimension)
  {
  }

  lemma QaIsExact(qa: seq<Evaluator.Finding>, f: Finding)
    ensures f in Collect(qa, QaFinding) <==> ChallengesQa(qa, f)
  {
    CollectHas(qa, QaFinding, f);
  }

  lemma ClaimsAreExact(evidence: seq<Evidence>, claims: seq<Claim>, f: Finding)
    ensures f in Collect(claims, ClaimFinding(ById(evidence))) <==> ChallengesClaim(evidence, claims, f)
  {
    hide Evaluator.LeadsNowhere, Usable, Evaluator.IdsOf;
    CollectHas(claims, ClaimFinding(ById(evidence)), f);
    forall c: Claim
      ensures Usable(ById(evidence), c.evidenceIds) == [] <==> Evaluator.LeadsNowhere(evidence, c)
    {
      Evaluator.NowhereMeansUnusable(evidence, c);
    }
  }

  lemma EvidenceIsExact(evidence: seq<Evidence>, f: Finding)
    ensures f in Collect(evidence, EvidenceFinding) <==> ChallengesEvidence(evidence, f)
  {
    CollectHas(evidence, EvidenceFinding, f);
  }

  lemma CoverageIsExact(input: Input, f: Finding)
    ensures f in Collect(input.competitors, CoverageBias(input.dimensions, input.evidence))
       <==> ChallengesCoverage(input, f)
  {
    hide MissingDimensions, HasExact, Join;
    CollectHas(input.competitors, CoverageBias(input.dimensions, input.evidence), f);
    forall c: Competitor
      ensures MissingDimensions(input.dimensions, input.evidence, c.id) != []
         <==> exists d :: d in input.dimensions && !HasExact(input.evidence, c.id, d)
    {
      var missing := MissingDimensions(input.dimensions, input.evidence, c.id);
      MissingIsExact(input.dimensions, input.evidence, c.id);
      if missing != [] { assert missing[0] in missing; }
    }
  }

  lemma ReportIsExact(latest: Option<LatestReport>, f: Finding)
    ensures f in ReportFindings(latest) <==> ChallengesReport(latest, f)
  {
  }

  lemma AllFindingsAreExact(input: Input, f: Finding)
    ensures f in AllFindings(input) <==> Challenges(input, f)
  {
    hide ChallengesQa, ChallengesClaim, ChallengesEvidence, ChallengesCoverage, ChallengesReport, ReportFindings;
    QaIsExact(input.qa, f);
    ClaimsAreExact(input.evidence, input.claims, f);
    EvidenceIsExact(input.evidence, f);
    CoverageIsExact(input, f);
    ReportIsExact(input.latest, f);
  }

  /**
   Sound and complete up to the joined key: the review holds only findings the records call for, and for each of those
   one of the same type that shares its key.
   */
  lemma ReviewIsExact(input: Input, f: Finding)
    ensures f in Review(input) ==> Challenges(input, f)
    ensures Challenges(input, f) ==>
      exists g :: g in Review(input) && Key(g) == Key(f) && g.findingType == f.findingType
  {
    hide Challenges, AllFindings, Key;
    AllFindingsAreExact(input, f);
    DedupeIsExact(AllFindings(input), Key);
    var kept := Dedupe(AllFindings(input), Key);
    SortHas(kept, Rank, f);
    if Challenges(input, f) {
      var i :| 0 <= i < |kept| && Key(kept[i]) == Key(f);
      SortHas(kept, Rank, kept[i]);
      KeyTellsType(kept[i], f);
    }
  }

  lemma LowerRankComesFirst(f: Finding, g: Finding)
    requires Rank(f) <= Rank(g)
    ensures g.severity == Critical ==> f.severity == Critical
    ensures f.severity == g.severity ==> !Text.Precedes(TypeName(g.findingType), TypeName(f.findingType))
  {
    Text.PrecedesIsStrict(TypeName(g.findingType), TypeName(f.findingType));
    if f.severity == g.severity && f.findingType != g.findingType {
      assert Text.DiffersFirst(TypeName(f.findingType), TypeName(g.findingType), 0);
    }
  }

  /** Critical findings come first, those of one severity in the alphabetical order of their types. */
  lemma MostSevereFirst(input: Input, i: nat, j: nat)
    requires i < j < |Review(input)|
    ensures var f, g := Review(input)[i], Review(input)[j];
      && (g.severity == Critical ==> f.severity == Critical)
      && (f.severity == g.severity ==> !Text.Precedes(TypeName(g.findingType), TypeName(f.findingType)))
  {
    hide AllFindings, Dedupe, Key, TypeName, Text.Precedes, StableSort, Rank;
    StableSortIsStable(Dedupe(AllFindings(input), Key), Rank);
    LowerRankComesFirst(Review(input)[i], Review(input)[j]);
  }
}
