/** The gap analysis: what evidence is missing, stale or rejected, without duplicates and in order of urgency. */
module EvidenceGaps {
  import opened Common
  import opened Text
  import opened Lists
  import opened Records
  import opened Evaluator

  datatype GapSeverity = Critical | High | Medium | Low

  datatype GapType =
    | ClaimWithoutUsableEvidence
    | LandscapeBreadth
    | MissingDimensionCoverage
    | MissingVerifiedSource
    | StaleOrRejectedEvidence

  /** A gap without its wording. */
  datatype Gap = Gap(severity: GapSeverity, gapType: GapType, competitorId: Option<string>,
                     dimension: Option<string>, evidenceIds: seq<string>, claimIds: seq<string>)

  datatype GapKey = GapKey(competitorId: Option<string>, dimension: Option<string>, gapType: GapType,
                           evidenceIds: seq<string>, claimIds: seq<string>)

  function KeyOf(g: Gap): GapKey { GapKey(g.competitorId, g.dimension, g.gapType, g.evidenceIds, g.claimIds) }

  /** What the QA-only builder compares: the key without the type. */
  datatype Subject = Subject(competitorId: Option<string>, dimension: Option<string>,
                             claimIds: seq<string>, evidenceIds: seq<string>)

  function SubjectOf(g: Gap): Subject { Subject(g.competitorId, g.dimension, g.claimIds, g.evidenceIds) }

  function SubjectOfFinding(f: Finding): Subject { Subject(f.competitorId, f.dimension, f.claimIds, f.evidenceIds) }

  function SeverityRank(s: GapSeverity): int {
    match s
    case Critical => 0
    case High => 1
    case Medium => 2
    case Low => 3
  }

  /** The alphabetical position of the type's name. */
  function TypeRank(t: GapType): int {
    match t
    case ClaimWithoutUsableEvidence => 0
    case LandscapeBreadth => 1
    case MissingDimensionCoverage => 2
    case MissingVerifiedSource => 3
    case StaleOrRejectedEvidence => 4
  }

  function Rank(g: Gap): int { 5 * SeverityRank(g.severity) + TypeRank(g.gapType) }

  function SeverityOfFinding(s: Severity): GapSeverity {
    match s
    case Blocker => Critical
    case Warn => High
    case Info => Medium
  }

  // ---------------------------------------------------------------- builders

  function CoverageGap(competitor: Competitor, evidence: seq<Evidence>): string -> seq<Gap> {
    (dimension: string) =>
      var usable := Matching(evidence, competitor.id, dimension);
      if usable == [] then
        [Gap(High, MissingDimensionCoverage, Some(competitor.id), Some(dimension), [], [])]
      else if Eligible(usable, true) == [] then
        [Gap(Medium, MissingVerifiedSource, Some(competitor.id), Some(dimension), IdsOf(usable), [])]
      else []
  }

  function CoverageGaps(dimensions: seq<string>, evidence: seq<Evidence>): Competitor -> seq<Gap> {
    (competitor: Competitor) => Collect(dimensions, CoverageGap(competitor, evidence))
  }

  predicate IsKnown(competitors: seq<Competitor>, id: string) {
    exists i | 0 <= i < |competitors| :: competitors[i].id == id
  }

  function QualityGap(competitors: seq<Competitor>): Evidence -> seq<Gap> {
    (e: Evidence) =>
      if !IsBad(e) then []
      else [Gap(Medium, StaleOrRejectedEvidence,
                if IsKnown(competitors, e.competitorId) then Some(e.competitorId) else None,
                Some(e.dimension), [e.id], [])]
  }

  function ClaimGapOf(claim: Claim): Gap {
    Gap(Critical, ClaimWithoutUsableEvidence, None, Some(claim.claimType), claim.evidenceIds, [claim.id])
  }

  function ClaimGap(byId: map<string, Evidence>): Claim -> seq<Gap> {
    (claim: Claim) => if UsableAmong(Linked(byId, claim.evidenceIds)) != [] then [] else [ClaimGapOf(claim)]
  }

  function LandscapeGaps(plan: Plan, competitors: seq<Competitor>): seq<Gap> {
    if plan.layer != "L3" || |competitors| >= 4 then []
    else [Gap(Medium, LandscapeBreadth, None, Some("market"), [], [])]
  }

  function GapOfFinding(f: Finding): Gap {
    Gap(SeverityOfFinding(f.severity),
        if f.claimIds != [] then ClaimWithoutUsableEvidence else MissingDimensionCoverage,
        f.competitorId, f.dimension, f.evidenceIds, f.claimIds)
  }

  function QaOnlyGap(existing: seq<Gap>): Finding -> seq<Gap> {
    (f: Finding) => if HasKey(existing, SubjectOf, SubjectOfFinding(f)) then [] else [GapOfFinding(f)]
  }

  function BaseGaps(plan: Plan, competitors: seq<Competitor>, evidence: seq<Evidence>, claims: seq<Claim>): seq<Gap> {
    Collect(competitors, CoverageGaps(plan.dimensions, evidence))
    + Collect(evidence, QualityGap(competitors))
    + Collect(claims, ClaimGap(ById(evidence)))
    + LandscapeGaps(plan, competitors)
  }

  function AllGaps(plan: Plan, qa: seq<Finding>, competitors: seq<Competitor>, evidence: seq<Evidence>,
                   claims: seq<Claim>): seq<Gap>
  {
    var base := BaseGaps(plan, competitors, evidence, claims);
    base + Collect(qa, QaOnlyGap(base))
  }

  /** The gaps of the report. */
  function Analyze(plan: Plan, qa: seq<Finding>, competitors: seq<Competitor>, evidence: seq<Evidence>,
                   claims: seq<Claim>): seq<Gap>
  {
    StableSort(Dedupe(AllGaps(plan, qa, competitors, evidence, claims), KeyOf), Rank)
  }

  // ---------------------------------------------------------------- the same, loop by loop

  method CollectCoverageGaps(dimensions: seq<string>, competitors: seq<Competitor>, evidence: seq<Evidence>)
    returns (gaps: seq<Gap>)
    ensures gaps == Collect(competitors, CoverageGaps(dimensions, evidence))
  {
    gaps := [];
    for c := 0 to |competitors|
      invariant gaps == Collect(competitors[..c], CoverageGaps(dimensions, evidence))
    {
      var more := CollectCompetitorGaps(competitors[c], dimensions, evidence);
      assert competitors[..c + 1][..c] == competitors[..c];
      gaps := gaps + more;
    }
    assert competitors[..|competitors|] == competitors;
  }

  method CollectCompetitorGaps(competitor: Competitor, dimensions: seq<string>, evidence: seq<Evidence>)
    returns (gaps: seq<Gap>)
    ensures gaps == Collect(dimensions, CoverageGap(competitor, evidence))
  {
    hide Matching, Eligible, IdsOf;
    gaps := [];
    for d := 0 to |dimensions|
      invariant gaps == Collect(dimensions[..d], CoverageGap(competitor, evidence))
    {
      var usable := Matching(evidence, competitor.id, dimensions[d]);
      assert dimensions[..d + 1][..d] == dimensions[..d];
      if usable == [] {
        gaps := gaps + [Gap(High, MissingDimensionCoverage, Some(competitor.id), Some(dimensions[d]), [], [])];
      } else if Eligible(usable, true) == [] {
        gaps := gaps
          + [Gap(Medium, MissingVerifiedSource, Some(competitor.id), Some(dimensions[d]), IdsOf(usable), [])];
      }
    }
    assert dimensions[..|dimensions|] == dimensions;
  }

  method CollectQualityGaps(competitors: seq<Competitor>, evidence: seq<Evidence>) returns (gaps: seq<Gap>)
    ensures gaps == Collect(evidence, QualityGap(competitors))
  {
    gaps := [];
    for i := 0 to |evidence|
      invariant gaps == Collect(evidence[..i], QualityGap(competitors))
    {
      var e := evidence[i];
      assert evidence[..i + 1][..i] == evidence[..i];
      if IsBad(e) {
        gaps := gaps + [Gap(Medium, StaleOrRejectedEvidence,
                            if IsKnown(competitors, e.competitorId) then Some(e.competitorId) else None,
                            Some(e.dimension), [e.id], [])];
      }
    }
    assert evidence[..|evidence|] == evidence;
  }

  method CollectClaimGaps(claims: seq<Claim>, evidence: seq<Evidence>) returns (gaps: seq<Gap>)
    ensures gaps == Collect(claims, ClaimGap(ById(evidence)))
  {
    var byId := ById(evidence);
    gaps := [];
    for i := 0 to |claims|
      invariant gaps == Collect(claims[..i], ClaimGap(byId))
    {
      assert claims[..i + 1][..i] == claims[..i];
      if UsableAmong(Linked(byId, claims[i].evidenceIds)) == [] {
        gaps := gaps + [ClaimGapOf(claims[i])];
      }
    }
    assert claims[..|claims|] == claims;
  }

  method CollectQaOnlyGaps(qa: seq<Finding>, existing: seq<Gap>) returns (gaps: seq<Gap>)
    ensures gaps == Collect(qa, QaOnlyGap(existing))
  {
    gaps := [];
    for i := 0 to |qa|
      invariant gaps == Collect(qa[..i], QaOnlyGap(existing))
    {
      assert qa[..i + 1][..i] == qa[..i];
      if !HasKey(existing, SubjectOf, SubjectOfFinding(qa[i])) {
        gaps := gaps + [GapOfFinding(qa[i])];
      }
    }
    assert qa[..|qa|] == qa;
  }

  datatype Report = Report(gapCount: nat, critical: nat, high: nat, medium: nat, low: nat, gaps: seq<Gap>)

  function CountSeverity(gaps: seq<Gap>, s: GapSeverity): nat {
    if gaps == [] then 0
    else CountSeverity(gaps[..|gaps| - 1], s) + (if gaps[|gaps| - 1].severity == s then 1 else 0)
  }

  method AnalyzeEvidenceGaps(plan: Plan, qa: seq<Finding>, competitors: seq<Competitor>, evidence: seq<Evidence>,
                             claims: seq<Claim>)
    returns (report: Report)
    ensures report.gaps == Analyze(plan, qa, competitors, evidence, claims)
    ensures report.gapCount == |report.gaps| == report.critical + report.high + report.medium + report.low
    ensures report.critical == Count(report.gaps, (g: Gap) => g.severity.Critical?)
    ensures report.high == Count(report.gaps, (g: Gap) => g.severity.High?)
    ensures report.medium == Count(report.gaps, (g: Gap) => g.severity.Medium?)
    ensures report.low == Count(report.gaps, (g: Gap) => g.severity.Low?)
  {
    var gaps := CollectCoverageGaps(plan.dimensions, competitors, evidence);
    var qualityGaps := CollectQualityGaps(competitors, evidence);
    gaps := gaps + qualityGaps;
    var claimGaps := CollectClaimGaps(claims, evidence);
    gaps := gaps + claimGaps + LandscapeGaps(plan, competitors);
    var qaGaps := CollectQaOnlyGaps(qa, gaps);
    gaps := DedupeBySeen(gaps + qaGaps, KeyOf);
    gaps := StableSort(gaps, Rank);
    SeveritiesPartition(gaps);
    SeveritiesAreCounted(gaps);
    report := Report(|gaps|, CountSeverity(gaps, Critical), CountSeverity(gaps, High), CountSeverity(gaps, Medium),
                     CountSeverity(gaps, Low), gaps);
  }

  lemma {:induction false} SeveritiesPartition(gaps: seq<Gap>)
    ensures CountSeverity(gaps, Critical) + CountSeverity(gaps, High) + CountSeverity(gaps, Medium)
          + CountSeverity(gaps, Low) == |gaps|
  {
    if gaps != [] { SeveritiesPartition(gaps[..|gaps| - 1]); }
  }

  // ---------------------------------------------------------------- no duplicates, nothing lost

  /** Some gap of the list has this key. */
  ghost predicate Represented(gaps: seq<Gap>, k: GapKey) { exists g :: g in gaps && KeyOf(g) == k }

  /**
   The result has no two gaps with one key, one gap for every key that was found, nothing else, most urgent first,
   and gaps of equal urgency in the order in which they were found.
   */
  lemma ResultIsExact(plan: Plan, qa: seq<Finding>, competitors: seq<Competitor>, evidence: seq<Evidence>,
                      claims: seq<Claim>)
    ensures var all, gaps := AllGaps(plan, qa, competitors, evidence, claims),
                             Analyze(plan, qa, competitors, evidence, claims);
      && multiset(gaps) == multiset(Dedupe(all, KeyOf))
      && DistinctKeys(Dedupe(all, KeyOf), KeyOf)
      && IsSorted(gaps, Rank)
      && (forall r :: OfRank(gaps, Rank, r) == OfRank(Dedupe(all, KeyOf), Rank, r))
      && (forall g | g in gaps :: g in all)
      && (forall g | g in all :: Represented(gaps, KeyOf(g)))
  {
    var all := AllGaps(plan, qa, competitors, evidence, claims);
    var kept := Dedupe(all, KeyOf);
    DedupeIsExact(all, KeyOf);
    StableSortIsStable(kept, Rank);
    forall g | g in StableSort(kept, Rank)
      ensures g in all
    {
      SortHas(kept, Rank, g);
    }
    forall g | g in all
      ensures Represented(StableSort(kept, Rank), KeyOf(g))
    {
      var i :| 0 <= i < |kept| && KeyOf(kept[i]) == KeyOf(g);
      SortHas(kept, Rank, kept[i]);
    }
  }

  lemma BaseGapIsRepresented(plan: Plan, qa: seq<Finding>, competitors: seq<Competitor>, evidence: seq<Evidence>,
                             claims: seq<Claim>, g: Gap)
    requires g in BaseGaps(plan, competitors, evidence, claims)
    ensures Represented(Analyze(plan, qa, competitors, evidence, claims), KeyOf(g))
  {
    ResultIsExact(plan, qa, competitors, evidence, claims);
    assert g in AllGaps(plan, qa, competitors, evidence, claims);
  }

  /** Every competitor and dimension has usable verified evidence or a gap in the result. */
  lemma CoverageIsComplete(plan: Plan, qa: seq<Finding>, competitors: seq<Competitor>, evidence: seq<Evidence>,
                           claims: seq<Claim>, c: Competitor, d: string)
    requires c in competitors && d in plan.dimensions
    ensures Eligible(Matching(evidence, c.id, d), true) != []
         || exists g :: g in Analyze(plan, qa, competitors, evidence, claims)
                        && (g.gapType.MissingDimensionCoverage? || g.gapType.MissingVerifiedSource?)
                        && g.competitorId == Some(c.id) && g.dimension == Some(d)
  {
    var found := CoverageGap(c, evidence)(d);
    if found != [] {
      var g := found[0];
      CollectHas(plan.dimensions, CoverageGap(c, evidence), g);
      CollectHas(competitors, CoverageGaps(plan.dimensions, evidence), g);
      assert g in CoverageGaps(plan.dimensions, evidence)(c);
      BaseGapIsRepresented(plan, qa, competitors, evidence, claims, g);
    }
  }

  /** Every rejected or stale item has a gap of its own in the result. */
  lemma BadEvidenceIsReported(plan: Plan, qa: seq<Finding>, competitors: seq<Competitor>, evidence: seq<Evidence>,
                              claims: seq<Claim>, e: Evidence)
    requires e in evidence && IsBad(e)
    ensures exists g :: g in Analyze(plan, qa, competitors, evidence, claims)
                        && g.gapType.StaleOrRejectedEvidence? && g.evidenceIds == [e.id]
                        && g.dimension == Some(e.dimension)
  {
    var g := QualityGap(competitors)(e)[0];
    CollectHas(evidence, QualityGap(competitors), g);
    BaseGapIsRepresented(plan, qa, competitors, evidence, claims, g);
  }

  /** Every QA finding has a gap about the same competitor, dimension, claims and evidence in the result. */
  lemma FindingsAreReported(plan: Plan, qa: seq<Finding>, competitors: seq<Competitor>, evidence: seq<Evidence>,
                            claims: seq<Claim>, f: Finding)
    requires f in qa
    ensures exists g :: g in Analyze(plan, qa, competitors, evidence, claims) && SubjectOf(g) == SubjectOfFinding(f)
  {
    var base := BaseGaps(plan, competitors, evidence, claims);
    ResultIsExact(plan, qa, competitors, evidence, claims);
    if HasKey(base, SubjectOf, SubjectOfFinding(f)) {
      var i :| 0 <= i < |base| && SubjectOf(base[i]) == SubjectOfFinding(f);
      BaseGapIsRepresented(plan, qa, competitors, evidence, claims, base[i]);
    } else {
      var g := GapOfFinding(f);
      CollectHas(qa, QaOnlyGap(base), g);
      assert g in AllGaps(plan, qa, competitors, evidence, claims);
    }
  }

  // ---------------------------------------------------------------- claims in the result

  lemma CoverageGapsNameNoClaim(dimensions: seq<string>, competitors: seq<Competitor>, evidence: seq<Evidence>, g: Gap)
    requires g in Collect(competitors, CoverageGaps(dimensions, evidence))
    ensures g.claimIds == []
  {
    CollectHas(competitors, CoverageGaps(dimensions, evidence), g);
    var c :| c in competitors && g in CoverageGaps(dimensions, evidence)(c);
    CompetitorGapsNameNoClaim(dimensions, c, evidence, g);
  }

  lemma CompetitorGapsNameNoClaim(dimensions: seq<string>, c: Competitor, evidence: seq<Evidence>, g: Gap)
    requires g in Collect(dimensions, CoverageGap(c, evidence))
    ensures g.claimIds == []
  {
    CollectHas(dimensions, CoverageGap(c, evidence), g);
  }

  lemma QualityGapsNameNoClaim(competitors: seq<Competitor>, evidence: seq<Evidence>, g: Gap)
    requires g in Collect(evidence, QualityGap(competitors))
    ensures g.claimIds == []
  {
    CollectHas(evidence, QualityGap(competitors), g);
  }

  /** A gap of the four builders that names a claim is the gap of a claim without usable evidence. */
  lemma BaseClaimGap(plan: Plan, competitors: seq<Competitor>, evidence: seq<Evidence>, claims: seq<Claim>, g: Gap)
    requires g in BaseGaps(plan, competitors, evidence, claims) && g.claimIds != []
    ensures exists c :: c in claims && Usable(ById(evidence), c.evidenceIds) == [] && g == ClaimGapOf(c)
  {
    if g in Collect(competitors, CoverageGaps(plan.dimensions, evidence)) {
      CoverageGapsNameNoClaim(plan.dimensions, competitors, evidence, g);
    } else if g in Collect(evidence, QualityGap(competitors)) {
      QualityGapsNameNoClaim(competitors, evidence, g);
    } else {
      CollectHas(claims, ClaimGap(ById(evidence)), g);
    }
  }

  /** Every gap before deduplication comes from a builder or from a finding no builder has covered. */
  lemma GapOrigin(plan: Plan, qa: seq<Finding>, competitors: seq<Competitor>, evidence: seq<Evidence>,
                  claims: seq<Claim>, g: Gap)
    requires g in AllGaps(plan, qa, competitors, evidence, claims)
    ensures var base := BaseGaps(plan, competitors, evidence, claims);
      g in base || (!HasKey(base, SubjectOf, SubjectOf(g)) && exists f :: f in qa && g == GapOfFinding(f))
  {
    var base := BaseGaps(plan, competitors, evidence, claims);
    CollectHas(qa, QaOnlyGap(base), g);
    if g !in base {
      var f :| f in qa && g in QaOnlyGap(base)(f);
    }
  }

  lemma HasSubject(gaps: seq<Gap>, g: Gap)
    requires g in gaps
    ensures HasKey(gaps, SubjectOf, SubjectOf(g))
  {
    var i :| 0 <= i < |gaps| && gaps[i] == g;
  }

  /** Without usable evidence the claim has a critical gap in the result, whatever the findings are. */
  lemma UnusableClaimHasGap(plan: Plan, qa: seq<Finding>, competitors: seq<Competitor>, evidence: seq<Evidence>,
                            claims: seq<Claim>, c: Claim)
    requires c in claims && Usable(ById(evidence), c.evidenceIds) == []
    ensures ClaimGapOf(c) in Analyze(plan, qa, competitors, evidence, claims)
  {
    var base := BaseGaps(plan, competitors, evidence, claims);
    CollectHas(claims, ClaimGap(ById(evidence)), ClaimGapOf(c));
    assert ClaimGapOf(c) in ClaimGap(ById(evidence))(c);
    assert ClaimGapOf(c) in base;
    BaseGapIsRepresented(plan, qa, competitors, evidence, claims, ClaimGapOf(c));
    ResultIsExact(plan, qa, competitors, evidence, claims);
    var g :| g in Analyze(plan, qa, competitors, evidence, claims) && KeyOf(g) == KeyOf(ClaimGapOf(c));
    GapOrigin(plan, qa, competitors, evidence, claims, g);
    if g in base {
      BaseClaimGap(plan, competitors, evidence, claims, g);
    } else {
      HasSubject(base, ClaimGapOf(c));
    }
  }

  /** The claim's gap is in the result of the evaluated plan exactly when the claim has no usable evidence. */
  lemma ClaimGapsAreExact(plan: Plan, competitors: seq<Competitor>, evidence: seq<Evidence>, claims: seq<Claim>,
                          c: Claim)
    requires c in claims
    ensures ClaimGapOf(c) in Analyze(plan, Evaluate(plan, competitors, evidence, claims), competitors, evidence, claims)
       <==> Usable(ById(evidence), c.evidenceIds) == []
  {
    var qa := Evaluate(plan, competitors, evidence, claims);
    if Usable(ById(evidence), c.evidenceIds) == [] {
      UnusableClaimHasGap(plan, qa, competitors, evidence, claims, c);
    } else if ClaimGapOf(c) in Analyze(plan, qa, competitors, evidence, claims) {
      var g := ClaimGapOf(c);
      ResultIsExact(plan, qa, competitors, evidence, claims);
      GapOrigin(plan, qa, competitors, evidence, claims, g);
      if g in BaseGaps(plan, competitors, evidence, claims) {
        BaseClaimGap(plan, competitors, evidence, claims, g);
      } else {
        var f :| f in qa && g == GapOfFinding(f);
        ClaimFindingsAreUnusable(plan, competitors, evidence, claims, f);
      }
    }
  }

  // ---------------------------------------------------------------- every gap, over the records

  ghost predicate HasCover(evidence: seq<Evidence>, competitorId: string, dimension: string) {
    exists e :: e in evidence && Covers(e, competitorId, dimension)
  }

  ghost predicate HasVerifiedCover(evidence: seq<Evidence>, competitorId: string, dimension: string) {
    exists e :: e in evidence && Covers(e, competitorId, dimension) && e.sourceType == VERIFIED
  }

  /** Nothing covers the dimension of the competitor. */
  ghost predicate IsUncovered(plan: Plan, competitors: seq<Competitor>, evidence: seq<Evidence>, g: Gap) {
    exists c, d :: c in competitors && d in plan.dimensions && !HasCover(evidence, c.id, d)
      && g == Gap(High, MissingDimensionCoverage, Some(c.id), Some(d), [], [])
  }

  /** Something does, but nothing verified; the gap lists what does. */
  ghost predicate IsUnverified(plan: Plan, competitors: seq<Competitor>, evidence: seq<Evidence>, g: Gap) {
    exists c, d :: c in competitors && d in plan.dimensions && UnverifiedGap(evidence, c, d, g)
  }

  ghost predicate UnverifiedGap(evidence: seq<Evidence>, c: Competitor, d: string, g: Gap) {
    && HasCover(evidence, c.id, d) && !HasVerifiedCover(evidence, c.id, d)
    && g == Gap(Medium, MissingVerifiedSource, Some(c.id), Some(d), IdsOf(Matching(evidence, c.id, d)), [])
  }

  /** An item is rejected or stale; the gap names its competitor if that is one of the project's. */
  ghost predicate IsSpoiled(competitors: seq<Competitor>, evidence: seq<Evidence>, g: Gap) {
    exists e :: e in evidence && (e.quality == Rejected || e.quality == Stale)
      && g == Gap(Medium, StaleOrRejectedEvidence, KnownCompetitor(competitors, e.competitorId),
                  Some(e.dimension), [e.id], [])
  }

  ghost function KnownCompetitor(competitors: seq<Competitor>, id: string): Option<string> {
    if exists c :: c in competitors && c.id == id then Some(id) else None
  }

  ghost predicate IsUnsupportedClaim(evidence: seq<Evidence>, claims: seq<Claim>, g: Gap) {
    exists c :: c in claims && LeadsNowhere(evidence, c)
      && g == Gap(Critical, ClaimWithoutUsableEvidence, None, Some(c.claimType), c.evidenceIds, [c.id])
  }

  ghost predicate IsNarrow(plan: Plan, competitors: seq<Competitor>, g: Gap) {
    plan.layer == "L3" && |competitors| < 4 && g == Gap(Medium, LandscapeBreadth, None, Some("market"), [], [])
  }

  /** What the records alone make a gap. */
  ghost predicate IsGap(plan: Plan, competitors: seq<Competitor>, evidence: seq<Evidence>, claims: seq<Claim>, g: Gap) {
    || IsUncovered(plan, competitors, evidence, g)
    || IsUnverified(plan, competitors, evidence, g)
    || IsSpoiled(competitors, evidence, g)
    || IsUnsupportedClaim(evidence, claims, g)
    || IsNarrow(plan, competitors, g)
  }

  lemma {:induction false} EligibleHas(matching: seq<Evidence>, e: Evidence)
    ensures e in Eligible(matching, true) <==> e in matching && e.sourceType == VERIFIED
  {
    if matching != [] {
      EligibleHas(matching[..|matching| - 1], e);
      SplitLast(matching);
    }
  }

  lemma CoverMeans(evidence: seq<Evidence>, competitorId: string, dimension: string)
    ensures var usable := Matching(evidence, competitorId, dimension);
      && (usable == [] <==> !HasCover(evidence, competitorId, dimension))
      && (Eligible(usable, true) == [] <==> !HasVerifiedCover(evidence, competitorId, dimension))
  {
    hide Covers, Matching, Eligible;
    var usable := Matching(evidence, competitorId, dimension);
    MatchingIsExact(evidence, competitorId, dimension);
    if usable != [] { assert usable[0] in usable; }
    forall e: Evidence
      ensures e in Eligible(usable, true) <==> e in usable && e.sourceType == VERIFIED
    {
      EligibleHas(usable, e);
    }
    if Eligible(usable, true) != [] { assert Eligible(usable, true)[0] in Eligible(usable, true); }
  }

  lemma OneCoverageGap(evidence: seq<Evidence>, c: Competitor, d: string, g: Gap)
    ensures g in CoverageGap(c, evidence)(d)
       <==> || (!HasCover(evidence, c.id, d)
                && g == Gap(High, MissingDimensionCoverage, Some(c.id), Some(d), [], []))
            || UnverifiedGap(evidence, c, d, g)
  {
    hide Matching, Eligible, HasCover, HasVerifiedCover;
    CoverMeans(evidence, c.id, d);
    CoverNeedsVerified(evidence, c.id, d);
  }

  lemma CoverNeedsVerified(evidence: seq<Evidence>, competitorId: string, dimension: string)
    ensures HasVerifiedCover(evidence, competitorId, dimension) ==> HasCover(evidence, competitorId, dimension)
  {
  }

  lemma CoverageGapsAreExact(plan: Plan, competitors: seq<Competitor>, evidence: seq<Evidence>, g: Gap)
    ensures g in Collect(competitors, CoverageGaps(plan.dimensions, evidence))
       <==> IsUncovered(plan, competitors, evidence, g) || IsUnverified(plan, competitors, evidence, g)
  {
    hide UnverifiedGap, HasCover, CoverageGap;
    var byCompetitor := CoverageGaps(plan.dimensions, evidence);
    CollectHas(competitors, byCompetitor, g);
    forall c: Competitor
      ensures g in byCompetitor(c) <==> exists d :: d in plan.dimensions && g in CoverageGap(c, evidence)(d)
    {
      CollectHas(plan.dimensions, CoverageGap(c, evidence), g);
    }
    forall c: Competitor, d: string
      ensures g in CoverageGap(c, evidence)(d)
         <==> || (!HasCover(evidence, c.id, d)
                  && g == Gap(High, MissingDimensionCoverage, Some(c.id), Some(d), [], []))
              || UnverifiedGap(evidence, c, d, g)
    {
      OneCoverageGap(evidence, c, d, g);
    }
  }

  lemma QualityGapsAreExact(competitors: seq<Competitor>, evidence: seq<Evidence>, g: Gap)
    ensures g in Collect(evidence, QualityGap(competitors)) <==> IsSpoiled(competitors, evidence, g)
  {
    CollectHas(evidence, QualityGap(competitors), g);
    forall e: Evidence
      ensures KnownCompetitor(competitors, e.competitorId)
           == if IsKnown(competitors, e.competitorId) then Some(e.competitorId) else None
    {
    }
  }

  lemma ClaimGapsOfRecords(evidence: seq<Evidence>, claims: seq<Claim>, g: Gap)
    ensures g in Collect(claims, ClaimGap(ById(evidence))) <==> IsUnsupportedClaim(evidence, claims, g)
  {
    hide LeadsNowhere, Usable;
    CollectHas(claims, ClaimGap(ById(evidence)), g);
    forall c: Claim
      ensures Usable(ById(evidence), c.evidenceIds) == [] <==> LeadsNowhere(evidence, c)
    {
      NowhereMeansUnusable(evidence, c);
    }
  }

  lemma BaseGapsAreExact(plan: Plan, competitors: seq<Competitor>, evidence: seq<Evidence>, claims: seq<Claim>, g: Gap)
    ensures g in BaseGaps(plan, competitors, evidence, claims) <==> IsGap(plan, competitors, evidence, claims, g)
  {
    hide IsUncovered, IsUnverified, IsSpoiled, IsUnsupportedClaim;
    CoverageGapsAreExact(plan, competitors, evidence, g);
    QualityGapsAreExact(competitors, evidence, g);
    ClaimGapsOfRecords(evidence, claims, g);
  }

  /** Gaps of the records with one key are one gap. */
  lemma KeyTellsGap(plan: Plan, competitors: seq<Competitor>, evidence: seq<Evidence>, claims: seq<Claim>,
                    g: Gap, h: Gap)
    requires IsGap(plan, competitors, evidence, claims, g) && IsGap(plan, competitors, evidence, claims, h)
    requires KeyOf(g) == KeyOf(h)
    ensures g == h
  {
    SeverityOfGap(plan, competitors, evidence, claims, g);
    SeverityOfGap(plan, competitors, evidence, claims, h);
  }

  lemma SeverityOfGap(plan: Plan, competitors: seq<Competitor>, evidence: seq<Evidence>, claims: seq<Claim>, g: Gap)
    requires IsGap(plan, competitors, evidence, claims, g)
    ensures g.severity == match g.gapType
                          case ClaimWithoutUsableEvidence => Critical
                          case MissingDimensionCoverage => High
                          case _ => Medium
  {
    hide HasCover, HasVerifiedCover, LeadsNowhere, KnownCompetitor;
  }

  /** `g` is about what `f` is about; a finding that names claims becomes a claim gap, any other a coverage gap. */
  predicate RepeatsFinding(g: Gap, f: Finding) {
    && SubjectOf(g) == Subject(f.competitorId, f.dimension, f.claimIds, f.evidenceIds)
    && (g.severity == Critical <==> f.severity == Blocker)
    && (g.severity == High <==> f.severity == Warn)
    && (g.severity == Medium <==> f.severity == Info)
    && (g.gapType == ClaimWithoutUsableEvidence <==> |f.claimIds| > 0)
    && (g.gapType == MissingDimensionCoverage <==> |f.claimIds| == 0)
  }

  /**
   Sound and complete: every gap the records make is in the result; a gap in the result that they do not make repeats
   a QA finding about which they make none.
   */
  lemma GapsAreExact(plan: Plan, qa: seq<Finding>, competitors: seq<Competitor>, evidence: seq<Evidence>,
                     claims: seq<Claim>, g: Gap)
    ensures IsGap(plan, competitors, evidence, claims, g)
        ==> g in Analyze(plan, qa, competitors, evidence, claims)
    ensures g in Analyze(plan, qa, competitors, evidence, claims) && !IsGap(plan, competitors, evidence, claims, g) ==>
      && (exists f :: f in qa && RepeatsFinding(g, f))
      && forall h | IsGap(plan, competitors, evidence, claims, h) :: SubjectOf(h) != SubjectOf(g)
  {
    hide IsGap, BaseGaps, Analyze;
    BaseGapsAreExact(plan, competitors, evidence, claims, g);
    if IsGap(plan, competitors, evidence, claims, g) {
      RecordGapIsKept(plan, qa, competitors, evidence, claims, g);
    } else if g in Analyze(plan, qa, competitors, evidence, claims) {
      ResultIsExact(plan, qa, competitors, evidence, claims);
      GapOrigin(plan, qa, competitors, evidence, claims, g);
      var f :| f in qa && g == GapOfFinding(f);
      assert RepeatsFinding(g, f);
      forall h | IsGap(plan, competitors, evidence, claims, h)
        ensures SubjectOf(h) != SubjectOf(g)
      {
        BaseGapsAreExact(plan, competitors, evidence, claims, h);
        HasSubject(BaseGaps(plan, competitors, evidence, claims), h);
      }
    }
  }

  lemma RecordGapIsKept(plan: Plan, qa: seq<Finding>, competitors: seq<Competitor>, evidence: seq<Evidence>,
                        claims: seq<Claim>, g: Gap)
    requires IsGap(plan, competitors, evidence, claims, g)
    ensures g in Analyze(plan, qa, competitors, evidence, claims)
  {
    hide IsGap, BaseGaps, Analyze;
    BaseGapsAreExact(plan, competitors, evidence, claims, g);
    BaseGapIsRepresented(plan, qa, competitors, evidence, claims, g);
    ResultIsExact(plan, qa, competitors, evidence, claims);
    var h :| h in Analyze(plan, qa, competitors, evidence, claims) && KeyOf(h) == KeyOf(g);
    GapOrigin(plan, qa, competitors, evidence, claims, h);
    if h in BaseGaps(plan, competitors, evidence, claims) {
      BaseGapsAreExact(plan, competitors, evidence, claims, h);
      KeyTellsGap(plan, competitors, evidence, claims, g, h);
    } else {
      HasSubject(BaseGaps(plan, competitors, evidence, claims), g);
    }
  }

  /** The three kinds of gap no QA finding turns into are in the result exactly when the records make them. */
  lemma RecordGapsAreExact(plan: Plan, qa: seq<Finding>, competitors: seq<Competitor>, evidence: seq<Evidence>,
                           claims: seq<Claim>, g: Gap)
    ensures g.gapType.MissingVerifiedSource? ==>
      (g in Analyze(plan, qa, competitors, evidence, claims) <==> IsUnverified(plan, competitors, evidence, g))
    ensures g.gapType.StaleOrRejectedEvidence? ==>
      (g in Analyze(plan, qa, competitors, evidence, claims) <==> IsSpoiled(competitors, evidence, g))
    ensures g.gapType.LandscapeBreadth? ==>
      (g in Analyze(plan, qa, competitors, evidence, claims) <==> IsNarrow(plan, competitors, g))
    ensures qa == [] ==>
      (g in Analyze(plan, qa, competitors, evidence, claims) <==> IsGap(plan, competitors, evidence, claims, g))
  {
    hide Analyze, HasCover, HasVerifiedCover, LeadsNowhere, KnownCompetitor;
    GapsAreExact(plan, qa, competitors, evidence, claims, g);
  }

  // ---------------------------------------------------------------- the order of the result

  /** The name of a gap type in the report. */
  function NameOf(t: GapType): string {
    match t
    case ClaimWithoutUsableEvidence => "claim_without_usable_evidence"
    case LandscapeBreadth => "landscape_breadth"
    case MissingDimensionCoverage => "missing_dimension_coverage"
    case MissingVerifiedSource => "missing_verified_source"
    case StaleOrRejectedEvidence => "stale_or_rejected_evidence"
  }

  lemma TypesAreAlphabetical(t: GapType, u: GapType)
    ensures TypeRank(t) < TypeRank(u) <==> Precedes(NameOf(t), NameOf(u))
  {
    PrecedesIsStrict(NameOf(t), NameOf(u));
    if TypeRank(t) < TypeRank(u) { LowerRankPrecedes(t, u); }
    if TypeRank(u) < TypeRank(t) { LowerRankPrecedes(u, t); }
  }

  lemma LowerRankPrecedes(t: GapType, u: GapType)
    requires TypeRank(t) < TypeRank(u)
    ensures Precedes(NameOf(t), NameOf(u))
  {
    var a, b := NameOf(t), NameOf(u);
    if t.MissingDimensionCoverage? && u.MissingVerifiedSource? {
      assert DiffersFirst(a, b, 8);
    } else {
      assert DiffersFirst(a, b, 0);
    }
  }

  /** The severity of `g` is not below that of `h`. */
  predicate AtLeastAsSevere(g: Gap, h: Gap) {
    match h.severity
    case Critical => g.severity == Critical
    case High => g.severity == Critical || g.severity == High
    case Medium => g.severity != Low
    case Low => true
  }

  /** The most severe gaps come first, those of one severity in the alphabetical order of their types. */
  lemma MostUrgentFirst(plan: Plan, qa: seq<Finding>, competitors: seq<Competitor>, evidence: seq<Evidence>,
                        claims: seq<Claim>, i: nat, j: nat)
    requires i < j < |Analyze(plan, qa, competitors, evidence, claims)|
    ensures var g, h := Analyze(plan, qa, competitors, evidence, claims)[i],
                        Analyze(plan, qa, competitors, evidence, claims)[j];
      AtLeastAsSevere(g, h) && (g.severity == h.severity ==> !Precedes(NameOf(h.gapType), NameOf(g.gapType)))
  {
    hide AllGaps, Precedes, NameOf;
    var gaps := Analyze(plan, qa, competitors, evidence, claims);
    ResultIsExact(plan, qa, competitors, evidence, claims);
    assert Rank(gaps[i]) <= Rank(gaps[j]);
    TypesAreAlphabetical(gaps[j].gapType, gaps[i].gapType);
  }

  lemma {:induction false} SeveritiesAreCounted(gaps: seq<Gap>)
    ensures CountSeverity(gaps, Critical) == Count(gaps, (g: Gap) => g.severity.Critical?)
    ensures CountSeverity(gaps, High) == Count(gaps, (g: Gap) => g.severity.High?)
    ensures CountSeverity(gaps, Medium) == Count(gaps, (g: Gap) => g.severity.Medium?)
    ensures CountSeverity(gaps, Low) == Count(gaps, (g: Gap) => g.severity.Low?)
  {
    if gaps != [] { SeveritiesAreCounted(gaps[..|gaps| - 1]); }
  }

  // ---------------------------------------------------------------- schema suggestions

  predicate SeparatesWords(c: char) { IsSpace(c) || c == '-' }

  /** The words of a text, joined by underscores. */
  function JoinedWords(s: string): string {
    if s == "" then ""
    else
      var n := |s| - 1;
      var earlier := JoinedWords(s[..n]);
      if SeparatesWords(s[n]) then earlier
      else if earlier != "" && SeparatesWords(s[n - 1]) then earlier + ['_', s[n]]
      else earlier + [s[n]]
  }

  function DimensionKey(dimension: string): string { JoinedWords(Lower(dimension)) }

  lemma {:induction false} JoinedWordsEmpty(s: string)
    ensures JoinedWords(s) == "" <==> forall i | 0 <= i < |s| :: SeparatesWords(s[i])
  {
    if s != "" { JoinedWordsEmpty(s[..|s| - 1]); }
  }

  /** A word is its own key, */
  lemma {:induction false} OneWord(s: string)
    requires forall i | 0 <= i < |s| :: !SeparatesWords(s[i])
    ensures JoinedWords(s) == s
  {
    if s != "" {
      OneWord(s[..|s| - 1]);
      SplitLast(s);
    }
  }

  function WithUnderscore(x: string, y: string): string { if x != "" && y != "" then x + "_" + y else x + y }

  lemma UnderscoreNone(x: string)
    ensures WithUnderscore(x, "") == x
  {
  }

  /** and what stands on both sides of a separator is joined by one underscore, or by none if one side has no word. */
  lemma {:induction false} WordsAreJoined(a: string, c: char, b: string)
    requires SeparatesWords(c)
    ensures JoinedWords(a + [c] + b) == WithUnderscore(JoinedWords(a), JoinedWords(b))
  {
    hide JoinedWords, WithUnderscore;
    UnderscoreNone(JoinedWords(a));
    NoWords();
    if b == "" {
      WordsGrow(a, c);
      assert a + [c] + b == a + [c];
    } else {
      var n := |b| - 1;
      WordsAreJoined(a, c, b[..n]);
      SplitLast(b);
      AppendAssociates(a + [c], b[..n], [b[n]]);
      WordsGrow(a + [c] + b[..n], b[n]);
      WordsGrow(b[..n], b[n]);
      JoinedWordsEmpty(b[..n]);
      LastOfBoth(a + [c], b[..n]);
      WordGoesOn(JoinedWords(a), JoinedWords(b[..n]), b[n]);
    }
  }

  lemma WordGoesOn(x: string, y: string, c: char)
    ensures y != "" ==> WithUnderscore(x, y + [c]) == WithUnderscore(x, y) + [c]
    ensures y != "" ==> WithUnderscore(x, y + ['_', c]) == WithUnderscore(x, y) + ['_', c]
    ensures WithUnderscore(x, [c]) == if x != "" then x + ['_', c] else [c]
    ensures WithUnderscore(x, y) == "" <==> x == "" && y == ""
    ensures y == "" ==> y + [c] == [c]
    ensures WithUnderscore(x, y) == "" ==> WithUnderscore(x, y) + [c] == [c]
  {
  }

  lemma LastOfBoth(a: string, b: string)
    requires a != ""
    ensures (a + b)[|a + b| - 1] == if b == "" then a[|a| - 1] else b[|b| - 1]
  {
  }

  lemma NoWords()
    ensures JoinedWords("") == ""
  {
  }

  lemma WordsGrow(s: string, c: char)
    ensures JoinedWords(s + [c])
         == if SeparatesWords(c) then JoinedWords(s)
            else if JoinedWords(s) != "" && s != "" && SeparatesWords(s[|s| - 1]) then JoinedWords(s) + ['_', c]
            else JoinedWords(s) + [c]
  {
    TakeAppend(s, [c]);
    NoWords();
  }

  /** The gaps of a type that can name a dimension the schema does not have. */
  predicate NamesNewDimension(known: set<string>, g: Gap) {
    && g.dimension.Some? && g.dimension.value != ""
    && DimensionKey(g.dimension.value) != "" && DimensionKey(g.dimension.value) !in known
    && (g.gapType.MissingDimensionCoverage? || g.gapType.ClaimWithoutUsableEvidence?)
  }

  /** The gaps a suggestion for one dimension key is drawn from, in order. */
  function GapsFor(known: set<string>, gaps: seq<Gap>, key: string): seq<Gap> {
    if gaps == [] then []
    else
      var earlier, last := GapsFor(known, gaps[..|gaps| - 1], key), gaps[|gaps| - 1];
      if NamesNewDimension(known, last) && DimensionKey(last.dimension.value) == key then earlier + [last] else earlier
  }

  function KnownDimensions(names: seq<string>): set<string> {
    set i | 0 <= i < |names| && names[i] != "" :: DimensionKey(names[i])
  }

  method GroupByNewDimension(plan: Plan, gaps: seq<Gap>) returns (groups: map<string, seq<Gap>>)
    ensures forall key :: key in groups <==> GapsFor(KnownDimensions(plan.knownDimensions), gaps, key) != []
    ensures forall key | key in groups :: groups[key] == GapsFor(KnownDimensions(plan.knownDimensions), gaps, key)
  {
    var known := KnownDimensions(plan.knownDimensions);
    groups := map[];
    for i := 0 to |gaps|
      invariant forall key :: key in groups <==> GapsFor(known, gaps[..i], key) != []
      invariant forall key | key in groups :: groups[key] == GapsFor(known, gaps[..i], key)
    {
      assert gaps[..i + 1][..i] == gaps[..i];
      if NamesNewDimension(known, gaps[i]) {
        var key := DimensionKey(gaps[i].dimension.value);
        groups := groups[key := (if key in groups then groups[key] else []) + [gaps[i]]];
      }
    }
    assert gaps[..|gaps|] == gaps;
  }

  lemma {:induction false} GapsForHas(known: set<string>, gaps: seq<Gap>, key: string, g: Gap)
    ensures g in GapsFor(known, gaps, key)
       <==> g in gaps && NamesNewDimension(known, g) && DimensionKey(g.dimension.value) == key
  {
    if gaps != [] {
      var n := |gaps| - 1;
      GapsForHas(known, gaps[..n], key, g);
      assert g in gaps <==> g in gaps[..n] || g == gaps[n];
    }
  }

  /** Every gap that names a new dimension is in exactly one group; other gaps are in none. */
  lemma SuggestionsPartition(known: set<string>, gaps: seq<Gap>, g: Gap)
    requires g in gaps
    ensures NamesNewDimension(known, g) <==> exists key :: g in GapsFor(known, gaps, key)
    ensures forall key, other | g in GapsFor(known, gaps, key) && g in GapsFor(known, gaps, other) :: key == other
  {
    forall key
      ensures g in GapsFor(known, gaps, key) ==> NamesNewDimension(known, g) && DimensionKey(g.dimension.value) == key
    {
      GapsForHas(known, gaps, key, g);
    }
    if NamesNewDimension(known, g) {
      GapsForHas(known, gaps, DimensionKey(g.dimension.value), g);
    }
  }

  /** Which gaps lead to a suggestion: coverage and claim gaps on a dimension whose key no known dimension has. */
  lemma SuggestedExactlyWhen(names: seq<string>, gaps: seq<Gap>, g: Gap, key: string)
    ensures g in GapsFor(KnownDimensions(names), gaps, key) <==>
      && g in gaps && (g.gapType == MissingDimensionCoverage || g.gapType == ClaimWithoutUsableEvidence)
      && g.dimension.Some? && DimensionKey(g.dimension.value) == key && key != ""
      && forall name | name in names :: name == "" || DimensionKey(name) != key
  {
    hide JoinedWords, DimensionKey;
    NoWordsNoKey();
    GapsForHas(KnownDimensions(names), gaps, key, g);
    KnownKeys(names, key);
  }

  lemma NoWordsNoKey()
    ensures DimensionKey("") == ""
  {
    NoWords();
  }

  lemma KnownKeys(names: seq<string>, key: string)
    ensures key in KnownDimensions(names) <==> exists name :: name in names && name != "" && DimensionKey(name) == key
  {
    hide DimensionKey;
  }
}
