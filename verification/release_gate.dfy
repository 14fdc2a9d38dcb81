/** The release gate: many checks of one report version, combined into one decision to allow or block it. */
module ReleaseGate {
  import opened Common
  import opened Text
  import opened Lists
  import opened Records
  import CitationPolicy
  import ClaimValidator
  import Evaluator

  type Severity = Evaluator.Severity

  datatype Check =
    | ReportStatus
    | BodyRequired
    | EvidenceRequired
    | ClaimRequired
    | ClaimEvidenceInReport
    | Structure
    | Depth
    | Richness
    | PolicyReview
    | EvidenceRate
    | ClaimEvidenceConfidence
    | ClaimConsistency
    | TokenFormat
    | CitationResolves
    | StrongConclusionSource
    | RunQuality
    | ReadinessRequired
    | QaClean
    | QaWarnings
    | QaInfo

  /** An issue without its wording. */
  datatype Issue = Issue(check: Check, severity: Severity, claimIds: seq<string>, evidenceIds: seq<string>)

  datatype Report = Report(status: string, body: string, evidenceIds: set<string>, claimIds: set<string>)

  datatype RegistryEntry = RegistryEntry(id: string, key: (string, string, string), policyStatus: string,
                                         robotsStatus: string)

  datatype Readiness = Readiness(score: int, isReady: bool)

  /** What the gate consults besides the records: the plan builder, the scorer, wording rules and unseen checks. */
  datatype Context = Context(
    enrich: (Report, seq<Competitor>) -> seq<Competitor>,
    planFor: (seq<Competitor>, seq<Evidence>) -> Evaluator.Plan,
    readiness: (Evaluator.Plan, seq<Evaluator.Finding>, seq<Competitor>, seq<Evidence>, seq<Claim>) -> Readiness,
    rules: ClaimValidator.Rules,
    registryId: Evidence -> string,
    registryKey: Evidence -> (string, string, string),
    sourceTokens: Evidence -> set<string>,
    malformedTokens: string -> seq<string>,
    splitLines: string -> seq<string>,
    wording: CitationPolicy.Wording,
    isStrongWording: string -> bool,
    structure: Report -> seq<Issue>,
    richness: (Report, seq<Competitor>, seq<Evidence>) -> seq<Issue>,
    runQuality: Report -> seq<Issue>)

  datatype Input = Input(report: Report, competitors: seq<Competitor>, evidence: seq<Evidence>, claims: seq<Claim>,
                         registry: seq<RegistryEntry>)

  /** What is left of the input once it is cut down to the report; `reviewed` has the registry's source reviews. */
  datatype Scope = Scope(report: Report, competitors: seq<Competitor>, evidence: seq<Evidence>, reviewed: seq<Evidence>,
                         claims: seq<Claim>)

  datatype Gate = Gate(allowed: bool, readiness: Readiness, qa: seq<Evaluator.Finding>, issueCount: nat,
                       blockerCount: nat, warnCount: nat, issues: seq<Issue>)

  // ---------------------------------------------------------------- scope

  function EvidenceIn(ids: set<string>, evidence: seq<Evidence>): seq<Evidence> {
    if evidence == [] then []
    else
      var earlier, last := EvidenceIn(ids, evidence[..|evidence| - 1]), evidence[|evidence| - 1];
      if last.id in ids then earlier + [last] else earlier
  }

  function ClaimsIn(ids: set<string>, claims: seq<Claim>): seq<Claim> {
    if claims == [] then []
    else
      var earlier, last := ClaimsIn(ids, claims[..|claims| - 1]), claims[|claims| - 1];
      if last.id in ids then earlier + [last] else earlier
  }

  /** The last registry entry with an id. */
  function EntryById(registry: seq<RegistryEntry>, id: string): Option<RegistryEntry> {
    if registry == [] then None
    else if registry[|registry| - 1].id == id then Some(registry[|registry| - 1])
    else EntryById(registry[..|registry| - 1], id)
  }

  /** The last registry entry for a workspace, domain and source type. */
  function EntryByKey(registry: seq<RegistryEntry>, key: (string, string, string)): Option<RegistryEntry> {
    if registry == [] then None
    else if registry[|registry| - 1].key == key then Some(registry[|registry| - 1])
    else EntryByKey(registry[..|registry| - 1], key)
  }

  function Reviewed(ctx: Context, registry: seq<RegistryEntry>): Evidence -> seq<Evidence> {
    (e: Evidence) =>
      var byId := EntryById(registry, ctx.registryId(e));
      var entry := if byId.Some? then byId else EntryByKey(registry, ctx.registryKey(e));
      match entry
      case None => [e]
      case Some(r) =>
        [e.(policyStatus := if r.policyStatus != "not_required" then r.policyStatus else e.policyStatus,
            robotsStatus := if r.robotsStatus != "unknown" then r.robotsStatus else e.robotsStatus)]
  }

  /** Entry `j` of the registry is the last with the item's registry id or, if none has it, the last with its key. */
  ghost predicate Applies(ctx: Context, registry: seq<RegistryEntry>, e: Evidence, j: nat) {
    var id, key := ctx.registryId(e), ctx.registryKey(e);
    && j < |registry|
    && (|| (registry[j].id == id && forall k | j < k < |registry| :: registry[k].id != id)
        || ((forall k | 0 <= k < |registry| :: registry[k].id != id)
            && registry[j].key == key && forall k | j < k < |registry| :: registry[k].key != key))
  }

  lemma {:induction false} LastWithId(registry: seq<RegistryEntry>, id: string) returns (j: nat)
    ensures EntryById(registry, id).None? ==> forall k | 0 <= k < |registry| :: registry[k].id != id
    ensures EntryById(registry, id).Some? ==>
      j < |registry| && registry[j].id == id && EntryById(registry, id) == Some(registry[j])
      && forall k | j < k < |registry| :: registry[k].id != id
  {
    j := 0;
    if registry != [] {
      var n := |registry| - 1;
      if registry[n].id == id {
        j := n;
      } else {
        j := LastWithId(registry[..n], id);
      }
    }
  }

  lemma {:induction false} LastWithKey(registry: seq<RegistryEntry>, key: (string, string, string)) returns (j: nat)
    ensures EntryByKey(registry, key).None? ==> forall k | 0 <= k < |registry| :: registry[k].key != key
    ensures EntryByKey(registry, key).Some? ==>
      j < |registry| && registry[j].key == key && EntryByKey(registry, key) == Some(registry[j])
      && forall k | j < k < |registry| :: registry[k].key != key
  {
    j := 0;
    if registry != [] {
      var n := |registry| - 1;
      if registry[n].key == key {
        j := n;
      } else {
        j := LastWithKey(registry[..n], key);
      }
    }
  }

  /** `item` is `e` with the review states of a registry entry, except those that say nothing. */
  ghost predicate IsReviewOf(item: Evidence, e: Evidence, r: RegistryEntry) {
    item == e.(policyStatus := if r.policyStatus == "not_required" then e.policyStatus else r.policyStatus,
               robotsStatus := if r.robotsStatus == "unknown" then e.robotsStatus else r.robotsStatus)
  }

  lemma OneApplies(ctx: Context, registry: seq<RegistryEntry>, e: Evidence, i: nat, j: nat)
    requires Applies(ctx, registry, e, i) && Applies(ctx, registry, e, j)
    ensures i == j
  {
  }

  /** The review of one item, read off the entry that applies to it. */
  lemma ReviewIsExact(ctx: Context, registry: seq<RegistryEntry>, e: Evidence)
    ensures |Reviewed(ctx, registry)(e)| == 1
    ensures (forall j: nat :: !Applies(ctx, registry, e, j)) ==> Reviewed(ctx, registry)(e) == [e]
    ensures forall j: nat | Applies(ctx, registry, e, j) :: IsReviewOf(Reviewed(ctx, registry)(e)[0], e, registry[j])
  {
    var j := LastWithId(registry, ctx.registryId(e));
    var k := LastWithKey(registry, ctx.registryKey(e));
    if EntryById(registry, ctx.registryId(e)).Some? {
      assert Applies(ctx, registry, e, j);
      forall i: nat | Applies(ctx, registry, e, i) ensures i == j { OneApplies(ctx, registry, e, i, j); }
    } else if EntryByKey(registry, ctx.registryKey(e)).Some? {
      assert Applies(ctx, registry, e, k);
      forall i: nat | Applies(ctx, registry, e, i) ensures i == k { OneApplies(ctx, registry, e, i, k); }
    }
  }

  /** Item by item, a reviewed list follows the entries that apply and is untouched where none does. */
  ghost predicate FollowsRegistry(ctx: Context, registry: seq<RegistryEntry>, evidence: seq<Evidence>,
                                  reviewed: seq<Evidence>)
  {
    && |reviewed| == |evidence|
    && (forall i | 0 <= i < |evidence| :: FollowsEntry(ctx, registry, evidence[i], reviewed[i]))
  }

  ghost predicate FollowsEntry(ctx: Context, registry: seq<RegistryEntry>, e: Evidence, item: Evidence) {
    && (forall j: nat | Applies(ctx, registry, e, j) :: IsReviewOf(item, e, registry[j]))
    && (item != e ==> exists j: nat :: Applies(ctx, registry, e, j))
  }

  lemma {:induction false} ReviewsFollowRegistry(ctx: Context, registry: seq<RegistryEntry>, evidence: seq<Evidence>)
    ensures FollowsRegistry(ctx, registry, evidence, Collect(evidence, Reviewed(ctx, registry)))
  {
    hide Reviewed, Applies, IsReviewOf;
    if evidence != [] {
      var n := |evidence| - 1;
      ReviewsFollowRegistry(ctx, registry, evidence[..n]);
      ReviewIsExact(ctx, registry, evidence[n]);
      assert FollowsEntry(ctx, registry, evidence[n], Reviewed(ctx, registry)(evidence[n])[0]);
    }
  }

  method ApplySourceRegistry(ctx: Context, evidence: seq<Evidence>, registry: seq<RegistryEntry>)
    returns (result: seq<Evidence>)
    ensures result == Collect(evidence, Reviewed(ctx, registry))
    ensures FollowsRegistry(ctx, registry, evidence, result)
  {
    hide FollowsRegistry;
    ReviewsFollowRegistry(ctx, registry, evidence);
    if registry == [] {
      NoRegistry(ctx, evidence);
      return evidence;
    }
    result := [];
    for i := 0 to |evidence|
      invariant result == Collect(evidence[..i], Reviewed(ctx, registry))
    {
      var e := evidence[i];
      assert evidence[..i + 1][..i] == evidence[..i];
      var entry := EntryById(registry, ctx.registryId(e));
      if entry.None? {
        entry := EntryByKey(registry, ctx.registryKey(e));
      }
      if entry.Some? {
        if entry.value.policyStatus != "not_required" {
          e := e.(policyStatus := entry.value.policyStatus);
        }
        if entry.value.robotsStatus != "unknown" {
          e := e.(robotsStatus := entry.value.robotsStatus);
        }
      }
      result := result + [e];
    }
    assert evidence[..|evidence|] == evidence;
  }

  lemma {:induction false} NoRegistry(ctx: Context, evidence: seq<Evidence>)
    ensures Collect(evidence, Reviewed(ctx, [])) == evidence
  {
    if evidence != [] {
      NoRegistry(ctx, evidence[..|evidence| - 1]);
      SplitLast(evidence);
    }
  }

  function ScopeOf(ctx: Context, input: Input): Scope {
    var evidence := EvidenceIn(input.report.evidenceIds, input.evidence);
    Scope(input.report, ctx.enrich(input.report, input.competitors), evidence,
          Collect(evidence, Reviewed(ctx, input.registry)), ClaimsIn(input.report.claimIds, input.claims))
  }

  // ---------------------------------------------------------------- release-grade evidence

  const COMMUNITY_TYPES: set<string> :=
    {"github_discussion", "github_issue", "community_forum", "reddit_thread", "review_site", "developer_blog"}

  predicate IsReleaseCluster(c: Cluster) {
    && (c.kind == "official_confirmed" || c.kind == "community_triangulated")
    && c.confidence.Some? && c.confidence.value >= 0.70
    && (c.kind == "official_confirmed" || c.sourceCount >= 2
        || (c.independentDomains.Some? && c.independentDomains.value >= 2))
  }

  predicate HasReleaseCluster(e: Evidence) {
    exists i | 0 <= i < |e.clusters| :: IsReleaseCluster(e.clusters[i])
  }

  method FindReleaseCluster(e: Evidence) returns (found: bool)
    ensures found == HasReleaseCluster(e)
  {
    for i := 0 to |e.clusters|
      invariant forall k | 0 <= k < i :: !IsReleaseCluster(e.clusters[k])
    {
      var c := e.clusters[i];
      if (c.kind == "official_confirmed" || c.kind == "community_triangulated")
         && c.confidence.Some? && c.confidence.value >= 0.70 {
        if c.kind == "official_confirmed" { return true; }
        if c.sourceCount >= 2 || (c.independentDomains.Some? && c.independentDomains.value >= 2) { return true; }
      }
    }
    return false;
  }

  predicate IsReleaseGrade(e: Evidence, minReliability: real) {
    if IsBad(e) || e.reliability < minReliability then false
    else if e.sourceType == VERIFIED then true
    else if e.sourceType !in COMMUNITY_TYPES then false
    else if e.reliability < 0.75 then false
    else HasReleaseCluster(e)
  }

  /** At the claims' threshold both kinds of source are held to one standard, and a higher one asks for more. */
  lemma ReleaseGradeMeans(e: Evidence)
    ensures IsReleaseGrade(e, 0.75)
       <==> !IsBad(e) && e.reliability >= 0.75
            && (e.sourceType == VERIFIED || (e.sourceType in COMMUNITY_TYPES && HasReleaseCluster(e)))
    ensures IsReleaseGrade(e, 0.75) ==> IsReleaseGrade(e, 0.5)
    ensures IsReleaseGrade(e, 0.5) && e.sourceType != VERIFIED ==> IsReleaseGrade(e, 0.75)
  {
  }

  predicate IsRateCandidate(e: Evidence) {
    e.sourceType == VERIFIED || (e.sourceType in COMMUNITY_TYPES && HasReleaseCluster(e))
  }

  predicate IsGood(e: Evidence) { IsReleaseGrade(e, 0.5) }

  predicate NeedsPolicyReview(e: Evidence) {
    || e.policyStatus == "pending" || e.policyStatus == "rejected"
    || e.robotsStatus == "blocked" || e.robotsStatus == "error"
  }

  function Select(evidence: seq<Evidence>, p: Evidence -> bool): seq<Evidence> {
    if evidence == [] then []
    else
      var earlier, last := Select(evidence[..|evidence| - 1], p), evidence[|evidence| - 1];
      if p(last) then earlier + [last] else earlier
  }

  lemma {:induction false} SelectIsExact(evidence: seq<Evidence>, p: Evidence -> bool)
    ensures forall e :: e in Select(evidence, p) <==> e in evidence && p(e)
    ensures |Select(evidence, p)| == Count(evidence, p)
  {
    if evidence != [] {
      var n := |evidence| - 1;
      SelectIsExact(evidence[..n], p);
      assert forall e :: e in evidence <==> e in evidence[..n] || e == evidence[n];
    }
  }

  /** The evidence the release-grade rate is taken over. */
  function RateBase(evidence: seq<Evidence>): seq<Evidence> {
    var candidates := Select(evidence, IsRateCandidate);
    if candidates != [] then candidates else evidence
  }

  // ---------------------------------------------------------------- the checks

  function Blocks(check: Check, claimIds: seq<string>, evidenceIds: seq<string>): Issue {
    Issue(check, Evaluator.Blocker, claimIds, evidenceIds)
  }

  function When(condition: bool, issue: Issue): seq<Issue> { if condition then [issue] else [] }

  function IdSet(evidence: seq<Evidence>): set<string> { set i | 0 <= i < |evidence| :: evidence[i].id }

  function OutsideIds(ids: set<string>, cited: seq<string>): seq<string> {
    if cited == [] then []
    else
      var earlier, last := OutsideIds(ids, cited[..|cited| - 1]), cited[|cited| - 1];
      if last in ids then earlier else earlier + [last]
  }

  function OutsideIssue(ids: set<string>): Claim -> seq<Issue> {
    (c: Claim) =>
      var missing := OutsideIds(ids, c.evidenceIds);
      When(missing != [], Blocks(ClaimEvidenceInReport, [c.id], missing))
  }

  function StatusIssues(report: Report): seq<Issue> {
    When(report.status == "rejected" || report.status == "archived", Blocks(ReportStatus, [], []))
  }

  function IntegrityIssues(s: Scope): seq<Issue> {
    When(Strip(s.report.body) == "", Blocks(BodyRequired, [], []))
    + When(s.reviewed == [], Blocks(EvidenceRequired, [], []))
    + When(s.claims == [], Blocks(ClaimRequired, [], []))
    + Collect(s.claims, OutsideIssue(IdSet(s.reviewed)))
  }

  function DepthIssues(report: Report): seq<Issue> { When(|Strip(report.body)| < 900, Blocks(Depth, [], [])) }

  function SourceQualityIssues(evidence: seq<Evidence>): seq<Issue> {
    if evidence == [] then []
    else
      var unreviewed, base := Select(evidence, NeedsPolicyReview), RateBase(evidence);
      When(unreviewed != [], Blocks(PolicyReview, [], Evaluator.IdsOf(unreviewed)))
      + When(5 * |Select(base, IsGood)| < 4 * |base|, Blocks(EvidenceRate, [], Evaluator.IdsOf(base)))
  }

  /** The cited evidence a release claim must not rest on. */
  function WeakFor(byId: map<string, Evidence>, cited: seq<string>): seq<string> {
    if cited == [] then []
    else
      var earlier, last := WeakFor(byId, cited[..|cited| - 1]), cited[|cited| - 1];
      if last in byId && !IsReleaseGrade(byId[last], 0.75) then earlier + [last] else earlier
  }

  function WeakIssue(byId: map<string, Evidence>): Claim -> seq<Issue> {
    (c: Claim) =>
      var weak := WeakFor(byId, c.evidenceIds);
      When(weak != [], Blocks(ClaimEvidenceConfidence, [c.id], weak))
  }

  function ValidationIssue(byId: map<string, Evidence>, rules: ClaimValidator.Rules): Claim -> seq<Issue> {
    (c: Claim) =>
      var r := ClaimValidator.Validate(c, byId, rules);
      var severity := if r.status.Blocked? || r.status.Unsupported? then Evaluator.Blocker else Evaluator.Warn;
      When(!r.status.Supported?, Issue(ClaimConsistency, severity, [c.id], Evaluator.IdsOf(r.usable)))
  }

  /** Which evidence a normalised token stands for: the last item that answers to it. */
  function TokenTable(ctx: Context, evidence: seq<Evidence>): map<string, Evidence> {
    if evidence == [] then map[]
    else
      var last := evidence[|evidence| - 1];
      TokenTable(ctx, evidence[..|evidence| - 1]) + map t | t in ctx.sourceTokens(last) :: last
  }

  predicate AllResolve(table: map<string, Evidence>, tokens: seq<string>) {
    forall i | 0 <= i < |tokens| :: CitationPolicy.Normalize(tokens[i]) in table
  }

  function CitationIssues(ctx: Context, s: Scope): seq<Issue> {
    When(ctx.malformedTokens(s.report.body) != [], Blocks(TokenFormat, [], []))
    + When(!AllResolve(TokenTable(ctx, s.evidence), CitationPolicy.Tokens(s.report.body)),
           Blocks(CitationResolves, [], []))
  }

  function WeakTokens(table: map<string, Evidence>, tokens: seq<string>): seq<string> {
    if tokens == [] then []
    else
      var earlier, last := WeakTokens(table, tokens[..|tokens| - 1]), CitationPolicy.Normalize(tokens[|tokens| - 1]);
      if last in table && !IsReleaseGrade(table[last], 0.75) then earlier + [table[last].id] else earlier
  }

  predicate IsStrongLine(ctx: Context, lines: seq<string>, k: nat)
    requires k < |lines|
  {
    && ctx.wording.heading(lines[k]).None? && ctx.isStrongWording(lines[k])
    && ctx.wording.policy(CitationPolicy.HeadingBefore(lines, ctx.wording, k), lines[k]).StrongConclusion?
  }

  function LineIssue(ctx: Context, lines: seq<string>, table: map<string, Evidence>, k: nat): seq<Issue>
    requires k < |lines|
  {
    var weak := WeakTokens(table, CitationPolicy.Tokens(lines[k]));
    When(IsStrongLine(ctx, lines, k) && weak != [], Blocks(StrongConclusionSource, [], weak))
  }

  function LineIssues(ctx: Context, lines: seq<string>, table: map<string, Evidence>, k: nat): seq<Issue>
    requires k <= |lines|
  {
    if k == 0 then [] else LineIssues(ctx, lines, table, k - 1) + LineIssue(ctx, lines, table, k - 1)
  }

  function ReadinessIssues(r: Readiness): seq<Issue> {
    When(!r.isReady || r.score < 85, Blocks(ReadinessRequired, [], []))
  }

  predicate QaBlocks(f: Evaluator.Finding) { f.severity.Blocker? }

  predicate QaWarns(f: Evaluator.Finding) { f.severity.Warn? }

  function StrictQaIssues(qa: seq<Evaluator.Finding>): seq<Issue> {
    if qa == [] then []
    else if Count(qa, QaBlocks) > 0 then [Blocks(QaClean, [], [])]
    else if Count(qa, QaWarns) > 0 then [Issue(QaWarnings, Evaluator.Warn, [], [])]
    else [Issue(QaInfo, Evaluator.Info, [], [])]
  }

  // ---------------------------------------------------------------- the decision

  function QaOf(ctx: Context, s: Scope): seq<Evaluator.Finding> {
    Evaluator.Evaluate(ctx.planFor(s.competitors, s.reviewed), s.competitors, s.reviewed, s.claims)
  }

  function ReadinessOf(ctx: Context, s: Scope): Readiness {
    ctx.readiness(ctx.planFor(s.competitors, s.reviewed), QaOf(ctx, s), s.competitors, s.reviewed, s.claims)
  }

  function LinesIssues(ctx: Context, s: Scope): seq<Issue> {
    var lines := ctx.splitLines(s.report.body);
    LineIssues(ctx, lines, TokenTable(ctx, s.evidence), |lines|)
  }

  function ReportIssues(ctx: Context, s: Scope): seq<Issue> {
    StatusIssues(s.report) + IntegrityIssues(s) + ctx.structure(s.report) + DepthIssues(s.report)
    + ctx.richness(s.report, s.competitors, s.evidence)
  }

  function RecordIssues(ctx: Context, s: Scope): seq<Issue> {
    SourceQualityIssues(s.reviewed) + Collect(s.claims, WeakIssue(ById(s.reviewed)))
    + Collect(s.claims, ValidationIssue(ById(s.reviewed), ctx.rules))
  }

  function OutcomeIssues(ctx: Context, s: Scope): seq<Issue> {
    CitationIssues(ctx, s) + LinesIssues(ctx, s) + ctx.runQuality(s.report) + ReadinessIssues(ReadinessOf(ctx, s))
    + StrictQaIssues(QaOf(ctx, s))
  }

  function Issues(ctx: Context, s: Scope): seq<Issue> {
    ReportIssues(ctx, s) + RecordIssues(ctx, s) + OutcomeIssues(ctx, s)
  }

  predicate IsBlocker(issue: Issue) { issue.severity.Blocker? }

  predicate IsWarning(issue: Issue) { issue.severity.Warn? }

  function Judge(ctx: Context, s: Scope): Gate {
    var issues, qa := Issues(ctx, s), QaOf(ctx, s);
    Gate(Count(issues, IsBlocker) == 0 && Count(qa, QaBlocks) == 0, ReadinessOf(ctx, s), qa,
         |issues|, Count(issues, IsBlocker), Count(issues, IsWarning), issues)
  }

  // ---------------------------------------------------------------- the same, loop by loop

  method CollectIntegrityIssues(s: Scope) returns (issues: seq<Issue>)
    ensures issues == IntegrityIssues(s)
  {
    hide Strip, IdSet, OutsideIds;
    issues := [];
    if Strip(s.report.body) == "" { issues := issues + [Blocks(BodyRequired, [], [])]; }
    if s.reviewed == [] { issues := issues + [Blocks(EvidenceRequired, [], [])]; }
    if s.claims == [] { issues := issues + [Blocks(ClaimRequired, [], [])]; }
    hide Collect, OutsideIssue;
    var outside := CollectOutsideIssues(s.claims, IdSet(s.reviewed));
    issues := issues + outside;
  }

  method CollectOutsideIssues(claims: seq<Claim>, ids: set<string>) returns (issues: seq<Issue>)
    ensures issues == Collect(claims, OutsideIssue(ids))
  {
    hide OutsideIds;
    issues := [];
    for i := 0 to |claims|
      invariant issues == Collect(claims[..i], OutsideIssue(ids))
    {
      assert claims[..i + 1][..i] == claims[..i];
      var missing := OutsideIds(ids, claims[i].evidenceIds);
      if missing != [] {
        issues := issues + [Blocks(ClaimEvidenceInReport, [claims[i].id], missing)];
      }
    }
    assert claims[..|claims|] == claims;
  }

  method CollectClaimEvidenceIssues(claims: seq<Claim>, evidence: seq<Evidence>) returns (issues: seq<Issue>)
    ensures issues == Collect(claims, WeakIssue(ById(evidence)))
  {
    var byId := ById(evidence);
    issues := [];
    for i := 0 to |claims|
      invariant issues == Collect(claims[..i], WeakIssue(byId))
    {
      assert claims[..i + 1][..i] == claims[..i];
      var weak := WeakFor(byId, claims[i].evidenceIds);
      if weak != [] {
        issues := issues + [Blocks(ClaimEvidenceConfidence, [claims[i].id], weak)];
      }
    }
    assert claims[..|claims|] == claims;
  }

  method CollectClaimValidationIssues(claims: seq<Claim>, evidence: seq<Evidence>, rules: ClaimValidator.Rules)
    returns (issues: seq<Issue>)
    ensures issues == Collect(claims, ValidationIssue(ById(evidence), rules))
  {
    var validation := ClaimValidator.ValidateProjectClaims(claims, evidence, rules);
    var results := validation.results;
    ClaimValidator.ResultsLength(claims, ById(evidence), rules);
    hide ClaimValidator.ResultsOf, ById;
    issues := [];
    for i := 0 to |results|
      invariant issues == Collect(claims[..i], ValidationIssue(ById(evidence), rules))
    {
      assert claims[..i + 1][..i] == claims[..i];
      ClaimValidator.ResultAt(claims, ById(evidence), rules, i);
      var r := results[i];
      if !r.status.Supported? {
        var severity := if r.status.Blocked? || r.status.Unsupported? then Evaluator.Blocker else Evaluator.Warn;
        issues := issues + [Issue(ClaimConsistency, severity, [r.claimId], Evaluator.IdsOf(r.usable))];
      }
    }
    assert claims[..|claims|] == claims;
  }

  method CollectLineIssues(ctx: Context, s: Scope) returns (issues: seq<Issue>)
    ensures issues == LinesIssues(ctx, s)
  {
    var table := TokenTable(ctx, s.evidence);
    var lines := ctx.splitLines(s.report.body);
    var sectionHeading := "";
    issues := [];
    for k := 0 to |lines|
      invariant sectionHeading == CitationPolicy.HeadingBefore(lines, ctx.wording, k)
      invariant issues == LineIssues(ctx, lines, table, k)
    {
      var heading := ctx.wording.heading(lines[k]);
      if heading.Some? {
        sectionHeading := heading.value;
      } else if ctx.isStrongWording(lines[k]) && ctx.wording.policy(sectionHeading, lines[k]).StrongConclusion? {
        var weak := WeakTokens(table, CitationPolicy.Tokens(lines[k]));
        if weak != [] {
          issues := issues + [Blocks(StrongConclusionSource, [], weak)];
        }
      }
    }
  }

  method EvaluateReportReleaseGate(ctx: Context, input: Input) returns (gate: Gate)
    ensures gate == Judge(ctx, ScopeOf(ctx, input))
  {
    var report := input.report;
    var competitors := ctx.enrich(report, input.competitors);
    var evidence := EvidenceIn(report.evidenceIds, input.evidence);
    var reviewed := ApplySourceRegistry(ctx, evidence, input.registry);
    var claims := ClaimsIn(report.claimIds, input.claims);
    var s := Scope(report, competitors, evidence, reviewed, claims);
    var plan := ctx.planFor(competitors, reviewed);
    var qa := Evaluator.EvaluateBusinessQa(plan, competitors, reviewed, claims);
    var readiness := ctx.readiness(plan, qa, competitors, reviewed, claims);
    var integrity := CollectIntegrityIssues(s);
    var claimEvidence := CollectClaimEvidenceIssues(claims, reviewed);
    var validation := CollectClaimValidationIssues(claims, reviewed, ctx.rules);
    var lineIssues := CollectLineIssues(ctx, s);
    var issues := (StatusIssues(report) + integrity + ctx.structure(report) + DepthIssues(report)
                   + ctx.richness(report, competitors, evidence))
    + (SourceQualityIssues(reviewed) + claimEvidence + validation)
    + (CitationIssues(ctx, s) + lineIssues + ctx.runQuality(report) + ReadinessIssues(readiness) + StrictQaIssues(qa));
    var blockers, warnings := Count(issues, IsBlocker), Count(issues, IsWarning);
    gate := Gate(blockers == 0 && Count(qa, QaBlocks) == 0, readiness, qa, |issues|, blockers, warnings, issues);
  }
}
