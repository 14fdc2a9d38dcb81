/** When the release gate opens, what that guarantees, and what the decision depends on. */
module GateDecision {
  import opened Common
  import opened Text
  import opened Lists
  import opened Records
  import opened ReleaseGate
  import CitationPolicy
  import ClaimValidator
  import Evaluator

  // ---------------------------------------------------------------- lists of issues without a blocker

  ghost predicate Clean(issues: seq<Issue>) { forall i | i in issues :: !IsBlocker(i) }

  lemma CleanJoin(a: seq<Issue>, b: seq<Issue>)
    ensures Clean(a + b) <==> Clean(a) && Clean(b)
  {
    if Clean(a + b) {
      forall i | i in a ensures !IsBlocker(i) { assert i in a + b; }
      forall i | i in b ensures !IsBlocker(i) { assert i in a + b; }
    }
  }

  lemma CleanWhen(condition: bool, issue: Issue)
    ensures Clean(When(condition, issue)) <==> !condition || !IsBlocker(issue)
  {
    if condition { assert issue in When(condition, issue); }
  }

  lemma {:induction false} CleanCollect<T>(s: seq<T>, f: T -> seq<Issue>)
    ensures Clean(Collect(s, f)) <==> forall t | t in s :: Clean(f(t))
  {
    if s != [] {
      var n := |s| - 1;
      CleanCollect(s[..n], f);
      CleanJoin(Collect(s[..n], f), f(s[n]));
      assert forall t :: t in s <==> t in s[..n] || t == s[n];
    }
  }

  lemma {:induction false} NoBlockersMeansClean(issues: seq<Issue>)
    ensures Count(issues, IsBlocker) == 0 <==> Clean(issues)
  {
    if issues != [] {
      var n := |issues| - 1;
      NoBlockersMeansClean(issues[..n]);
      SplitLast(issues);
      CleanJoin(issues[..n], [issues[n]]);
      assert issues[n] in [issues[n]];
    }
  }

  // ---------------------------------------------------------------- each check, in its own terms

  /** Every id a claim cites belongs to evidence of the report. */
  predicate CitesInside(evidence: seq<Evidence>, c: Claim) {
    forall i | 0 <= i < |c.evidenceIds| :: c.evidenceIds[i] in IdSet(evidence)
  }

  lemma {:induction false} OutsideIsExact(ids: set<string>, cited: seq<string>)
    ensures OutsideIds(ids, cited) == [] <==> forall i | 0 <= i < |cited| :: cited[i] in ids
  {
    if cited != [] { OutsideIsExact(ids, cited[..|cited| - 1]); }
  }

  lemma OutsideClean(evidence: seq<Evidence>, claims: seq<Claim>)
    ensures Clean(Collect(claims, OutsideIssue(IdSet(evidence))))
       <==> forall c | c in claims :: CitesInside(evidence, c)
  {
    var ids := IdSet(evidence);
    CleanCollect(claims, OutsideIssue(ids));
    forall c: Claim
      ensures Clean(OutsideIssue(ids)(c)) <==> CitesInside(evidence, c)
    {
      var missing := OutsideIds(ids, c.evidenceIds);
      OutsideIsExact(ids, c.evidenceIds);
      CleanWhen(missing != [], Blocks(ClaimEvidenceInReport, [c.id], missing));
    }
  }

  lemma IntegrityClean(s: Scope)
    ensures Clean(IntegrityIssues(s))
       <==> Strip(s.report.body) != "" && s.reviewed != [] && s.claims != []
            && forall c | c in s.claims :: CitesInside(s.reviewed, c)
  {
    var body := When(Strip(s.report.body) == "", Blocks(BodyRequired, [], []));
    var evidence := When(s.reviewed == [], Blocks(EvidenceRequired, [], []));
    var claims := When(s.claims == [], Blocks(ClaimRequired, [], []));
    var outside := Collect(s.claims, OutsideIssue(IdSet(s.reviewed)));
    CleanJoin(body + evidence + claims, outside);
    CleanJoin(body + evidence, claims);
    CleanJoin(body, evidence);
    CleanWhen(Strip(s.report.body) == "", Blocks(BodyRequired, [], []));
    CleanWhen(s.reviewed == [], Blocks(EvidenceRequired, [], []));
    CleanWhen(s.claims == [], Blocks(ClaimRequired, [], []));
    OutsideClean(s.reviewed, s.claims);
  }

  /** At least four fifths of the rate base is release-grade. */
  predicate RateIsMet(evidence: seq<Evidence>) {
    var base := RateBase(evidence);
    5 * Count(base, IsGood) >= 4 * |base|
  }

  lemma SelectEmpty(evidence: seq<Evidence>, p: Evidence -> bool)
    ensures Select(evidence, p) == [] <==> forall e | e in evidence :: !p(e)
  {
    SelectIsExact(evidence, p);
    if Select(evidence, p) != [] { assert Select(evidence, p)[0] in Select(evidence, p); }
  }

  lemma SourcesClean(evidence: seq<Evidence>)
    requires evidence != []
    ensures Clean(SourceQualityIssues(evidence))
       <==> (forall e | e in evidence :: !NeedsPolicyReview(e)) && RateIsMet(evidence)
  {
    var unreviewed, base := Select(evidence, NeedsPolicyReview), RateBase(evidence);
    var review := Blocks(PolicyReview, [], Evaluator.IdsOf(unreviewed));
    var rate := Blocks(EvidenceRate, [], Evaluator.IdsOf(base));
    var isLow := 5 * |Select(base, IsGood)| < 4 * |base|;
    SelectEmpty(evidence, NeedsPolicyReview);
    SelectIsExact(base, IsGood);
    CleanJoin(When(unreviewed != [], review), When(isLow, rate));
    CleanWhen(unreviewed != [], review);
    CleanWhen(isLow, rate);
  }

  /** No known evidence a claim cites falls short of the claims' threshold. */
  predicate CitesStrong(byId: map<string, Evidence>, c: Claim) {
    forall i | 0 <= i < |c.evidenceIds| ::
      c.evidenceIds[i] in byId ==> IsReleaseGrade(byId[c.evidenceIds[i]], 0.75)
  }

  lemma {:induction false} WeakForIsExact(byId: map<string, Evidence>, cited: seq<string>)
    ensures WeakFor(byId, cited) == []
       <==> forall i | 0 <= i < |cited| :: cited[i] in byId ==> IsReleaseGrade(byId[cited[i]], 0.75)
  {
    if cited != [] { WeakForIsExact(byId, cited[..|cited| - 1]); }
  }

  lemma WeakClean(byId: map<string, Evidence>, claims: seq<Claim>)
    ensures Clean(Collect(claims, WeakIssue(byId))) <==> forall c | c in claims :: CitesStrong(byId, c)
  {
    CleanCollect(claims, WeakIssue(byId));
    forall c: Claim
      ensures Clean(WeakIssue(byId)(c)) <==> CitesStrong(byId, c)
    {
      var weak := WeakFor(byId, c.evidenceIds);
      WeakForIsExact(byId, c.evidenceIds);
      CleanWhen(weak != [], Blocks(ClaimEvidenceConfidence, [c.id], weak));
    }
  }

  predicate IsValidated(byId: map<string, Evidence>, rules: ClaimValidator.Rules, c: Claim) {
    var status := ClaimValidator.Validate(c, byId, rules).status;
    status.Supported? || status.Weak?
  }

  lemma ValidationClean(byId: map<string, Evidence>, rules: ClaimValidator.Rules, claims: seq<Claim>)
    ensures Clean(Collect(claims, ValidationIssue(byId, rules)))
       <==> forall c | c in claims :: IsValidated(byId, rules, c)
  {
    CleanCollect(claims, ValidationIssue(byId, rules));
    forall c: Claim
      ensures Clean(ValidationIssue(byId, rules)(c)) <==> IsValidated(byId, rules, c)
    {
      OneValidationClean(byId, rules, c);
    }
  }

  lemma OneValidationClean(byId: map<string, Evidence>, rules: ClaimValidator.Rules, c: Claim)
    ensures Clean(ValidationIssue(byId, rules)(c)) <==> IsValidated(byId, rules, c)
  {
    var r := ClaimValidator.Validate(c, byId, rules);
    var severity := if r.status.Blocked? || r.status.Unsupported? then Evaluator.Blocker else Evaluator.Warn;
    CleanWhen(!r.status.Supported?, Issue(ClaimConsistency, severity, [c.id], Evaluator.IdsOf(r.usable)));
  }

  lemma RecordsClean(ctx: Context, s: Scope)
    requires s.reviewed != []
    ensures Clean(RecordIssues(ctx, s))
       <==> (forall e | e in s.reviewed :: !NeedsPolicyReview(e)) && RateIsMet(s.reviewed)
            && (forall c | c in s.claims :: CitesStrong(ById(s.reviewed), c))
            && (forall c | c in s.claims :: IsValidated(ById(s.reviewed), ctx.rules, c))
  {
    var sources, weak := SourceQualityIssues(s.reviewed), Collect(s.claims, WeakIssue(ById(s.reviewed)));
    var validation := Collect(s.claims, ValidationIssue(ById(s.reviewed), ctx.rules));
    CleanJoin(sources + weak, validation);
    CleanJoin(sources, weak);
    SourcesClean(s.reviewed);
    WeakClean(ById(s.reviewed), s.claims);
    ValidationClean(ById(s.reviewed), ctx.rules, s.claims);
  }

  lemma CitationsClean(ctx: Context, s: Scope)
    ensures Clean(CitationIssues(ctx, s))
       <==> ctx.malformedTokens(s.report.body) == []
            && AllResolve(TokenTable(ctx, s.evidence), CitationPolicy.Tokens(s.report.body))
  {
    var malformed := ctx.malformedTokens(s.report.body) != [];
    var missing := !AllResolve(TokenTable(ctx, s.evidence), CitationPolicy.Tokens(s.report.body));
    CleanJoin(When(malformed, Blocks(TokenFormat, [], [])), When(missing, Blocks(CitationResolves, [], [])));
    CleanWhen(malformed, Blocks(TokenFormat, [], []));
    CleanWhen(missing, Blocks(CitationResolves, [], []));
  }

  /** No cited token of the line leads to evidence below the claims' threshold. */
  predicate TokensAreStrong(table: map<string, Evidence>, tokens: seq<string>) {
    forall i | 0 <= i < |tokens| ::
      CitationPolicy.Normalize(tokens[i]) in table ==> IsReleaseGrade(table[CitationPolicy.Normalize(tokens[i])], 0.75)
  }

  lemma {:induction false} WeakTokensAreExact(table: map<string, Evidence>, tokens: seq<string>)
    ensures WeakTokens(table, tokens) == [] <==> TokensAreStrong(table, tokens)
  {
    if tokens != [] {
      var n := |tokens| - 1;
      WeakTokensAreExact(table, tokens[..n]);
      assert TokensAreStrong(table, tokens) ==> TokensAreStrong(table, tokens[..n]);
    }
  }

  ghost predicate StrongLinesCiteStrong(ctx: Context, lines: seq<string>, table: map<string, Evidence>, upTo: nat)
    requires upTo <= |lines|
  {
    forall k: nat | k < upTo && IsStrongLine(ctx, lines, k) :: TokensAreStrong(table, CitationPolicy.Tokens(lines[k]))
  }

  lemma LineClean(ctx: Context, lines: seq<string>, table: map<string, Evidence>, k: nat)
    requires k < |lines|
    ensures Clean(LineIssue(ctx, lines, table, k))
       <==> (IsStrongLine(ctx, lines, k) ==> TokensAreStrong(table, CitationPolicy.Tokens(lines[k])))
  {
    var weak := WeakTokens(table, CitationPolicy.Tokens(lines[k]));
    WeakTokensAreExact(table, CitationPolicy.Tokens(lines[k]));
    CleanWhen(IsStrongLine(ctx, lines, k) && weak != [], Blocks(StrongConclusionSource, [], weak));
  }

  lemma {:induction false} LinesClean(ctx: Context, lines: seq<string>, table: map<string, Evidence>, k: nat)
    requires k <= |lines|
    ensures Clean(LineIssues(ctx, lines, table, k)) <==> StrongLinesCiteStrong(ctx, lines, table, k)
  {
    if k > 0 {
      LinesClean(ctx, lines, table, k - 1);
      LineClean(ctx, lines, table, k - 1);
      CleanJoin(LineIssues(ctx, lines, table, k - 1), LineIssue(ctx, lines, table, k - 1));
    }
  }

  lemma StrictQaClean(qa: seq<Evaluator.Finding>)
    ensures Clean(StrictQaIssues(qa)) <==> Count(qa, QaBlocks) == 0
  {
    if qa != [] && Count(qa, QaBlocks) > 0 {
      assert Blocks(QaClean, [], []) in StrictQaIssues(qa);
    }
  }

  // ---------------------------------------------------------------- the decision

  /** What a report has to meet, written without the gate's issues. */
  ghost predicate ReportIsSound(ctx: Context, s: Scope) {
    && s.report.status != "rejected" && s.report.status != "archived"
    && |Strip(s.report.body)| >= 900
    && s.reviewed != [] && s.claims != []
    && (forall c | c in s.claims :: CitesInside(s.reviewed, c))
    && Clean(ctx.structure(s.report)) && Clean(ctx.richness(s.report, s.competitors, s.evidence))
  }

  ghost predicate RecordsAreSound(ctx: Context, s: Scope) {
    && (forall e | e in s.reviewed :: !NeedsPolicyReview(e))
    && RateIsMet(s.reviewed)
    && (forall c | c in s.claims :: CitesStrong(ById(s.reviewed), c))
    && (forall c | c in s.claims :: IsValidated(ById(s.reviewed), ctx.rules, c))
  }

  ghost predicate OutcomeIsSound(ctx: Context, s: Scope) {
    var lines := ctx.splitLines(s.report.body);
    && ctx.malformedTokens(s.report.body) == []
    && AllResolve(TokenTable(ctx, s.evidence), CitationPolicy.Tokens(s.report.body))
    && StrongLinesCiteStrong(ctx, lines, TokenTable(ctx, s.evidence), |lines|)
    && Clean(ctx.runQuality(s.report))
    && ReadinessOf(ctx, s).isReady && ReadinessOf(ctx, s).score >= 85
    && (forall f | f in QaOf(ctx, s) :: !f.severity.Blocker?)
  }

  lemma ReportPart(ctx: Context, s: Scope)
    ensures Clean(ReportIssues(ctx, s)) <==> ReportIsSound(ctx, s)
  {
    var status, integrity, depth := StatusIssues(s.report), IntegrityIssues(s), DepthIssues(s.report);
    var structure, richness := ctx.structure(s.report), ctx.richness(s.report, s.competitors, s.evidence);
    CleanJoin(status + integrity + structure + depth, richness);
    CleanJoin(status + integrity + structure, depth);
    CleanJoin(status + integrity, structure);
    CleanJoin(status, integrity);
    CleanWhen(s.report.status == "rejected" || s.report.status == "archived", Blocks(ReportStatus, [], []));
    CleanWhen(|Strip(s.report.body)| < 900, Blocks(Depth, [], []));
    IntegrityClean(s);
  }

  lemma OutcomePart(ctx: Context, s: Scope)
    ensures Clean(OutcomeIssues(ctx, s)) <==> OutcomeIsSound(ctx, s)
  {
    var citations, lineIssues, run := CitationIssues(ctx, s), LinesIssues(ctx, s), ctx.runQuality(s.report);
    var readiness, qa := ReadinessIssues(ReadinessOf(ctx, s)), StrictQaIssues(QaOf(ctx, s));
    CleanJoin(citations + lineIssues + run + readiness, qa);
    CleanJoin(citations + lineIssues + run, readiness);
    CleanJoin(citations + lineIssues, run);
    CleanJoin(citations, lineIssues);
    CitationsClean(ctx, s);
    var lines := ctx.splitLines(s.report.body);
    LinesClean(ctx, lines, TokenTable(ctx, s.evidence), |lines|);
    var r := ReadinessOf(ctx, s);
    CleanWhen(!r.isReady || r.score < 85, Blocks(ReadinessRequired, [], []));
    StrictQaClean(QaOf(ctx, s));
    NoQaBlockers(QaOf(ctx, s));
  }

  lemma {:induction false} NoQaBlockers(qa: seq<Evaluator.Finding>)
    ensures Count(qa, QaBlocks) == 0 <==> forall f | f in qa :: !f.severity.Blocker?
  {
    if qa != [] {
      NoQaBlockers(qa[..|qa| - 1]);
      assert forall f :: f in qa <==> f in qa[..|qa| - 1] || f == qa[|qa| - 1];
    }
  }

  lemma IssuesSplit(ctx: Context, s: Scope)
    ensures Clean(Issues(ctx, s))
       <==> Clean(ReportIssues(ctx, s)) && Clean(RecordIssues(ctx, s)) && Clean(OutcomeIssues(ctx, s))
  {
    CleanJoin(ReportIssues(ctx, s) + RecordIssues(ctx, s), OutcomeIssues(ctx, s));
    CleanJoin(ReportIssues(ctx, s), RecordIssues(ctx, s));
  }

  /** A blocking QA finding forces a gate blocker, so the gate opens exactly when it has no blocker of its own. */
  lemma AllowedMeansNoBlockers(ctx: Context, s: Scope)
    ensures Judge(ctx, s).allowed <==> Judge(ctx, s).blockerCount == 0
    ensures Judge(ctx, s).blockerCount == 0 <==> Clean(Issues(ctx, s))
  {
    NoBlockersMeansClean(Issues(ctx, s));
    IssuesSplit(ctx, s);
    if Judge(ctx, s).blockerCount == 0 {
      OutcomePart(ctx, s);
      NoQaBlockers(QaOf(ctx, s));
    }
  }

  lemma RecordsPart(ctx: Context, s: Scope)
    requires ReportIsSound(ctx, s)
    ensures Clean(RecordIssues(ctx, s)) <==> RecordsAreSound(ctx, s)
  {
    RecordsClean(ctx, s);
  }

  /** Sound and complete: the gate opens for exactly the reports that meet every condition. */
  lemma AllowedExactlyWhen(ctx: Context, s: Scope)
    ensures Judge(ctx, s).allowed <==> ReportIsSound(ctx, s) && RecordsAreSound(ctx, s) && OutcomeIsSound(ctx, s)
  {
    AllowedMeansNoBlockers(ctx, s);
    IssuesSplit(ctx, s);
    ReportPart(ctx, s);
    OutcomePart(ctx, s);
    if Clean(ReportIssues(ctx, s)) { RecordsPart(ctx, s); }
  }

  // ---------------------------------------------------------------- what an open gate guarantees

  /** Evidence a claim may rest on when it is released. */
  predicate CarriesRelease(e: Evidence) {
    && !IsBad(e) && e.reliability >= 0.75 && !NeedsPolicyReview(e)
    && (e.sourceType == VERIFIED || (e.sourceType in COMMUNITY_TYPES && HasReleaseCluster(e)))
  }

  /**
   Behind an open gate every claim rests on evidence: it cites some, and whatever it cites is evidence of the report,
   neither rejected nor stale, reliable, cleared by source policy, and verified or triangulated.
   */
  lemma ReleasedClaimsAreSupported(ctx: Context, s: Scope, c: Claim)
    requires c in s.claims
    ensures Judge(ctx, s).allowed ==>
      && c.evidenceIds != []
      && (forall i | 0 <= i < |c.evidenceIds| :: RestsOn(s.reviewed, c.evidenceIds[i]))
      && !ClaimValidator.Validate(c, ById(s.reviewed), ctx.rules).status.Unsupported?
  {
    AllowedExactlyWhen(ctx, s);
    if Judge(ctx, s).allowed {
      var byId := ById(s.reviewed);
      assert IsValidated(byId, ctx.rules, c);
      ClaimValidator.BlockedExactlyWhen(c, byId, ctx.rules);
      forall i | 0 <= i < |c.evidenceIds|
        ensures RestsOn(s.reviewed, c.evidenceIds[i])
      {
        CitedCarries(s.reviewed, c, i);
      }
    }
  }

  ghost predicate RestsOn(evidence: seq<Evidence>, id: string) {
    exists e :: e in evidence && e.id == id && CarriesRelease(e)
  }

  lemma CitedCarries(evidence: seq<Evidence>, c: Claim, i: nat)
    requires i < |c.evidenceIds| && CitesInside(evidence, c) && CitesStrong(ById(evidence), c)
    requires forall e | e in evidence :: !NeedsPolicyReview(e)
    ensures RestsOn(evidence, c.evidenceIds[i])
  {
    var byId, id := ById(evidence), c.evidenceIds[i];
    ByIdIsExact(evidence);
    assert id in IdSet(evidence);
    assert id in byId;
    ReleaseGradeMeans(byId[id]);
    assert CarriesRelease(byId[id]);
  }

  lemma {:induction false} TableHasSources(ctx: Context, evidence: seq<Evidence>, token: string)
    ensures token in TokenTable(ctx, evidence) <==> exists e :: e in evidence && token in ctx.sourceTokens(e)
  {
    if evidence != [] {
      var n := |evidence| - 1;
      TableHasSources(ctx, evidence[..n], token);
      assert forall e :: e in evidence <==> e in evidence[..n] || e == evidence[n];
    }
  }

  /** And every citation of the report leads to evidence of the report. */
  lemma ReleasedCitationsResolve(ctx: Context, s: Scope, i: nat)
    requires i < |CitationPolicy.Tokens(s.report.body)|
    ensures Judge(ctx, s).allowed ==> exists e ::
      e in s.evidence && CitationPolicy.Normalize(CitationPolicy.Tokens(s.report.body)[i]) in ctx.sourceTokens(e)
  {
    AllowedExactlyWhen(ctx, s);
    TableHasSources(ctx, s.evidence, CitationPolicy.Normalize(CitationPolicy.Tokens(s.report.body)[i]));
  }

  // ---------------------------------------------------------------- what the decision depends on

  lemma {:induction false} EvidenceInAppend(ids: set<string>, a: seq<Evidence>, b: seq<Evidence>)
    ensures EvidenceIn(ids, a + b) == EvidenceIn(ids, a) + EvidenceIn(ids, b)
  {
    if b == [] {
      assert a + b == a;
    } else {
      var n := |b| - 1;
      EvidenceInAppend(ids, a, b[..n]);
      assert (a + b)[..|a + b| - 1] == a + b[..n];
    }
  }

  lemma {:induction false} ClaimsInAppend(ids: set<string>, a: seq<Claim>, b: seq<Claim>)
    ensures ClaimsIn(ids, a + b) == ClaimsIn(ids, a) + ClaimsIn(ids, b)
  {
    if b == [] {
      assert a + b == a;
    } else {
      var n := |b| - 1;
      ClaimsInAppend(ids, a, b[..n]);
      assert (a + b)[..|a + b| - 1] == a + b[..n];
    }
  }

  lemma {:induction false} NothingInScope(ids: set<string>, evidence: seq<Evidence>)
    requires forall e | e in evidence :: e.id !in ids
    ensures EvidenceIn(ids, evidence) == []
  {
    if evidence != [] { NothingInScope(ids, evidence[..|evidence| - 1]); }
  }

  lemma {:induction false} NoClaimInScope(ids: set<string>, claims: seq<Claim>)
    requires forall c | c in claims :: c.id !in ids
    ensures ClaimsIn(ids, claims) == []
  {
    if claims != [] { NoClaimInScope(ids, claims[..|claims| - 1]); }
  }

  lemma OutsideEvidence(ids: set<string>, a: seq<Evidence>, more: seq<Evidence>, b: seq<Evidence>)
    requires forall e | e in more :: e.id !in ids
    ensures EvidenceIn(ids, a + more + b) == EvidenceIn(ids, a + b)
  {
    EvidenceInAppend(ids, a + more, b);
    EvidenceInAppend(ids, a, more);
    EvidenceInAppend(ids, a, b);
    NothingInScope(ids, more);
  }

  lemma OutsideClaims(ids: set<string>, a: seq<Claim>, more: seq<Claim>, b: seq<Claim>)
    requires forall c | c in more :: c.id !in ids
    ensures ClaimsIn(ids, a + more + b) == ClaimsIn(ids, a + b)
  {
    ClaimsInAppend(ids, a + more, b);
    ClaimsInAppend(ids, a, more);
    ClaimsInAppend(ids, a, b);
    NoClaimInScope(ids, more);
  }

  /** Evidence and claims the report does not list can be put in anywhere without changing the gate. */
  lemma OutsidersDoNotMatter(ctx: Context, input: Input, e0: seq<Evidence>, more: seq<Evidence>, e1: seq<Evidence>,
                             c0: seq<Claim>, others: seq<Claim>, c1: seq<Claim>)
    requires input.evidence == e0 + e1 && input.claims == c0 + c1
    requires forall e | e in more :: e.id !in input.report.evidenceIds
    requires forall c | c in others :: c.id !in input.report.claimIds
    ensures var grown := input.(evidence := e0 + more + e1, claims := c0 + others + c1);
      Judge(ctx, ScopeOf(ctx, grown)) == Judge(ctx, ScopeOf(ctx, input))
  {
    OutsideEvidence(input.report.evidenceIds, e0, more, e1);
    OutsideClaims(input.report.claimIds, c0, others, c1);
  }

  /** The registry only overrides review states: item by item everything else stays, and so does the grade. */
  lemma {:induction false} RegistryKeepsEvidence(ctx: Context, registry: seq<RegistryEntry>, evidence: seq<Evidence>,
                                                 minReliability: real)
    ensures var reviewed := Collect(evidence, Reviewed(ctx, registry));
      && |reviewed| == |evidence|
      && forall i | 0 <= i < |evidence| ::
           && reviewed[i].(policyStatus := evidence[i].policyStatus, robotsStatus := evidence[i].robotsStatus)
              == evidence[i]
           && IsReleaseGrade(reviewed[i], minReliability) == IsReleaseGrade(evidence[i], minReliability)
  {
    if evidence != [] {
      var n := |evidence| - 1;
      RegistryKeepsEvidence(ctx, registry, evidence[..n], minReliability);
      OneItemIsKept(ctx, registry, evidence[n], minReliability);
    }
  }

  lemma OneItemIsKept(ctx: Context, registry: seq<RegistryEntry>, e: Evidence, minReliability: real)
    ensures var reviewed := Reviewed(ctx, registry)(e);
      && |reviewed| == 1
      && reviewed[0].(policyStatus := e.policyStatus, robotsStatus := e.robotsStatus) == e
      && IsReleaseGrade(reviewed[0], minReliability) == IsReleaseGrade(e, minReliability)
  {
  }

  // ---------------------------------------------------------------- source reviews, on the gate's own input

  /** Source policy holds the item back: the entry that applies says so, or the item itself and no entry overrides. */
  ghost predicate HeldByPolicy(ctx: Context, registry: seq<RegistryEntry>, e: Evidence) {
    || (exists j: nat :: Applies(ctx, registry, e, j) && registry[j].policyStatus in {"pending", "rejected"})
    || (e.policyStatus in {"pending", "rejected"}
        && forall j: nat | Applies(ctx, registry, e, j) :: registry[j].policyStatus == "not_required")
  }

  /** The same for what robots rules say. */
  ghost predicate HeldByRobots(ctx: Context, registry: seq<RegistryEntry>, e: Evidence) {
    || (exists j: nat :: Applies(ctx, registry, e, j) && registry[j].robotsStatus in {"blocked", "error"})
    || (e.robotsStatus in {"blocked", "error"}
        && forall j: nat | Applies(ctx, registry, e, j) :: registry[j].robotsStatus == "unknown")
  }

  lemma HeldMeansReview(ctx: Context, registry: seq<RegistryEntry>, e: Evidence)
    ensures |Reviewed(ctx, registry)(e)| == 1
    ensures NeedsPolicyReview(Reviewed(ctx, registry)(e)[0])
       <==> HeldByPolicy(ctx, registry, e) || HeldByRobots(ctx, registry, e)
  {
    hide Applies, Reviewed, EntryById, EntryByKey;
    ReviewIsExact(ctx, registry, e);
    if j: nat :| Applies(ctx, registry, e, j) {
      forall i: nat | Applies(ctx, registry, e, i) ensures i == j { OneApplies(ctx, registry, e, i, j); }
    }
  }

  lemma {:induction false} ScopeHas(ids: set<string>, evidence: seq<Evidence>, e: Evidence)
    ensures e in EvidenceIn(ids, evidence) <==> e in evidence && e.id in ids
  {
    if evidence != [] {
      ScopeHas(ids, evidence[..|evidence| - 1], e);
      SplitLast(evidence);
    }
  }

  lemma {:induction false} ClaimScopeHas(ids: set<string>, claims: seq<Claim>, c: Claim)
    ensures c in ClaimsIn(ids, claims) <==> c in claims && c.id in ids
  {
    if claims != [] {
      ClaimScopeHas(ids, claims[..|claims| - 1], c);
      SplitLast(claims);
    }
  }

  /** Evidence and claims the report lists are all kept, in order and as often as they occur. */
  lemma {:induction false} ListedIsKept(ids: set<string>, evidence: seq<Evidence>, claims: seq<Claim>)
    requires forall e | e in evidence :: e.id in ids
    requires forall c | c in claims :: c.id in ids
    ensures EvidenceIn(ids, evidence) == evidence && ClaimsIn(ids, claims) == claims
    decreases |evidence| + |claims|
  {
    if evidence != [] {
      ListedIsKept(ids, evidence[..|evidence| - 1], claims);
      SplitLast(evidence);
    } else if claims != [] {
      ListedIsKept(ids, evidence, claims[..|claims| - 1]);
      SplitLast(claims);
    }
  }

  /** Some reviewed item is held back exactly when the report lists one that is, by the registry or on its own. */
  lemma ReviewNeededExactlyWhen(ctx: Context, input: Input)
    ensures (exists e :: e in ScopeOf(ctx, input).reviewed && NeedsPolicyReview(e))
       <==> exists e :: e in input.evidence && e.id in input.report.evidenceIds
                        && (HeldByPolicy(ctx, input.registry, e) || HeldByRobots(ctx, input.registry, e))
  {
    hide HeldByPolicy, HeldByRobots, NeedsPolicyReview, Reviewed;
    var ids, review := input.report.evidenceIds, Reviewed(ctx, input.registry);
    var scoped := EvidenceIn(ids, input.evidence);
    if r :| r in ScopeOf(ctx, input).reviewed && NeedsPolicyReview(r) {
      CollectHas(scoped, review, r);
      var e :| e in scoped && r in review(e);
      ScopeHas(ids, input.evidence, e);
      HeldMeansReview(ctx, input.registry, e);
      assert review(e)[0] == r;
    }
    if e :| e in input.evidence && e.id in ids
            && (HeldByPolicy(ctx, input.registry, e) || HeldByRobots(ctx, input.registry, e)) {
      ScopeHas(ids, input.evidence, e);
      HeldMeansReview(ctx, input.registry, e);
      var r := review(e)[0];
      assert r in review(e);
      CollectHas(scoped, review, r);
    }
  }

  /** And a report that lists such an item is not released, whatever else speaks for it. */
  lemma HeldSourceCloses(ctx: Context, input: Input, e: Evidence)
    requires e in input.evidence && e.id in input.report.evidenceIds
    requires HeldByPolicy(ctx, input.registry, e) || HeldByRobots(ctx, input.registry, e)
    ensures !Judge(ctx, ScopeOf(ctx, input)).allowed
  {
    ReviewNeededExactlyWhen(ctx, input);
    hide Judge, HeldByPolicy, HeldByRobots, NeedsPolicyReview;
    AllowedExactlyWhen(ctx, ScopeOf(ctx, input));
  }
}
