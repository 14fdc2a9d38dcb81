/** Every issue of the release gate: when it is raised, how severe it is, and whom it names. */
module GateIssues {
  import opened Common
  import opened Text
  import opened Lists
  import opened Records
  import opened ReleaseGate
  import CitationPolicy
  import ClaimValidator
  import Evaluator
  import GateDecision

  // ---------------------------------------------------------------- whom an issue names

  lemma {:induction false} OutsideHas(ids: set<string>, cited: seq<string>, id: string)
    ensures id in OutsideIds(ids, cited) <==> id in cited && id !in ids
  {
    if cited != [] {
      OutsideHas(ids, cited[..|cited| - 1], id);
      SplitLast(cited);
    }
  }

  lemma {:induction false} WeakForHas(byId: map<string, Evidence>, cited: seq<string>, id: string)
    ensures id in WeakFor(byId, cited) <==> id in cited && id in byId && !IsReleaseGrade(byId[id], 0.75)
  {
    hide IsReleaseGrade;
    if cited != [] {
      WeakForHas(byId, cited[..|cited| - 1], id);
      SplitLast(cited);
    }
  }

  /** The token leads to evidence with this id, which falls short of the claims' threshold. */
  predicate LeadsBelowGrade(table: map<string, Evidence>, token: string, id: string) {
    var t := CitationPolicy.Normalize(token);
    t in table && table[t].id == id && !IsReleaseGrade(table[t], 0.75)
  }

  lemma {:induction false} WeakTokensHave(table: map<string, Evidence>, tokens: seq<string>, id: string)
    ensures id in WeakTokens(table, tokens)
       <==> exists token :: token in tokens && LeadsBelowGrade(table, token, id)
  {
    hide IsReleaseGrade, CitationPolicy.Normalize;
    if tokens != [] {
      var n := |tokens| - 1;
      var earlier := WeakTokens(table, tokens[..n]);
      WeakTokensHave(table, tokens[..n], id);
      assert id in WeakTokens(table, tokens) <==> id in earlier || LeadsBelowGrade(table, tokens[n], id);
      assert forall t :: t in tokens <==> t in tokens[..n] || t == tokens[n];
    }
  }

  lemma IdSetMeans(evidence: seq<Evidence>, id: string)
    ensures id in IdSet(evidence) <==> exists e :: e in evidence && e.id == id
  {
  }

  /** The cited ids of a claim that belong to no evidence of the report, in the order of the claim. */
  ghost predicate CitesOutside(s: Scope, c: Claim, i: Issue) {
    && i == Issue(ClaimEvidenceInReport, Evaluator.Blocker, [c.id], i.evidenceIds)
    && i.evidenceIds != [] && i.evidenceIds == OutsideIds(IdSet(s.reviewed), c.evidenceIds)
    && forall id :: id in i.evidenceIds
          <==> id in c.evidenceIds && !exists e :: e in s.reviewed && e.id == id
  }

  ghost predicate CitesBelowGrade(s: Scope, c: Claim, i: Issue) {
    && i == Issue(ClaimEvidenceConfidence, Evaluator.Blocker, [c.id], i.evidenceIds)
    && i.evidenceIds != [] && i.evidenceIds == WeakFor(ById(s.reviewed), c.evidenceIds)
    && forall id :: id in i.evidenceIds
          <==> id in c.evidenceIds && id in ById(s.reviewed) && !IsReleaseGrade(ById(s.reviewed)[id], 0.75)
  }

  ghost predicate IsInconsistent(ctx: Context, s: Scope, c: Claim, i: Issue) {
    var r := ClaimValidator.Validate(c, ById(s.reviewed), ctx.rules);
    && r.status != ClaimValidator.Supported
    && i == Issue(ClaimConsistency, if r.status == ClaimValidator.Weak then Evaluator.Warn else Evaluator.Blocker,
                  [c.id], Evaluator.IdsOf(r.usable))
  }

  ghost predicate ConcludesOnWeak(ctx: Context, s: Scope, k: nat, i: Issue) {
    var lines, table := ctx.splitLines(s.report.body), TokenTable(ctx, s.evidence);
    && k < |lines| && IsStrongLine(ctx, lines, k)
    && i == Issue(StrongConclusionSource, Evaluator.Blocker, [], i.evidenceIds)
    && i.evidenceIds != [] && i.evidenceIds == WeakTokens(table, CitationPolicy.Tokens(lines[k]))
    && forall id :: id in i.evidenceIds
          <==> exists token :: token in CitationPolicy.Tokens(lines[k]) && LeadsBelowGrade(table, token, id)
  }

  // ---------------------------------------------------------------- when an issue is raised

  ghost predicate RaisedByReport(ctx: Context, s: Scope, i: Issue) {
    || (s.report.status in {"rejected", "archived"} && i == Issue(ReportStatus, Evaluator.Blocker, [], []))
    || (Strip(s.report.body) == "" && i == Issue(BodyRequired, Evaluator.Blocker, [], []))
    || (|s.reviewed| == 0 && i == Issue(EvidenceRequired, Evaluator.Blocker, [], []))
    || (|s.claims| == 0 && i == Issue(ClaimRequired, Evaluator.Blocker, [], []))
    || (exists c :: c in s.claims && CitesOutside(s, c, i))
    || (|Strip(s.report.body)| < 900 && i == Issue(Depth, Evaluator.Blocker, [], []))
    || i in ctx.structure(s.report) || i in ctx.richness(s.report, s.competitors, s.evidence)
  }

  ghost predicate RaisedByRecords(ctx: Context, s: Scope, i: Issue) {
    || ((exists e :: e in s.reviewed && NeedsPolicyReview(e))
        && i == Issue(PolicyReview, Evaluator.Blocker, [], Evaluator.IdsOf(Select(s.reviewed, NeedsPolicyReview))))
    || (|s.reviewed| > 0 && !GateDecision.RateIsMet(s.reviewed)
        && i == Issue(EvidenceRate, Evaluator.Blocker, [], Evaluator.IdsOf(RateBase(s.reviewed))))
    || (exists c :: c in s.claims && CitesBelowGrade(s, c, i))
    || (exists c :: c in s.claims && IsInconsistent(ctx, s, c, i))
  }

  ghost predicate RaisedByOutcome(ctx: Context, s: Scope, i: Issue) {
    var readiness, qa := ReadinessOf(ctx, s), QaOf(ctx, s);
    || (|ctx.malformedTokens(s.report.body)| > 0 && i == Issue(TokenFormat, Evaluator.Blocker, [], []))
    || (!AllResolve(TokenTable(ctx, s.evidence), CitationPolicy.Tokens(s.report.body))
        && i == Issue(CitationResolves, Evaluator.Blocker, [], []))
    || (exists k: nat :: ConcludesOnWeak(ctx, s, k, i))
    || i in ctx.runQuality(s.report)
    || (!(readiness.isReady && readiness.score >= 85) && i == Issue(ReadinessRequired, Evaluator.Blocker, [], []))
    || (qa != [] && i == QaIssue(qa))
  }

  /** One issue for all QA findings together, as severe as the most severe of them. */
  ghost function QaIssue(qa: seq<Evaluator.Finding>): Issue {
    if exists f :: f in qa && f.severity == Evaluator.Blocker then Issue(QaClean, Evaluator.Blocker, [], [])
    else if exists f :: f in qa && f.severity == Evaluator.Warn then Issue(QaWarnings, Evaluator.Warn, [], [])
    else Issue(QaInfo, Evaluator.Info, [], [])
  }

  lemma InJoin(a: seq<Issue>, b: seq<Issue>, i: Issue)
    ensures i in a + b <==> i in a || i in b
  {
  }

  lemma OutsideIssues(s: Scope, i: Issue)
    ensures i in Collect(s.claims, OutsideIssue(IdSet(s.reviewed)))
       <==> exists c :: c in s.claims && CitesOutside(s, c, i)
  {
    hide OutsideIds, IdSet, CitesOutside;
    CollectHas(s.claims, OutsideIssue(IdSet(s.reviewed)), i);
    forall c: Claim
      ensures i in OutsideIssue(IdSet(s.reviewed))(c) <==> CitesOutside(s, c, i)
    {
      OneOutside(s, c, i);
    }
  }

  lemma OneOutside(s: Scope, c: Claim, i: Issue)
    ensures i in OutsideIssue(IdSet(s.reviewed))(c) <==> CitesOutside(s, c, i)
  {
    hide OutsideIds, IdSet;
    var ids := IdSet(s.reviewed);
    forall id: string
      ensures id in OutsideIds(ids, c.evidenceIds)
         <==> id in c.evidenceIds && !exists e :: e in s.reviewed && e.id == id
    {
      OutsideHas(ids, c.evidenceIds, id);
      IdSetMeans(s.reviewed, id);
    }
  }

  lemma BelowGradeIssues(s: Scope, i: Issue)
    ensures i in Collect(s.claims, WeakIssue(ById(s.reviewed)))
       <==> exists c :: c in s.claims && CitesBelowGrade(s, c, i)
  {
    hide WeakFor, CitesBelowGrade;
    CollectHas(s.claims, WeakIssue(ById(s.reviewed)), i);
    forall c: Claim
      ensures i in WeakIssue(ById(s.reviewed))(c) <==> CitesBelowGrade(s, c, i)
    {
      OneBelowGrade(s, c, i);
    }
  }

  lemma OneBelowGrade(s: Scope, c: Claim, i: Issue)
    ensures i in WeakIssue(ById(s.reviewed))(c) <==> CitesBelowGrade(s, c, i)
  {
    hide WeakFor, IsReleaseGrade, ById;
    var byId := ById(s.reviewed);
    forall id: string
      ensures id in WeakFor(byId, c.evidenceIds)
         <==> id in c.evidenceIds && id in byId && !IsReleaseGrade(byId[id], 0.75)
    {
      WeakForHas(byId, c.evidenceIds, id);
    }
  }

  lemma InconsistentIssues(ctx: Context, s: Scope, i: Issue)
    ensures i in Collect(s.claims, ValidationIssue(ById(s.reviewed), ctx.rules))
       <==> exists c :: c in s.claims && IsInconsistent(ctx, s, c, i)
  {
    hide ClaimValidator.Validate, ById, Evaluator.IdsOf;
    CollectHas(s.claims, ValidationIssue(ById(s.reviewed), ctx.rules), i);
  }

  lemma {:induction false} LineIssuesHave(ctx: Context, lines: seq<string>, table: map<string, Evidence>, upTo: nat,
                                          i: Issue)
    requires upTo <= |lines|
    ensures i in LineIssues(ctx, lines, table, upTo)
       <==> exists k: nat :: k < upTo && i in LineIssue(ctx, lines, table, k)
  {
    hide LineIssue;
    if upTo > 0 {
      LineIssuesHave(ctx, lines, table, upTo - 1, i);
      InJoin(LineIssues(ctx, lines, table, upTo - 1), LineIssue(ctx, lines, table, upTo - 1), i);
    }
  }

  lemma StrongLineIssues(ctx: Context, s: Scope, i: Issue)
    ensures i in LinesIssues(ctx, s) <==> exists k: nat :: ConcludesOnWeak(ctx, s, k, i)
  {
    hide IsStrongLine, WeakTokens, TokenTable, CitationPolicy.Tokens, LeadsBelowGrade;
    var lines, table := ctx.splitLines(s.report.body), TokenTable(ctx, s.evidence);
    LineIssuesHave(ctx, lines, table, |lines|, i);
    forall k: nat | k < |lines|
      ensures i in LineIssue(ctx, lines, table, k) <==> ConcludesOnWeak(ctx, s, k, i)
    {
      forall id: string
        ensures id in WeakTokens(table, CitationPolicy.Tokens(lines[k]))
           <==> exists token :: token in CitationPolicy.Tokens(lines[k]) && LeadsBelowGrade(table, token, id)
      {
        WeakTokensHave(table, CitationPolicy.Tokens(lines[k]), id);
      }
    }
  }

  lemma ReportIssuesAreExact(ctx: Context, s: Scope, i: Issue)
    ensures i in ReportIssues(ctx, s) <==> RaisedByReport(ctx, s, i)
  {
    hide Strip, CitesOutside;
    var status, integrity, depth := StatusIssues(s.report), IntegrityIssues(s), DepthIssues(s.report);
    var structure, richness := ctx.structure(s.report), ctx.richness(s.report, s.competitors, s.evidence);
    InJoin(status + integrity + structure + depth, richness, i);
    InJoin(status + integrity + structure, depth, i);
    InJoin(status + integrity, structure, i);
    InJoin(status, integrity, i);
    IntegrityIssuesAre(s, i);
  }

  lemma IntegrityIssuesAre(s: Scope, i: Issue)
    ensures i in IntegrityIssues(s) <==>
      || (Strip(s.report.body) == "" && i == Issue(BodyRequired, Evaluator.Blocker, [], []))
      || (|s.reviewed| == 0 && i == Issue(EvidenceRequired, Evaluator.Blocker, [], []))
      || (|s.claims| == 0 && i == Issue(ClaimRequired, Evaluator.Blocker, [], []))
      || (exists c :: c in s.claims && CitesOutside(s, c, i))
  {
    hide Strip, CitesOutside, Collect, OutsideIssue;
    OutsideIssues(s, i);
  }

  lemma RecordIssuesAreExact(ctx: Context, s: Scope, i: Issue)
    ensures i in RecordIssues(ctx, s) <==> RaisedByRecords(ctx, s, i)
  {
    hide Collect, CitesBelowGrade, IsInconsistent, GateDecision.RateIsMet, NeedsPolicyReview, Evaluator.IdsOf;
    hide WeakIssue, ValidationIssue, SourceQualityIssues, Select, RateBase;
    var sources, weak := SourceQualityIssues(s.reviewed), Collect(s.claims, WeakIssue(ById(s.reviewed)));
    InJoin(sources + weak, Collect(s.claims, ValidationIssue(ById(s.reviewed), ctx.rules)), i);
    InJoin(sources, weak, i);
    BelowGradeIssues(s, i);
    InconsistentIssues(ctx, s, i);
    SourceIssuesAre(s.reviewed, i);
  }

  lemma SourceIssuesAre(evidence: seq<Evidence>, i: Issue)
    ensures i in SourceQualityIssues(evidence) <==>
      || ((exists e :: e in evidence && NeedsPolicyReview(e))
          && i == Issue(PolicyReview, Evaluator.Blocker, [], Evaluator.IdsOf(Select(evidence, NeedsPolicyReview))))
      || (|evidence| > 0 && !GateDecision.RateIsMet(evidence)
          && i == Issue(EvidenceRate, Evaluator.Blocker, [], Evaluator.IdsOf(RateBase(evidence))))
  {
    hide NeedsPolicyReview, Evaluator.IdsOf, RateBase, IsGood, Select;
    GateDecision.SelectEmpty(evidence, NeedsPolicyReview);
    SelectIsExact(RateBase(evidence), IsGood);
  }

  lemma OutcomeIssuesAreExact(ctx: Context, s: Scope, i: Issue)
    ensures i in OutcomeIssues(ctx, s) <==> RaisedByOutcome(ctx, s, i)
  {
    hide LinesIssues, ConcludesOnWeak, AllResolve, TokenTable, CitationPolicy.Tokens, ReadinessOf, QaOf, QaIssue,
         StrictQaIssues;
    var citations, lineIssues, run := CitationIssues(ctx, s), LinesIssues(ctx, s), ctx.runQuality(s.report);
    var readiness, qa := ReadinessIssues(ReadinessOf(ctx, s)), StrictQaIssues(QaOf(ctx, s));
    InJoin(citations + lineIssues + run + readiness, qa, i);
    InJoin(citations + lineIssues + run, readiness, i);
    InJoin(citations + lineIssues, run, i);
    InJoin(citations, lineIssues, i);
    StrongLineIssues(ctx, s, i);
    QaIssuesAre(QaOf(ctx, s), i);
  }

  lemma QaIssuesAre(qa: seq<Evaluator.Finding>, i: Issue)
    ensures i in StrictQaIssues(qa) <==> qa != [] && i == QaIssue(qa)
  {
    GateDecision.NoQaBlockers(qa);
    NoQaWarnings(qa);
  }

  lemma {:induction false} NoQaWarnings(qa: seq<Evaluator.Finding>)
    ensures Count(qa, QaWarns) == 0 <==> forall f | f in qa :: f.severity != Evaluator.Warn
  {
    if qa != [] {
      NoQaWarnings(qa[..|qa| - 1]);
      assert forall f :: f in qa <==> f in qa[..|qa| - 1] || f == qa[|qa| - 1];
    }
  }

  /** Sound and complete: the issues of the gate are exactly those that report, records and outcome raise. */
  lemma IssuesAreExact(ctx: Context, s: Scope, i: Issue)
    ensures i in Judge(ctx, s).issues
       <==> RaisedByReport(ctx, s, i) || RaisedByRecords(ctx, s, i) || RaisedByOutcome(ctx, s, i)
  {
    hide RaisedByReport, RaisedByRecords, RaisedByOutcome, ReportIssues, RecordIssues, OutcomeIssues;
    InJoin(ReportIssues(ctx, s) + RecordIssues(ctx, s), OutcomeIssues(ctx, s), i);
    InJoin(ReportIssues(ctx, s), RecordIssues(ctx, s), i);
    ReportIssuesAreExact(ctx, s, i);
    RecordIssuesAreExact(ctx, s, i);
    OutcomeIssuesAreExact(ctx, s, i);
  }

  lemma {:induction false} SeveritiesAreCounted(issues: seq<Issue>)
    ensures Count(issues, IsBlocker) == Count(issues, (i: Issue) => i.severity == Evaluator.Blocker)
    ensures Count(issues, IsWarning) == Count(issues, (i: Issue) => i.severity == Evaluator.Warn)
    ensures Count(issues, IsBlocker) + Count(issues, IsWarning)
            + Count(issues, (i: Issue) => i.severity == Evaluator.Info) == |issues|
  {
    if issues != [] { SeveritiesAreCounted(issues[..|issues| - 1]); }
  }

  /** The counts of the gate are those of its issues. */
  lemma CountsAreExact(ctx: Context, s: Scope)
    ensures var gate := Judge(ctx, s);
      && gate.issueCount == |gate.issues|
      && gate.blockerCount == Count(gate.issues, (i: Issue) => i.severity == Evaluator.Blocker)
      && gate.warnCount == Count(gate.issues, (i: Issue) => i.severity == Evaluator.Warn)
      && gate.blockerCount + gate.warnCount <= gate.issueCount
  {
    hide Issues, QaOf, ReadinessOf;
    SeveritiesAreCounted(Issues(ctx, s));
  }

  /**
   What the gate evaluates: the plan, the findings and the readiness are those of the competitors with the homepages the
   report knows of, of its evidence as the registry reviews it, and of the claims it lists.
   */
  lemma FindingsAreOfTheReport(ctx: Context, input: Input, f: Evaluator.Finding)
    ensures var gate, competitors := Judge(ctx, ScopeOf(ctx, input)), ctx.enrich(input.report, input.competitors);
      var claims, evidence := ClaimsIn(input.report.claimIds, input.claims), ScopeOf(ctx, input).reviewed;
      var plan := ctx.planFor(competitors, evidence);
      && (f in gate.qa <==> exists rule ::
            rule in plan.rules && Evaluator.Raises(plan, competitors, evidence, claims, rule, f))
      && gate.readiness == ctx.readiness(plan, gate.qa, competitors, evidence, claims)
      && (forall c :: c in claims <==> c in input.claims && c.id in input.report.claimIds)
      && FollowsRegistry(ctx, input.registry, EvidenceIn(input.report.evidenceIds, input.evidence), evidence)
  {
    hide Evaluator.Raises, Evaluator.RuleFindings, Reviewed, FollowsRegistry, Issues;
    var s := ScopeOf(ctx, input);
    Evaluator.FindingsAreExact(ctx.planFor(s.competitors, s.reviewed), s.competitors, s.reviewed, s.claims, f);
    ReviewsFollowRegistry(ctx, input.registry, EvidenceIn(input.report.evidenceIds, input.evidence));
    forall c: Claim
      ensures c in ClaimsIn(input.report.claimIds, input.claims) <==> c in input.claims && c.id in input.report.claimIds
    {
      GateDecision.ClaimScopeHas(input.report.claimIds, input.claims, c);
    }
  }

  // ---------------------------------------------------------------- the release-grade rate

  /** Sources the rate is about: verified pages, and community sources with a triangulated cluster. */
  predicate IsRated(e: Evidence) {
    e.sourceType == VERIFIED || (e.sourceType in COMMUNITY_TYPES && HasReleaseCluster(e))
  }

  /** Those of them that count as release-grade; a community source has to be more reliable than a verified page. */
  predicate IsRatedGood(e: Evidence) {
    && IsRated(e) && e.quality != Rejected && e.quality != Stale
    && e.reliability >= (if e.sourceType == VERIFIED then 0.5 else 0.75)
  }

  lemma {:induction false} RatedAreCounted(evidence: seq<Evidence>)
    ensures |Select(evidence, IsRateCandidate)| == Count(evidence, IsRated)
    ensures Count(Select(evidence, IsRateCandidate), IsGood) == Count(evidence, IsRatedGood)
  {
    hide HasReleaseCluster;
    if evidence != [] {
      var n := |evidence| - 1;
      RatedAreCounted(evidence[..n]);
      TakeAppend(Select(evidence[..n], IsRateCandidate), [evidence[n]]);
    }
  }

  lemma {:induction false} NoneRatedNoneGood(evidence: seq<Evidence>)
    requires Count(evidence, IsRated) == 0
    ensures Count(evidence, IsGood) == 0
  {
    hide HasReleaseCluster;
    if evidence != [] { NoneRatedNoneGood(evidence[..|evidence| - 1]); }
  }

  /** The rate is met exactly when some source is rated and four fifths of the rated ones are release-grade. */
  lemma RateIsMetExactlyWhen(evidence: seq<Evidence>)
    requires evidence != []
    ensures GateDecision.RateIsMet(evidence)
       <==> Count(evidence, IsRated) > 0 && 5 * Count(evidence, IsRatedGood) >= 4 * Count(evidence, IsRated)
  {
    hide Select, IsRated, IsRatedGood, IsGood, IsRateCandidate;
    RatedAreCounted(evidence);
    if Count(evidence, IsRated) == 0 { NoneRatedNoneGood(evidence); }
  }

  // ---------------------------------------------------------------- which record an id or a token leads to

  /** Of several records with one id the last one counts. */
  lemma {:induction false} ByIdGivesLast(evidence: seq<Evidence>, k: nat)
    requires k < |evidence| && forall j | k < j < |evidence| :: evidence[j].id != evidence[k].id
    ensures evidence[k].id in ById(evidence) && ById(evidence)[evidence[k].id] == evidence[k]
  {
    if k < |evidence| - 1 {
      assert forall j | k < j < |evidence| - 1 :: evidence[..|evidence| - 1][j] == evidence[j];
      ByIdGivesLast(evidence[..|evidence| - 1], k);
    }
  }

  /** And so it is with the items that answer to one token. */
  lemma {:induction false} TokenTableGivesLast(ctx: Context, evidence: seq<Evidence>, token: string, k: nat)
    requires k < |evidence| && token in ctx.sourceTokens(evidence[k])
    requires forall j | k < j < |evidence| :: token !in ctx.sourceTokens(evidence[j])
    ensures token in TokenTable(ctx, evidence) && TokenTable(ctx, evidence)[token] == evidence[k]
  {
    if k < |evidence| - 1 {
      assert forall j | k < j < |evidence| - 1 :: evidence[..|evidence| - 1][j] == evidence[j];
      TokenTableGivesLast(ctx, evidence[..|evidence| - 1], token, k);
    }
  }

  /** What makes a cluster good enough: official confirmation, or two sources or domains, at seven tenths confidence. */
  lemma ReleaseClusterMeans(c: Cluster)
    ensures IsReleaseCluster(c)
       <==> c.confidence.Some? && 10.0 * c.confidence.value >= 7.0
            && (|| c.kind == "official_confirmed"
                || (c.kind == "community_triangulated"
                    && !(c.sourceCount < 2 && (c.independentDomains.None? || c.independentDomains.value < 2))))
  {
  }
}
