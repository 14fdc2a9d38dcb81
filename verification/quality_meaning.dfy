/** What the numbers of the quality score mean: weights, floors and verdicts seen from outside. */
module QualityMeaning {
  import opened Common
  import opened ReportQuality
  import opened QualityComparison
  import ClaimValidator

  // ---------------------------------------------------------------- what a metric is worth

  /** How many points of the hundred a metric is worth: two, but for those named here. */
  function Points(n: Name): int {
    match n
    case ClaimCitationRate | CitationValidityRate => 8
    case RealSourceRate => 7
    case SourceCoverageRate | VerifiedSourceRate => 6
    case EvidenceCount | QaBlockerCount => 5
    case LlmCallSignal | ClaimRiskSection => 4
    case GapResolutionRate | FieldSupportRate | ValidatedClaimRate | ReportStructure => 3
    case DecisionSummarySection | CompetitiveFindingsSection | CompetitorDeepDiveSection => 3
    case DuplicateSectionCount | WarningCount => 1
    case ReportLength | LocalizedHeading | BattlecardSection | CitationHygiene | ClaimSelfConsistencyWarnings => 0
    case _ => 2
  }

  /** The weight of a metric in a list, all its entries together. */
  function WeightIn(specs: seq<Spec>, n: Name): real {
    if specs == [] then 0.0
    else
      var last := specs[|specs| - 1];
      WeightIn(specs[..|specs| - 1], n) + OwnWeight(last, n)
  }

  function OwnWeight(spec: Spec, n: Name): real { if spec.name == n then spec.weight else 0.0 }

  /** Two measurements that differ in one metric only. */
  ghost predicate DifferAt(n: Name, low: Name -> real, high: Name -> real) {
    forall m | m != n :: low(m) == high(m)
  }

  lemma {:induction false} WeightedDiffers(specs: seq<Spec>, n: Name, low: Name -> real, high: Name -> real)
    requires DifferAt(n, low, high)
    ensures Weighted(specs, high) == Weighted(specs, low) + WeightIn(specs, n) * (high(n) - low(n))
  {
    hide *;
    if specs == [] {
      NothingWeighs(n, low, high);
    } else {
      var front, last := specs[..|specs| - 1], specs[|specs| - 1];
      WeightedDiffers(front, n, low, high);
      LastOf(specs, n, low, high);
      LastDiffers(last, n, low, high);
      Distribute(WeightIn(front, n), OwnWeight(last, n), high(n) - low(n));
    }
  }

  lemma NothingWeighs(n: Name, low: Name -> real, high: Name -> real)
    ensures Weighted([], high) == Weighted([], low) == WeightIn([], n) == 0.0
  {
  }

  lemma LastOf(specs: seq<Spec>, n: Name, low: Name -> real, high: Name -> real)
    requires specs != []
    ensures var front, last := specs[..|specs| - 1], specs[|specs| - 1];
      && Weighted(specs, low) == Weighted(front, low) + low(last.name) * last.weight
      && Weighted(specs, high) == Weighted(front, high) + high(last.name) * last.weight
      && WeightIn(specs, n) == WeightIn(front, n) + OwnWeight(last, n)
  {
  }

  lemma LastDiffers(spec: Spec, n: Name, low: Name -> real, high: Name -> real)
    requires DifferAt(n, low, high)
    ensures high(spec.name) * spec.weight == low(spec.name) * spec.weight + OwnWeight(spec, n) * (high(n) - low(n))
  {
    if spec.name == n { Shared(high(n), low(n), spec.weight); }
  }

  lemma Shared(x: real, y: real, w: real)
    ensures x * w == y * w + w * (x - y)
  {
  }

  lemma Distribute(a: real, b: real, d: real)
    ensures (a + b) * d == a * d + b * d
  {
  }

  lemma {:induction false} WeightInAppend(a: seq<Spec>, b: seq<Spec>, n: Name)
    ensures WeightIn(a + b, n) == WeightIn(a, n) + WeightIn(b, n)
  {
    if b == [] {
      assert a + b == a;
    } else {
      WeightInAppend(a, b[..|b| - 1], n);
      assert (a + b)[..|a + b| - 1] == a + b[..|b| - 1];
    }
  }

  /** A list of seven metrics: the points of `n` if it is among them. */
  lemma WeightInSeven(s: seq<Spec>, n: Name)
    requires |s| == 7
    ensures WeightIn(s, n)
         == OwnWeight(s[0], n) + OwnWeight(s[1], n) + OwnWeight(s[2], n) + OwnWeight(s[3], n)
            + OwnWeight(s[4], n) + OwnWeight(s[5], n) + OwnWeight(s[6], n)
  {
    hide OwnWeight;
    WeightStep(s, 6, n);
    WeightStep(s, 5, n);
    WeightStep(s, 4, n);
    WeightStep(s, 3, n);
    WeightStep(s, 2, n);
    WeightStep(s, 1, n);
    WeightStep(s, 0, n);
    assert s[..7] == s && s[..0] == [];
  }

  lemma WeightStep(s: seq<Spec>, i: nat, n: Name)
    requires i < |s|
    ensures WeightIn(s[..i + 1], n) == WeightIn(s[..i], n) + OwnWeight(s[i], n)
  {
    assert s[..i + 1][..i] == s[..i];
  }

  predicate InA(n: Name) {
    match n
    case EvidenceCount | SourceCoverageRate | VerifiedSourceRate | CommunityEvidenceSection => true
    case ClaimCitationRate | CitationValidityRate | RealSourceRate => true
    case _ => false
  }

  lemma WeightInA(n: Name)
    ensures WeightIn(SPECS_A, n) == if InA(n) then Points(n) as real / 100.0 else 0.0
  {
    hide WeightIn;
    WeightInSeven(SPECS_A, n);
  }

  predicate InB(n: Name) {
    match n
    case GapResolutionRate | FieldSupportRate | ValidatedClaimRate | LlmCallSignal => true
    case ReportLength | ReportStructure | DuplicateSectionCount => true
    case _ => false
  }

  lemma WeightInB(n: Name)
    ensures WeightIn(SPECS_B, n) == if InB(n) then Points(n) as real / 100.0 else 0.0
  {
    hide WeightIn;
    WeightInSeven(SPECS_B, n);
  }

  predicate InC(n: Name) {
    match n
    case ExecutiveSummarySection | DecisionSummarySection | CompetitiveFindingsSection => true
    case CompetitorDeepDiveSection => true
    case LayerAnalysisSection | CoreAnalysisDepth | CoreSectionDepth => true
    case _ => false
  }

  lemma WeightInC(n: Name)
    ensures WeightIn(SPECS_C, n) == if InC(n) then Points(n) as real / 100.0 else 0.0
  {
    hide WeightIn;
    WeightInSeven(SPECS_C, n);
  }

  predicate InD(n: Name) {
    match n
    case CoreSupportBalance | ClaimRiskSection | ScenarioChecklistSection | MemoryContextSection => true
    case UserResearchSection | ReviewThemeSection | SwotSection => true
    case _ => false
  }

  lemma WeightInD(n: Name)
    ensures WeightIn(SPECS_D, n) == if InD(n) then Points(n) as real / 100.0 else 0.0
  {
    hide WeightIn;
    WeightInSeven(SPECS_D, n);
  }

  predicate InE(n: Name) {
    match n
    case RagGapFillSection | LocalizedHeading | BattlecardSection | CitationHygiene => true
    case ClaimSelfConsistencyWarnings | QaBlockerCount | WarningCount => true
    case _ => false
  }

  lemma WeightInE(n: Name)
    ensures WeightIn(SPECS_E, n) == if InE(n) then Points(n) as real / 100.0 else 0.0
  {
    hide WeightIn;
    WeightInSeven(SPECS_E, n);
  }

  lemma OneBlock(n: Name)
    ensures (if InA(n) then 1 else 0) + (if InB(n) then 1 else 0) + (if InC(n) then 1 else 0)
            + (if InD(n) then 1 else 0) + (if InE(n) then 1 else 0) == 1
  {
  }

  lemma WeightIsPoints(n: Name)
    ensures WeightIn(Specs(), n) == Points(n) as real / 100.0
  {
    hide WeightIn, InA, InB, InC, InD, InE, Points;
    OneBlock(n);
    WeightInA(n);
    WeightInB(n);
    WeightInC(n);
    WeightInD(n);
    WeightInE(n);
    WeightInAppend(SPECS_A + SPECS_B + SPECS_C + SPECS_D, SPECS_E, n);
    WeightInAppend(SPECS_A + SPECS_B + SPECS_C, SPECS_D, n);
    WeightInAppend(SPECS_A + SPECS_B, SPECS_C, n);
    WeightInAppend(SPECS_A, SPECS_B, n);
  }

  /**
   What each metric is worth: when two runs differ in one normalised metric only, their sums differ by its points times
   the difference, and so do their scores up to rounding.
   */
  lemma OneMetricIsWorth(n: Name, worse: Run, better: Run)
    requires DifferAt(n, NormalizedOf(worse), NormalizedOf(better))
    ensures var d := (Normalized(better, n) - Normalized(worse, n)) * Points(n) as real;
      && Weighted(Specs(), NormalizedOf(better)) * 100.0 - Weighted(Specs(), NormalizedOf(worse)) * 100.0 == d
      && d - 1.0 <= (UnclampedScore(better) - UnclampedScore(worse)) as real <= d + 1.0
  {
    hide Specs, Weighted, WeightIn, Points, Normalized, ClaimValidator.RoundHalfEven, DifferAt;
    WeightedDiffers(Specs(), n, NormalizedOf(worse), NormalizedOf(better));
    WeightIsPoints(n);
    ClaimValidator.RoundBounds(Weighted(Specs(), NormalizedOf(better)) * 100.0);
    ClaimValidator.RoundBounds(Weighted(Specs(), NormalizedOf(worse)) * 100.0);
    Percent(Points(n), Normalized(better, n) - Normalized(worse, n));
  }

  lemma Percent(points: int, d: real)
    ensures points as real / 100.0 * d * 100.0 == d * points as real
  {
  }

  /** How the counted metrics are scaled: full at so many, nothing at so many, and even steps between. */
  lemma CountsAreScaled(run: Run)
    ensures Normalized(run, EvidenceCount) * 8.0 == if run.evidenceCount < 8 then run.evidenceCount as real else 8.0
    ensures Normalized(run, LlmCallSignal) * 3.0 == if run.llmCalls < 3 then run.llmCalls as real else 3.0
    ensures Normalized(run, ReportLength) * 2500.0 == if run.coreLength < 2500 then run.coreLength as real else 2500.0
    ensures Normalized(run, DuplicateSectionCount) * 3.0
         == if run.duplicateSections < 3 then 3.0 - run.duplicateSections as real else 0.0
    ensures Normalized(run, ClaimSelfConsistencyWarnings) * 3.0
         == if run.consistencyWarnings < 3 then 3.0 - run.consistencyWarnings as real else 0.0
    ensures Normalized(run, QaBlockerCount) * 3.0
         == if run.qaBlockers < 3 then 3.0 - run.qaBlockers as real else 0.0
    ensures Normalized(run, WarningCount) * 12.0
         == if run.warnings < 12 then 12.0 - run.warnings as real else 0.0
  {
  }

  /** The two signals of a real run, in terms of the run. */
  lemma RealSignalsMean(run: Run)
    ensures RealCollection(run)
       <==> run.isReal && 2.0 * run.rate(RealSourceRate) >= 1.0 && 4.0 * run.rate(VerifiedSourceRate) >= 1.0
            && run.evidenceCount >= 2
    ensures RealLlm(run) <==> run.isReal && (run.llmCalls >= 1 || run.hasLlmTrace)
  {
  }

  // ---------------------------------------------------------------- the quality signal, rate by rate

  /** The sections that have to be complete, besides those the core depth looks at and the community section. */
  predicate MustBeComplete(n: Name) {
    match n
    case ExecutiveSummarySection | DecisionSummarySection | CompetitiveFindingsSection => true
    case CompetitorDeepDiveSection | LayerAnalysisSection | CoreSupportBalance | ClaimRiskSection => true
    case ScenarioChecklistSection | MemoryContextSection | UserResearchSection | ReviewThemeSection => true
    case SwotSection | RagGapFillSection | LocalizedHeading | BattlecardSection | CitationHygiene => true
    case _ => false
  }

  lemma {:induction false} LowestReaches(first: real, others: seq<real>, floor: real)
    ensures Lowest(first, others) >= floor <==> first >= floor && forall i | 0 <= i < |others| :: others[i] >= floor
  {
    if others != [] {
      LowestReaches(first, others[..|others| - 1], floor);
      assert forall i | 0 <= i < |others| - 1 :: others[..|others| - 1][i] == others[i];
    }
  }

  lemma FloorMeans(run: Run, n: Name)
    ensures MeetsFloor(run, n) <==>
      && (MustBeComplete(n) ==> run.rate(n) >= 1.0)
      && (n == ClaimCitationRate || n == CitationValidityRate || n == CoreAnalysisDepth ==> run.rate(n) >= 0.6)
      && (n == SourceCoverageRate ==> run.rate(n) >= 0.5)
      && (n == ReportStructure ==> run.rate(n) >= 0.7)
      && (n == CommunityEvidenceSection ==> run.communitySources == 0 || run.rate(n) >= 1.0)
      && (n == CoreSectionDepth ==> Lowest(run.rate(ExecutiveSummarySection), run.otherDepths) >= 1.0)
  {
    hide Lowest;
  }

  /** The quality signal of a run, spelled out over its rates and counts. */
  lemma QualitySignalMeans(run: Run)
    ensures ReportQualitySignal(run) <==>
      && run.coreLength >= 1200
      && run.rate(ClaimCitationRate) >= 0.6 && run.rate(CitationValidityRate) >= 0.6
      && run.rate(CoreAnalysisDepth) >= 0.6 && run.rate(SourceCoverageRate) >= 0.5
      && run.rate(ReportStructure) >= 0.7
      && (forall n | MustBeComplete(n) :: run.rate(n) >= 1.0)
      && (forall i | 0 <= i < |run.otherDepths| :: run.otherDepths[i] >= 1.0)
      && (run.communitySources == 0 || run.rate(CommunityEvidenceSection) >= 1.0)
      && run.duplicateSections == 0 && run.consistencyWarnings == 0 && run.qaBlockers == 0
  {
    hide MeetsFloor, Lowest;
    LowestReaches(run.rate(ExecutiveSummarySection), run.otherDepths, 1.0);
    forall n: Name
      ensures MeetsFloor(run, n) <==>
        && (MustBeComplete(n) ==> run.rate(n) >= 1.0)
        && (n == ClaimCitationRate || n == CitationValidityRate || n == CoreAnalysisDepth ==> run.rate(n) >= 0.6)
        && (n == SourceCoverageRate ==> run.rate(n) >= 0.5)
        && (n == ReportStructure ==> run.rate(n) >= 0.7)
        && (n == CommunityEvidenceSection ==> run.communitySources == 0 || run.rate(n) >= 1.0)
        && (n == CoreSectionDepth ==> Lowest(run.rate(ExecutiveSummarySection), run.otherDepths) >= 1.0)
    {
      FloorMeans(run, n);
    }
    if ReportQualitySignal(run) {
      assert MeetsFloor(run, ClaimCitationRate) && MeetsFloor(run, CitationValidityRate);
      assert MeetsFloor(run, CoreAnalysisDepth) && MeetsFloor(run, SourceCoverageRate);
      assert MeetsFloor(run, ReportStructure) && MeetsFloor(run, CommunityEvidenceSection);
      assert MeetsFloor(run, CoreSectionDepth);
      forall n | MustBeComplete(n) ensures run.rate(n) >= 1.0 { assert MeetsFloor(run, n); }
    }
  }

  // ---------------------------------------------------------------- one row of a comparison

  /** By how much a metric has got better, in its own direction. */
  function Gain(n: Name, target: Run, baseline: Run): real {
    var d := Value(target, n) - Value(baseline, n);
    if n in {DuplicateSectionCount, ClaimSelfConsistencyWarnings, QaBlockerCount, WarningCount} then -d else d
  }

  /** `shown` is `exact`, up to half a unit in the fourth place. */
  predicate IsShown(shown: Option<real>, exact: real) {
    shown.Some? && exact - 0.00005 <= shown.value <= exact + 0.00005
  }

  lemma RoundedIsShown(x: real)
    ensures IsShown(Some(Rounded(x)), x)
  {
    ClaimValidator.RoundBounds(x * 10000.0);
    hide ClaimValidator.RoundHalfEven;
    var r := ClaimValidator.RoundHalfEven(x * 10000.0) as real;
    assert Rounded(x) * 10000.0 == r;
  }

  /** What the row of a metric shows, and that its status follows the exact gain, not the shown one. */
  lemma RowIsExact(spec: Spec, target: Run, baseline: Run)
    requires spec.direction == DirectionOf(spec.name)
    ensures var row, gain := RowOf(target, Some(baseline))(spec), Gain(spec.name, target, baseline);
      && row.name == spec.name
      && IsShown(Some(row.value), Value(target, spec.name)) && IsShown(row.baseline, Value(baseline, spec.name))
      && IsShown(row.delta, Value(target, spec.name) - Value(baseline, spec.name))
      && IsShown(row.normalizedDelta, Normalized(target, spec.name) - Normalized(baseline, spec.name))
      && (row.status.Improved? <==> gain >= 0.001) && (row.status.Regressed? <==> gain <= -0.001)
      && (row.status.Unchanged? <==> -0.001 < gain < 0.001)
  {
    hide Value, Normalized, Rounded;
    RoundedIsShown(Value(target, spec.name));
    RoundedIsShown(Value(baseline, spec.name));
    RoundedIsShown(Value(target, spec.name) - Value(baseline, spec.name));
    RoundedIsShown(Normalized(target, spec.name) - Normalized(baseline, spec.name));
  }

  /** Without a baseline no row compares anything. */
  lemma RowWithoutBaseline(spec: Spec, target: Run)
    ensures var row := RowOf(target, None)(spec);
      row.status.BaselineMissing? && row.baseline.None? && row.delta.None? && row.normalizedDelta.None?
  {
  }

  function Mirrored(status: Status): Status {
    match status
    case Improved => Regressed
    case Regressed => Improved
    case _ => status
  }

  lemma RoundMirrors(x: real)
    ensures ClaimValidator.RoundHalfEven(-x) == -ClaimValidator.RoundHalfEven(x)
  {
    var down := x.Floor;
    if x == down as real {
      assert (-x).Floor == -down;
    } else {
      assert (-x).Floor == -down - 1;
    }
  }

  lemma RoundedMirrors(x: real)
    ensures Rounded(-x) == -Rounded(x)
  {
    RoundMirrors(x * 10000.0);
    hide ClaimValidator.RoundHalfEven;
    assert -x * 10000.0 == -(x * 10000.0);
  }

  function Negated(x: Option<real>): Option<real> { if x.Some? then Some(-x.value) else None }

  /** Comparing the other way round negates every difference and turns every improvement into a regression. */
  lemma ComparisonMirrors(spec: Spec, a: Run, b: Run)
    ensures var there, back := RowOf(a, Some(b))(spec), RowOf(b, Some(a))(spec);
      && back.status == Mirrored(there.status)
      && there.baseline == Some(back.value) && back.baseline == Some(there.value)
      && there.delta.Some? && back.delta == Negated(there.delta)
      && there.normalizedDelta.Some? && back.normalizedDelta == Negated(there.normalizedDelta)
    ensures DeltaScore(a, Some(b)) == Some(Score(a) - Score(b))
  {
    hide Value, Normalized, Rounded, Score;
    RoundedMirrors(Value(a, spec.name) - Value(b, spec.name));
    RoundedMirrors(Normalized(a, spec.name) - Normalized(b, spec.name));
    Negates(Value(a, spec.name), Value(b, spec.name));
    Negates(Normalized(a, spec.name), Normalized(b, spec.name));
  }

  lemma Negates(x: real, y: real)
    ensures -(x - y) == y - x
  {
  }

  // ---------------------------------------------------------------- verdict, core regressions and reasons

  /** Passing takes neither the structure floor nor the lower score floor: the other conditions imply both. */
  lemma VerdictExactlyWhen(target: Run, delta: Option<int>)
    ensures Verdict(target, delta).Fail? <==> Score(target) < 55 || (delta.Some? && delta.value <= -10)
    ensures Verdict(target, delta).Pass?
       <==> Score(target) >= 72 && (delta.None? || delta.value >= 0) && ReportQualitySignal(target)
  {
    hide Score, ReportQualitySignal, Value;
    if ReportQualitySignal(target) { QualityNeedsStructure(target); }
  }

  /** The core metrics are those worth something, but for these ten. */
  lemma CoreMetricsAre(n: Name)
    ensures IsCore(n) <==> Points(n) > 0 && n != EvidenceCount && n != LlmCallSignal && !IsSideMetric(n)
  {
  }

  predicate IsSideMetric(n: Name) {
    match n
    case CommunityEvidenceSection | ExecutiveSummarySection | ClaimRiskSection | ScenarioChecklistSection => true
    case MemoryContextSection | UserResearchSection | RagGapFillSection | WarningCount => true
    case _ => false
  }

  /** The normalised metric has dropped by fifteen hundredths, as far as four places show. */
  predicate Dropped(n: Name, target: Run, baseline: Run) {
    Normalized(baseline, n) - Normalized(target, n) >= 0.14995
  }

  lemma DropIsShown(d: real)
    ensures Rounded(d) <= -0.15 <==> d <= -0.14995
  {
    var x := d * 10000.0;
    ClaimValidator.RoundReaches(x, -1499);
    hide ClaimValidator.RoundHalfEven;
    assert Rounded(d) * 10000.0 == ClaimValidator.RoundHalfEven(x) as real;
  }

  lemma {:induction false} CoreRegressionsOf(specs: seq<Spec>, target: Run, baseline: Run, n: Name)
    ensures n in CoreRegressions(RowsOf(specs, target, Some(baseline)))
       <==> IsCore(n) && Dropped(n, target, baseline) && exists i :: 0 <= i < |specs| && specs[i].name == n
  {
    hide IsCore, Normalized, Value, Rounded, StatusOf;
    var rows := RowsOf(specs, target, Some(baseline));
    if specs != [] {
      var k := |specs| - 1;
      assert rows[..k] == RowsOf(specs[..k], target, Some(baseline));
      CoreRegressionsOf(specs[..k], target, baseline, n);
      DropIsShown(Normalized(target, specs[k].name) - Normalized(baseline, specs[k].name));
      assert rows[k] == RowOf(target, Some(baseline))(specs[k]);
      assert rows[k].normalizedDelta
          == Some(Rounded(Normalized(target, specs[k].name) - Normalized(baseline, specs[k].name)));
      assert forall i | 0 <= i < k :: specs[..k][i] == specs[i];
    }
  }

  lemma {:induction false} WeighsMeansListed(specs: seq<Spec>, n: Name)
    requires WeightIn(specs, n) != 0.0
    ensures exists i :: 0 <= i < |specs| && specs[i].name == n
  {
    var k := |specs| - 1;
    if specs[k].name != n {
      WeighsMeansListed(specs[..k], n);
      var i :| 0 <= i < k && specs[..k][i].name == n;
      assert specs[i].name == n;
    }
  }

  /** The listed core regressions are exactly the core metrics that have dropped. */
  lemma CoreRegressionsAreExact(target: Run, baseline: Run, n: Name)
    ensures n in CoreRegressions(RowsOf(Specs(), target, Some(baseline)))
       <==> IsCore(n) && Dropped(n, target, baseline)
  {
    hide CoreRegressions, RowsOf, Specs, WeightIn, Points, IsCore, Dropped;
    CoreRegressionsOf(Specs(), target, baseline, n);
    CoreMetricsAre(n);
    WeightIsPoints(n);
    if IsCore(n) { WeighsMeansListed(Specs(), n); }
  }

  /** Each reason of a failing gate stands for its own condition. */
  lemma HardReasonsMean(target: Run, delta: Option<int>, rows: seq<Row>, r: Reason)
    ensures r in HardReasons(target, delta, rows) <==>
      || (r == NoRealCollection && !RealCollection(target))
      || (r == NoRealLlm && !RealLlm(target))
      || (r == NoReportQuality && !ReportQualitySignal(target))
      || (r == ScoreBelowFloor && Score(target) < 55)
      || (r == ScoreDropped && delta.Some? && delta.value <= -10)
      || (r == CoreRegression(CoreRegressions(rows)) && CoreRegressions(rows) != [])
  {
    hide RealCollection, RealLlm, ReportQualitySignal, Score, CoreRegressions;
    OneReason(!RealCollection(target), NoRealCollection, r);
    OneReason(!RealLlm(target), NoRealLlm, r);
    OneReason(!ReportQualitySignal(target), NoReportQuality, r);
    OneReason(Score(target) < 55, ScoreBelowFloor, r);
    OneReason(delta.Some? && delta.value <= -10, ScoreDropped, r);
    OneReason(CoreRegressions(rows) != [], CoreRegression(CoreRegressions(rows)), r);
    hide When;
  }

  lemma OneReason(condition: bool, reason: Reason, r: Reason)
    ensures r in When(condition, reason) <==> condition && r == reason
  {
  }

  lemma SoftReasonsMean(target: Run, baseline: Option<Run>, delta: Option<int>, r: Reason)
    ensures r in SoftReasons(target, baseline, delta) <==>
      || (r == NoBaseline && baseline.None?)
      || (r == ScoreBelowPreferred && Score(target) < 72)
      || (r == ScoreNegativeDelta && delta.Some? && delta.value < 0)
  {
    hide Score;
  }
}
