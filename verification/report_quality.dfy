/** The quality score of a run, its comparison with a baseline, the signal checks and the regression gate. */
module ReportQuality {
  import opened Common
  import opened ClaimValidator

  datatype Name =
    | EvidenceCount
    | SourceCoverageRate
    | VerifiedSourceRate
    | CommunityEvidenceSection
    | ClaimCitationRate
    | CitationValidityRate
    | RealSourceRate
    | GapResolutionRate
    | FieldSupportRate
    | ValidatedClaimRate
    | LlmCallSignal
    | ReportLength
    | ReportStructure
    | DuplicateSectionCount
    | ExecutiveSummarySection
    | DecisionSummarySection
    | CompetitiveFindingsSection
    | CompetitorDeepDiveSection
    | LayerAnalysisSection
    | CoreAnalysisDepth
    | CoreSectionDepth
    | CoreSupportBalance
    | ClaimRiskSection
    | ScenarioChecklistSection
    | MemoryContextSection
    | UserResearchSection
    | ReviewThemeSection
    | SwotSection
    | RagGapFillSection
    | LocalizedHeading
    | BattlecardSection
    | CitationHygiene
    | ClaimSelfConsistencyWarnings
    | QaBlockerCount
    | WarningCount

  /**
   What is measured of a run; `rate` gives the metrics that are rates or section scores. `otherDepths` are the depth
   scores of the core sections other than the executive summary.
   */
  datatype Run = Run(
    isReal: bool,
    evidenceCount: nat,
    communitySources: nat,
    llmCalls: int,
    hasLlmTrace: bool,
    coreLength: nat,
    duplicateSections: nat,
    consistencyWarnings: nat,
    qaBlockers: nat,
    warnings: nat,
    otherDepths: seq<real>,
    rate: Name -> real)

  /** Every rate and section score is a fraction, and community sources are among the evidence. */
  ghost predicate IsMeasured(run: Run) {
    && (forall n :: 0.0 <= run.rate(n) <= 1.0)
    && (forall i | 0 <= i < |run.otherDepths| :: 0.0 <= run.otherDepths[i] <= 1.0)
    && run.communitySources <= run.evidenceCount
  }

  function Lowest(first: real, others: seq<real>): real {
    if others == [] then first else Min(Lowest(first, others[..|others| - 1]), others[|others| - 1])
  }

  lemma {:induction false} LowestBounds(first: real, others: seq<real>)
    requires 0.0 <= first <= 1.0 && forall i | 0 <= i < |others| :: 0.0 <= others[i] <= 1.0
    ensures 0.0 <= Lowest(first, others) <= first
  {
    if others != [] { LowestBounds(first, others[..|others| - 1]); }
  }

  // ---------------------------------------------------------------- metrics

  function Value(run: Run, n: Name): real {
    match n
    case EvidenceCount => run.evidenceCount as real
    case LlmCallSignal => Min(run.llmCalls as real / 3.0, 1.0)
    case ReportLength => Min(run.coreLength as real / 2500.0, 1.0)
    case DuplicateSectionCount => run.duplicateSections as real
    case ClaimSelfConsistencyWarnings => run.consistencyWarnings as real
    case QaBlockerCount => run.qaBlockers as real
    case WarningCount => run.warnings as real
    case CoreSectionDepth => Lowest(run.rate(ExecutiveSummarySection), run.otherDepths)
    case CommunityEvidenceSection => if run.communitySources == 0 then 1.0 else run.rate(CommunityEvidenceSection)
    case _ => run.rate(n)
  }

  function Penalty(count: real, limit: real): real
    requires limit > 0.0
  {
    Max(0.0, 1.0 - Min(count / limit, 1.0))
  }

  function NormalizedValue(n: Name, value: real): real {
    match n
    case EvidenceCount => Min(value / 8.0, 1.0)
    case DuplicateSectionCount => Penalty(value, 3.0)
    case ClaimSelfConsistencyWarnings => Penalty(value, 3.0)
    case QaBlockerCount => Penalty(value, 3.0)
    case WarningCount => Penalty(value, 12.0)
    case _ => value
  }

  function Normalized(run: Run, n: Name): real { NormalizedValue(n, Value(run, n)) }

  datatype Direction = HigherIsBetter | LowerIsBetter

  datatype Spec = Spec(name: Name, weight: real, direction: Direction)

  const SPECS_A := [
    Spec(EvidenceCount, 0.05, HigherIsBetter),
    Spec(SourceCoverageRate, 0.06, HigherIsBetter),
    Spec(VerifiedSourceRate, 0.06, HigherIsBetter),
    Spec(CommunityEvidenceSection, 0.02, HigherIsBetter),
    Spec(ClaimCitationRate, 0.08, HigherIsBetter),
    Spec(CitationValidityRate, 0.08, HigherIsBetter),
    Spec(RealSourceRate, 0.07, HigherIsBetter)]

  const SPECS_B := [
    Spec(GapResolutionRate, 0.03, HigherIsBetter),
    Spec(FieldSupportRate, 0.03, HigherIsBetter),
    Spec(ValidatedClaimRate, 0.03, HigherIsBetter),
    Spec(LlmCallSignal, 0.04, HigherIsBetter),
    Spec(ReportLength, 0.0, HigherIsBetter),
    Spec(ReportStructure, 0.03, HigherIsBetter),
    Spec(DuplicateSectionCount, 0.01, LowerIsBetter)]

  const SPECS_C := [
    Spec(ExecutiveSummarySection, 0.02, HigherIsBetter),
    Spec(DecisionSummarySection, 0.03, HigherIsBetter),
    Spec(CompetitiveFindingsSection, 0.03, HigherIsBetter),
    Spec(CompetitorDeepDiveSection, 0.03, HigherIsBetter),
    Spec(LayerAnalysisSection, 0.02, HigherIsBetter),
    Spec(CoreAnalysisDepth, 0.02, HigherIsBetter),
    Spec(CoreSectionDepth, 0.02, HigherIsBetter)]

  const SPECS_D := [
    Spec(CoreSupportBalance, 0.02, HigherIsBetter),
    Spec(ClaimRiskSection, 0.04, HigherIsBetter),
    Spec(ScenarioChecklistSection, 0.02, HigherIsBetter),
    Spec(MemoryContextSection, 0.02, HigherIsBetter),
    Spec(UserResearchSection, 0.02, HigherIsBetter),
    Spec(ReviewThemeSection, 0.02, HigherIsBetter),
    Spec(SwotSection, 0.02, HigherIsBetter)]

  const SPECS_E := [
    Spec(RagGapFillSection, 0.02, HigherIsBetter),
    Spec(LocalizedHeading, 0.0, HigherIsBetter),
    Spec(BattlecardSection, 0.0, HigherIsBetter),
    Spec(CitationHygiene, 0.0, HigherIsBetter),
    Spec(ClaimSelfConsistencyWarnings, 0.0, LowerIsBetter),
    Spec(QaBlockerCount, 0.05, LowerIsBetter),
    Spec(WarningCount, 0.01, LowerIsBetter)]

  /** The weighted metrics, in report order. */
  function Specs(): seq<Spec> { SPECS_A + SPECS_B + SPECS_C + SPECS_D + SPECS_E }

  function TotalWeight(specs: seq<Spec>): real {
    if specs == [] then 0.0 else TotalWeight(specs[..|specs| - 1]) + specs[|specs| - 1].weight
  }

  function Weighted(specs: seq<Spec>, value: Name -> real): real {
    if specs == [] then 0.0
    else
      var last := specs[|specs| - 1];
      Weighted(specs[..|specs| - 1], value) + value(last.name) * last.weight
  }

  function NormalizedOf(run: Run): Name -> real { n => Normalized(run, n) }

  function UnclampedScore(run: Run): int { RoundHalfEven(Weighted(Specs(), NormalizedOf(run)) * 100.0) }

  function Score(run: Run): int {
    var score := UnclampedScore(run);
    if score < 0 then 0 else if score > 100 then 100 else score
  }

  // ---------------------------------------------------------------- the weights

  lemma {:induction false} TotalAppend(a: seq<Spec>, b: seq<Spec>)
    ensures TotalWeight(a + b) == TotalWeight(a) + TotalWeight(b)
  {
    if b == [] {
      assert a + b == a;
    } else {
      TotalAppend(a, b[..|b| - 1]);
      assert (a + b)[..|a + b| - 1] == a + b[..|b| - 1];
    }
  }

  lemma TotalStep(s: seq<Spec>, i: nat)
    requires i < |s|
    ensures TotalWeight(s[..i + 1]) == TotalWeight(s[..i]) + s[i].weight
  {
    assert s[..i + 1][..i] == s[..i];
  }

  lemma TotalOfSeven(s: seq<Spec>)
    requires |s| == 7
    ensures TotalWeight(s)
         == s[0].weight + s[1].weight + s[2].weight + s[3].weight + s[4].weight + s[5].weight + s[6].weight
  {
    TotalStep(s, 6);
    TotalStep(s, 5);
    TotalStep(s, 4);
    TotalStep(s, 3);
    TotalStep(s, 2);
    TotalStep(s, 1);
    TotalStep(s, 0);
    assert s[..7] == s && s[..0] == [];
  }

  /** The weights add up to one. */
  lemma WeightsSumToOne()
    ensures TotalWeight(Specs()) == 1.0
  {
    TotalOfSeven(SPECS_A);
    TotalOfSeven(SPECS_B);
    TotalOfSeven(SPECS_C);
    TotalOfSeven(SPECS_D);
    TotalOfSeven(SPECS_E);
    TotalAppend(SPECS_A + SPECS_B + SPECS_C + SPECS_D, SPECS_E);
    TotalAppend(SPECS_A + SPECS_B + SPECS_C, SPECS_D);
    TotalAppend(SPECS_A + SPECS_B, SPECS_C);
    TotalAppend(SPECS_A, SPECS_B);
  }

  ghost predicate NoNegativeWeight(specs: seq<Spec>) { forall i | 0 <= i < |specs| :: specs[i].weight >= 0.0 }

  lemma WeightsAreNotNegative()
    ensures NoNegativeWeight(Specs())
  {
    assert NoNegativeWeight(SPECS_A) && NoNegativeWeight(SPECS_B) && NoNegativeWeight(SPECS_C);
    assert NoNegativeWeight(SPECS_D) && NoNegativeWeight(SPECS_E);
  }

  // ---------------------------------------------------------------- bounded and monotone

  lemma ProductBounds(low: real, high: real, weight: real)
    requires low <= high && weight >= 0.0
    ensures low * weight <= high * weight
  {
  }

  lemma {:induction false} WeightedMonotone(specs: seq<Spec>, low: Name -> real, high: Name -> real)
    requires NoNegativeWeight(specs) && forall n :: low(n) <= high(n)
    ensures Weighted(specs, low) <= Weighted(specs, high)
  {
    if specs != [] {
      var last := specs[|specs| - 1];
      WeightedMonotone(specs[..|specs| - 1], low, high);
      ProductBounds(low(last.name), high(last.name), last.weight);
    }
  }

  lemma {:induction false} WeightedBounds(specs: seq<Spec>, value: Name -> real)
    requires NoNegativeWeight(specs) && forall n :: 0.0 <= value(n) <= 1.0
    ensures 0.0 <= Weighted(specs, value) <= TotalWeight(specs)
  {
    if specs != [] {
      var last := specs[|specs| - 1];
      WeightedBounds(specs[..|specs| - 1], value);
      ProductBounds(0.0, value(last.name), last.weight);
      ProductBounds(value(last.name), 1.0, last.weight);
    }
  }

  lemma NormalizedInRange(run: Run, n: Name)
    requires IsMeasured(run) && run.llmCalls >= 0
    ensures 0.0 <= Normalized(run, n) <= 1.0
  {
    LowestBounds(run.rate(ExecutiveSummarySection), run.otherDepths);
  }

  /** Given fractions, every normalised metric is a fraction exactly when the call count is not negative. */
  lemma NormalizedAreFractionsExactlyWhen(run: Run)
    requires IsMeasured(run)
    ensures (forall n :: 0.0 <= Normalized(run, n) <= 1.0) <==> run.llmCalls >= 0
  {
    if run.llmCalls >= 0 {
      forall n
        ensures 0.0 <= Normalized(run, n) <= 1.0
      {
        NormalizedInRange(run, n);
      }
    } else {
      assert Normalized(run, LlmCallSignal) < 0.0;
    }
  }

  /** The score stays within 0..100 on its own: its clamp changes nothing. */
  lemma ClampIsIdle(run: Run)
    requires IsMeasured(run) && run.llmCalls >= 0
    ensures 0 <= UnclampedScore(run) <= 100 && Score(run) == UnclampedScore(run)
  {
    forall n
      ensures 0.0 <= NormalizedOf(run)(n) <= 1.0
    {
      NormalizedInRange(run, n);
    }
    WeightsSumToOne();
    WeightsAreNotNegative();
    WeightedBounds(Specs(), NormalizedOf(run));
    RoundWithin(Weighted(Specs(), NormalizedOf(run)) * 100.0, 0, 100);
  }

  /** Better metrics never lower the score. */
  lemma ScoreIsMonotone(worse: Run, better: Run)
    requires forall n :: Normalized(worse, n) <= Normalized(better, n)
    ensures Score(worse) <= Score(better)
  {
    hide Specs, Weighted, Normalized, RoundHalfEven;
    WeightsAreNotNegative();
    forall n
      ensures NormalizedOf(worse)(n) <= NormalizedOf(better)(n)
    {
      assert Normalized(worse, n) <= Normalized(better, n);
    }
    WeightedMonotone(Specs(), NormalizedOf(worse), NormalizedOf(better));
    RoundMonotone(Weighted(Specs(), NormalizedOf(worse)) * 100.0, Weighted(Specs(), NormalizedOf(better)) * 100.0);
  }

  /** Everything perfect but the calls. */
  function PerfectBut(calls: real): Name -> real { n => if n == LlmCallSignal then calls else 1.0 }

  lemma {:induction false} PerfectSum(specs: seq<Spec>, calls: real)
    requires forall i | 0 <= i < |specs| :: specs[i].name != LlmCallSignal
    ensures Weighted(specs, PerfectBut(calls)) == TotalWeight(specs)
  {
    if specs != [] { PerfectSum(specs[..|specs| - 1], calls); }
  }

  lemma PerfectSpecs(calls: real)
    ensures Weighted(Specs(), PerfectBut(calls)) == 0.96 + calls * 0.04
  {
    hide Weighted, TotalWeight;
    var value := PerfectBut(calls);
    WeightedSpecs(value);
    PerfectSum(SPECS_A, calls);
    PerfectCalls(calls);
    PerfectSum(SPECS_C, calls);
    PerfectSum(SPECS_D, calls);
    PerfectSum(SPECS_E, calls);
    WeightsSumToOne();
    TotalOfParts();
  }

  lemma TotalOfParts()
    ensures TotalWeight(Specs()) == TotalWeight(SPECS_A) + TotalWeight(SPECS_B) + TotalWeight(SPECS_C)
                                  + TotalWeight(SPECS_D) + TotalWeight(SPECS_E)
  {
    hide TotalWeight;
    TotalAppend(SPECS_A + SPECS_B + SPECS_C + SPECS_D, SPECS_E);
    TotalAppend(SPECS_A + SPECS_B + SPECS_C, SPECS_D);
    TotalAppend(SPECS_A + SPECS_B, SPECS_C);
    TotalAppend(SPECS_A, SPECS_B);
  }

  lemma CallsAreFourth()
    ensures SPECS_B[3] == Spec(LlmCallSignal, 0.04, HigherIsBetter)
    ensures SPECS_B == SPECS_B[..3] + [SPECS_B[3]] + SPECS_B[4..]
  {
  }

  lemma SplitAtCalls(value: Name -> real)
    ensures Weighted(SPECS_B, value)
         == Weighted(SPECS_B[..3], value) + value(LlmCallSignal) * 0.04 + Weighted(SPECS_B[4..], value)
  {
    CallsAreFourth();
    OneSpec(SPECS_B[3], value);
    hide Weighted;
    WeightedAppend(SPECS_B[..3] + [SPECS_B[3]], SPECS_B[4..], value);
    WeightedAppend(SPECS_B[..3], [SPECS_B[3]], value);
  }

  lemma TotalAtCalls()
    ensures TotalWeight(SPECS_B) == TotalWeight(SPECS_B[..3]) + 0.04 + TotalWeight(SPECS_B[4..])
  {
    CallsAreFourth();
    OneSpec(SPECS_B[3], PerfectBut(0.0));
    hide TotalWeight;
    TotalAppend(SPECS_B[..3] + [SPECS_B[3]], SPECS_B[4..]);
    TotalAppend(SPECS_B[..3], [SPECS_B[3]]);
  }

  ghost predicate HasNoCalls(specs: seq<Spec>) { forall i | 0 <= i < |specs| :: specs[i].name != LlmCallSignal }

  lemma OnlyFourthIsCalls()
    ensures HasNoCalls(SPECS_B[..3]) && HasNoCalls(SPECS_B[4..])
  {
  }

  lemma PerfectCalls(calls: real)
    ensures Weighted(SPECS_B, PerfectBut(calls)) == TotalWeight(SPECS_B) - 0.04 + calls * 0.04
  {
    OnlyFourthIsCalls();
    hide Weighted, TotalWeight;
    SplitAtCalls(PerfectBut(calls));
    TotalAtCalls();
    PerfectSum(SPECS_B[..3], calls);
    PerfectSum(SPECS_B[4..], calls);
  }

  lemma OneSpec(spec: Spec, value: Name -> real)
    ensures Weighted([spec], value) == value(spec.name) * spec.weight && TotalWeight([spec]) == spec.weight
  {
    assert [spec][..0] == [];
  }

  lemma {:induction false} WeightedAppend(a: seq<Spec>, b: seq<Spec>, value: Name -> real)
    ensures Weighted(a + b, value) == Weighted(a, value) + Weighted(b, value)
  {
    if b == [] {
      assert a + b == a;
    } else {
      WeightedAppend(a, b[..|b| - 1], value);
      assert (a + b)[..|a + b| - 1] == a + b[..|b| - 1];
    }
  }

  lemma WeightedSpecs(value: Name -> real)
    ensures Weighted(Specs(), value)
         == Weighted(SPECS_A, value) + Weighted(SPECS_B, value) + Weighted(SPECS_C, value) + Weighted(SPECS_D, value)
            + Weighted(SPECS_E, value)
  {
    hide Weighted;
    WeightedAppend(SPECS_A + SPECS_B + SPECS_C + SPECS_D, SPECS_E, value);
    WeightedAppend(SPECS_A + SPECS_B + SPECS_C, SPECS_D, value);
    WeightedAppend(SPECS_A + SPECS_B, SPECS_C, value);
    WeightedAppend(SPECS_A, SPECS_B, value);
  }

  lemma AtMostPerfect(run: Run)
    requires IsMeasured(run) && run.llmCalls < 0
    ensures Weighted(Specs(), NormalizedOf(run)) <= 0.96 + run.llmCalls as real / 3.0 * 0.04
  {
    hide Specs, Weighted;
    var calls := run.llmCalls as real / 3.0;
    forall n
      ensures NormalizedOf(run)(n) <= PerfectBut(calls)(n)
    {
      CallsAreNegative(run, n);
    }
    WeightsAreNotNegative();
    WeightedMonotone(Specs(), NormalizedOf(run), PerfectBut(calls));
    PerfectSpecs(calls);
  }

  lemma CallsAreNegative(run: Run, n: Name)
    requires IsMeasured(run) && run.llmCalls < 0
    ensures Normalized(run, n) <= if n == LlmCallSignal then run.llmCalls as real / 3.0 else 1.0
  {
    LowestBounds(run.rate(ExecutiveSummarySection), run.otherDepths);
  }

  /** However good the rest of a run is, 73 calls below zero take the sum below zero, where only the clamp stops it. */
  lemma NegativeCallsNeedTheClamp(run: Run)
    requires IsMeasured(run)
    ensures run.llmCalls <= -73 ==> UnclampedScore(run) < 0 && Score(run) == 0
  {
    if run.llmCalls <= -73 {
      AtMostPerfect(run);
      RoundBounds(Weighted(Specs(), NormalizedOf(run)) * 100.0);
    }
  }

  /** A run in which nothing is good but one community source, which the report says nothing about. */
  function Worst(calls: int): Run { Run(false, 1, 1, calls, false, 0, 3, 3, 3, 12, [], NothingGood()) }

  function NothingGood(): Name -> real { n => 0.0 }

  function SourceAndCalls(calls: real): Name -> real {
    n => if n == EvidenceCount then 0.125 else if n == LlmCallSignal then calls else 0.0
  }

  predicate IsPenalty(n: Name) {
    n.DuplicateSectionCount? || n.ClaimSelfConsistencyWarnings? || n.QaBlockerCount? || n.WarningCount?
  }

  lemma OtherMetrics(run: Run, n: Name)
    requires !IsPenalty(n) && n != EvidenceCount && n != LlmCallSignal
    ensures Normalized(run, n) == Value(run, n)
  {
  }

  lemma OtherValues(calls: int, n: Name)
    requires !IsPenalty(n) && n != EvidenceCount && n != LlmCallSignal
    ensures Value(Worst(calls), n) == 0.0
  {
    assert Lowest(0.0, []) == 0.0;
    hide Lowest;
  }

  lemma Penalties(calls: int, n: Name)
    requires IsPenalty(n)
    ensures Normalized(Worst(calls), n) == 0.0
  {
  }

  lemma SourceMetric(calls: int)
    ensures Normalized(Worst(calls), EvidenceCount) == 0.125
  {
  }

  lemma CallMetric(calls: int)
    requires calls < 0
    ensures Normalized(Worst(calls), LlmCallSignal) == calls as real / 3.0
  {
  }

  lemma WorstMetrics(calls: int, n: Name)
    requires calls < 0
    ensures Normalized(Worst(calls), n) == SourceAndCalls(calls as real / 3.0)(n)
  {
    hide Normalized, Value, Worst;
    if IsPenalty(n) {
      Penalties(calls, n);
    } else if n == EvidenceCount {
      SourceMetric(calls);
    } else if n == LlmCallSignal {
      CallMetric(calls);
    } else {
      OtherMetrics(Worst(calls), n);
      OtherValues(calls, n);
    }
  }

  ghost predicate HasNeither(specs: seq<Spec>) {
    forall i | 0 <= i < |specs| :: specs[i].name != LlmCallSignal && specs[i].name != EvidenceCount
  }

  lemma {:induction false} NothingSums(specs: seq<Spec>, calls: real)
    requires HasNeither(specs)
    ensures Weighted(specs, SourceAndCalls(calls)) == 0.0
  {
    if specs != [] { NothingSums(specs[..|specs| - 1], calls); }
  }

  lemma WorstSources(calls: real)
    ensures Weighted(SPECS_A, SourceAndCalls(calls)) == 0.125 * 0.05
  {
    var first, rest := [SPECS_A[0]], SPECS_A[1..];
    assert SPECS_A == first + rest;
    WeightedAppend(first, rest, SourceAndCalls(calls));
    NothingSums(rest, calls);
    OneSpec(SPECS_A[0], SourceAndCalls(calls));
  }

  lemma CallsHaveNeither()
    ensures HasNeither(SPECS_B[..3]) && HasNeither(SPECS_B[4..])
  {
  }

  lemma WorstCalls(calls: real)
    ensures Weighted(SPECS_B, SourceAndCalls(calls)) == calls * 0.04
  {
    CallsHaveNeither();
    hide HasNeither, Weighted;
    SplitAtCalls(SourceAndCalls(calls));
    NothingSums(SPECS_B[..3], calls);
    NothingSums(SPECS_B[4..], calls);
  }

  lemma CoreHasNeither()
    ensures HasNeither(SPECS_C)
  {
  }

  lemma SupportHasNeither()
    ensures HasNeither(SPECS_D)
  {
  }

  lemma RestHasNeither()
    ensures HasNeither(SPECS_E)
  {
  }

  lemma WorstRest(calls: real)
    ensures Weighted(SPECS_C, SourceAndCalls(calls)) == 0.0
    ensures Weighted(SPECS_D, SourceAndCalls(calls)) == 0.0
    ensures Weighted(SPECS_E, SourceAndCalls(calls)) == 0.0
  {
    CoreHasNeither();
    SupportHasNeither();
    RestHasNeither();
    hide HasNeither, Weighted;
    NothingSums(SPECS_C, calls);
    NothingSums(SPECS_D, calls);
    NothingSums(SPECS_E, calls);
  }

  lemma SumOfFew(calls: real)
    ensures Weighted(Specs(), SourceAndCalls(calls)) == 0.125 * 0.05 + calls * 0.04
  {
    WorstSources(calls);
    WorstCalls(calls);
    WorstRest(calls);
    hide Weighted, Specs;
    WeightedSpecs(SourceAndCalls(calls));
  }

  lemma WorstIsBelow(run: Run, value: Name -> real)
    requires forall n :: Normalized(run, n) <= value(n)
    ensures Weighted(Specs(), NormalizedOf(run)) <= Weighted(Specs(), value)
  {
    hide Specs, Weighted, Normalized;
    WeightsAreNotNegative();
    WeightedMonotone(Specs(), NormalizedOf(run), value);
  }

  lemma WorstSum(calls: int)
    requires calls < 0
    ensures Weighted(Specs(), NormalizedOf(Worst(calls))) <= 0.125 * 0.05 + calls as real / 3.0 * 0.04
  {
    hide *;
    forall n
      ensures Normalized(Worst(calls), n) <= SourceAndCalls(calls as real / 3.0)(n)
    {
      WorstMetrics(calls, n);
    }
    WorstIsBelow(Worst(calls), SourceAndCalls(calls as real / 3.0));
    SumOfFew(calls as real / 3.0);
  }

  lemma WorstNeedsTheClamp(calls: int)
    requires calls < 0
    ensures IsMeasured(Worst(calls)) && UnclampedScore(Worst(calls)) < 0
  {
    WorstSum(calls);
    RoundBounds(Weighted(Specs(), NormalizedOf(Worst(calls))) * 100.0);
    hide Specs, Weighted;
    assert calls as real / 3.0 * 0.04 <= -1.0 / 3.0 * 0.04;
  }

  /** Exactly when the clamp can be left out for every run with this many calls. */
  lemma ClampIsIdleExactlyWhen(calls: int)
    ensures (forall run | IsMeasured(run) && run.llmCalls == calls :: Score(run) == UnclampedScore(run)) <==> calls >= 0
  {
    hide IsMeasured, UnclampedScore;
    if calls >= 0 {
      forall run | IsMeasured(run) && run.llmCalls == calls
        ensures Score(run) == UnclampedScore(run)
      {
        ClampIsIdle(run);
      }
    } else {
      WorstNeedsTheClamp(calls);
      assert Worst(calls).llmCalls == calls && Score(Worst(calls)) != UnclampedScore(Worst(calls));
    }
  }

  // ---------------------------------------------------------------- signals

  predicate RealCollection(run: Run) {
    && run.isReal && Value(run, RealSourceRate) >= 0.5
    && Value(run, VerifiedSourceRate) >= 0.25 && Value(run, EvidenceCount) >= 2.0
  }

  predicate RealLlm(run: Run) { run.isReal && (run.llmCalls > 0 || run.hasLlmTrace) }

  /** The metrics with a floor in the quality signal. */
  function Floor(n: Name): Option<real> {
    match n
    case ClaimCitationRate => Some(0.6)
    case CitationValidityRate => Some(0.6)
    case SourceCoverageRate => Some(0.5)
    case ReportStructure => Some(0.7)
    case CoreAnalysisDepth => Some(0.6)
    case ExecutiveSummarySection => Some(1.0)
    case DecisionSummarySection => Some(1.0)
    case CompetitiveFindingsSection => Some(1.0)
    case CompetitorDeepDiveSection => Some(1.0)
    case LayerAnalysisSection => Some(1.0)
    case CoreSectionDepth => Some(1.0)
    case CoreSupportBalance => Some(1.0)
    case ClaimRiskSection => Some(1.0)
    case ScenarioChecklistSection => Some(1.0)
    case MemoryContextSection => Some(1.0)
    case UserResearchSection => Some(1.0)
    case ReviewThemeSection => Some(1.0)
    case CommunityEvidenceSection => Some(1.0)
    case SwotSection => Some(1.0)
    case RagGapFillSection => Some(1.0)
    case LocalizedHeading => Some(1.0)
    case BattlecardSection => Some(1.0)
    case CitationHygiene => Some(1.0)
    case _ => None
  }

  predicate MeetsFloor(run: Run, n: Name) { Floor(n).Some? ==> Value(run, n) >= Floor(n).value }

  predicate ReportQualitySignal(run: Run) {
    && run.coreLength >= 1200
    && (forall n :: MeetsFloor(run, n))
    && run.duplicateSections == 0 && run.consistencyWarnings == 0 && run.qaBlockers == 0
  }

  const CHECKED_A := [ClaimCitationRate, CitationValidityRate, SourceCoverageRate, ReportStructure,
                      DecisionSummarySection, CompetitiveFindingsSection, CompetitorDeepDiveSection]

  const CHECKED_B := [LayerAnalysisSection, CoreAnalysisDepth, CoreSectionDepth, CoreSupportBalance,
                      ClaimRiskSection, ScenarioChecklistSection, MemoryContextSection]

  const CHECKED_C := [UserResearchSection, ReviewThemeSection, SwotSection, RagGapFillSection,
                      LocalizedHeading, BattlecardSection, CitationHygiene]

  /** The metrics whose floor the signal check looks at, in order. */
  function Checked(): seq<Name> { CHECKED_A + CHECKED_B + CHECKED_C }

  /** The metrics with a floor that the signal check does not look at. */
  predicate IsForgotten(n: Name) { n == ExecutiveSummarySection || n == CommunityEvidenceSection }

  predicate IsCheckedA(n: Name) {
    || n.ClaimCitationRate? || n.CitationValidityRate? || n.SourceCoverageRate? || n.ReportStructure?
    || n.DecisionSummarySection? || n.CompetitiveFindingsSection? || n.CompetitorDeepDiveSection?
  }

  predicate IsCheckedB(n: Name) {
    || n.LayerAnalysisSection? || n.CoreAnalysisDepth? || n.CoreSectionDepth? || n.CoreSupportBalance?
    || n.ClaimRiskSection? || n.ScenarioChecklistSection? || n.MemoryContextSection?
  }

  predicate IsCheckedC(n: Name) {
    || n.UserResearchSection? || n.ReviewThemeSection? || n.SwotSection? || n.RagGapFillSection?
    || n.LocalizedHeading? || n.BattlecardSection? || n.CitationHygiene?
  }

  lemma InCheckedA(n: Name)
    ensures n in CHECKED_A <==> IsCheckedA(n)
  {
  }

  lemma InCheckedB(n: Name)
    ensures n in CHECKED_B <==> IsCheckedB(n)
  {
  }

  lemma InCheckedC(n: Name)
    ensures n in CHECKED_C <==> IsCheckedC(n)
  {
  }

  lemma FloorsAreChecked(n: Name)
    ensures IsCheckedA(n) || IsCheckedB(n) || IsCheckedC(n) <==> Floor(n).Some? && !IsForgotten(n)
  {
  }

  lemma CheckedIsExact(n: Name)
    ensures n in Checked() <==> Floor(n).Some? && !IsForgotten(n)
  {
    InCheckedA(n);
    InCheckedB(n);
    InCheckedC(n);
    FloorsAreChecked(n);
    hide IsCheckedA, IsCheckedB, IsCheckedC, Floor, IsForgotten;
    InJoined(CHECKED_A, CHECKED_B, CHECKED_C, n);
  }

  lemma InJoined(a: seq<Name>, b: seq<Name>, c: seq<Name>, n: Name)
    ensures n in a + b + c <==> n in a || n in b || n in c
  {
  }

  function Below(run: Run, names: seq<Name>): seq<Name> {
    if names == [] then []
    else
      var earlier, last := Below(run, names[..|names| - 1]), names[|names| - 1];
      if MeetsFloor(run, last) then earlier else earlier + [last]
  }

  lemma {:induction false} BelowIsExact(run: Run, names: seq<Name>)
    ensures Below(run, names) == [] <==> forall n | n in names :: MeetsFloor(run, n)
  {
    if names != [] {
      BelowIsExact(run, names[..|names| - 1]);
      assert forall n :: n in names <==> n in names[..|names| - 1] || n == names[|names| - 1];
    }
  }

  /** What is said to hold a signal back: a metric, or the run's mode of execution. */
  datatype BlockerName = ExecutionMode | Metric(name: Name)

  function CollectionBlockers(run: Run): seq<BlockerName> {
    (if !run.isReal then [ExecutionMode] else [])
    + (if Value(run, RealSourceRate) < 0.5 then [Metric(RealSourceRate)] else [])
    + (if Value(run, VerifiedSourceRate) < 0.25 then [Metric(VerifiedSourceRate)] else [])
    + (if Value(run, EvidenceCount) < 2.0 then [Metric(EvidenceCount)] else [])
  }

  function LlmBlockers(run: Run): seq<BlockerName> {
    (if !run.isReal then [ExecutionMode] else [])
    + (if Value(run, LlmCallSignal) <= 0.0 && !run.hasLlmTrace then [Metric(LlmCallSignal)] else [])
  }

  method FloorBlockers(run: Run, names: seq<Name>) returns (below: seq<Name>)
    requires forall n | n in names :: Floor(n).Some?
    ensures below == Below(run, names)
  {
    below := [];
    for i := 0 to |names|
      invariant below == Below(run, names[..i])
    {
      assert names[..i + 1][..i] == names[..i];
      if Value(run, names[i]) < Floor(names[i]).value {
        below := below + [names[i]];
      }
    }
    assert names[..|names|] == names;
  }

  function ReportBlockers(run: Run): seq<Name> {
    (if run.coreLength < 1200 then [ReportLength] else [])
    + Below(run, Checked())
    + (if run.duplicateSections > 0 then [DuplicateSectionCount] else [])
    + (if run.consistencyWarnings > 0 then [ClaimSelfConsistencyWarnings] else [])
    + (if run.qaBlockers > 0 then [QaBlockerCount] else [])
  }

  method CollectReportBlockers(run: Run) returns (blockers: seq<Name>)
    ensures blockers == ReportBlockers(run)
  {
    blockers := [];
    if run.coreLength < 1200 { blockers := blockers + [ReportLength]; }
    forall n | n in Checked() ensures Floor(n).Some? { CheckedIsExact(n); }
    var below := FloorBlockers(run, Checked());
    blockers := blockers + below;
    if run.duplicateSections > 0 { blockers := blockers + [DuplicateSectionCount]; }
    if run.consistencyWarnings > 0 { blockers := blockers + [ClaimSelfConsistencyWarnings]; }
    if run.qaBlockers > 0 { blockers := blockers + [QaBlockerCount]; }
  }

  /** Two of the three signals pass exactly when their check lists nothing. */
  lemma ListsExplainSignals(run: Run)
    ensures RealCollection(run) <==> CollectionBlockers(run) == []
    ensures RealLlm(run) <==> LlmBlockers(run) == []
  {
  }

  /** A core depth of one takes a summary of one: the summary is the first of the sections the depth looks at. */
  lemma DepthNeedsSummary(run: Run)
    requires IsMeasured(run) && MeetsFloor(run, CoreSectionDepth)
    ensures MeetsFloor(run, ExecutiveSummarySection)
  {
    LowestBounds(run.rate(ExecutiveSummarySection), run.otherDepths);
  }

  /**
   The third passes exactly when its check lists nothing and the community section reaches its floor. The check does
   not look at the executive summary either, but that is covered by the core depth.
   */
  lemma QualitySignalExactlyWhen(run: Run)
    requires IsMeasured(run)
    ensures ReportQualitySignal(run)
       <==> ReportBlockers(run) == [] && (run.communitySources > 0 ==> run.rate(CommunityEvidenceSection) == 1.0)
  {
    hide Below, ReportBlockers, Lowest;
    BelowIsExact(run, Checked());
    forall n
      ensures n in Checked() <==> Floor(n).Some? && !IsForgotten(n)
    {
      CheckedIsExact(n);
    }
    NothingListed(run);
    CommunityFloor(run);
    if ReportQualitySignal(run) {
      assert MeetsFloor(run, CommunityEvidenceSection);
    } else if ReportBlockers(run) == [] {
      DepthNeedsSummary(run);
    }
  }

  lemma CommunityFloor(run: Run)
    requires IsMeasured(run)
    ensures MeetsFloor(run, CommunityEvidenceSection)
       <==> (run.communitySources > 0 ==> run.rate(CommunityEvidenceSection) == 1.0)
  {
  }

  lemma NothingListed(run: Run)
    ensures ReportBlockers(run) == []
       <==> run.coreLength >= 1200 && Below(run, Checked()) == []
            && run.duplicateSections == 0 && run.consistencyWarnings == 0 && run.qaBlockers == 0
  {
  }

  function AllButCommunity(): Name -> real { n => if n == CommunityEvidenceSection then 0.0 else 1.0 }

  /** A run with community sources that its report says nothing about. */
  const UNHEARD := Run(true, 8, 2, 3, true, 2500, 0, 0, 0, 0, [1.0], AllButCommunity())

  lemma OnlyCommunityIsShort(n: Name)
    ensures MeetsFloor(UNHEARD, n) <==> n != CommunityEvidenceSection
  {
    hide Value, Floor;
    FloorsAreForRates(UNHEARD, n);
    FullDepth();
  }

  lemma FloorsAreForRates(run: Run, n: Name)
    ensures Floor(n).Some? ==> 0.0 < Floor(n).value <= 1.0
    ensures Floor(n).Some? && n != CoreSectionDepth && n != CommunityEvidenceSection ==> Value(run, n) == run.rate(n)
    ensures n == CommunityEvidenceSection ==>
      Floor(n) == Some(1.0) && (run.communitySources > 0 ==> Value(run, n) == run.rate(n))
  {
  }

  lemma FullDepth()
    ensures Value(UNHEARD, CoreSectionDepth) == 1.0
  {
    assert [1.0][..0] == [];
  }

  lemma UnheardIsMeasured()
    ensures IsMeasured(UNHEARD)
  {
    forall n
      ensures 0.0 <= UNHEARD.rate(n) <= 1.0
    {
      UnheardRates(n);
    }
  }

  lemma UnheardRates(n: Name)
    ensures UNHEARD.rate(n) == if n == CommunityEvidenceSection then 0.0 else 1.0
  {
  }

  /** So the signal can fail while the check lists no reason. */
  lemma FailureWithoutReason()
    ensures IsMeasured(UNHEARD) && ReportBlockers(UNHEARD) == [] && !ReportQualitySignal(UNHEARD)
  {
    hide Checked, Below, ReportBlockers, MeetsFloor, Floor, Value, IsMeasured;
    UnheardIsMeasured();
    OnlyCommunityIsShort(CommunityEvidenceSection);
    NothingListed(UNHEARD);
    BelowIsExact(UNHEARD, Checked());
    forall n | n in Checked()
      ensures MeetsFloor(UNHEARD, n)
    {
      CheckedIsExact(n);
      OnlyCommunityIsShort(n);
    }
  }

  // ---------------------------------------------------------------- core against support

  /** How much of the report is core; `core` and `support` are characters plus sixty per row. */
  function BalanceScore(core: nat, support: nat): real {
    if core == 0 then 0.0
    else if support == 0 then 1.0
    else Min(1.0, core as real / (core + support) as real / 0.65)
  }

  lemma ShareGrows(core: nat, support: nat, core': nat, support': nat)
    requires 0 < core <= core' && 0 <= support' <= support
    ensures core as real / (core + support) as real <= core' as real / (core' + support') as real
  {
    CrossGrows(core, support, core', support');
    RealProduct(core, core' + support');
    RealProduct(core', core + support);
    DivideBoth(core as real, (core + support) as real, core' as real, (core' + support') as real);
  }

  lemma CrossGrows(core: nat, support: nat, core': nat, support': nat)
    requires core <= core' && support' <= support
    ensures core * (core' + support') <= core' * (core + support)
  {
    TimesGrows(core, support', support);
    TimesGrows(support, core, core');
    assert core * (core' + support') == core * core' + core * support';
    assert core' * (core + support) == core * core' + support * core';
  }

  lemma TimesGrows(k: nat, x: nat, y: nat)
    requires x <= y
    ensures k * x <= k * y
  {
  }

  lemma RealProduct(x: nat, y: nat)
    ensures (x as real) * (y as real) == (x * y) as real
  {
  }

  lemma Cancel(x: real, y: real, k: real)
    requires k > 0.0 && x * k <= y * k
    ensures x <= y
  {
  }

  lemma DivideBoth(a: real, b: real, c: real, d: real)
    requires b > 0.0 && d > 0.0 && a * d <= c * b
    ensures a / b <= c / d
  {
    var x, y := a / b, c / d;
    assert x * b == a && y * d == c;
    assert x * (b * d) == a * d && y * (b * d) == c * b;
    Cancel(x, y, b * d);
  }

  lemma ShareIsEnough(a: real, b: real, q: real)
    requires b > 0.0
    ensures a / b >= q <==> a >= q * b
  {
    var x := a / b;
    assert x * b == a;
    if a >= q * b { Cancel(q, x, b); }
  }

  /** The balance is a fraction, full exactly when support takes up no more than 35 parts to 65 parts of core. */
  lemma BalanceIsFullExactlyWhen(core: nat, support: nat)
    ensures 0.0 <= BalanceScore(core, support) <= 1.0
    ensures BalanceScore(core, support) == 1.0 <==> core > 0 && 65 * support <= 35 * core
  {
    if core > 0 && support > 0 { ShareIsEnough(core as real, (core + support) as real, 0.65); }
  }

  /** Where it is not full it is the share of the core, taken of 65 parts in 100; it is zero only without core. */
  lemma BalanceIsProportional(core: nat, support: nat)
    ensures BalanceScore(core, support) == 0.0 <==> core == 0
    ensures 65 * support >= 35 * core ==>
      BalanceScore(core, support) * (0.65 * (core + support) as real) == core as real
  {
    if core > 0 && support > 0 {
      var whole, share := (core + support) as real, core as real / (core + support) as real;
      assert share * whole == core as real;
      ShareIsEnough(core as real, whole, 0.65);
      if 65 * support >= 35 * core { Scaled(share, whole); }
    }
  }

  lemma Scaled(share: real, whole: real)
    ensures share / 0.65 * (0.65 * whole) == share * whole
  {
  }

  /** More core or less support never lowers it. */
  lemma BalanceIsMonotone(core: nat, support: nat, core': nat, support': nat)
    requires core <= core' && support' <= support
    ensures BalanceScore(core, support) <= BalanceScore(core', support')
  {
    BalanceIsFullExactlyWhen(core, support);
    BalanceIsFullExactlyWhen(core', support');
    if core > 0 && support' > 0 { ShareGrows(core, support, core', support'); }
  }
}
