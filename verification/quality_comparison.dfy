/** A run against its baseline: metric by metric, the verdict and the regression gate. */
module QualityComparison {
  import opened Common
  import opened Lists
  import opened ReportQuality
  import ClaimValidator

  datatype Status = Improved | Regressed | Unchanged | BaselineMissing

  datatype Row = Row(name: Name, value: real, baseline: Option<real>, delta: Option<real>,
                     normalizedDelta: Option<real>, status: Status)

  datatype Grade = Pass | Warn | Fail

  datatype Reason =
    | NoRealCollection
    | NoRealLlm
    | NoReportQuality
    | ScoreBelowFloor
    | ScoreDropped
    | CoreRegression(metrics: seq<Name>)
    | NoBaseline
    | ScoreBelowPreferred
    | ScoreNegativeDelta
    | GatePassed

  // ---------------------------------------------------------------- rows

  /** Rounded to four places. */
  function Rounded(x: real): real { ClaimValidator.RoundHalfEven(x * 10000.0) as real / 10000.0 }

  function RoundedOption(x: Option<real>): Option<real> { if x.Some? then Some(Rounded(x.value)) else None }

  function StatusOf(delta: Option<real>, direction: Direction): Status {
    match delta
    case None => BaselineMissing
    case Some(d) =>
      if -0.001 < d < 0.001 then Unchanged
      else if (d > 0.0 && direction.HigherIsBetter?) || (d < 0.0 && direction.LowerIsBetter?) then Improved
      else Regressed
  }

  function RowOf(target: Run, baseline: Option<Run>): Spec -> Row {
    (spec: Spec) =>
      var value := Value(target, spec.name);
      var before := if baseline.Some? then Some(Value(baseline.value, spec.name)) else None;
      var delta := if before.Some? then Some(value - before.value) else None;
      var normalizedDelta :=
        if baseline.Some? then Some(Normalized(target, spec.name) - Normalized(baseline.value, spec.name)) else None;
      Row(spec.name, Rounded(value), RoundedOption(before), RoundedOption(delta), RoundedOption(normalizedDelta),
          StatusOf(delta, spec.direction))
  }

  function RowsOf(specs: seq<Spec>, target: Run, baseline: Option<Run>): seq<Row> {
    seq(|specs|, i requires 0 <= i < |specs| => RowOf(target, baseline)(specs[i]))
  }

  function DeltaScore(target: Run, baseline: Option<Run>): Option<int> {
    if baseline.Some? then Some(Score(target) - Score(baseline.value)) else None
  }

  // ---------------------------------------------------------------- verdict and gate

  function Verdict(target: Run, delta: Option<int>): Grade {
    if Score(target) < 55 then Fail
    else if delta.Some? && delta.value <= -10 then Fail
    else if Value(target, ReportStructure) < 0.7 then Warn
    else if !ReportQualitySignal(target) then Warn
    else if Score(target) < 72 || (delta.Some? && delta.value < 0) then Warn
    else Pass
  }

  predicate IsCore(n: Name) {
    match n
    case SourceCoverageRate => true
    case VerifiedSourceRate => true
    case ClaimCitationRate => true
    case CitationValidityRate => true
    case RealSourceRate => true
    case GapResolutionRate => true
    case FieldSupportRate => true
    case ValidatedClaimRate => true
    case ReportStructure => true
    case DuplicateSectionCount => true
    case DecisionSummarySection => true
    case CompetitiveFindingsSection => true
    case CompetitorDeepDiveSection => true
    case LayerAnalysisSection => true
    case CoreAnalysisDepth => true
    case CoreSectionDepth => true
    case CoreSupportBalance => true
    case ReviewThemeSection => true
    case SwotSection => true
    case QaBlockerCount => true
    case _ => false
  }

  predicate IsCoreRegression(row: Row) {
    IsCore(row.name) && row.normalizedDelta.Some? && row.normalizedDelta.value <= -0.15
  }

  function CoreRegressions(rows: seq<Row>): seq<Name> {
    if rows == [] then []
    else
      var earlier, last := CoreRegressions(rows[..|rows| - 1]), rows[|rows| - 1];
      if IsCoreRegression(last) then earlier + [last.name] else earlier
  }

  predicate HardFailure(target: Run, delta: Option<int>, rows: seq<Row>) {
    || !RealCollection(target) || !RealLlm(target) || !ReportQualitySignal(target)
    || Score(target) < 55 || (delta.Some? && delta.value <= -10) || CoreRegressions(rows) != []
  }

  predicate SoftFailure(target: Run, baseline: Option<Run>, delta: Option<int>) {
    baseline.None? || Score(target) < 72 || (delta.Some? && delta.value < 0)
  }

  function When(condition: bool, reason: Reason): seq<Reason> { if condition then [reason] else [] }

  function HardReasons(target: Run, delta: Option<int>, rows: seq<Row>): seq<Reason> {
    When(!RealCollection(target), NoRealCollection)
    + When(!RealLlm(target), NoRealLlm)
    + When(!ReportQualitySignal(target), NoReportQuality)
    + When(Score(target) < 55, ScoreBelowFloor)
    + When(delta.Some? && delta.value <= -10, ScoreDropped)
    + When(CoreRegressions(rows) != [], CoreRegression(CoreRegressions(rows)))
  }

  function SoftReasons(target: Run, baseline: Option<Run>, delta: Option<int>): seq<Reason> {
    When(baseline.None?, NoBaseline)
    + When(Score(target) < 72, ScoreBelowPreferred)
    + When(delta.Some? && delta.value < 0, ScoreNegativeDelta)
  }

  lemma ReasonsAreExact(target: Run, baseline: Option<Run>, delta: Option<int>, rows: seq<Row>)
    ensures HardReasons(target, delta, rows) != [] <==> HardFailure(target, delta, rows)
    ensures SoftReasons(target, baseline, delta) != [] <==> SoftFailure(target, baseline, delta)
  {
  }

  method RegressionGate(target: Run, baseline: Option<Run>, delta: Option<int>, rows: seq<Row>)
    returns (grade: Grade, reasons: seq<Reason>)
    ensures grade.Fail? <==> HardFailure(target, delta, rows)
    ensures grade.Warn? <==> !HardFailure(target, delta, rows) && SoftFailure(target, baseline, delta)
    ensures reasons == match grade
                       case Fail => HardReasons(target, delta, rows)
                       case Warn => SoftReasons(target, baseline, delta)
                       case Pass => [GatePassed]
  {
    ReasonsAreExact(target, baseline, delta, rows);
    reasons := When(!RealCollection(target), NoRealCollection);
    reasons := reasons + When(!RealLlm(target), NoRealLlm);
    reasons := reasons + When(!ReportQualitySignal(target), NoReportQuality);
    reasons := reasons + When(Score(target) < 55, ScoreBelowFloor);
    reasons := reasons + When(delta.Some? && delta.value <= -10, ScoreDropped);
    var core := CoreRegressions(rows);
    reasons := reasons + When(core != [], CoreRegression(core));
    if reasons != [] { return Fail, reasons; }
    reasons := When(baseline.None?, NoBaseline);
    reasons := reasons + When(Score(target) < 72, ScoreBelowPreferred);
    reasons := reasons + When(delta.Some? && delta.value < 0, ScoreNegativeDelta);
    if reasons != [] { return Warn, reasons; }
    return Pass, [GatePassed];
  }

  function GateGrade(target: Run, baseline: Option<Run>): Grade {
    var delta, rows := DeltaScore(target, baseline), RowsOf(Specs(), target, baseline);
    if HardFailure(target, delta, rows) then Fail else if SoftFailure(target, baseline, delta) then Warn else Pass
  }

  // ---------------------------------------------------------------- the gate is never more lenient

  lemma QualityNeedsStructure(run: Run)
    requires ReportQualitySignal(run)
    ensures Value(run, ReportStructure) >= 0.7
  {
    assert MeetsFloor(run, ReportStructure);
  }

  /**
   The gate passes exactly when the verdict passes, both signals of a real run are there, a baseline was given and no
   core metric has regressed; and a failing verdict fails the gate.
   */
  lemma GateIsStricter(target: Run, baseline: Option<Run>)
    ensures var verdict := Verdict(target, DeltaScore(target, baseline)); var grade := GateGrade(target, baseline);
      && (grade.Pass? <==> verdict.Pass? && RealCollection(target) && RealLlm(target) && baseline.Some?
                           && CoreRegressions(RowsOf(Specs(), target, baseline)) == [])
      && (verdict.Fail? ==> grade.Fail?)
  {
    if ReportQualitySignal(target) { QualityNeedsStructure(target); }
  }

  // ---------------------------------------------------------------- a run against itself

  lemma {:induction false} UnchangedRowsDoNotRegress(rows: seq<Row>)
    requires forall i | 0 <= i < |rows| :: rows[i].normalizedDelta == Some(0.0)
    ensures CoreRegressions(rows) == []
  {
    if rows != [] { UnchangedRowsDoNotRegress(rows[..|rows| - 1]); }
  }

  lemma RoundedZero()
    ensures Rounded(0.0) == 0.0
  {
  }

  /** Compared with itself a run has no delta anywhere, and the gate falls back on the verdict and the two signals. */
  lemma SelfComparison(run: Run)
    ensures DeltaScore(run, Some(run)) == Some(0)
    ensures forall i | 0 <= i < |Specs()| ::
      var row := RowsOf(Specs(), run, Some(run))[i];
      row.status.Unchanged? && row.delta == Some(0.0) && row.normalizedDelta == Some(0.0)
    ensures GateGrade(run, Some(run)).Pass?
       <==> Verdict(run, Some(0)).Pass? && RealCollection(run) && RealLlm(run)
  {
    RoundedZero();
    SelfRows(Specs(), run);
    UnchangedRowsDoNotRegress(RowsOf(Specs(), run, Some(run)));
    GateIsStricter(run, Some(run));
  }

  lemma SelfRows(specs: seq<Spec>, run: Run)
    ensures forall i | 0 <= i < |specs| ::
      var row := RowsOf(specs, run, Some(run))[i];
      row.status.Unchanged? && row.delta == Some(0.0) && row.normalizedDelta == Some(0.0)
  {
    forall i | 0 <= i < |specs|
      ensures var row := RowsOf(specs, run, Some(run))[i];
        row.status.Unchanged? && row.delta == Some(0.0) && row.normalizedDelta == Some(0.0)
    {
      SelfRow(specs[i], run);
    }
  }

  lemma SelfRow(spec: Spec, run: Run)
    ensures var row := RowOf(run, Some(run))(spec);
      row.status.Unchanged? && row.delta == Some(0.0) && row.normalizedDelta == Some(0.0)
  {
    var v, z := Value(run, spec.name), Normalized(run, spec.name);
    assert v - v == 0.0 && z - z == 0.0;
    RoundedZero();
  }

  // ---------------------------------------------------------------- regressions are called regressions

  /** Whether more of a metric is better. */
  function DirectionOf(n: Name): Direction {
    match n
    case DuplicateSectionCount => LowerIsBetter
    case ClaimSelfConsistencyWarnings => LowerIsBetter
    case QaBlockerCount => LowerIsBetter
    case WarningCount => LowerIsBetter
    case _ => HigherIsBetter
  }

  /** Normalising follows the direction of the metric and never enlarges a difference. */
  lemma NormalizingShrinks(n: Name, before: real, value: real)
    ensures DirectionOf(n).HigherIsBetter? && value >= before
      ==> NormalizedValue(n, before) <= NormalizedValue(n, value)
    ensures DirectionOf(n).LowerIsBetter? && value <= before ==> NormalizedValue(n, before) <= NormalizedValue(n, value)
    ensures NormalizedValue(n, before) - NormalizedValue(n, value)
         <= if value > before then value - before else before - value
  {
  }

  /** A metric listed as a core regression has status regressed. */
  lemma CoreRegressionIsRegressed(spec: Spec, target: Run, baseline: Run)
    requires spec.direction == DirectionOf(spec.name)
    ensures var row := RowOf(target, Some(baseline))(spec); IsCoreRegression(row) ==> row.status.Regressed?
  {
    var before, value := Value(baseline, spec.name), Value(target, spec.name);
    NormalizingShrinks(spec.name, before, value);
    var d := NormalizedValue(spec.name, value) - NormalizedValue(spec.name, before);
    ClaimValidator.RoundBounds(d * 10000.0);
    assert IsCoreRegression(RowOf(target, Some(baseline))(spec)) ==> d < -0.14;
  }

  ghost predicate FollowsDirections(specs: seq<Spec>) {
    forall i | 0 <= i < |specs| :: specs[i].direction == DirectionOf(specs[i].name)
  }

  lemma FollowsAppend(a: seq<Spec>, b: seq<Spec>)
    requires FollowsDirections(a) && FollowsDirections(b)
    ensures FollowsDirections(a + b)
  {
  }

  /** The listed directions are these, so the statement above covers every metric of the comparison. */
  lemma SpecsFollowDirections()
    ensures FollowsDirections(Specs())
  {
    FollowsAppend(SPECS_A, SPECS_B);
    FollowsAppend(SPECS_A + SPECS_B, SPECS_C);
    FollowsAppend(SPECS_A + SPECS_B + SPECS_C, SPECS_D);
    FollowsAppend(SPECS_A + SPECS_B + SPECS_C + SPECS_D, SPECS_E);
  }

  /** An improvement never counts as a regression: with every metric at least as good, the score and the core hold. */
  lemma NothingWorseNothingLost(target: Run, baseline: Run)
    requires forall n :: Normalized(baseline, n) <= Normalized(target, n)
    ensures DeltaScore(target, Some(baseline)).value >= 0
    ensures CoreRegressions(RowsOf(Specs(), target, Some(baseline))) == []
  {
    ScoreIsMonotone(baseline, target);
    NoRegressions(Specs(), target, baseline);
  }

  lemma RoundedKeepsSign(d: real)
    requires d >= 0.0
    ensures Rounded(d) >= 0.0
  {
    ClaimValidator.RoundMonotone(0.0, d * 10000.0);
    assert ClaimValidator.RoundHalfEven(0.0) == 0;
  }

  lemma RowHolds(spec: Spec, target: Run, baseline: Run)
    requires Normalized(baseline, spec.name) <= Normalized(target, spec.name)
    ensures !IsCoreRegression(RowOf(target, Some(baseline))(spec))
  {
    RoundedKeepsSign(Normalized(target, spec.name) - Normalized(baseline, spec.name));
  }

  lemma {:induction false} NoRegressions(specs: seq<Spec>, target: Run, baseline: Run)
    requires forall n :: Normalized(baseline, n) <= Normalized(target, n)
    ensures CoreRegressions(RowsOf(specs, target, Some(baseline))) == []
  {
    if specs != [] {
      var n := |specs| - 1;
      NoRegressions(specs[..n], target, baseline);
      assert RowsOf(specs, target, Some(baseline))[..n] == RowsOf(specs[..n], target, Some(baseline));
      RowHolds(specs[n], target, baseline);
    }
  }

  // ---------------------------------------------------------------- the comparison

  /** Some row of this metric says that it has regressed. */
  ghost predicate SaysRegressed(rows: seq<Row>, n: Name) {
    exists i | 0 <= i < |rows| :: rows[i].name == n && IsCore(n) && rows[i].status.Regressed?
  }

  lemma {:induction false} ListedRegressionsAreRegressed(specs: seq<Spec>, target: Run, baseline: Option<Run>, n: Name)
    requires FollowsDirections(specs) && n in CoreRegressions(RowsOf(specs, target, baseline))
    ensures baseline.Some? && SaysRegressed(RowsOf(specs, target, baseline), n)
  {
    var k, rows := |specs| - 1, RowsOf(specs, target, baseline);
    assert rows[..k] == RowsOf(specs[..k], target, baseline);
    if n in CoreRegressions(rows[..k]) {
      ListedRegressionsAreRegressed(specs[..k], target, baseline, n);
      var i :| 0 <= i < k && rows[..k][i].name == n && IsCore(n) && rows[..k][i].status.Regressed?;
      assert rows[i] == rows[..k][i];
    } else {
      assert n == rows[k].name && IsCoreRegression(rows[k]);
      assert rows[k] == RowOf(target, baseline)(specs[k]);
      CoreRegressionIsRegressed(specs[k], target, baseline.value);
    }
  }

  /** Everything that is listed as a core regression has regressed, and against itself a run has not. */
  lemma RegressionsAreReal(target: Run, baseline: Option<Run>)
    ensures var rows := RowsOf(Specs(), target, baseline);
      && (forall n | n in CoreRegressions(rows) :: SaysRegressed(rows, n))
      && (baseline == Some(target) ==> CoreRegressions(rows) == [])
  {
    hide RowsOf, Specs, CoreRegressions, SaysRegressed;
    SpecsFollowDirections();
    forall n | n in CoreRegressions(RowsOf(Specs(), target, baseline))
      ensures SaysRegressed(RowsOf(Specs(), target, baseline), n)
    {
      ListedRegressionsAreRegressed(Specs(), target, baseline, n);
    }
    if baseline == Some(target) { NothingWorseNothingLost(target, target); }
  }

  /** Compares a run with a baseline: the gate passes only what the verdict passes, and lists only real regressions. */
  method CompareRunQuality(target: Run, baseline: Option<Run>)
    returns (delta: Option<int>, rows: seq<Row>, verdict: Grade, grade: Grade, reasons: seq<Reason>)
    ensures delta == DeltaScore(target, baseline) && rows == RowsOf(Specs(), target, baseline)
    ensures verdict == Verdict(target, delta) && grade == GateGrade(target, baseline)
    ensures grade.Fail? ==> reasons == HardReasons(target, delta, rows)
    ensures grade.Pass? ==> verdict.Pass? && baseline.Some? && RealCollection(target) && RealLlm(target)
    ensures verdict.Fail? ==> grade.Fail?
    ensures forall n | n in CoreRegressions(rows) :: SaysRegressed(rows, n)
    ensures CoreRegressions(rows) != [] ==> grade.Fail?
    ensures baseline == Some(target) ==> delta == Some(0) && CoreRegressions(rows) == []
  {
    hide RowsOf, Specs, CoreRegressions, SaysRegressed, Verdict, HardReasons, SoftReasons;
    hide Score, RealCollection, RealLlm, ReportQualitySignal;
    rows := RowsOf(Specs(), target, baseline);
    delta := DeltaScore(target, baseline);
    verdict := Verdict(target, delta);
    grade, reasons := RegressionGate(target, baseline, delta, rows);
    GateIsStricter(target, baseline);
    RegressionsAreReal(target, baseline);
  }
}
