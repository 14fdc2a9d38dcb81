/** When a gap-fill run has improved the release gate, and why improvements cannot go on forever. */
module GateProgress {
  import opened Common
  import opened ReleaseGate
  import GateDecision

  datatype Delta = Delta(blockers: int, warns: int, readiness: int, improved: bool)

  /** `after` is nowhere worse in its counts than `before`, and better in something. */
  predicate Improved(before: Gate, after: Gate) {
    && after.blockerCount <= before.blockerCount && after.warnCount <= before.warnCount
    && ((after.allowed && !before.allowed)
        || before.blockerCount > after.blockerCount
        || before.warnCount > after.warnCount
        || after.readiness.score > before.readiness.score)
  }

  /** The comparison recorded with a gap-fill result; nothing is recorded unless both reports could be judged. */
  function GapFillDelta(source: Option<Gate>, updated: Option<Gate>): Option<Delta> {
    if source.None? || updated.None? then None
    else
      var s, u := source.value, updated.value;
      Some(Delta(s.blockerCount - u.blockerCount, s.warnCount - u.warnCount, u.readiness.score - s.readiness.score,
                 Improved(s, u)))
  }

  /** An improvement opened the gate or shows in one of the recorded deltas, and no count got worse. */
  lemma ImprovedShowsInDeltas(source: Gate, updated: Gate)
    requires IsJudged(source) && IsJudged(updated)
    ensures var d := GapFillDelta(Some(source), Some(updated)).value;
      d.improved <==> d.blockers >= 0 && d.warns >= 0 && (d.blockers > 0 || d.warns > 0 || d.readiness > 0)
  {
  }

  /** What gates have in common: open exactly without blockers, and the readiness score the schema allows. */
  ghost predicate IsJudged(g: Gate) { (g.allowed <==> g.blockerCount == 0) && 0 <= g.readiness.score <= 100 }

  lemma GatesAreJudged(ctx: Context, s: Scope)
    requires 0 <= ReadinessOf(ctx, s).score <= 100
    ensures IsJudged(Judge(ctx, s))
  {
    GateDecision.AllowedMeansNoBlockers(ctx, s);
  }

  /** Improvement is a strict partial order. */
  lemma ImprovementIsAnOrder(a: Gate, b: Gate, c: Gate)
    requires IsJudged(a) && IsJudged(b) && IsJudged(c)
    ensures !Improved(a, a)
    ensures Improved(a, b) ==> !Improved(b, a)
    ensures Improved(a, b) && Improved(b, c) ==> Improved(a, c)
  {
  }

  /** How far a gate can still improve. */
  function Room(g: Gate): int { 101 * (g.blockerCount + g.warnCount) + 100 - g.readiness.score }

  lemma ImprovementTakesRoom(before: Gate, after: Gate)
    requires IsJudged(before) && IsJudged(after) && Improved(before, after)
    ensures 0 <= Room(after) < Room(before)
  {
    var b, a := before.blockerCount + before.warnCount, after.blockerCount + after.warnCount;
    if a == b {
      assert after.readiness.score > before.readiness.score;
    } else {
      assert 101 * a <= 101 * (b - 1);
    }
  }

  /** Judged gates, each an improvement of the one before. */
  ghost predicate IsChain(gates: seq<Gate>) {
    && (forall i | 0 <= i < |gates| :: IsJudged(gates[i]))
    && (forall i, j | 0 <= i < j == i + 1 < |gates| :: Improved(gates[i], gates[j]))
  }

  lemma {:induction false} ChainTakesRoom(gates: seq<Gate>)
    requires gates != [] && IsChain(gates)
    ensures 0 <= Room(gates[|gates| - 1]) <= Room(gates[0]) - (|gates| - 1)
  {
    var n := |gates| - 1;
    if n > 0 {
      ChainTakesRoom(gates[..n]);
      assert Improved(gates[n - 1], gates[n]);
      ImprovementTakesRoom(gates[n - 1], gates[n]);
    }
  }

  /** No chain of improvements is longer than the room of its first gate, and none comes back to where it was. */
  lemma ImprovementsEnd(gates: seq<Gate>)
    requires gates != [] && IsChain(gates)
    ensures |gates| <= Room(gates[0]) + 1
    ensures forall i, j | 0 <= i < j < |gates| :: gates[i] != gates[j]
  {
    ChainTakesRoom(gates);
    forall i, j | 0 <= i < j < |gates|
      ensures gates[i] != gates[j]
    {
      ChainTakesRoom(gates[i..j + 1]);
    }
  }

  /** What one evaluation of the gate looks at. */
  datatype Evaluation = Evaluation(ctx: Context, scope: Scope)

  function GateOf(e: Evaluation): Gate { Judge(e.ctx, e.scope) }

  /** Evaluations with a readiness score the schema allows, each with a better gate than the one before. */
  ghost predicate AreImprovements(evaluations: seq<Evaluation>) {
    && (forall i | 0 <= i < |evaluations| :: 0 <= ReadinessOf(evaluations[i].ctx, evaluations[i].scope).score <= 100)
    && (forall i, j | 0 <= i < j == i + 1 < |evaluations| :: Improved(GateOf(evaluations[i]), GateOf(evaluations[j])))
  }

  /** So whatever reports are evaluated, improvements of the gate end, and no gate is met a second time on the way. */
  lemma GateImprovementsEnd(evaluations: seq<Evaluation>)
    requires evaluations != [] && AreImprovements(evaluations)
    ensures |evaluations| <= Room(GateOf(evaluations[0])) + 1
    ensures forall i, j | 0 <= i < j < |evaluations| :: GateOf(evaluations[i]) != GateOf(evaluations[j])
  {
    var gates := seq(|evaluations|, i requires 0 <= i < |evaluations| => GateOf(evaluations[i]));
    forall i | 0 <= i < |gates|
      ensures IsJudged(gates[i])
    {
      GatesAreJudged(evaluations[i].ctx, evaluations[i].scope);
    }
    hide Judge, IsJudged, Improved, Room, ReadinessOf;
    ImprovementsEnd(gates);
    forall i, j | 0 <= i < j < |evaluations|
      ensures GateOf(evaluations[i]) != GateOf(evaluations[j])
    {
      assert gates[i] != gates[j];
    }
  }

  /** Two gates improve on each other exactly when one is closed, both have equal counts, and it scores higher. */
  lemma CyclesExactlyWhen(a: Gate, b: Gate)
    ensures Improved(a, b) && Improved(b, a)
       <==> a.blockerCount == b.blockerCount && a.warnCount == b.warnCount
            && ((b.allowed && !a.allowed && a.readiness.score > b.readiness.score)
                || (a.allowed && !b.allowed && b.readiness.score > a.readiness.score))
  {
  }
}
