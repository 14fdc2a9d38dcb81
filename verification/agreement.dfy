/** Four modules judge separately that a claim has no usable evidence; they agree claim by claim. */
module Agreement {
  import opened Common
  import opened Records
  import ClaimValidator
  import Evaluator
  import EvidenceGaps
  import RedTeam

  predicate ValidatorBlocks(evidence: seq<Evidence>, rules: ClaimValidator.Rules, c: Claim) {
    ClaimValidator.Validate(c, ById(evidence), rules).status.Blocked?
  }

  ghost predicate EvaluatorFinds(plan: Evaluator.Plan, competitors: seq<Competitor>, evidence: seq<Evidence>,
                                 claims: seq<Claim>, c: Claim)
  {
    exists f :: f in Evaluator.Evaluate(plan, competitors, evidence, claims)
                && f.ruleId == Evaluator.CLAIM_RULE && f.dimension == Some(c.claimType)
                && f.evidenceIds == c.evidenceIds && f.claimIds == [c.id]
  }

  predicate GapIsCritical(plan: Evaluator.Plan, competitors: seq<Competitor>, evidence: seq<Evidence>,
                          claims: seq<Claim>, c: Claim)
  {
    EvidenceGaps.ClaimGapOf(c)
    in EvidenceGaps.Analyze(
         plan, Evaluator.Evaluate(plan, competitors, evidence, claims), competitors, evidence, claims)
  }

  predicate RedTeamObjects(input: RedTeam.Input, c: Claim) { RedTeam.UnsupportedFinding(c) in RedTeam.Review(input) }

  lemma ValidatorAgrees(evidence: seq<Evidence>, rules: ClaimValidator.Rules, c: Claim)
    ensures ValidatorBlocks(evidence, rules, c) <==> Usable(ById(evidence), c.evidenceIds) == []
  {
    ClaimValidator.BlockedExactlyWhen(c, ById(evidence), rules);
    UsableIsExact(ById(evidence), c.evidenceIds);
  }

  lemma EvaluatorAgrees(plan: Evaluator.Plan, competitors: seq<Competitor>, evidence: seq<Evidence>,
                        claims: seq<Claim>, c: Claim)
    requires c in claims && exists rule :: rule in plan.rules && rule.id == Evaluator.CLAIM_RULE
    ensures EvaluatorFinds(plan, competitors, evidence, claims, c) <==> Usable(ById(evidence), c.evidenceIds) == []
  {
    if Usable(ById(evidence), c.evidenceIds) == [] {
      var rule :| rule in plan.rules && rule.id == Evaluator.CLAIM_RULE;
      Evaluator.UnusableClaimIsFound(plan, competitors, evidence, claims, rule, c);
    } else if f :| f in Evaluator.Evaluate(plan, competitors, evidence, claims)
                   && f.evidenceIds == c.evidenceIds && f.claimIds == [c.id] {
      Evaluator.ClaimFindingsAreUnusable(plan, competitors, evidence, claims, f);
    }
  }

  /**
   For every claim: the validator blocks it, the evaluator's claim rule finds it, the gap analysis has its critical gap
   and the red team calls it unsupported -- all four or none.
   */
  lemma FourJudgesAgree(plan: Evaluator.Plan, rules: ClaimValidator.Rules, input: RedTeam.Input, c: Claim)
    requires c in input.claims && RedTeam.PlainIds(input.claims)
    requires exists rule :: rule in plan.rules && rule.id == Evaluator.CLAIM_RULE
    ensures ValidatorBlocks(input.evidence, rules, c)
       <==> EvaluatorFinds(plan, input.competitors, input.evidence, input.claims, c)
    ensures ValidatorBlocks(input.evidence, rules, c)
       <==> GapIsCritical(plan, input.competitors, input.evidence, input.claims, c)
    ensures ValidatorBlocks(input.evidence, rules, c) <==> RedTeamObjects(input, c)
  {
    ValidatorAgrees(input.evidence, rules, c);
    EvaluatorAgrees(plan, input.competitors, input.evidence, input.claims, c);
    EvidenceGaps.ClaimGapsAreExact(plan, input.competitors, input.evidence, input.claims, c);
    RedTeam.UnsupportedIsExact(input, c);
  }
}
