/** The business QA rules of a plan, evaluated against competitors, evidence and claims. */
module Evaluator {
  import opened Common
  import opened Text
  import opened Lists
  import opened Records

  datatype Severity = Info | Warn | Blocker

  datatype Rule = Rule(id: string, severity: Severity, requiredDimensions: seq<string>, minSources: nat,
                       requireVerified: bool)

  /** A finding without its wording. */
  datatype Finding = Finding(ruleId: string, severity: Severity, competitorId: Option<string>,
                             dimension: Option<string>, evidenceIds: seq<string>, claimIds: seq<string>)

  /** `dimensions` are the effective analysis dimensions. */
  datatype Plan = Plan(rules: seq<Rule>, dimensions: seq<string>, layer: string, knownDimensions: seq<string>)

  // ---------------------------------------------------------------- dimensions

  predicate ContainsText(s: string, part: string) {
    exists i: nat | i <= |s| :: OccursAt(s, part, i)
  }

  predicate OccursAt(s: string, part: string, i: nat) { i + |part| <= |s| && s[i..i + |part|] == part }

  /** Two dimension names are taken for one when one occurs in the other, case and outer white space aside. */
  predicate SameDimension(left: string, right: string) {
    var l, r := Strip(Lower(left)), Strip(Lower(right));
    l == r || ContainsText(r, l) || ContainsText(l, r)
  }

  // ---------------------------------------------------------------- findings

  /** Usable evidence of a competitor for a dimension, and of that what a rule accepts. */
  function Matching(evidence: seq<Evidence>, competitorId: string, dimension: string): seq<Evidence> {
    if evidence == [] then []
    else
      var earlier, last := Matching(evidence[..|evidence| - 1], competitorId, dimension), evidence[|evidence| - 1];
      if last.competitorId == competitorId && SameDimension(last.dimension, dimension) && !IsBad(last)
      then earlier + [last] else earlier
  }

  function Eligible(matching: seq<Evidence>, requireVerified: bool): seq<Evidence> {
    if matching == [] then []
    else
      var earlier, last := Eligible(matching[..|matching| - 1], requireVerified), matching[|matching| - 1];
      if !requireVerified || last.sourceType == VERIFIED then earlier + [last] else earlier
  }

  function IdsOf(evidence: seq<Evidence>): seq<string> {
    seq(|evidence|, i requires 0 <= i < |evidence| => evidence[i].id)
  }

  function CoverageOf(rule: Rule, competitor: Competitor, evidence: seq<Evidence>): string -> seq<Finding> {
    (dimension: string) =>
      var matching := Matching(evidence, competitor.id, dimension);
      if |Eligible(matching, rule.requireVerified)| >= rule.minSources then []
      else [Finding(rule.id, rule.severity, Some(competitor.id), Some(dimension), IdsOf(matching), [])]
  }

  function CoverageOfCompetitor(rule: Rule, dimensions: seq<string>, evidence: seq<Evidence>)
    : Competitor -> seq<Finding>
  {
    (competitor: Competitor) => Collect(dimensions, CoverageOf(rule, competitor, evidence))
  }

  function DimensionsForRule(rule: Rule, plan: Plan): seq<string> {
    if rule.requiredDimensions != [] then rule.requiredDimensions else plan.dimensions
  }

  method CoverageFindings(rule: Rule, plan: Plan, competitors: seq<Competitor>, evidence: seq<Evidence>)
    returns (findings: seq<Finding>)
    ensures findings == Collect(competitors, CoverageOfCompetitor(rule, DimensionsForRule(rule, plan), evidence))
  {
    findings := [];
    var dimensions := DimensionsForRule(rule, plan);
    for c := 0 to |competitors|
      invariant findings == Collect(competitors[..c], CoverageOfCompetitor(rule, dimensions, evidence))
    {
      var more := CompetitorCoverage(rule, competitors[c], dimensions, evidence);
      assert competitors[..c + 1][..c] == competitors[..c];
      findings := findings + more;
    }
    assert competitors[..|competitors|] == competitors;
  }

  /** The inner loop: one competitor, dimension by dimension. */
  method CompetitorCoverage(rule: Rule, competitor: Competitor, dimensions: seq<string>, evidence: seq<Evidence>)
    returns (findings: seq<Finding>)
    ensures findings == Collect(dimensions, CoverageOf(rule, competitor, evidence))
  {
    hide Matching, Eligible, IdsOf;
    findings := [];
    for d := 0 to |dimensions|
      invariant findings == Collect(dimensions[..d], CoverageOf(rule, competitor, evidence))
    {
      var matching := Matching(evidence, competitor.id, dimensions[d]);
      assert dimensions[..d + 1][..d] == dimensions[..d];
      if |Eligible(matching, rule.requireVerified)| < rule.minSources {
        findings := findings + [Finding(rule.id, rule.severity, Some(competitor.id), Some(dimensions[d]),
                                        IdsOf(matching), [])];
      }
    }
    assert dimensions[..|dimensions|] == dimensions;
  }

  function LinkageOf(rule: Rule, byId: map<string, Evidence>): Claim -> seq<Finding> {
    (claim: Claim) =>
      if UsableAmong(Linked(byId, claim.evidenceIds)) != [] then []
      else [Finding(rule.id, rule.severity, None, Some(claim.claimType), claim.evidenceIds, [claim.id])]
  }

  method ClaimLinkageFindings(rule: Rule, evidence: seq<Evidence>, claims: seq<Claim>) returns (findings: seq<Finding>)
    ensures findings == Collect(claims, LinkageOf(rule, ById(evidence)))
  {
    var byId := ById(evidence);
    findings := [];
    for i := 0 to |claims|
      invariant findings == Collect(claims[..i], LinkageOf(rule, byId))
    {
      assert claims[..i + 1][..i] == claims[..i];
      var usable := UsableAmong(Linked(byId, claims[i].evidenceIds));
      if usable == [] {
        findings := findings + [Finding(rule.id, rule.severity, None, Some(claims[i].claimType),
                                        claims[i].evidenceIds, [claims[i].id])];
      }
    }
    assert claims[..|claims|] == claims;
  }

  function HomepageOf(rule: Rule): Competitor -> seq<Finding> {
    (c: Competitor) =>
      if c.hasHomepage then [] else [Finding(rule.id, rule.severity, Some(c.id), Some("homepage"), [], [])]
  }

  function ReliabilityOf(rule: Rule): Evidence -> seq<Finding> {
    (e: Evidence) =>
      if IsBad(e) || e.reliability >= 0.5 then []
      else [Finding(rule.id, rule.severity, None, Some(e.dimension), [e.id], [])]
  }

  function LandscapeOf(rule: Rule, competitors: seq<Competitor>): seq<Finding> {
    if |competitors| >= 4 then [] else [Finding(rule.id, rule.severity, None, Some("market"), [], [])]
  }

  const CLAIM_RULE := "claim_has_evidence"

  /** The findings of one rule; rules without a computation of their own check coverage. */
  function RuleFindings(plan: Plan, competitors: seq<Competitor>, evidence: seq<Evidence>, claims: seq<Claim>)
    : Rule -> seq<Finding>
  {
    (rule: Rule) =>
      if rule.id == CLAIM_RULE then Collect(claims, LinkageOf(rule, ById(evidence)))
      else if rule.id == "landscape_breadth" then LandscapeOf(rule, competitors)
      else if rule.id == "homepage_verified" then Collect(competitors, HomepageOf(rule))
      else if rule.id == "source_reliability_min" then Collect(evidence, ReliabilityOf(rule))
      else Collect(competitors, CoverageOfCompetitor(rule, DimensionsForRule(rule, plan), evidence))
  }

  /** All findings, rule by rule. */
  function Evaluate(plan: Plan, competitors: seq<Competitor>, evidence: seq<Evidence>, claims: seq<Claim>)
    : seq<Finding>
  {
    Collect(plan.rules, RuleFindings(plan, competitors, evidence, claims))
  }

  method EvaluateBusinessQa(plan: Plan, competitors: seq<Competitor>, evidence: seq<Evidence>, claims: seq<Claim>)
    returns (findings: seq<Finding>)
    ensures findings == Evaluate(plan, competitors, evidence, claims)
  {
    findings := [];
    for i := 0 to |plan.rules|
      invariant findings == Collect(plan.rules[..i], RuleFindings(plan, competitors, evidence, claims))
    {
      var rule := plan.rules[i];
      assert plan.rules[..i + 1][..i] == plan.rules[..i];
      var more;
      if rule.id == CLAIM_RULE {
        more := ClaimLinkageFindings(rule, evidence, claims);
      } else if rule.id == "landscape_breadth" {
        more := LandscapeOf(rule, competitors);
      } else if rule.id == "homepage_verified" {
        more := Collect(competitors, HomepageOf(rule));
      } else if rule.id == "source_reliability_min" {
        more := Collect(evidence, ReliabilityOf(rule));
      } else {
        more := CoverageFindings(rule, plan, competitors, evidence);
      }
      findings := findings + more;
    }
    assert plan.rules[..|plan.rules|] == plan.rules;
  }

  // ---------------------------------------------------------------- which claims are found

  /** The linkage findings are exactly one per claim without usable evidence, whatever the rule. */
  lemma LinkageIsExact(rule: Rule, evidence: seq<Evidence>, claims: seq<Claim>, f: Finding)
    ensures f in Collect(claims, LinkageOf(rule, ById(evidence)))
       <==> exists c :: c in claims && Usable(ById(evidence), c.evidenceIds) == []
                      && f == Finding(rule.id, rule.severity, None, Some(c.claimType), c.evidenceIds, [c.id])
  {
    CollectHas(claims, LinkageOf(rule, ById(evidence)), f);
  }

  /** A finding that names a claim comes from the claim rule and names a claim without usable evidence. */
  lemma ClaimFindingsAreUnusable(plan: Plan, competitors: seq<Competitor>, evidence: seq<Evidence>, claims: seq<Claim>,
                                 f: Finding)
    requires f in Evaluate(plan, competitors, evidence, claims) && f.claimIds != []
    ensures Usable(ById(evidence), f.evidenceIds) == []
    ensures f.ruleId == CLAIM_RULE
  {
    var byRule := RuleFindings(plan, competitors, evidence, claims);
    CollectHas(plan.rules, byRule, f);
    var rule :| rule in plan.rules && f in byRule(rule);
    if rule.id == CLAIM_RULE {
      LinkageIsExact(rule, evidence, claims, f);
    } else {
      OtherFindingsNameNoClaim(rule, plan, competitors, evidence, f);
    }
  }

  /** Every claim without usable evidence has a finding under a claim rule. */
  lemma UnusableClaimIsFound(plan: Plan, competitors: seq<Competitor>, evidence: seq<Evidence>, claims: seq<Claim>,
                             rule: Rule, c: Claim)
    requires rule in plan.rules && rule.id == CLAIM_RULE
    requires c in claims && Usable(ById(evidence), c.evidenceIds) == []
    ensures Finding(rule.id, rule.severity, None, Some(c.claimType), c.evidenceIds, [c.id])
         in Evaluate(plan, competitors, evidence, claims)
  {
    var f := Finding(rule.id, rule.severity, None, Some(c.claimType), c.evidenceIds, [c.id]);
    LinkageIsExact(rule, evidence, claims, f);
    CollectHas(plan.rules, RuleFindings(plan, competitors, evidence, claims), f);
    assert f in RuleFindings(plan, competitors, evidence, claims)(rule);
  }

  lemma CompetitorCoverageNamesNoClaim(rule: Rule, dimensions: seq<string>, c: Competitor, evidence: seq<Evidence>,
                                       f: Finding)
    requires f in Collect(dimensions, CoverageOf(rule, c, evidence))
    ensures f.claimIds == []
  {
    CollectHas(dimensions, CoverageOf(rule, c, evidence), f);
  }

  lemma CoverageNamesNoClaim(rule: Rule, dimensions: seq<string>, competitors: seq<Competitor>, evidence: seq<Evidence>,
                             f: Finding)
    requires f in Collect(competitors, CoverageOfCompetitor(rule, dimensions, evidence))
    ensures f.claimIds == []
  {
    CollectHas(competitors, CoverageOfCompetitor(rule, dimensions, evidence), f);
    var c :| c in competitors && f in CoverageOfCompetitor(rule, dimensions, evidence)(c);
    CompetitorCoverageNamesNoClaim(rule, dimensions, c, evidence, f);
  }

  lemma OtherFindingsNameNoClaim(rule: Rule, plan: Plan, competitors: seq<Competitor>, evidence: seq<Evidence>,
                                 f: Finding)
    requires rule.id != CLAIM_RULE && f in RuleFindings(plan, competitors, evidence, [])(rule)
    ensures f.claimIds == []
  {
    CollectHas(competitors, HomepageOf(rule), f);
    CollectHas(evidence, ReliabilityOf(rule), f);
    var dimensions := DimensionsForRule(rule, plan);
    if f in Collect(competitors, CoverageOfCompetitor(rule, dimensions, evidence)) {
      CoverageNamesNoClaim(rule, dimensions, competitors, evidence, f);
    }
  }

  // ---------------------------------------------------------------- when two dimension names are one

  lemma SameDimensionIsSymmetric(a: string, b: string)
    ensures SameDimension(a, b) <==> SameDimension(b, a)
    ensures SameDimension(a, a)
  {
  }

  lemma LowerJoins(a: string, b: string)
    ensures Lower(a + b) == Lower(a) + Lower(b)
  {
  }

  /** Whatever is written around a name, it stays the same dimension; so a name without letters is every dimension. */
  lemma LongerNameIsTheSame(before: string, name: string, after: string)
    ensures SameDimension(before + name + after, name)
  {
    LowerJoins(before + name, after);
    LowerJoins(before, name);
    PartIsFound(Lower(before), Lower(name), Lower(after));
  }

  lemma PartIsFound(before: string, name: string, after: string)
    ensures ContainsText(Strip(before + name + after), Strip(name))
  {
    var whole := before + name + after;
    var from := TrimShape(name, IsSpace);
    var start := TrimShape(whole, IsSpace);
    var part, all := Strip(name), Strip(whole);
    if part == "" {
      assert OccursAt(all, part, 0);
    } else {
      hide IsSpace, Trim;
      PartLies(before, name, after, from, |part|);
      var i := InsideTrimmed(whole, start, |all|, |before| + from, |part|);
      assert OccursAt(all, part, i);
    }
  }

  lemma PartLies(before: string, name: string, after: string, from: nat, length: nat)
    requires from + length <= |name|
    ensures var at := |before| + from;
      at + length <= |before + name + after|
      && (before + name + after)[at..at + length] == name[from..from + length]
  {
  }

  lemma SliceOfSlice(s: string, start: nat, length: nat, at: nat, size: nat)
    requires start <= at && at + size <= start + length <= |s|
    ensures s[start..start + length][at - start..at - start + size] == s[at..at + size]
  {
    var all, i := s[start..start + length], at - start;
    var inner, outer := all[i..i + size], s[at..at + size];
    forall k | 0 <= k < size
      ensures inner[k] == outer[k]
    {
      assert inner[k] == all[i + k];
    }
  }

  /** A part that begins and ends with other characters lies within what is left when white space is trimmed off. */
  lemma InsideTrimmed(s: string, start: nat, length: nat, at: nat, size: nat) returns (i: nat)
    requires start + length <= |s| && 0 < size && at + size <= |s|
    requires (forall i | 0 <= i < start :: IsSpace(s[i])) && forall i | start + length <= i < |s| :: IsSpace(s[i])
    requires !IsSpace(s[at..at + size][0]) && !IsSpace(s[at..at + size][size - 1])
    ensures i <= length && OccursAt(s[start..start + length], s[at..at + size], i)
  {
    hide IsSpace;
    var part, all := s[at..at + size], s[start..start + length];
    assert s[at] == part[0] && s[at + size - 1] == part[size - 1];
    assert start <= at && at + size - 1 < start + length;
    SliceOfSlice(s, start, length, at, size);
    i := at - start;
  }

  /** Names of which neither occurs in the other, stripped and in lower case, are two dimensions. */
  lemma UnrelatedNamesDiffer(a: string, b: string)
    ensures SameDimension(a, b)
       <==> (exists i: nat :: OccursAt(Strip(Lower(a)), Strip(Lower(b)), i))
            || exists i: nat :: OccursAt(Strip(Lower(b)), Strip(Lower(a)), i)
  {
    var l, r := Strip(Lower(a)), Strip(Lower(b));
    if l == r { assert OccursAt(l, r, 0); }
  }

  // ---------------------------------------------------------------- every finding, over the records

  /** Usable evidence of the competitor whose dimension counts as `dimension`. */
  predicate Covers(e: Evidence, competitorId: string, dimension: string) {
    && e.competitorId == competitorId && SameDimension(e.dimension, dimension)
    && (e.quality == Accepted || e.quality == Unreviewed)
  }

  predicate CoversWith(e: Evidence, competitorId: string, dimension: string, requireVerified: bool) {
    Covers(e, competitorId, dimension) && (requireVerified ==> e.sourceType == VERIFIED)
  }

  /** The evidence found for a competitor and a dimension is all that covers it, in order. */
  lemma {:induction false} MatchingIsExact(evidence: seq<Evidence>, competitorId: string, dimension: string)
    ensures forall e :: e in Matching(evidence, competitorId, dimension)
                   <==> e in evidence && Covers(e, competitorId, dimension)
    ensures |Matching(evidence, competitorId, dimension)|
         == Count(evidence, (e: Evidence) => Covers(e, competitorId, dimension))
  {
    hide SameDimension;
    if evidence != [] {
      var n := |evidence| - 1;
      MatchingIsExact(evidence[..n], competitorId, dimension);
      assert forall e :: e in evidence <==> e in evidence[..n] || e == evidence[n];
    }
  }

  lemma {:induction false} MatchingAppend(a: seq<Evidence>, b: seq<Evidence>, competitorId: string, dimension: string)
    ensures Matching(a + b, competitorId, dimension)
         == Matching(a, competitorId, dimension) + Matching(b, competitorId, dimension)
  {
    hide SameDimension;
    if b == [] {
      assert a + b == a;
    } else {
      var n := |b| - 1;
      MatchingAppend(a, b[..n], competitorId, dimension);
      assert (a + b)[..|a + b| - 1] == a + b[..n];
    }
  }

  lemma {:induction false} EligibleAreCounted(evidence: seq<Evidence>, competitorId: string, dimension: string,
                                              requireVerified: bool)
    ensures |Eligible(Matching(evidence, competitorId, dimension), requireVerified)|
         == Count(evidence, (e: Evidence) => CoversWith(e, competitorId, dimension, requireVerified))
  {
    hide SameDimension;
    if evidence != [] {
      var n := |evidence| - 1;
      EligibleAreCounted(evidence[..n], competitorId, dimension, requireVerified);
      var front := Matching(evidence[..n], competitorId, dimension);
      TakeAppend(front, [evidence[n]]);
    }
  }

  /** The dimensions a coverage rule asks for: its own, or those of the plan when it names none. */
  predicate AsksFor(rule: Rule, plan: Plan, dimension: string) {
    dimension in rule.requiredDimensions || (|rule.requiredDimensions| == 0 && dimension in plan.dimensions)
  }

  /** What it takes for `rule` to raise the finding `f`, spelled out over competitors, evidence and claims. */
  ghost predicate Raises(plan: Plan, competitors: seq<Competitor>, evidence: seq<Evidence>, claims: seq<Claim>,
                         rule: Rule, f: Finding)
  {
    if rule.id == CLAIM_RULE then
      exists c :: c in claims && LeadsNowhere(evidence, c)
        && f == Finding(rule.id, rule.severity, None, Some(c.claimType), c.evidenceIds, [c.id])
    else if rule.id == "landscape_breadth" then
      |competitors| < 4 && f == Finding(rule.id, rule.severity, None, Some("market"), [], [])
    else if rule.id == "homepage_verified" then
      exists c :: c in competitors && !c.hasHomepage
        && f == Finding(rule.id, rule.severity, Some(c.id), Some("homepage"), [], [])
    else if rule.id == "source_reliability_min" then
      exists e :: e in evidence && e.reliability < 0.5 && (e.quality == Accepted || e.quality == Unreviewed)
        && f == Finding(rule.id, rule.severity, None, Some(e.dimension), [e.id], [])
    else
      exists c, d :: c in competitors && AsksFor(rule, plan, d) && LacksSources(rule, evidence, c, d, f)
  }

  /** None of the ids of the claim leads to usable evidence. */
  ghost predicate LeadsNowhere(evidence: seq<Evidence>, c: Claim) {
    forall i | 0 <= i < |c.evidenceIds| :: UsableEvidence(ById(evidence), c.evidenceIds[i]).None?
  }

  ghost predicate LacksSources(rule: Rule, evidence: seq<Evidence>, c: Competitor, d: string, f: Finding) {
    && Count(evidence, (e: Evidence) => CoversWith(e, c.id, d, rule.requireVerified)) < rule.minSources
    && f == Finding(rule.id, rule.severity, Some(c.id), Some(d), IdsOf(Matching(evidence, c.id, d)), [])
  }

  /** Sound and complete: the findings are exactly those some rule of the plan raises. */
  lemma FindingsAreExact(plan: Plan, competitors: seq<Competitor>, evidence: seq<Evidence>, claims: seq<Claim>,
                         f: Finding)
    ensures f in Evaluate(plan, competitors, evidence, claims)
       <==> exists rule :: rule in plan.rules && Raises(plan, competitors, evidence, claims, rule, f)
  {
    hide Raises, RuleFindings;
    var byRule := RuleFindings(plan, competitors, evidence, claims);
    CollectHas(plan.rules, byRule, f);
    forall rule: Rule
      ensures f in byRule(rule) <==> Raises(plan, competitors, evidence, claims, rule, f)
    {
      RuleIsExact(plan, competitors, evidence, claims, rule, f);
    }
  }

  lemma RuleIsExact(plan: Plan, competitors: seq<Competitor>, evidence: seq<Evidence>, claims: seq<Claim>,
                    rule: Rule, f: Finding)
    ensures f in RuleFindings(plan, competitors, evidence, claims)(rule)
       <==> Raises(plan, competitors, evidence, claims, rule, f)
  {
    hide LacksSources, LeadsNowhere, AsksFor, SameDimension, Usable;
    if rule.id == CLAIM_RULE {
      LinkageIsExact(rule, evidence, claims, f);
      forall c: Claim
        ensures Usable(ById(evidence), c.evidenceIds) == [] <==> LeadsNowhere(evidence, c)
      {
        NowhereMeansUnusable(evidence, c);
      }
    } else if rule.id == "homepage_verified" {
      CollectHas(competitors, HomepageOf(rule), f);
    } else if rule.id == "source_reliability_min" {
      CollectHas(evidence, ReliabilityOf(rule), f);
    } else if rule.id != "landscape_breadth" {
      CoverageIsExact(plan, competitors, evidence, rule, f);
    }
  }

  lemma NowhereMeansUnusable(evidence: seq<Evidence>, c: Claim)
    ensures Usable(ById(evidence), c.evidenceIds) == [] <==> LeadsNowhere(evidence, c)
  {
    UsableIsExact(ById(evidence), c.evidenceIds);
  }

  lemma CoverageIsExact(plan: Plan, competitors: seq<Competitor>, evidence: seq<Evidence>, rule: Rule, f: Finding)
    ensures f in Collect(competitors, CoverageOfCompetitor(rule, DimensionsForRule(rule, plan), evidence))
       <==> exists c, d :: c in competitors && AsksFor(rule, plan, d) && LacksSources(rule, evidence, c, d, f)
  {
    hide LacksSources;
    var dimensions := DimensionsForRule(rule, plan);
    var byCompetitor := CoverageOfCompetitor(rule, dimensions, evidence);
    CollectHas(competitors, byCompetitor, f);
    forall c: Competitor
      ensures f in byCompetitor(c) <==> exists d :: AsksFor(rule, plan, d) && LacksSources(rule, evidence, c, d, f)
    {
      CollectHas(dimensions, CoverageOf(rule, c, evidence), f);
      forall d: string
        ensures f in CoverageOf(rule, c, evidence)(d) <==> LacksSources(rule, evidence, c, d, f)
      {
        EligibleAreCounted(evidence, c.id, d, rule.requireVerified);
        OneDimension(rule, evidence, c, d, f);
      }
    }
  }

  lemma OneDimension(rule: Rule, evidence: seq<Evidence>, c: Competitor, d: string, f: Finding)
    ensures f in CoverageOf(rule, c, evidence)(d) <==> LacksSources(rule, evidence, c, d, f)
  {
    hide Matching, Eligible, Count, CoversWith;
    EligibleAreCounted(evidence, c.id, d, rule.requireVerified);
  }
}
