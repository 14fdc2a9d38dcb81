/**
 The claim validator: three scores per claim, their combination, the status they lead to and the report's counts.
 Scores are computed over exact reals, with Python's rounding of halves to even.
 */
module ClaimValidator {
  import opened Common
  import opened Records

  // ---------------------------------------------------------------- rounding

  function RoundHalfEven(x: real): int {
    var down := x.Floor;
    var rest := x - down as real;
    if rest < 0.5 then down
    else if rest > 0.5 then down + 1
    else if down % 2 == 0 then down else down + 1
  }

  lemma RoundBounds(x: real)
    ensures x - 0.5 <= RoundHalfEven(x) as real <= x + 0.5
  {
  }

  lemma RoundMonotone(x: real, y: real)
    requires x <= y
    ensures RoundHalfEven(x) <= RoundHalfEven(y)
  {
    assert x.Floor <= y.Floor;
  }

  lemma RoundWithin(x: real, lo: int, hi: int)
    requires lo as real <= x <= hi as real
    ensures lo <= RoundHalfEven(x) <= hi
  {
    RoundMonotone(lo as real, x);
    RoundMonotone(x, hi as real);
  }

  // ---------------------------------------------------------------- the three scores

  function Max(a: real, b: real): real { if a > b then a else b }

  function Min(a: real, b: real): real { if a < b then a else b }

  /** The best value over the evidence, starting from zero. */
  function Best(evidence: seq<Evidence>, value: Evidence -> real): real {
    if evidence == [] then 0.0 else Max(Best(evidence[..|evidence| - 1], value), value(evidence[|evidence| - 1]))
  }

  /** How well one piece of evidence covers the words of a claim. */
  function Support(tokens: set<string>, e: Evidence): real {
    if tokens == {} then 0.0 else
    var overlap := |tokens * e.tokens| as real / |tokens| as real;
    var qualityBoost := if e.quality.Accepted? then 0.15 else 0.0;
    Min(overlap + qualityBoost + Min(e.reliability, 1.0) * 0.15, 1.0)
  }

  function SupportFor(tokens: set<string>): Evidence -> real { e => Support(tokens, e) }

  function QualityBoost(quality: Quality): real {
    match quality
    case Accepted => 0.16
    case Unreviewed => 0.04
    case Rejected => -0.35
    case Stale => -0.35
  }

  function EvidenceQuality(e: Evidence): real {
    var sourceBoost := if e.sourceType == VERIFIED then 0.18 else 0.0;
    Min(Max(e.reliability + sourceBoost + QualityBoost(e.quality), 0.0), 1.0)
  }

  function TextScore(tokens: set<string>, evidence: seq<Evidence>): int {
    if evidence == [] || tokens == {} then 0
    else RoundHalfEven(Best(evidence, SupportFor(tokens)) * 100.0)
  }

  function QualityScore(evidence: seq<Evidence>): int {
    if evidence == [] then 0 else RoundHalfEven(Best(evidence, EvidenceQuality) * 100.0)
  }

  function Domains(evidence: seq<Evidence>): set<string> {
    (set e | e in evidence :: e.domain) - {""}
  }

  predicate IsVerified(e: Evidence) { e.sourceType == VERIFIED }

  function TriangulationScore(evidence: seq<Evidence>): int {
    if evidence == [] then 0
    else
      var verified := Count(evidence, IsVerified);
      if |Domains(evidence)| >= 2 && verified >= 2 then 100
      else if |evidence| >= 2 && verified >= 1 then 85
      else if verified >= 1 then 70
      else 45
  }

  function RawCombined(text: int, quality: int, triangulation: int): real {
    text as real * 0.5 + quality as real * 0.3 + triangulation as real * 0.2
  }

  function Combined(text: int, quality: int, triangulation: int): int {
    RoundHalfEven(RawCombined(text, quality, triangulation))
  }

  method ComputeTextScore(tokens: set<string>, evidence: seq<Evidence>) returns (score: int)
    ensures score == TextScore(tokens, evidence)
  {
    if evidence == [] || tokens == {} {
      return 0;
    }
    var best := 0.0;
    for i := 0 to |evidence|
      invariant best == Best(evidence[..i], SupportFor(tokens))
    {
      assert evidence[..i + 1][..i] == evidence[..i];
      best := Max(best, Support(tokens, evidence[i]));
    }
    assert evidence[..|evidence|] == evidence;
    return RoundHalfEven(best * 100.0);
  }

  method ComputeQualityScore(evidence: seq<Evidence>) returns (score: int)
    ensures score == QualityScore(evidence)
  {
    if evidence == [] {
      return 0;
    }
    var best := 0.0;
    for i := 0 to |evidence|
      invariant best == Best(evidence[..i], EvidenceQuality)
    {
      assert evidence[..i + 1][..i] == evidence[..i];
      best := Max(best, EvidenceQuality(evidence[i]));
    }
    assert evidence[..|evidence|] == evidence;
    return RoundHalfEven(best * 100.0);
  }

  // ---------------------------------------------------------------- bounds and monotonicity

  lemma {:induction false} BestBounds(evidence: seq<Evidence>, value: Evidence -> real)
    requires forall e | e in evidence :: value(e) <= 1.0
    ensures 0.0 <= Best(evidence, value) <= 1.0
    ensures forall e | e in evidence :: value(e) <= Best(evidence, value)
    ensures Best(evidence, value) == 0.0 || exists e :: e in evidence && value(e) == Best(evidence, value)
  {
    if evidence != [] {
      var n := |evidence| - 1;
      assert forall e :: e in evidence <==> e in evidence[..n] || e == evidence[n];
      BestBounds(evidence[..n], value);
    }
  }

  lemma BestGrows(evidence: seq<Evidence>, more: seq<Evidence>, value: Evidence -> real)
    requires forall e | e in more :: value(e) <= 1.0
    requires forall e | e in evidence :: e in more
    ensures Best(evidence, value) <= Best(more, value)
  {
    BestBounds(evidence, value);
    BestBounds(more, value);
  }

  /** All scores lie between 0 and 100. */
  lemma ScoresAreBounded(tokens: set<string>, evidence: seq<Evidence>)
    ensures 0 <= TextScore(tokens, evidence) <= 100
    ensures 0 <= QualityScore(evidence) <= 100
    ensures 0 <= TriangulationScore(evidence) <= 100
  {
    if evidence != [] {
      if tokens != {} {
        BestBounds(evidence, SupportFor(tokens));
        RoundWithin(Best(evidence, SupportFor(tokens)) * 100.0, 0, 100);
      }
      BestBounds(evidence, EvidenceQuality);
      RoundWithin(Best(evidence, EvidenceQuality) * 100.0, 0, 100);
    }
  }

  lemma CombinedIsBounded(text: int, quality: int, triangulation: int)
    requires 0 <= text <= 100 && 0 <= quality <= 100 && 0 <= triangulation <= 100
    ensures 0 <= Combined(text, quality, triangulation) <= 100
  {
    RoundWithin(RawCombined(text, quality, triangulation), 0, 100);
  }

  lemma {:induction false} CountInsert(a: seq<Evidence>, e: Evidence, b: seq<Evidence>, p: Evidence -> bool)
    ensures Count(a + [e] + b, p) == Count(a + b, p) + (if p(e) then 1 else 0)
  {
    if b == [] {
      assert a + [e] + b == a + [e] && a + b == a;
      assert (a + [e])[..|a|] == a;
    } else {
      var n := |b| - 1;
      CountInsert(a, e, b[..n], p);
      assert (a + [e] + b)[..|a| + 1 + n] == a + [e] + b[..n];
      assert (a + b)[..|a| + n] == a + b[..n];
    }
  }

  lemma TriangulationGrows(a: seq<Evidence>, e: Evidence, b: seq<Evidence>)
    ensures TriangulationScore(a + b) <= TriangulationScore(a + [e] + b)
  {
    CountInsert(a, e, b, IsVerified);
    DomainsGrow(a, e, b);
  }

  lemma DomainsGrow(a: seq<Evidence>, e: Evidence, b: seq<Evidence>)
    ensures |Domains(a + b)| <= |Domains(a + [e] + b)|
  {
    assert forall x :: x in a + [e] + b <==> x in a + b || x == e;
    SubsetSize(Domains(a + b), Domains(a + [e] + b));
  }

  lemma {:induction false} SubsetSize(s: set<string>, t: set<string>)
    requires s <= t
    ensures |s| <= |t|
    decreases s
  {
    if x :| x in s {
      SubsetSize(s - {x}, t - {x});
    }
  }

  lemma SupportIsAtMostOne(tokens: set<string>, e: Evidence)
    ensures Support(tokens, e) <= 1.0
  {
  }

  lemma TextGrows(tokens: set<string>, few: seq<Evidence>, many: seq<Evidence>)
    requires forall e | e in few :: e in many
    ensures TextScore(tokens, few) <= TextScore(tokens, many)
  {
    hide Best, Support, RoundHalfEven;
    ScoresAreBounded(tokens, many);
    if few != [] && tokens != {} {
      assert few[0] in many;
      forall e | e in many
        ensures SupportFor(tokens)(e) <= 1.0
      {
        SupportIsAtMostOne(tokens, e);
      }
      BestGrows(few, many, SupportFor(tokens));
      PercentMonotone(Best(few, SupportFor(tokens)), Best(many, SupportFor(tokens)));
    }
  }

  lemma PercentMonotone(low: real, high: real)
    requires low <= high
    ensures RoundHalfEven(low * 100.0) <= RoundHalfEven(high * 100.0)
  {
    RoundMonotone(low * 100.0, high * 100.0);
  }

  lemma QualityGrows(few: seq<Evidence>, many: seq<Evidence>)
    requires forall e | e in few :: e in many
    ensures QualityScore(few) <= QualityScore(many)
  {
    hide Best, RoundHalfEven;
    ScoresAreBounded({}, many);
    if few != [] {
      assert few[0] in many;
      BestGrows(few, many, EvidenceQuality);
      PercentMonotone(Best(few, EvidenceQuality), Best(many, EvidenceQuality));
    }
  }

  lemma CombinedMonotone(text: int, quality: int, triangulation: int, text': int, quality': int, triangulation': int)
    requires text <= text' && quality <= quality' && triangulation <= triangulation'
    ensures Combined(text, quality, triangulation) <= Combined(text', quality', triangulation')
  {
    RoundMonotone(RawCombined(text, quality, triangulation), RawCombined(text', quality', triangulation'));
  }

  /** The combined score of a claim with these words and this usable evidence. */
  function ScoreOf(tokens: set<string>, evidence: seq<Evidence>): int {
    Combined(TextScore(tokens, evidence), QualityScore(evidence), TriangulationScore(evidence))
  }

  /** One more piece of usable evidence, wherever it comes in the list, never lowers any score of a claim. */
  lemma EvidenceNeverHurts(tokens: set<string>, a: seq<Evidence>, e: Evidence, b: seq<Evidence>)
    ensures TextScore(tokens, a + b) <= TextScore(tokens, a + [e] + b)
    ensures QualityScore(a + b) <= QualityScore(a + [e] + b)
    ensures TriangulationScore(a + b) <= TriangulationScore(a + [e] + b)
    ensures ScoreOf(tokens, a + b) <= ScoreOf(tokens, a + [e] + b)
  {
    var few, many := a + b, a + [e] + b;
    TextGrows(tokens, few, many);
    QualityGrows(few, many);
    TriangulationGrows(a, e, b);
    CombinedMonotone(TextScore(tokens, few), QualityScore(few), TriangulationScore(few),
                     TextScore(tokens, many), QualityScore(many), TriangulationScore(many));
  }

  // ---------------------------------------------------------------- votes

  predicate TextVote(text: int) { text >= 70 }

  predicate QualityVote(quality: int) { quality >= 75 }

  predicate TriangulationVote(triangulation: int) { triangulation >= 70 }

  /** Three passing votes are worth at least 71.5 points, which round to 72, and no fewer. */
  lemma PassingVotesAreWorth(text: int, quality: int, triangulation: int)
    requires TextVote(text) && QualityVote(quality) && TriangulationVote(triangulation)
    ensures RawCombined(text, quality, triangulation) >= 71.5
    ensures Combined(text, quality, triangulation) >= 72
    ensures Combined(70, 75, 70) == 72
  {
    assert RawCombined(70, 75, 70) == 71.5;
    CombinedMonotone(70, 75, 70, text, quality, triangulation);
  }

  // ---------------------------------------------------------------- one claim

  datatype Status = Supported | Weak | Unsupported | Blocked

  datatype RiskStatus = RiskSupported | WeakSupport | Conflicting | RiskUnsupported | NotApplicable

  datatype IssueType =
    | MissingEvidence
    | StaleOrRejectedEvidence
    | ConflictingEvidence
    | WeakTextSupport
    | LowEvidenceQuality
    | SingleSourceSupport
    | LowConfidence
    | LowSelfConsistency

  predicate IsBlocking(t: IssueType) {
    t.MissingEvidence? || t.StaleOrRejectedEvidence? || t.ConflictingEvidence?
  }

  /** The keyword pattern for risky claims and the search for contradicting evidence, as far as validation sees them. */
  datatype Rules = Rules(matchesRisk: Claim -> bool, conflicts: (Claim, seq<Evidence>) -> seq<string>)

  datatype Result = Result(
    claimId: string,
    status: Status,
    riskStatus: RiskStatus,
    highRisk: bool,
    score: int,
    text: int,
    quality: int,
    triangulation: int,
    usable: seq<Evidence>,
    issues: seq<IssueType>)

  predicate IsHighRisk(claim: Claim, rules: Rules) { rules.matchesRisk(claim) || claim.confidence < 0.55 }

  function RiskStatusOf(highRisk: bool, status: Status, issues: seq<IssueType>, conflict: bool): RiskStatus {
    if !highRisk then NotApplicable
    else if conflict then Conflicting
    else if status.Blocked? || status.Unsupported? then RiskUnsupported
    else if issues != [] then WeakSupport
    else RiskSupported
  }

  /** The checks of one claim, one after the other, on its scores. */
  method CheckClaim(claim: Claim, usable: seq<Evidence>, rules: Rules, text: int, quality: int, score: int)
    returns (issues: seq<IssueType>)
    requires text == TextScore(claim.tokens, usable) && quality == QualityScore(usable)
    requires score == ScoreOf(claim.tokens, usable) && (claim.evidenceIds == [] ==> usable == [])
    ensures issues == IssuesOf(claim, usable, rules)
  {
    hide TextScore, QualityScore, TriangulationScore, ScoreOf;
    issues := [];
    if claim.evidenceIds == [] || usable == [] {
      issues := issues + [if claim.evidenceIds == [] then MissingEvidence else StaleOrRejectedEvidence];
    } else if rules.conflicts(claim, usable) != [] {
      issues := issues + [ConflictingEvidence];
    } else if text < 40 {
      issues := issues + [WeakTextSupport];
    } else if quality < 55 {
      issues := issues + [LowEvidenceQuality];
    } else if rules.matchesRisk(claim) && TriangulationScore(usable) < 90 {
      issues := issues + [SingleSourceSupport];
    }
    if claim.confidence < 0.55 {
      issues := issues + [LowConfidence];
    }
    if score < 55 && usable != [] {
      issues := issues + [LowSelfConsistency];
    }
  }

  /** The validation of one claim. */
  method ValidateClaim(claim: Claim, byId: map<string, Evidence>, rules: Rules) returns (r: Result)
    ensures r == Validate(claim, byId, rules)
  {
    hide TextScore, QualityScore, TriangulationScore, Combined, IssuesOf;
    var usable := Usable(byId, claim.evidenceIds);
    var text := ComputeTextScore(claim.tokens, usable);
    var quality := ComputeQualityScore(usable);
    var triangulation := TriangulationScore(usable);
    var score := Combined(text, quality, triangulation);
    var highRisk := IsHighRisk(claim, rules);
    var conflicting := rules.conflicts(claim, usable);
    var issues := CheckClaim(claim, usable, rules, text, quality, score);
    var hasBlocker := claim.evidenceIds == [] || usable == [];
    var status;
    if hasBlocker {
      status := Blocked;
    } else if conflicting != [] {
      status := Unsupported;
    } else if score >= 75 && issues == [] {
      status := Supported;
    } else if score >= 55 {
      status := Weak;
    } else {
      status := Unsupported;
    }
    var riskStatus := RiskStatusOf(highRisk, status, issues, conflicting != []);
    r := Result(claim.id, status, riskStatus, highRisk, score, text, quality, triangulation, usable, issues);
  }

  /** The first thing that is wrong with the evidence of a claim. */
  function EvidenceIssue(claim: Claim, usable: seq<Evidence>, rules: Rules): Option<IssueType> {
    var text, quality := TextScore(claim.tokens, usable), QualityScore(usable);
    if claim.evidenceIds == [] then Some(MissingEvidence)
    else if usable == [] then Some(StaleOrRejectedEvidence)
    else if rules.conflicts(claim, usable) != [] then Some(ConflictingEvidence)
    else if text < 40 then Some(WeakTextSupport)
    else if quality < 55 then Some(LowEvidenceQuality)
    else if rules.matchesRisk(claim) && TriangulationScore(usable) < 90 then Some(SingleSourceSupport)
    else None
  }

  function IssuesOf(claim: Claim, usable: seq<Evidence>, rules: Rules): seq<IssueType> {
    var first := EvidenceIssue(claim, usable, rules);
    (if first.Some? then [first.value] else [])
    + (if claim.confidence < 0.55 then [LowConfidence] else [])
    + (if ScoreOf(claim.tokens, usable) < 55 && usable != [] then [LowSelfConsistency] else [])
  }

  function StatusOf(claim: Claim, usable: seq<Evidence>, rules: Rules): Status {
    var score := ScoreOf(claim.tokens, usable);
    if usable == [] then Blocked
    else if rules.conflicts(claim, usable) != [] then Unsupported
    else if score >= 75 && IssuesOf(claim, usable, rules) == [] then Supported
    else if score >= 55 then Weak
    else Unsupported
  }

  function Validate(claim: Claim, byId: map<string, Evidence>, rules: Rules): Result {
    var usable := Usable(byId, claim.evidenceIds);
    var issues, status := IssuesOf(claim, usable, rules), StatusOf(claim, usable, rules);
    var highRisk := IsHighRisk(claim, rules);
    Result(claim.id, status, RiskStatusOf(highRisk, status, issues, rules.conflicts(claim, usable) != []), highRisk,
           ScoreOf(claim.tokens, usable), TextScore(claim.tokens, usable), QualityScore(usable),
           TriangulationScore(usable), usable, issues)
  }

  /** A claim is blocked exactly when none of its ids leads to usable evidence. */
  lemma BlockedExactlyWhen(claim: Claim, byId: map<string, Evidence>, rules: Rules)
    ensures Validate(claim, byId, rules).status.Blocked?
       <==> forall i | 0 <= i < |claim.evidenceIds| :: UsableEvidence(byId, claim.evidenceIds[i]).None?
  {
    UsableIsExact(byId, claim.evidenceIds);
  }

  /** All the conditions a claim meets when it is supported, and they are enough. */
  lemma SupportedExactlyWhen(claim: Claim, byId: map<string, Evidence>, rules: Rules)
    ensures var r := Validate(claim, byId, rules);
      r.status.Supported? <==>
        && r.usable != [] && rules.conflicts(claim, r.usable) == []
        && r.text >= 40 && r.quality >= 55 && (rules.matchesRisk(claim) ==> r.triangulation >= 90)
        && claim.confidence >= 0.55 && r.score >= 75
  {
    assert claim.evidenceIds == [] ==> Usable(byId, claim.evidenceIds) == [];
  }

  /** Without a conflict only a score below 55 makes a claim unsupported; three passing votes rule that out. */
  lemma UnsupportedExactlyWhen(claim: Claim, byId: map<string, Evidence>, rules: Rules)
    ensures var r := Validate(claim, byId, rules);
      && (r.status.Unsupported? <==> r.usable != [] && (rules.conflicts(claim, r.usable) != [] || r.score < 55))
      && (TextVote(r.text) && QualityVote(r.quality) && TriangulationVote(r.triangulation)
          && rules.conflicts(claim, r.usable) == []
          ==> r.status.Supported? || r.status.Weak?)
  {
    var r := Validate(claim, byId, rules);
    if TextVote(r.text) && QualityVote(r.quality) && TriangulationVote(r.triangulation) {
      PassingVotesAreWorth(r.text, r.quality, r.triangulation);
    }
  }

  /** A risky claim passes as supported exactly when it has no issue at all; its general status may still be weak. */
  lemma RiskSupportedExactlyWhen(claim: Claim, byId: map<string, Evidence>, rules: Rules)
    ensures var r := Validate(claim, byId, rules);
      && (r.riskStatus.RiskSupported? <==> r.highRisk && r.issues == [])
      && (r.riskStatus.RiskSupported? ==>
            rules.matchesRisk(claim) && r.triangulation >= 90 && r.score >= 55
            && !r.status.Blocked? && !r.status.Unsupported?)
  {
    var r := Validate(claim, byId, rules);
    assert claim.evidenceIds == [] ==> r.usable == [];
  }

  /** The risk status of a claim; a contradiction is named as such even when the claim is blocked. */
  lemma RiskStatusExactlyWhen(claim: Claim, byId: map<string, Evidence>, rules: Rules)
    ensures var r := Validate(claim, byId, rules); var conflict := rules.conflicts(claim, r.usable) != [];
      && (r.highRisk <==> rules.matchesRisk(claim) || claim.confidence < 0.55)
      && (r.riskStatus.NotApplicable? <==> !r.highRisk)
      && (r.riskStatus.Conflicting? <==> r.highRisk && conflict)
      && (r.riskStatus.RiskUnsupported? <==> r.highRisk && !conflict && (r.usable == [] || r.score < 55))
      && (r.riskStatus.WeakSupport? <==>
            r.highRisk && !conflict && r.usable != [] && r.score >= 55 && r.issues != [])
  {
    hide TextScore, QualityScore, TriangulationScore, Combined, IssuesOf;
    SupportedExactlyWhen(claim, byId, rules);
    UnsupportedExactlyWhen(claim, byId, rules);
    NothingCited(byId, claim);
  }

  // ---------------------------------------------------------------- what the scores mean, item by item

  ghost predicate SomeVerified(evidence: seq<Evidence>) {
    exists i :: 0 <= i < |evidence| && evidence[i].sourceType == VERIFIED
  }

  ghost predicate TwoVerified(evidence: seq<Evidence>) {
    exists i, j :: 0 <= i < j < |evidence| && evidence[i].sourceType == VERIFIED && evidence[j].sourceType == VERIFIED
  }

  /** Two items come from different hosts, both known. */
  ghost predicate TwoDomains(evidence: seq<Evidence>) {
    exists i, j :: 0 <= i < j < |evidence|
      && evidence[i].domain != "" && evidence[j].domain != "" && evidence[i].domain != evidence[j].domain
  }

  ghost predicate IsTriangulated(evidence: seq<Evidence>) { TwoVerified(evidence) && TwoDomains(evidence) }

  lemma {:induction false} VerifiedAreCounted(evidence: seq<Evidence>)
    ensures Count(evidence, IsVerified) >= 1 <==> SomeVerified(evidence)
    ensures Count(evidence, IsVerified) >= 2 <==> TwoVerified(evidence)
  {
    if evidence != [] {
      var n := |evidence| - 1;
      var front := evidence[..n];
      VerifiedAreCounted(front);
      if i :| 0 <= i < n && evidence[i].sourceType == VERIFIED { assert front[i].sourceType == VERIFIED; }
      if i, j :| 0 <= i < j < n && evidence[i].sourceType == VERIFIED && evidence[j].sourceType == VERIFIED {
        assert front[i].sourceType == VERIFIED && front[j].sourceType == VERIFIED;
      }
      if i :| 0 <= i < n && front[i].sourceType == VERIFIED { assert evidence[i].sourceType == VERIFIED; }
      if i, j :| 0 <= i < j < n && front[i].sourceType == VERIFIED && front[j].sourceType == VERIFIED {
        assert evidence[i].sourceType == VERIFIED && evidence[j].sourceType == VERIFIED;
      }
    }
  }

  lemma TwoElements(s: set<string>) returns (x: string, y: string)
    requires |s| >= 2
    ensures x in s && y in s && x != y
  {
    x :| x in s;
    assert |s - {x}| >= 1;
    y :| y in s - {x};
  }

  lemma DomainsAreCounted(evidence: seq<Evidence>)
    ensures |Domains(evidence)| >= 2 <==> TwoDomains(evidence)
  {
    var domains := Domains(evidence);
    if |domains| >= 2 {
      var x, y := TwoElements(domains);
      var i :| 0 <= i < |evidence| && evidence[i].domain == x;
      var j :| 0 <= j < |evidence| && evidence[j].domain == y;
      if i < j { assert TwoDomains(evidence); } else { assert TwoDomains(evidence); }
    }
    if i, j :| 0 <= i < j < |evidence|
               && evidence[i].domain != "" && evidence[j].domain != "" && evidence[i].domain != evidence[j].domain {
      assert evidence[i] in evidence && evidence[j] in evidence;
      SubsetSize({evidence[i].domain, evidence[j].domain}, domains);
    }
  }

  /** What each value of the triangulation score says about the usable evidence; it takes no other value. */
  lemma TriangulationMeans(claim: Claim, byId: map<string, Evidence>, rules: Rules)
    ensures var r := Validate(claim, byId, rules);
      && (r.triangulation >= 90 <==> IsTriangulated(r.usable))
      && (r.triangulation >= 90 <==> r.triangulation == 100)
      && (r.triangulation == 85 <==>
            SomeVerified(r.usable) && |r.usable| >= 2 && !IsTriangulated(r.usable))
      && (r.triangulation == 70 <==> SomeVerified(r.usable) && |r.usable| == 1)
      && (r.triangulation == 45 <==> r.usable != [] && !SomeVerified(r.usable))
      && (r.triangulation == 0 <==> r.usable == [])
  {
    hide Best, Usable, IssuesOf, StatusOf, RiskStatusOf, Combined, RoundHalfEven;
    var usable := Validate(claim, byId, rules).usable;
    VerifiedAreCounted(usable);
    DomainsAreCounted(usable);
  }

  /** However good the evidence, a risky claim is not supported by a single host. */
  lemma OneDomainIsNotEnough(claim: Claim, byId: map<string, Evidence>, rules: Rules, domain: string)
    requires rules.matchesRisk(claim)
    requires forall e | e in Validate(claim, byId, rules).usable :: e.domain == domain || e.domain == ""
    ensures var r := Validate(claim, byId, rules);
      !r.status.Supported? && !r.riskStatus.RiskSupported?
  {
    hide Validate;
    TriangulationMeans(claim, byId, rules);
    SupportedExactlyWhen(claim, byId, rules);
    RiskSupportedExactlyWhen(claim, byId, rules);
  }

  /** A number of points, halves rounded to even, comes to at least `n`. */
  predicate Reaches(points: real, n: int) {
    if n % 2 == 0 then points >= n as real - 0.5 else points > n as real - 0.5
  }

  lemma RoundReaches(x: real, n: int)
    ensures RoundHalfEven(x) >= n <==> Reaches(x, n)
  {
    var down := x.Floor;
    if down >= n {
    } else if down < n - 1 {
    } else {
      assert down == n - 1;
    }
  }

  lemma BestReaches(evidence: seq<Evidence>, value: Evidence -> real, n: int)
    requires 1 <= n <= 100 && forall e | e in evidence :: value(e) <= 1.0
    ensures RoundHalfEven(Best(evidence, value) * 100.0) >= n
       <==> exists e :: e in evidence && Reaches(value(e) * 100.0, n)
  {
    BestBounds(evidence, value);
    RoundReaches(Best(evidence, value) * 100.0, n);
  }

  /** What an item brings to the text score: 100 when it has all the words, 15 when accepted, 15 when fully reliable. */
  function TextPoints(tokens: set<string>, e: Evidence): real
    requires tokens != {}
  {
    100.0 * |tokens * e.tokens| as real / |tokens| as real
    + (if e.quality == Accepted then 15.0 else 0.0)
    + (if e.reliability <= 1.0 then 15.0 * e.reliability else 15.0)
  }

  /** And to the quality score: its reliability, 18 when verified, and what its review is worth. */
  function QualityPoints(e: Evidence): real {
    100.0 * e.reliability + (if e.sourceType == VERIFIED then 18.0 else 0.0)
    + (if e.quality == Accepted then 16.0 else if e.quality == Unreviewed then 4.0 else -35.0)
  }

  lemma SupportPoints(tokens: set<string>, e: Evidence, n: int)
    requires tokens != {} && 1 <= n <= 100
    ensures Reaches(Support(tokens, e) * 100.0, n) <==> Reaches(TextPoints(tokens, e), n)
  {
    var shared, all := |tokens * e.tokens| as real, |tokens| as real;
    assert 100.0 * shared / all == 100.0 * (shared / all);
  }

  lemma EvidencePoints(e: Evidence, n: int)
    requires 1 <= n <= 100
    ensures Reaches(EvidenceQuality(e) * 100.0, n) <==> Reaches(QualityPoints(e), n)
  {
  }

  /**
   The text and the quality score reach a threshold exactly when some one usable item reaches it: items are not added
   up, and each score may come from another item.
   */
  lemma ScoresReach(claim: Claim, byId: map<string, Evidence>, rules: Rules, n: int)
    requires 1 <= n <= 100
    ensures var r := Validate(claim, byId, rules);
      && (r.text >= n <==> claim.tokens != {} && exists e :: e in r.usable && Reaches(TextPoints(claim.tokens, e), n))
      && (r.quality >= n <==> exists e :: e in r.usable && Reaches(QualityPoints(e), n))
  {
    var usable := Validate(claim, byId, rules).usable;
    TextReaches(claim.tokens, usable, n);
    QualityReaches(usable, n);
  }

  lemma TextReaches(tokens: set<string>, evidence: seq<Evidence>, n: int)
    requires 1 <= n <= 100
    ensures TextScore(tokens, evidence) >= n
       <==> tokens != {} && exists e :: e in evidence && Reaches(TextPoints(tokens, e), n)
  {
    hide Support, Best, Reaches, TextPoints, RoundHalfEven;
    if tokens != {} {
      forall e | e in evidence
        ensures SupportFor(tokens)(e) <= 1.0
        ensures Reaches(SupportFor(tokens)(e) * 100.0, n) <==> Reaches(TextPoints(tokens, e), n)
      {
        SupportIsAtMostOne(tokens, e);
        SupportPoints(tokens, e, n);
      }
      BestReaches(evidence, SupportFor(tokens), n);
    }
  }

  lemma QualityReaches(evidence: seq<Evidence>, n: int)
    requires 1 <= n <= 100
    ensures QualityScore(evidence) >= n <==> exists e :: e in evidence && Reaches(QualityPoints(e), n)
  {
    hide EvidenceQuality, Best, Reaches, QualityPoints, RoundHalfEven;
    forall e | e in evidence
      ensures EvidenceQuality(e) <= 1.0
      ensures Reaches(EvidenceQuality(e) * 100.0, n) <==> Reaches(QualityPoints(e), n)
    {
      QualityIsAtMostOne(e);
      EvidencePoints(e, n);
    }
    BestReaches(evidence, EvidenceQuality, n);
  }

  lemma QualityIsAtMostOne(e: Evidence)
    ensures EvidenceQuality(e) <= 1.0
  {
  }

  /** The combined score in points of a thousand; "supported" takes more than 745 of them and "weak" more than 545. */
  lemma ScoreReaches(claim: Claim, byId: map<string, Evidence>, rules: Rules)
    ensures var r := Validate(claim, byId, rules); var points := 5 * r.text + 3 * r.quality + 2 * r.triangulation;
      && (r.score >= 75 <==> points > 745) && (r.score >= 55 <==> points > 545)
      && 10 * r.score - 5 <= points <= 10 * r.score + 5
  {
    hide TextScore, QualityScore, TriangulationScore, IssuesOf, StatusOf, RiskStatusOf, RoundHalfEven;
    var r := Validate(claim, byId, rules);
    RoundReaches(RawCombined(r.text, r.quality, r.triangulation), 75);
    RoundReaches(RawCombined(r.text, r.quality, r.triangulation), 55);
    RoundBounds(RawCombined(r.text, r.quality, r.triangulation));
  }

  /** Which issues a claim has, each on its own: the first five exclude each other, the last two come on top. */
  lemma IssuesExactlyWhen(claim: Claim, byId: map<string, Evidence>, rules: Rules)
    ensures var r := Validate(claim, byId, rules);
      var clear := r.usable != [] && rules.conflicts(claim, r.usable) == [];
      && (MissingEvidence in r.issues <==> |claim.evidenceIds| == 0)
      && (StaleOrRejectedEvidence in r.issues <==> |claim.evidenceIds| > 0 && r.usable == [])
      && (ConflictingEvidence in r.issues <==> r.usable != [] && !clear)
      && (WeakTextSupport in r.issues <==> clear && r.text < 40)
      && (LowEvidenceQuality in r.issues <==> clear && r.text >= 40 && r.quality < 55)
      && (SingleSourceSupport in r.issues <==>
            clear && r.text >= 40 && r.quality >= 55 && rules.matchesRisk(claim) && !IsTriangulated(r.usable))
      && (LowConfidence in r.issues <==> claim.confidence < 0.55)
      && (LowSelfConsistency in r.issues <==> r.usable != [] && r.score < 55)
  {
    hide TextScore, QualityScore, TriangulationScore, ScoreOf, StatusOf, RiskStatusOf, TwoVerified, TwoDomains;
    TriangulationMeans(claim, byId, rules);
    var r := Validate(claim, byId, rules);
    NothingCited(byId, claim);
    IssuesAre(claim, r.usable, rules);
  }

  lemma NothingCited(byId: map<string, Evidence>, claim: Claim)
    ensures claim.evidenceIds == [] ==> Usable(byId, claim.evidenceIds) == []
  {
  }

  lemma IssuesAre(claim: Claim, usable: seq<Evidence>, rules: Rules)
    ensures forall t :: t in IssuesOf(claim, usable, rules) <==>
      || Some(t) == EvidenceIssue(claim, usable, rules)
      || (t == LowConfidence && claim.confidence < 0.55)
      || (t == LowSelfConsistency && ScoreOf(claim.tokens, usable) < 55 && usable != [])
  {
    hide TextScore, QualityScore, TriangulationScore, ScoreOf, EvidenceIssue;
    var first := EvidenceIssue(claim, usable, rules);
    var a := if first.Some? then [first.value] else [];
    var b := if claim.confidence < 0.55 then [LowConfidence] else [];
    var c := if ScoreOf(claim.tokens, usable) < 55 && usable != [] then [LowSelfConsistency] else [];
    assert IssuesOf(claim, usable, rules) == a + b + c;
    forall t ensures t in a + b + c <==> t in a || t in b || t in c {}
  }

  // ---------------------------------------------------------------- the report

  datatype Report = Report(
    total: nat, supported: nat, weak: nat, unsupported: nat, blocked: nat,
    issueCount: nat, blockerCount: nat, warnCount: nat,
    riskSupported: nat, weakSupport: nat, conflicting: nat, riskUnsupported: nat, notApplicable: nat,
    results: seq<Result>,
    issues: seq<(string, IssueType)>)

  function CountStatus(results: seq<Result>, status: Status): nat {
    if results == [] then 0
    else CountStatus(results[..|results| - 1], status) + (if results[|results| - 1].status == status then 1 else 0)
  }

  function CountRisk(results: seq<Result>, risk: RiskStatus): nat {
    if results == [] then 0
    else CountRisk(results[..|results| - 1], risk) + (if results[|results| - 1].riskStatus == risk then 1 else 0)
  }

  function CountBlockers(issues: seq<(string, IssueType)>): nat {
    if issues == [] then 0
    else CountBlockers(issues[..|issues| - 1]) + (if IsBlocking(issues[|issues| - 1].1) then 1 else 0)
  }

  function ResultsOf(claims: seq<Claim>, byId: map<string, Evidence>, rules: Rules): seq<Result> {
    if claims == [] then []
    else ResultsOf(claims[..|claims| - 1], byId, rules) + [Validate(claims[|claims| - 1], byId, rules)]
  }

  lemma {:induction false} ResultsLength(claims: seq<Claim>, byId: map<string, Evidence>, rules: Rules)
    ensures |ResultsOf(claims, byId, rules)| == |claims|
  {
    if claims != [] { ResultsLength(claims[..|claims| - 1], byId, rules); }
  }

  lemma {:induction false} ResultAt(claims: seq<Claim>, byId: map<string, Evidence>, rules: Rules, i: nat)
    requires i < |claims|
    ensures |ResultsOf(claims, byId, rules)| == |claims|
    ensures ResultsOf(claims, byId, rules)[i] == Validate(claims[i], byId, rules)
  {
    ResultsLength(claims[..|claims| - 1], byId, rules);
    if i < |claims| - 1 { ResultAt(claims[..|claims| - 1], byId, rules, i); }
  }

  function Tagged(id: string, issues: seq<IssueType>): seq<(string, IssueType)> {
    if issues == [] then [] else Tagged(id, issues[..|issues| - 1]) + [(id, issues[|issues| - 1])]
  }

  function IssuesIn(results: seq<Result>): seq<(string, IssueType)> {
    if results == [] then []
    else IssuesIn(results[..|results| - 1]) + Tagged(results[|results| - 1].claimId, results[|results| - 1].issues)
  }

  /** Claims without usable evidence or with contradicting evidence. */
  predicate IsHard(r: Result) { r.status.Blocked? || ConflictingEvidence in r.issues }

  function CountHard(results: seq<Result>): nat {
    if results == [] then 0
    else CountHard(results[..|results| - 1]) + (if IsHard(results[|results| - 1]) then 1 else 0)
  }

  lemma {:induction false} StatusesPartition(results: seq<Result>)
    ensures CountStatus(results, Supported) + CountStatus(results, Weak)
          + CountStatus(results, Unsupported) + CountStatus(results, Blocked) == |results|
  {
    if results != [] { StatusesPartition(results[..|results| - 1]); }
  }

  lemma {:induction false} RisksPartition(results: seq<Result>)
    ensures CountRisk(results, RiskSupported) + CountRisk(results, WeakSupport) + CountRisk(results, Conflicting)
          + CountRisk(results, RiskUnsupported) + CountRisk(results, NotApplicable) == |results|
  {
    if results != [] { RisksPartition(results[..|results| - 1]); }
  }

  lemma {:induction false} BlockersAppend(a: seq<(string, IssueType)>, b: seq<(string, IssueType)>)
    ensures CountBlockers(a + b) == CountBlockers(a) + CountBlockers(b)
  {
    if b == [] {
      assert a + b == a;
    } else {
      var n := |b| - 1;
      SplitLast(b);
      AppendAssociates(a, b[..n], [b[n]]);
      TakeAppend(a + b[..n], [b[n]]);
      BlockersAppend(a, b[..n]);
    }
  }

  lemma {:induction false} BlockersBound(issues: seq<(string, IssueType)>)
    ensures CountBlockers(issues) <= |issues|
  {
    if issues != [] { BlockersBound(issues[..|issues| - 1]); }
  }

  /** The issues of a claim: at most one about its evidence, then the two about confidence and consistency. */
  lemma IssuesShape(claim: Claim, byId: map<string, Evidence>, rules: Rules)
    returns (a: seq<IssueType>, b: seq<IssueType>, c: seq<IssueType>)
    ensures var r := Validate(claim, byId, rules);
      && r.issues == a + b + c
      && |a| <= 1 && (b == [] || b == [LowConfidence]) && (c == [] || c == [LowSelfConsistency])
      && (IsHard(r) <==> a != [] && IsBlocking(a[0]))
  {
    var usable := Usable(byId, claim.evidenceIds);
    var first := EvidenceIssue(claim, usable, rules);
    a := if first.Some? then [first.value] else [];
    b := if claim.confidence < 0.55 then [LowConfidence] else [];
    c := if ScoreOf(claim.tokens, usable) < 55 && usable != [] then [LowSelfConsistency] else [];
    assert claim.evidenceIds == [] ==> usable == [];
    assert ConflictingEvidence in a + b + c <==> ConflictingEvidence in a;
  }

  lemma BlockersOfParts(id: string, a: seq<IssueType>, b: seq<IssueType>, c: seq<IssueType>)
    requires |a| <= 1 && (b == [] || b == [LowConfidence]) && (c == [] || c == [LowSelfConsistency])
    ensures CountBlockers(Tagged(id, a + b + c)) == if a != [] && IsBlocking(a[0]) then 1 else 0
  {
    TaggedAppend(id, a, b);
    TaggedAppend(id, a + b, c);
    BlockersAppend(Tagged(id, a), Tagged(id, b));
    BlockersAppend(Tagged(id, a + b), Tagged(id, c));
    OneTag(id, a);
    OneTag(id, b);
    OneTag(id, c);
  }

  /** A claim has one blocking issue when it is a hard failure and none otherwise. */
  lemma OneBlocker(claim: Claim, byId: map<string, Evidence>, rules: Rules)
    ensures var r := Validate(claim, byId, rules);
      CountBlockers(Tagged(claim.id, r.issues)) == if IsHard(r) then 1 else 0
  {
    var a, b, c := IssuesShape(claim, byId, rules);
    BlockersOfParts(claim.id, a, b, c);
  }

  lemma {:induction false} OneTag(id: string, s: seq<IssueType>)
    requires |s| <= 1
    ensures CountBlockers(Tagged(id, s)) == if s != [] && IsBlocking(s[0]) then 1 else 0
  {
    if s != [] {
      assert s[..0] == [] && Tagged(id, []) == [];
      assert Tagged(id, s) == [] + [(id, s[0])] == [(id, s[0])];
      assert [(id, s[0])][..0] == [];
    }
  }

  lemma {:induction false} TaggedAppend(id: string, a: seq<IssueType>, b: seq<IssueType>)
    ensures Tagged(id, a + b) == Tagged(id, a) + Tagged(id, b)
  {
    if b == [] {
      assert a + b == a;
    } else {
      var n := |b| - 1;
      SplitLast(b);
      AppendAssociates(a, b[..n], [b[n]]);
      TakeAppend(a + b[..n], [b[n]]);
      TaggedAppend(id, a, b[..n]);
    }
  }

  lemma NamesItsClaim(claim: Claim, byId: map<string, Evidence>, rules: Rules)
    ensures Validate(claim, byId, rules).claimId == claim.id
  {
  }

  lemma {:induction false} BlockersAreHard(claims: seq<Claim>, byId: map<string, Evidence>, rules: Rules)
    ensures |ResultsOf(claims, byId, rules)| == |claims|
    ensures CountBlockers(IssuesIn(ResultsOf(claims, byId, rules))) == CountHard(ResultsOf(claims, byId, rules))
  {
    hide Validate, Tagged, IsHard;
    if claims != [] {
      var n := |claims| - 1;
      BlockersAreHard(claims[..n], byId, rules);
      var earlier, r := ResultsOf(claims[..n], byId, rules), Validate(claims[n], byId, rules);
      NamesItsClaim(claims[n], byId, rules);
      OneBlocker(claims[n], byId, rules);
      BlockersAppend(IssuesIn(earlier), Tagged(r.claimId, r.issues));
      TakeAppend(earlier, [r]);
    }
  }

  function Summary(results: seq<Result>, issues: seq<(string, IssueType)>): Report
    requires CountBlockers(issues) <= |issues|
  {
    Report(|results|,
           CountStatus(results, Supported), CountStatus(results, Weak),
           CountStatus(results, Unsupported), CountStatus(results, Blocked),
           |issues|, CountBlockers(issues), |issues| - CountBlockers(issues),
           CountRisk(results, RiskSupported), CountRisk(results, WeakSupport), CountRisk(results, Conflicting),
           CountRisk(results, RiskUnsupported), CountRisk(results, NotApplicable), results, issues)
  }

  ghost function ReportOf(claims: seq<Claim>, evidence: seq<Evidence>, rules: Rules): Report {
    var results := ResultsOf(claims, ById(evidence), rules);
    BlockersBound(IssuesIn(results));
    Summary(results, IssuesIn(results))
  }

  method ValidateProjectClaims(claims: seq<Claim>, evidence: seq<Evidence>, rules: Rules) returns (report: Report)
    ensures report == ReportOf(claims, evidence, rules)
  {
    var byId := ById(evidence);
    var results: seq<Result>, issues: seq<(string, IssueType)> := [], [];
    for i := 0 to |claims|
      invariant results == ResultsOf(claims[..i], byId, rules)
      invariant issues == IssuesIn(results)
    {
      var r := ValidateClaim(claims[i], byId, rules);
      assert claims[..i + 1][..i] == claims[..i];
      TakeAppend(results, [r]);
      results := results + [r];
      issues := issues + Tagged(r.claimId, r.issues);
    }
    assert claims[..|claims|] == claims;
    BlockersBound(issues);
    report := Summary(results, issues);
  }

  /**
   The report adds up: every claim has exactly one of the four statuses and one of the five risk statuses, every
   issue blocks or warns, and blocking issues are exactly the claims that are blocked or contradicted.
   */
  lemma ReportAddsUp(claims: seq<Claim>, evidence: seq<Evidence>, rules: Rules)
    ensures var r := ReportOf(claims, evidence, rules);
      && r.total == |claims| == r.supported + r.weak + r.unsupported + r.blocked
      && |claims| == r.riskSupported + r.weakSupport + r.conflicting + r.riskUnsupported + r.notApplicable
      && r.issueCount == r.blockerCount + r.warnCount == |r.issues|
      && r.blockerCount == CountHard(r.results)
  {
    var results := ResultsOf(claims, ById(evidence), rules);
    StatusesPartition(results);
    RisksPartition(results);
    BlockersAreHard(claims, ById(evidence), rules);
    BlockersBound(IssuesIn(results));
  }

  lemma {:induction false} StatusesAreCounted(results: seq<Result>)
    ensures CountStatus(results, Supported) == Count(results, (r: Result) => r.status.Supported?)
    ensures CountStatus(results, Weak) == Count(results, (r: Result) => r.status.Weak?)
    ensures CountStatus(results, Unsupported) == Count(results, (r: Result) => r.status.Unsupported?)
    ensures CountStatus(results, Blocked) == Count(results, (r: Result) => r.status.Blocked?)
  {
    if results != [] { StatusesAreCounted(results[..|results| - 1]); }
  }

  lemma {:induction false} RisksAreCounted(results: seq<Result>)
    ensures CountRisk(results, RiskSupported) == Count(results, (r: Result) => r.riskStatus.RiskSupported?)
    ensures CountRisk(results, WeakSupport) == Count(results, (r: Result) => r.riskStatus.WeakSupport?)
    ensures CountRisk(results, Conflicting) == Count(results, (r: Result) => r.riskStatus.Conflicting?)
    ensures CountRisk(results, RiskUnsupported) == Count(results, (r: Result) => r.riskStatus.RiskUnsupported?)
    ensures CountRisk(results, NotApplicable) == Count(results, (r: Result) => r.riskStatus.NotApplicable?)
  {
    if results != [] { RisksAreCounted(results[..|results| - 1]); }
  }

  lemma {:induction false} TaggedHas(id: string, issues: seq<IssueType>, entry: (string, IssueType))
    ensures entry in Tagged(id, issues) <==> entry.0 == id && entry.1 in issues
  {
    if issues != [] {
      TaggedHas(id, issues[..|issues| - 1], entry);
      SplitLast(issues);
    }
  }

  lemma {:induction false} IssuesInHas(results: seq<Result>, entry: (string, IssueType))
    ensures entry in IssuesIn(results) <==> exists r :: r in results && r.claimId == entry.0 && entry.1 in r.issues
  {
    if results != [] {
      var n := |results| - 1;
      IssuesInHas(results[..n], entry);
      TaggedHas(results[n].claimId, results[n].issues, entry);
      assert forall r :: r in results <==> r in results[..n] || r == results[n];
    }
  }

  /** Each tally of the report counts its own status, and its issues are those of its results. */
  lemma ReportTalliesAreExact(claims: seq<Claim>, evidence: seq<Evidence>, rules: Rules)
    ensures var report := ReportOf(claims, evidence, rules); var results := report.results;
      && |results| == |claims| && (forall i | 0 <= i < |claims| ::
            results[i] == Validate(claims[i], ById(evidence), rules))
      && report.supported == Count(results, (r: Result) => r.status.Supported?)
      && report.weak == Count(results, (r: Result) => r.status.Weak?)
      && report.unsupported == Count(results, (r: Result) => r.status.Unsupported?)
      && report.blocked == Count(results, (r: Result) => r.status.Blocked?)
      && report.riskSupported == Count(results, (r: Result) => r.riskStatus.RiskSupported?)
      && report.weakSupport == Count(results, (r: Result) => r.riskStatus.WeakSupport?)
      && report.conflicting == Count(results, (r: Result) => r.riskStatus.Conflicting?)
      && report.riskUnsupported == Count(results, (r: Result) => r.riskStatus.RiskUnsupported?)
      && report.notApplicable == Count(results, (r: Result) => r.riskStatus.NotApplicable?)
      && (forall id, t :: (id, t) in report.issues
            <==> exists r :: r in results && r.claimId == id && t in r.issues)
  {
    hide Validate, Count, ById;
    var results := ResultsOf(claims, ById(evidence), rules);
    ResultsLength(claims, ById(evidence), rules);
    forall i | 0 <= i < |claims|
      ensures results[i] == Validate(claims[i], ById(evidence), rules)
    {
      ResultAt(claims, ById(evidence), rules, i);
    }
    StatusesAreCounted(results);
    RisksAreCounted(results);
    forall id, t
      ensures (id, t) in IssuesIn(results) <==> exists r :: r in results && r.claimId == id && t in r.issues
    {
      IssuesInHas(results, (id, t));
    }
    BlockersBound(IssuesIn(results));
  }
}
