/** Evidence and claims as the analysis modules see them. */
module Records {
  import opened Common

  datatype Quality = Accepted | Unreviewed | Rejected | Stale

  /** A cluster of community statements; numbers that do not parse are `None`. */
  datatype Cluster = Cluster(kind: string, confidence: Option<real>, sourceCount: nat, independentDomains: Option<int>)

  /**
   `tokens` are the words of title, snippet and dimension, `domain` the host the evidence comes from, `policyStatus`
   and `robotsStatus` what its metadata says about source policy and robots, already normalised.
   */
  datatype Evidence = Evidence(
    id: string,
    competitorId: string,
    dimension: string,
    sourceType: string,
    quality: Quality,
    reliability: real,
    tokens: set<string>,
    domain: string,
    policyStatus: string,
    robotsStatus: string,
    clusters: seq<Cluster>)

  datatype Claim = Claim(
    id: string,
    competitorId: string,
    claimType: string,
    evidenceIds: seq<string>,
    confidence: real,
    tokens: set<string>)

  datatype Competitor = Competitor(id: string, name: string, hasHomepage: bool)

  const VERIFIED := "webpage_verified"

  predicate IsBad(e: Evidence) { e.quality.Rejected? || e.quality.Stale? }

  /** Evidence by id; of several records with one id the last one counts. */
  function ById(evidence: seq<Evidence>): map<string, Evidence> {
    if evidence == [] then map[]
    else ById(evidence[..|evidence| - 1])[evidence[|evidence| - 1].id := evidence[|evidence| - 1]]
  }

  lemma {:induction false} ByIdIsExact(evidence: seq<Evidence>)
    ensures forall id :: id in ById(evidence) <==> exists e :: e in evidence && e.id == id
    ensures forall id | id in ById(evidence) :: ById(evidence)[id] in evidence && ById(evidence)[id].id == id
  {
    if evidence != [] {
      var n := |evidence| - 1;
      ByIdIsExact(evidence[..n]);
      assert forall e :: e in evidence <==> e in evidence[..n] || e == evidence[n];
    }
  }

  /** The evidence an id stands for, unless there is none or it has been rejected or has gone stale. */
  function UsableEvidence(byId: map<string, Evidence>, id: string): Option<Evidence> {
    if id in byId && !IsBad(byId[id]) then Some(byId[id]) else None
  }

  /** The usable evidence behind a list of ids, in order, in one pass over the ids as the validator makes it. */
  function Usable(byId: map<string, Evidence>, ids: seq<string>): seq<Evidence> {
    if ids == [] then []
    else
      var earlier, last := Usable(byId, ids[..|ids| - 1]), UsableEvidence(byId, ids[|ids| - 1]);
      if last.Some? then earlier + [last.value] else earlier
  }

  lemma {:induction false} UsableIsExact(byId: map<string, Evidence>, ids: seq<string>)
    ensures forall e | e in Usable(byId, ids) :: !IsBad(e) && exists id :: id in ids && id in byId && byId[id] == e
    ensures Usable(byId, ids) == [] <==> forall i | 0 <= i < |ids| :: UsableEvidence(byId, ids[i]).None?
  {
    if ids != [] {
      UsableIsExact(byId, ids[..|ids| - 1]);
      assert ids[|ids| - 1] in ids;
    }
  }

  /** The usable evidence behind ids is found id by id: in order, and as often as it is cited. */
  lemma {:induction false} UsableAppend(byId: map<string, Evidence>, a: seq<string>, b: seq<string>)
    ensures Usable(byId, a + b) == Usable(byId, a) + Usable(byId, b)
  {
    if b == [] {
      assert a + b == a;
    } else {
      var n := |b| - 1;
      UsableAppend(byId, a, b[..n]);
      assert (a + b)[..|a + b| - 1] == a + b[..n];
    }
  }

  lemma UsableOne(byId: map<string, Evidence>, id: string)
    ensures id in byId && (byId[id].quality == Accepted || byId[id].quality == Unreviewed)
        ==> Usable(byId, [id]) == [byId[id]]
    ensures id in byId && (byId[id].quality == Rejected || byId[id].quality == Stale) ==> Usable(byId, [id]) == []
    ensures id !in byId ==> Usable(byId, [id]) == []
  {
    assert [id][..0] == [];
  }

  // ---------------------------------------------------------------- the same in two passes

  /** What each id leads to, if anything. */
  function Linked(byId: map<string, Evidence>, ids: seq<string>): (linked: seq<Option<Evidence>>)
    ensures |linked| == |ids| && UsableAmong(linked) == Usable(byId, ids)
  {
    if ids == [] then []
    else
      var n := |ids| - 1;
      var earlier := Linked(byId, ids[..n]);
      var last := if ids[n] in byId then Some(byId[ids[n]]) else None;
      assert (earlier + [last])[..n] == earlier;
      earlier + [last]
  }

  /** The other three modules first look all ids up and then sift what they find. */
  function UsableAmong(linked: seq<Option<Evidence>>): seq<Evidence> {
    if linked == [] then []
    else
      var earlier, last := UsableAmong(linked[..|linked| - 1]), linked[|linked| - 1];
      if last.Some? && !IsBad(last.value) then earlier + [last.value] else earlier
  }
}
