/** TrendSummarizer.Summarize of internal/advisory/extractor.go, with floats as
    reals; the texts of the insight are not part of the model. */
module Trend {
  import opened Wrappers
  import opened Text

  datatype Observation = Observation(id: string, discipline: string)

  datatype TrendError = NoTenant | ZoneNotAllowed | TooFewObservations | NoPattern

  datatype Insight = Insight(recurring: string, maxCount: nat, total: nat, confidence: real, evidence: seq<string>)

  const DEFAULT_MIN_OBSERVATIONS: int := 2
  const CONFIDENCE_FLOOR: real := 0.45
  const CONFIDENCE_SPREAD: real := 0.45

  function MinObservations(configured: int): int {
    if configured < DEFAULT_MIN_OBSERVATIONS then DEFAULT_MIN_OBSERVATIONS else configured
  }

  /** AIAllowed of internal/advisory/advisory.go */
  predicate AIAllowed(zone: string) {
    zone in {"MONITORING", "REGULATION", "NDT_DEFECT", "LIFTING_DEFECT"}
  }

  /** The four zones that advice may speak about. */
  predicate Approved(zone: string) {
    zone == "MONITORING" || zone == "REGULATION" || zone == "NDT_DEFECT" || zone == "LIFTING_DEFECT"
  }

  /** At least two observations, more if so configured. */
  predicate Enough(total: nat, configured: int) {
    total >= 2 && total >= configured
  }

  /** How often a discipline occurs, trimmed; blank ones are never counted. */
  function Count(obs: seq<Observation>, d: string): nat {
    if obs == [] then 0
    else Count(obs[..|obs| - 1], d) + (if TrimSpace(obs[|obs| - 1].discipline) == d != "" then 1 else 0)
  }

  lemma {:induction false} CountBounds(obs: seq<Observation>, d: string)
    ensures Count(obs, d) <= |obs|
    ensures Count(obs, d) > 0 ==> d != ""
  {
    if obs != [] { CountBounds(obs[..|obs| - 1], d); }
  }

  /** No discipline occurs more than n times. */
  ghost predicate AtMost(obs: seq<Observation>, n: nat) {
    forall d: string :: Count(obs, d) <= n
  }

  /** d is a mode, and the first one to get there: some prefix already holds all
      the count d ever reaches, and there every other discipline is behind. */
  ghost predicate FirstMode(obs: seq<Observation>, d: string, n: nat) {
    && Count(obs, d) == n && AtMost(obs, n)
    && exists k :: 0 <= k <= |obs| && LeadsAt(obs, d, n, k)
  }

  ghost predicate LeadsAt(obs: seq<Observation>, d: string, n: nat, k: nat)
    requires k <= |obs|
  {
    Count(obs[..k], d) == n && forall e: string :: e != d ==> Count(obs[..k], e) < n
  }

  lemma CountNext(obs: seq<Observation>, i: nat, d: string)
    requires i < |obs|
    ensures Count(obs[..i + 1], d) == Count(obs[..i], d) + (if TrimSpace(obs[i].discipline) == d != "" then 1 else 0)
  {
    assert obs[..i + 1][..i] == obs[..i];
  }

  function Tally(counts: map<string, nat>, d: string): nat {
    if d in counts then counts[d] else 0
  }

  /** The map of the loop holds the counts. */
  ghost predicate Tallies(counts: map<string, nat>, obs: seq<Observation>) {
    forall d: string :: Tally(counts, d) == Count(obs, d)
  }

  lemma TallyNext(counts: map<string, nat>, obs: seq<Observation>, i: nat)
    requires i < |obs| && Tallies(counts, obs[..i])
    ensures
      var d := TrimSpace(obs[i].discipline);
      Tallies(if d == "" then counts else counts[d := Tally(counts, d) + 1], obs[..i + 1])
  {
    var x := TrimSpace(obs[i].discipline);
    var next := if x == "" then counts else counts[x := Tally(counts, x) + 1];
    forall d: string ensures Tally(next, d) == Count(obs[..i + 1], d) {
      CountNext(obs, i, d);
      hide TrimSpace, Count;
      assert Tally(counts, d) == Count(obs[..i], d);
    }
  }

  /** The counting loop. */
  method FindRecurring(obs: seq<Observation>) returns (recurring: string, maxCount: nat)
    ensures recurring == "" <==> maxCount == 0
    ensures maxCount == 0 ==> AtMost(obs, 0)
    ensures maxCount > 0 ==> FirstMode(obs, recurring, maxCount)
  {
    hide TrimSpace;
    var counts: map<string, nat> := map[];
    recurring, maxCount := "", 0;
    ghost var lead := 0;
    for i := 0 to |obs|
      invariant Tallies(counts, obs[..i])
      invariant recurring == "" <==> maxCount == 0
      invariant forall d: string :: Tally(counts, d) <= maxCount
      invariant maxCount > 0 ==> Tally(counts, recurring) == maxCount
      invariant maxCount > 0 ==> 0 <= lead <= i && LeadsAt(obs, recurring, maxCount, lead)
    {
      var discipline := TrimSpace(obs[i].discipline);
      TallyNext(counts, obs, i);
      if discipline == "" {
        continue;
      }
      ghost var before := counts;
      counts := counts[discipline := Tally(counts, discipline) + 1];
      assert forall d: string :: d != discipline ==> Tally(counts, d) == Tally(before, d);
      if counts[discipline] > maxCount {
        maxCount := counts[discipline];
        recurring := discipline;
        lead := i + 1;
        Leads(counts, obs, recurring, maxCount, lead);
      }
    }
    assert obs[..|obs|] == obs;
    assert forall d: string :: Tally(counts, d) == Count(obs, d);
  }

  lemma Leads(counts: map<string, nat>, obs: seq<Observation>, d: string, n: nat, k: nat)
    requires k <= |obs| && Tallies(counts, obs[..k])
    requires Tally(counts, d) == n && forall e: string :: e != d ==> Tally(counts, e) < n
    ensures LeadsAt(obs, d, n, k)
  {
    assert forall e: string :: Tally(counts, e) == Count(obs[..k], e);
  }

  /** A first mode is unique: no two disciplines both get there first. */
  lemma FirstModeIsUnique(obs: seq<Observation>, d: string, e: string, n: nat, m: nat)
    requires FirstMode(obs, d, n) && FirstMode(obs, e, m) && n > 0
    ensures d == e && n == m
  {
    var k :| 0 <= k <= |obs| && LeadsAt(obs, d, n, k);
    var l :| 0 <= l <= |obs| && LeadsAt(obs, e, m, l);
    assert Count(obs, d) <= m && Count(obs, e) <= n;
    if k <= l { CountGrows(obs, d, k, l); } else { CountGrows(obs, e, l, k); }
  }

  lemma {:induction false} CountGrows(obs: seq<Observation>, d: string, k: nat, l: nat)
    requires k <= l <= |obs|
    ensures Count(obs[..k], d) <= Count(obs[..l], d)
  {
    hide TrimSpace, Count;
    if k < l {
      CountGrows(obs, d, k, l - 1);
      CountNext(obs, l - 1, d);
    }
  }

  function EvidenceIds(obs: seq<Observation>): seq<string> {
    if obs == [] then []
    else EvidenceIds(obs[..|obs| - 1]) + (if TrimSpace(obs[|obs| - 1].id) != "" then [obs[|obs| - 1].id] else [])
  }

  /** Each id stands at its place, as it is there; the places ascend, and are those of
      the ids that are not blank. */
  predicate EvidenceAt(obs: seq<Observation>, ids: seq<string>, at: seq<nat>) {
    && |at| == |ids|
    && (forall m :: 0 <= m < |at| ==> at[m] < |obs| && ids[m] == obs[at[m]].id)
    && (forall m, n :: 0 <= m < n < |at| ==> at[m] < at[n])
    && forall k: nat :: k < |obs| ==> (TrimSpace(obs[k].id) != "" <==> k in at)
  }

  lemma EvidenceNext(obs: seq<Observation>, ids: seq<string>, at: seq<nat>)
    requires obs != [] && EvidenceAt(obs[..|obs| - 1], ids, at)
    ensures
      var n := |obs| - 1;
      if TrimSpace(obs[n].id) != "" then EvidenceAt(obs, ids + [obs[n].id], at + [n]) else EvidenceAt(obs, ids, at)
  {
    hide TrimSpace;
    var n := |obs| - 1;
    var init := obs[..n];
    assert forall k :: 0 <= k < n ==> init[k] == obs[k];
    assert forall k: nat :: k in at ==> k < n by {
      forall k: nat | k in at ensures k < n {
        var m :| 0 <= m < |at| && at[m] == k;
      }
    }
    assert forall k: nat :: k in at + [n] <==> k in at || k == n;
  }

  /** Which ids the evidence adds. */
  lemma {:induction false} EvidenceExactly(obs: seq<Observation>) returns (at: seq<nat>)
    ensures EvidenceAt(obs, EvidenceIds(obs), at)
  {
    at := [];
    if obs != [] {
      var n := |obs| - 1;
      at := EvidenceExactly(obs[..n]);
      EvidenceNext(obs, EvidenceIds(obs[..n]), at);
      hide TrimSpace, EvidenceAt;
      assert EvidenceIds(obs[..n]) + [] == EvidenceIds(obs[..n]);
      if TrimSpace(obs[n].id) != "" { at := at + [n]; }
    }
  }

  /** A count is the number of observations whose trimmed discipline this is. */
  lemma {:induction false} CountExactly(obs: seq<Observation>, d: string)
    requires d != ""
    ensures Count(obs, d) == |set i: nat | i < |obs| && TrimSpace(obs[i].discipline) == d|
  {
    hide TrimSpace;
    if obs != [] {
      var n := |obs| - 1;
      var init := obs[..n];
      CountExactly(init, d);
      var before := set i: nat | i < |init| && TrimSpace(init[i].discipline) == d;
      var now := set i: nat | i < |obs| && TrimSpace(obs[i].discipline) == d;
      assert forall i: nat :: i < n ==> init[i] == obs[i];
      if TrimSpace(obs[n].discipline) == d {
        assert now == before + {n};
      } else {
        assert now == before;
      }
    }
  }

  method Summarize(tenantID: string, zone: string, obs: seq<Observation>, evidenceRefs: seq<string>, configured: int)
      returns (r: Result<Insight, TrendError>)
    ensures r.Failure? ==>
      match r.error
      case NoTenant => TrimSpace(tenantID) == ""
      case ZoneNotAllowed => TrimSpace(tenantID) != "" && !Approved(zone)
      case TooFewObservations => TrimSpace(tenantID) != "" && Approved(zone) && !Enough(|obs|, configured)
      case NoPattern => TrimSpace(tenantID) != "" && Approved(zone) && Enough(|obs|, configured) && AtMost(obs, 1)
    ensures r.Success? ==>
      && TrimSpace(tenantID) != "" && Approved(zone) && Enough(|obs|, configured)
      && FirstMode(obs, r.value.recurring, r.value.maxCount) && r.value.maxCount >= 2 && r.value.total == |obs|
      && r.value.confidence == 0.45 + 0.45 * (r.value.maxCount as real / |obs| as real)
      && 0.45 < r.value.confidence <= 0.9
      && r.value.evidence == evidenceRefs + EvidenceIds(obs)
  {
    hide TrimSpace, Count;
    if TrimSpace(tenantID) == "" {
      return Failure(NoTenant);
    }
    if !AIAllowed(zone) {
      return Failure(ZoneNotAllowed);
    }
    if |obs| < MinObservations(configured) {
      return Failure(TooFewObservations);
    }
    var total := |obs|;
    var recurring, maxCount := FindRecurring(obs);
    if recurring == "" || maxCount < DEFAULT_MIN_OBSERVATIONS {
      return Failure(NoPattern);
    }
    var ratio := maxCount as real / total as real;
    var confidence := CONFIDENCE_FLOOR + CONFIDENCE_SPREAD * ratio;
    CountBounds(obs, recurring);
    RatioBounds(maxCount, total);
    var evidence := evidenceRefs;
    for i := 0 to |obs|
      invariant evidence == evidenceRefs + EvidenceIds(obs[..i])
    {
      assert obs[..i + 1][..i] == obs[..i];
      if TrimSpace(obs[i].id) != "" {
        evidence := evidence + [obs[i].id];
      }
    }
    assert obs[..|obs|] == obs;
    return Success(Insight(recurring, maxCount, total, confidence, evidence));
  }

  lemma RatioBounds(n: nat, total: nat)
    requires 0 < n <= total
    ensures 0.0 < n as real / total as real <= 1.0
  {
  }
}
