/** Aggregate KEEP and DROP counts, and how often each policy matched. */
module Statistics {
  import opened Policies

  datatype Stats = Stats(observed: nat, keep: nat, drop: nat, matches: map<string, nat>)

  const ZERO := Stats(0, 0, 0, map[])

  function Count(m: map<string, nat>, name: string): nat {
    if name in m then m[name] else 0
  }

  /** The counters after one policy's result. */
  function CountMatch(m: map<string, nat>, p: PolicyResult): map<string, nat> {
    if p.matched then m[p.name := Count(m, p.name) + 1] else m
  }

  function CountMatches(m: map<string, nat>, ps: seq<PolicyResult>): map<string, nat> {
    if ps == [] then m else CountMatch(CountMatches(m, ps[..|ps| - 1]), ps[|ps| - 1])
  }

  function Recorded(s: Stats, r: EvalResult): Stats {
    Stats(s.observed + 1,
          if r.decision.Keep? then s.keep + 1 else s.keep,
          if r.decision.Keep? then s.drop else s.drop + 1,
          CountMatches(s.matches, r.policies))
  }

  function RecordAll(s: Stats, rs: seq<EvalResult>): Stats {
    if rs == [] then s else Recorded(RecordAll(s, rs[..|rs| - 1]), rs[|rs| - 1])
  }

  class Engine {
    var observed: nat
    var keep: nat
    var drop: nat
    var policyMatches: map<string, nat>

    function Snapshot(): Stats
      reads this
    {
      Stats(observed, keep, drop, policyMatches)
    }

    constructor ()
      ensures Snapshot() == ZERO
    {
      observed, keep, drop, policyMatches := 0, 0, 0, map[];
    }

    method Record(result: EvalResult)
      modifies this
      ensures Snapshot() == Recorded(old(Snapshot()), result)
    {
      observed := observed + 1;
      if result.decision == Keep {
        keep := keep + 1;
      } else {
        drop := drop + 1;
      }
      ghost var before := policyMatches;
      for i := 0 to |result.policies|
        modifies this`policyMatches
        invariant policyMatches == CountMatches(before, result.policies[..i])
      {
        assert result.policies[..i + 1][..i] == result.policies[..i];
        var p := result.policies[i];
        if p.matched {
          policyMatches := policyMatches[p.name := Count(policyMatches, p.name) + 1];
        }
      }
      assert result.policies[..|result.policies|] == result.policies;
    }

    method Reset()
      modifies this
      ensures Snapshot() == ZERO
    {
      observed, keep, drop := 0, 0, 0;
      policyMatches := map[];
    }
  }

  // ---- what the counters of a log say ----

  function Kept(rs: seq<EvalResult>): nat {
    if rs == [] then 0 else Kept(rs[..|rs| - 1]) + if rs[|rs| - 1].decision.Keep? then 1 else 0
  }

  /** How many of the results under this name matched. */
  function Hits(ps: seq<PolicyResult>, name: string): nat {
    if ps == [] then 0
    else Hits(ps[..|ps| - 1], name) + if ps[|ps| - 1].matched && ps[|ps| - 1].name == name then 1 else 0
  }

  function AllHits(rs: seq<EvalResult>, name: string): nat {
    if rs == [] then 0 else AllHits(rs[..|rs| - 1], name) + Hits(rs[|rs| - 1].policies, name)
  }

  lemma {:induction false} CountMatchesIs(m: map<string, nat>, ps: seq<PolicyResult>, name: string)
    ensures Count(CountMatches(m, ps), name) == Count(m, name) + Hits(ps, name)
  {
    if ps != [] {
      CountMatchesIs(m, ps[..|ps| - 1], name);
    }
  }

  /** Starting from zero, the counters are the log's totals, and every observation is kept or dropped. */
  lemma {:induction false} RecordAllIs(rs: seq<EvalResult>, name: string)
    ensures var s := RecordAll(ZERO, rs);
      && s.observed == |rs| && s.keep == Kept(rs) && s.keep + s.drop == s.observed
      && Count(s.matches, name) == AllHits(rs, name)
  {
    if rs != [] {
      RecordAllIs(rs[..|rs| - 1], name);
      CountMatchesIs(RecordAll(ZERO, rs[..|rs| - 1]).matches, rs[|rs| - 1].policies, name);
    }
  }

  lemma {:induction false} RecordAllAppend(s: Stats, a: seq<EvalResult>, b: seq<EvalResult>)
    ensures RecordAll(s, a + b) == RecordAll(RecordAll(s, a), b)
  {
    if b == [] {
      assert a + b == a;
    } else {
      assert (a + b)[..|a + b| - 1] == a + b[..|b| - 1];
      RecordAllAppend(s, a, b[..|b| - 1]);
    }
  }

  // ---- logs of one configuration ----

  /** r is a result of evaluating these policies. */
  ghost predicate ResultOf(policies: seq<PolicyCfg>, r: EvalResult) {
    && |r.policies| == |policies| && (forall i :: 0 <= i < |policies| ==> r.policies[i].name == policies[i].name)
    && r.decision == (if AnyMatched(r.policies) then Keep else Drop)
  }

  ghost predicate DistinctNames(policies: seq<PolicyCfg>) {
    forall i, j :: 0 <= i < j < |policies| ==> policies[i].name != policies[j].name
  }

  lemma {:induction false} NoHits(ps: seq<PolicyResult>, name: string)
    requires forall i :: 0 <= i < |ps| ==> !(ps[i].matched && ps[i].name == name)
    ensures Hits(ps, name) == 0
  {
    if ps != [] {
      NoHits(ps[..|ps| - 1], name);
    }
  }

  lemma {:induction false} AtMostOneHit(policies: seq<PolicyCfg>, ps: seq<PolicyResult>, name: string)
    requires DistinctNames(policies) && |ps| == |policies| && forall i :: 0 <= i < |policies| ==>
      ps[i].name == policies[i].name
    ensures Hits(ps, name) <= if AnyMatched(ps) then 1 else 0
  {
    if ps != [] {
      var n := |ps| - 1;
      AtMostOneHit(policies[..n], ps[..n], name);
      if AnyMatched(ps[..n]) {
        var i :| 0 <= i < n && ps[..n][i].matched;
        assert ps[i].matched;
      }
      if ps[n].matched && ps[n].name == name {
        assert AnyMatched(ps);
        NoHits(ps[..n], name);
      }
    }
  }

  /** With distinct policy names no policy matched more often than traces were kept. */
  lemma {:induction false} MatchesAtMostKept(policies: seq<PolicyCfg>, rs: seq<EvalResult>, name: string)
    requires DistinctNames(policies) && forall i :: 0 <= i < |rs| ==> ResultOf(policies, rs[i])
    ensures AllHits(rs, name) <= Kept(rs)
  {
    if rs != [] {
      var n := |rs| - 1;
      MatchesAtMostKept(policies, rs[..n], name);
      assert ResultOf(policies, rs[n]);
      AtMostOneHit(policies, rs[n].policies, name);
    }
  }

  ghost predicate LogOf(policies: seq<PolicyCfg>, rs: seq<EvalResult>) {
    forall i :: 0 <= i < |rs| ==> ResultOf(policies, rs[i])
  }

  lemma {:induction false} TwoHits(ps: seq<PolicyResult>, i: nat, j: nat)
    requires i < j < |ps| && ps[i].matched && ps[j].matched && ps[i].name == ps[j].name
    ensures Hits(ps, ps[i].name) >= 2
  {
    if j < |ps| - 1 {
      TwoHits(ps[..|ps| - 1], i, j);
    } else {
      MatchedIsHit(ps[..|ps| - 1], i);
    }
  }

  /** The result that just these two of the policies matched. */
  function OnlyTheseMatch(policies: seq<PolicyCfg>, i: nat, j: nat): (r: EvalResult)
    requires i < |policies| && j < |policies|
    ensures ResultOf(policies, r) && r.decision == Keep && r.policies[i].matched && r.policies[j].matched
  {
    var ps := seq(|policies|, k requires 0 <= k < |policies| => PolicyResult(policies[k].name, k == i || k == j));
    assert ps[i].matched;
    EvalResult(Keep, ps)
  }

  /** A policy's count stays within keep, over all logs, exactly when no two policies share a name. */
  lemma CountsWithinKeptExactly(policies: seq<PolicyCfg>)
    ensures DistinctNames(policies) <==> forall rs, name :: LogOf(policies, rs) ==> AllHits(rs, name) <= Kept(rs)
  {
    if DistinctNames(policies) {
      forall rs, name | LogOf(policies, rs) ensures AllHits(rs, name) <= Kept(rs) {
        MatchesAtMostKept(policies, rs, name);
      }
    } else {
      var i, j :| 0 <= i < j < |policies| && policies[i].name == policies[j].name;
      var r := OnlyTheseMatch(policies, i, j);
      TwoHits(r.policies, i, j);
      var rs, name := [r], policies[i].name;
      assert LogOf(policies, rs);
      assert AllHits(rs, name) == AllHits(rs[..0], name) + Hits(r.policies, name);
      assert Kept(rs) == 1;
    }
  }

  /** Sum of the counters of the configured policies; a name given twice is counted twice. */
  function SumCounts(m: map<string, nat>, policies: seq<PolicyCfg>): nat {
    if policies == [] then 0 else SumCounts(m, policies[..|policies| - 1]) + Count(m, policies[|policies| - 1].name)
  }

  lemma {:induction false} CountersOnlyGrow(m: map<string, nat>, ps: seq<PolicyResult>, policies: seq<PolicyCfg>)
    ensures SumCounts(CountMatches(m, ps), policies) >= SumCounts(m, policies)
  {
    if policies != [] {
      CountersOnlyGrow(m, ps, policies[..|policies| - 1]);
      CountMatchesIs(m, ps, policies[|policies| - 1].name);
    }
  }

  lemma {:induction false} HitGrowsSum(m: map<string, nat>, ps: seq<PolicyResult>, policies: seq<PolicyCfg>, i: nat)
    requires i < |policies| && Hits(ps, policies[i].name) > 0
    ensures SumCounts(CountMatches(m, ps), policies) > SumCounts(m, policies)
  {
    var n := |policies| - 1;
    CountMatchesIs(m, ps, policies[n].name);
    if i == n {
      CountersOnlyGrow(m, ps, policies[..n]);
    } else {
      HitGrowsSum(m, ps, policies[..n], i);
    }
  }

  lemma {:induction false} MatchedIsHit(ps: seq<PolicyResult>, i: nat)
    requires i < |ps| && ps[i].matched
    ensures Hits(ps, ps[i].name) > 0
  {
    if i < |ps| - 1 {
      MatchedIsHit(ps[..|ps| - 1], i);
    }
  }

  /** Every kept trace was matched by someone. */
  lemma {:induction false} KeptAtMostMatches(policies: seq<PolicyCfg>, rs: seq<EvalResult>)
    requires forall i :: 0 <= i < |rs| ==> ResultOf(policies, rs[i])
    ensures Kept(rs) <= SumCounts(RecordAll(ZERO, rs).matches, policies)
  {
    if rs != [] {
      var n := |rs| - 1;
      var m := RecordAll(ZERO, rs[..n]).matches;
      KeptAtMostMatches(policies, rs[..n]);
      assert ResultOf(policies, rs[n]);
      CountersOnlyGrow(m, rs[n].policies, policies);
      if rs[n].decision.Keep? {
        var i :| 0 <= i < |rs[n].policies| && rs[n].policies[i].matched;
        MatchedIsHit(rs[n].policies, i);
        HitGrowsSum(m, rs[n].policies, policies, i);
      }
    }
  }
}
