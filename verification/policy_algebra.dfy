/** How changing a configuration changes decisions. */
module PolicyAlgebra {
  import opened Wrappers
  import opened Pdata
  import opened Policies
  import opened Fidelity

  /** Evaluation is policy by policy: results of a concatenation are the concatenation of results. */
  lemma {:induction false} ResultsAppend(lib: Lib, p: seq<PolicyCfg>, q: seq<PolicyCfg>, id: TraceId, views: seq<View>)
    ensures var rp, rq := Results(lib, p, id, views), Results(lib, q, id, views);
      Results(lib, p + q, id, views) == if rp.Some? && rq.Some? then Some(rp.value + rq.value) else None
  {
    if q == [] {
      assert p + q == p;
      assert forall rs: seq<PolicyResult> :: rs + [] == rs;
    } else {
      assert (p + q)[..|p + q| - 1] == p + q[..|q| - 1];
      ResultsAppend(lib, p, q[..|q| - 1], id, views);
      var rp, ri := Results(lib, p, id, views), Results(lib, q[..|q| - 1], id, views);
      assert (p + q)[|p + q| - 1] == q[|q| - 1];
      if rp.Some? && ri.Some? {
        assert forall r: PolicyResult :: rp.value + ri.value + [r] == rp.value + (ri.value + [r]);
      }
    }
  }

  lemma AnyMatchedAppend(r: seq<PolicyResult>, s: seq<PolicyResult>)
    ensures AnyMatched(r + s) <==> AnyMatched(r) || AnyMatched(s)
  {
    if i :| 0 <= i < |r| && r[i].matched {
      assert (r + s)[i].matched;
    }
    if i :| 0 <= i < |s| && s[i].matched {
      assert (r + s)[|r| + i].matched;
    }
  }

  /** Inserting a policy anywhere never turns KEEP into DROP, and leaves the others' results alone. */
  lemma AddingAPolicy(lib: Lib, wait: int, before: seq<PolicyCfg>, p: PolicyCfg, after: seq<PolicyCfg>,
      id: TraceId, views: seq<View>)
    requires Evaluation(lib, Config(wait, before + [p] + after), id, views).Some?
    ensures var base := Evaluation(lib, Config(wait, before + after), id, views);
      var extended := Evaluation(lib, Config(wait, before + [p] + after), id, views);
      var n := |before|;
      && base.Some?
      && (base.value.decision == Keep ==> extended.value.decision == Keep)
      && n <= |base.value.policies|
      && extended.value.policies ==
           base.value.policies[..n] + [PolicyResult(p.name,
               Outcome(lib, p.spec, id, views) == Some(true))] + base.value.policies[n..]
  {
    ResultsAppend(lib, before + [p], after, id, views);
    ResultsAppend(lib, before, [p], id, views);
    ResultsAppend(lib, before, after, id, views);
    var rb, ra := Results(lib, before, id, views).value, Results(lib, after, id, views).value;
    ResultsLength(lib, before, id, views);
    assert [p][..0] == [];
    var rp := Results(lib, [p], id, views).value;
    assert [] + [PolicyResult(p.name, rp[0].matched)] == rp;
    AnyMatchedAppend(rb + rp, ra);
    AnyMatchedAppend(rb, rp);
    AnyMatchedAppend(rb, ra);
  }

  lemma {:induction false} ResultsLength(lib: Lib, p: seq<PolicyCfg>, id: TraceId, views: seq<View>)
    ensures Results(lib, p, id, views).Some? ==> |Results(lib, p, id, views).value| == |p|
    ensures Results(lib, p, id, views).Some? ==> forall i :: 0 <= i < |p| ==>
      Results(lib, p, id, views).value[i] == PolicyResult(p[i].name, Outcome(lib, p[i].spec, id, views) == Some(true))
  {
    if p != [] {
      ResultsLength(lib, p[..|p| - 1], id, views);
    }
  }

  /** A conjunction matches exactly when each of its sub-policies does, so inserting one never makes it newly match. */
  lemma {:induction false} AndMatchesAll(lib: Lib, subs: seq<SubPolicy>, id: TraceId, views: seq<View>)
    ensures AndOutcome(lib, subs, id, views) == Some(true)
        <==> forall i :: 0 <= i < |subs| ==> LeafOutcome(lib, subs[i].leaf, id, views) == Some(true)
  {
    if subs != [] {
      AndMatchesAll(lib, subs[1..], id, views);
      assert forall i :: 1 <= i < |subs| ==> subs[i] == subs[1..][i - 1];
    }
  }

  lemma AddingASubPolicy(lib: Lib, before: seq<SubPolicy>, p: SubPolicy, after: seq<SubPolicy>, id: TraceId,
      views: seq<View>)
    requires AndOutcome(lib, before + [p] + after, id, views) == Some(true)
    ensures AndOutcome(lib, before + after, id, views) == Some(true)
  {
    AndMatchesAll(lib, before + [p] + after, id, views);
    AndMatchesAll(lib, before + after, id, views);
    forall i | 0 <= i < |before + after| ensures LeafOutcome(lib, (before + after)[i].leaf, id, views) == Some(true) {
      var j := if i < |before| then i else i + 1;
      assert (before + [p] + after)[j] == (before + after)[i];
    }
  }

  // ---- raising a percentage ----

  ghost predicate ThresholdGrows(lib: Lib) {
    forall p: real, q: real :: p <= q ==> lib.threshold(p) <= lib.threshold(q)
  }

  /** l is k, or the same probabilistic policy with a percentage at least as high. */
  ghost predicate LeafRaised(k: Leaf, l: Leaf) {
    l == k || (k.Probabilistic? && l.Probabilistic? && k.hashSalt == l.hashSalt &&
        k.samplingPercentage <= l.samplingPercentage)
  }

  ghost predicate SpecRaised(s: Spec, t: Spec) {
    match (s, t)
    case (One(k), One(l)) => LeafRaised(k, l)
    case (And(ks), And(ls)) => |ks| == |ls| && forall i :: 0 <= i < |ks| ==> LeafRaised(ks[i].leaf, ls[i].leaf)
    case _ => false
  }

  ghost predicate Raised(c: Config, d: Config) {
    |c.policies| == |d.policies| && forall i :: 0 <= i < |c.policies| ==>
      SpecRaised(c.policies[i].spec, d.policies[i].spec)
  }

  lemma RaisedLeafMatches(lib: Lib, k: Leaf, l: Leaf, id: TraceId, views: seq<View>)
    requires ThresholdGrows(lib) && LeafRaised(k, l) && LeafOutcome(lib, k, id, views) == Some(true)
    ensures LeafOutcome(lib, l, id, views) == Some(true)
  {
    if l != k {
      assert k.samplingPercentage / 100.0 <= l.samplingPercentage / 100.0;
    }
  }

  lemma RaisedSpecMatches(lib: Lib, s: Spec, t: Spec, id: TraceId, views: seq<View>)
    requires ThresholdGrows(lib) && SpecRaised(s, t) && Outcome(lib, s, id, views) == Some(true)
    ensures Outcome(lib, t, id, views) == Some(true)
  {
    match s {
      case One(k) => RaisedLeafMatches(lib, k, t.leaf, id, views);
      case And(ks) =>
        AndMatchesAll(lib, ks, id, views);
        AndMatchesAll(lib, t.subs, id, views);
        forall i | 0 <= i < |ks| ensures LeafOutcome(lib, t.subs[i].leaf, id, views) == Some(true) {
          RaisedLeafMatches(lib, ks[i].leaf, t.subs[i].leaf, id, views);
        }
    }
  }

  /** Raising sampling percentages, on their own or inside conjunctions, never turns KEEP into DROP. */
  lemma RaisingPercentages(lib: Lib, c: Config, d: Config, id: TraceId, views: seq<View>)
    requires ThresholdGrows(lib) && Raised(c, d)
    requires Evaluation(lib, c, id, views).Some? && Evaluation(lib, d, id, views).Some?
    ensures Evaluation(lib, c, id, views).value.decision == Keep ==>
      Evaluation(lib, d, id, views).value.decision == Keep
  {
    ResultsLength(lib, c.policies, id, views);
    ResultsLength(lib, d.policies, id, views);
    var rc, rd := Results(lib, c.policies, id, views).value, Results(lib, d.policies, id, views).value;
    if i :| 0 <= i < |rc| && rc[i].matched {
      RaisedSpecMatches(lib, c.policies[i].spec, d.policies[i].spec, id, views);
      assert rd[i].matched;
    }
  }

  // ---- evaluation and matched names ----

  /** KEEP exactly when some policy's name is reported as matched. */
  lemma {:induction false} KeepMeansMatched(rs: seq<PolicyResult>)
    ensures AnyMatched(rs) <==> MatchedNames(rs) != []
    ensures |MatchedNames(rs)| <= |rs|
  {
    if rs != [] {
      var init := rs[..|rs| - 1];
      KeepMeansMatched(init);
      if i :| 0 <= i < |init| && init[i].matched {
        assert rs[i].matched;
      }
      if rs[|rs| - 1].matched {
        assert AnyMatched(rs);
      }
      if i :| 0 <= i < |rs| && rs[i].matched {
        if i < |init| {
          assert init[i].matched;
        }
      }
    }
  }

  /** at lists the matched positions in ascending order, without a gap, and names lists the names there. */
  ghost predicate ListsMatched(rs: seq<PolicyResult>, at: seq<nat>, names: seq<string>) {
    && |at| == |names|
    && (forall k :: 0 <= k < |at| ==> at[k] < |rs| && rs[at[k]].matched && names[k] == rs[at[k]].name)
    && (forall k, l :: 0 <= k < l < |at| ==> at[k] < at[l])
    && (forall i: nat :: i < |rs| && rs[i].matched ==> i in at)
  }

  lemma ListsOneMore(rs: seq<PolicyResult>, r: PolicyResult, at: seq<nat>, names: seq<string>)
    requires ListsMatched(rs, at, names)
    ensures r.matched ==> ListsMatched(rs + [r], at + [|rs|], names + [r.name])
    ensures !r.matched ==> ListsMatched(rs + [r], at, names)
  {
    forall i: nat | i < |rs + [r]| && (rs + [r])[i].matched ensures if i < |rs| then i in at else r.matched {
      assert i < |rs| ==> rs[i].matched;
    }
  }

  /** The matched names are those of the policies that matched, one for each, in configuration order. */
  lemma {:induction false} NamesOfMatched(rs: seq<PolicyResult>) returns (at: seq<nat>)
    ensures ListsMatched(rs, at, MatchedNames(rs))
  {
    at := [];
    if rs != [] {
      var init, last := rs[..|rs| - 1], rs[|rs| - 1];
      at := NamesOfMatched(init);
      ListsOneMore(init, last, at, MatchedNames(init));
      assert rs == init + [last];
      assert MatchedNames(init) + [] == MatchedNames(init);
      at := if last.matched then at + [|init|] else at;
    }
  }

  /** With no error in sight the evaluation answers: only OTTL conditions can fail at run time. */
  lemma {:induction false} CompiledWithoutOTTLAnswers(lib: Lib, policies: seq<PolicyCfg>, id: TraceId, views: seq<View>)
    requires forall i :: 0 <= i < |policies| ==>
      SpecWithoutOTTL(policies[i].spec) && SpecCompiles(lib, policies[i].spec)
    ensures Results(lib, policies, id, views).Some?
  {
    if policies != [] {
      var last := policies[|policies| - 1];
      CompiledWithoutOTTLAnswers(lib, policies[..|policies| - 1], id, views);
      assert SpecWithoutOTTL(last.spec) && SpecCompiles(lib, last.spec);
      if last.spec.And? {
        AndAnswers(lib, last.spec.subs, id, views);
      }
    }
  }

  lemma {:induction false} AndAnswers(lib: Lib, subs: seq<SubPolicy>, id: TraceId, views: seq<View>)
    requires forall i :: 0 <= i < |subs| ==> LeafWithoutOTTL(subs[i].leaf) && LeafCompiles(lib, subs[i].leaf)
    ensures AndOutcome(lib, subs, id, views).Some?
  {
    if subs != [] {
      assert LeafCompiles(lib, subs[0].leaf);
      AndAnswers(lib, subs[1..], id, views);
    }
  }
}
