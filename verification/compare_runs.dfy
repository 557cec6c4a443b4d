/** What the counters of a policy comparison say about each other and about adopting the candidate. */
module CompareRuns {
  import opened Policies
  import opened TraceTypes
  import opened StoreSpec
  import opened Statistics
  import opened ServerSpec
  import opened DecisionRuns
  import opened Compare

  // ---- what the counters say ----

  lemma {:induction false} NumberArithmetic(j: Judge, cfg: Config, ts: seq<Trace>)
    ensures Number((t: Trace) => t.state.Decided?, ts) == Number(NowKept, ts) + Number(NowDropped, ts)
    ensures Number(t => Counted(j, cfg, t), ts) ==
      Number(t => WouldKeep(j, cfg, t), ts) + Number(t => WouldDrop(j, cfg, t), ts)
    ensures Number(t => LostError(j, cfg, t), ts) <= Number(t => Lost(j, cfg, t), ts) <= Number(NowKept, ts)
    ensures Number(t => Regained(j, cfg, t), ts) <= Number(NowDropped, ts)
    ensures Number(t => WouldKeep(j, cfg, t), ts) + Number(t => Lost(j, cfg, t), ts) + Number(t => Unjudged(j, cfg, t),
        ts)
         == Number(NowKept, ts) + Number(t => Regained(j, cfg, t), ts)
  {
    if ts != [] {
      NumberArithmetic(j, cfg, ts[..|ts| - 1]);
    }
  }

  /**
   * Keep and drop make up each side; the traces that change are among those kept or dropped
   * before; and both rates are proportions.
   */
  lemma CompareArithmetic(j: Judge, cfg: Config, ts: seq<Trace>, r: CompareResult)
    requires Compares(j, cfg, ts, r)
    ensures r.current.observed == r.current.keep + r.current.drop
    ensures r.candidate.observed == r.candidate.keep + r.candidate.drop
    ensures r.errorTracesNewlyDropped <= r.newlyDropped <= r.current.keep && r.newlyKept <= r.current.drop
    ensures 0.0 <= r.current.samplingRate <= 1.0 && 0.0 <= r.candidate.samplingRate <= 1.0
  {
    NumberArithmetic(j, cfg, ts);
  }

  /** The rate is the share of the observed that is kept, and 0 when nothing is observed. */
  ghost predicate IsShare(p: PolicySnapshot) {
    if p.observed == 0 then p.samplingRate == 0.0 else p.samplingRate * p.observed as real == p.keep as real
  }

  lemma SideIsShare(p: PolicySnapshot)
    requires p.samplingRate == SamplingRate(p.keep, p.observed)
    ensures IsShare(p)
  {
  }

  lemma RatesAreShares(j: Judge, cfg: Config, ts: seq<Trace>, r: CompareResult)
    requires Compares(j, cfg, ts, r)
    ensures IsShare(r.current) && IsShare(r.candidate)
  {
    SideIsShare(r.current);
    SideIsShare(r.candidate);
  }

  /** A DECIDED trace on which KEEP gives way to DROP under the candidate. */
  ghost predicate TurnsToDrop(j: Judge, cfg: Config, t: Trace) {
    && t.state == TraceTypes.Decided && t.decision == Keep
    && j.eval(cfg, t.id, t.spans).Some? && j.eval(cfg, t.id, t.spans).value.decision != Keep
  }

  ghost predicate TurnsToKeep(j: Judge, cfg: Config, t: Trace) {
    && t.state == TraceTypes.Decided && t.decision != Keep
    && j.eval(cfg, t.id, t.spans).Some? && j.eval(cfg, t.id, t.spans).value.decision == Keep
  }

  ghost predicate HasErrorSpan(t: Trace) {
    exists i :: 0 <= i < |t.spans| && t.spans[i].statusCode == StatusError
  }

  /**
   * Each change counter is zero exactly when no trace changes that way, and every newly dropped
   * trace counts as an error trace exactly when each of them has an error span.
   */
  lemma ChangesExactly(j: Judge, cfg: Config, ts: seq<Trace>, r: CompareResult)
    requires Compares(j, cfg, ts, r)
    ensures r.newlyKept == 0 <==> forall t <- ts :: !TurnsToKeep(j, cfg, t)
    ensures r.newlyDropped == 0 <==> forall t <- ts :: !TurnsToDrop(j, cfg, t)
    ensures r.errorTracesNewlyDropped == 0 <==> forall t <- ts :: TurnsToDrop(j, cfg, t) ==> !HasErrorSpan(t)
    ensures r.errorTracesNewlyDropped == r.newlyDropped <==> forall t <- ts :: TurnsToDrop(j, cfg, t) ==>
      HasErrorSpan(t)
  {
    NumberNone(t => Regained(j, cfg, t), ts);
    NumberNone(t => Lost(j, cfg, t), ts);
    NumberNone(t => LostError(j, cfg, t), ts);
    NumberPart(t => LostError(j, cfg, t), t => Lost(j, cfg, t), ts);
    forall t | t in ts
      ensures TurnsToKeep(j, cfg, t) <==> Regained(j, cfg, t)
      ensures TurnsToDrop(j, cfg, t) <==> Lost(j, cfg, t)
      ensures TurnsToDrop(j, cfg, t) && HasErrorSpan(t) <==> LostError(j, cfg, t)
    {
    }
  }

  lemma NumberNone(p: Trace -> bool, ts: seq<Trace>)
    ensures Number(p, ts) == 0 <==> forall t <- ts :: !p(t)
  {
    NumberZero(p, ts);
  }

  lemma {:induction false} NumberPart(p: Trace -> bool, q: Trace -> bool, ts: seq<Trace>)
    requires forall t :: p(t) ==> q(t)
    ensures Number(p, ts) <= Number(q, ts)
    ensures Number(p, ts) == Number(q, ts) <==> forall t <- ts :: q(t) ==> p(t)
  {
    if ts != [] {
      var init, last := ts[..|ts| - 1], ts[|ts| - 1];
      NumberPart(p, q, init);
      assert ts == init + [last];
    }
  }

  /** The changes account for the difference in KEEP exactly when the candidate can judge every kept trace. */
  lemma ChangesAccountExactly(j: Judge, cfg: Config, ts: seq<Trace>, r: CompareResult)
    requires Compares(j, cfg, ts, r)
    ensures r.candidate.keep - r.current.keep == r.newlyKept - r.newlyDropped
       <==> forall i :: 0 <= i < |ts| && NowKept(ts[i]) ==> Eval(j, cfg, ts[i]).Some?
  {
    NumberArithmetic(j, cfg, ts);
    NumberZero(t => Unjudged(j, cfg, t), ts);
    assert (forall i :: 0 <= i < |ts| ==> !Unjudged(j, cfg, ts[i]))
      <==> forall i :: 0 <= i < |ts| && NowKept(ts[i]) ==> Eval(j, cfg, ts[i]).Some?;
  }

  lemma {:induction false} NumberZero(p: Trace -> bool, ts: seq<Trace>)
    ensures Number(p, ts) == 0 <==> forall i :: 0 <= i < |ts| ==> !p(ts[i])
  {
    if ts != [] {
      var init := ts[..|ts| - 1];
      NumberZero(p, init);
      assert (forall i :: 0 <= i < |ts| ==> !p(ts[i])) <==>
        (forall i :: 0 <= i < |init| ==> !p(init[i])) && !p(ts[|init|]);
    }
  }

  lemma {:induction false} NumberSame(p: Trace -> bool, q: Trace -> bool, ts: seq<Trace>)
    requires forall i :: 0 <= i < |ts| ==> p(ts[i]) == q(ts[i])
    ensures Number(p, ts) == Number(q, ts)
  {
    if ts != [] {
      NumberSame(p, q, ts[..|ts| - 1]);
    }
  }

  /**
   * After any run, comparing the active policy with itself reports no change, and equal sides when
   * nothing fails to evaluate.
   */
  lemma SelfCompare(j: Judge, lib: Lib, storeCfg: StoreConfig, cfg: Config, es: seq<Event>, r: CompareResult)
    requires Lawful(j) && AllPossible(lib, es)
    requires var s := Run(j, lib, InitialState(storeCfg, cfg), es); Compares(j, s.cfg, s.store.order, r)
    ensures r.newlyKept == 0 && r.newlyDropped == 0 && r.errorTracesNewlyDropped == 0
    ensures var s := Run(j, lib, InitialState(storeCfg, cfg), es);
      (forall i :: 0 <= i < |s.store.order| && s.store.order[i].state.Decided? ==>
          Eval(j, s.cfg, s.store.order[i]).Some?)
        ==> r.candidate == r.current
  {
    var s := Run(j, lib, InitialState(storeCfg, cfg), es);
    RunKeeps(j, lib, storeCfg, cfg, es);
    SelfCompareAt(j, s.cfg, s.store.order, r);
  }

  lemma SelfCompareAt(j: Judge, cfg: Config, ts: seq<Trace>, r: CompareResult)
    requires Compares(j, cfg, ts, r) && forall i :: 0 <= i < |ts| ==> Agrees(j, cfg, ts[i])
    ensures r.newlyKept == 0 && r.newlyDropped == 0 && r.errorTracesNewlyDropped == 0
    ensures (forall i :: 0 <= i < |ts| && ts[i].state.Decided? ==> Eval(j, cfg, ts[i]).Some?) ==>
      r.candidate == r.current
  {
    NumberArithmetic(j, cfg, ts);
    NumberZero(t => Regained(j, cfg, t), ts);
    NumberZero(t => Lost(j, cfg, t), ts);
    if forall i :: 0 <= i < |ts| && ts[i].state.Decided? ==> Eval(j, cfg, ts[i]).Some? {
      NumberSame((t: Trace) => t.state.Decided?, t => Counted(j, cfg, t), ts);
      NumberZero(t => Unjudged(j, cfg, t), ts);
    }
  }

  lemma {:induction false} DecidedResultsAre(j: Judge, cfg: Config, ts: seq<Trace>)
    ensures |DecidedResults(j, cfg, ts)| == Number(t => Counted(j, cfg, t), ts)
    ensures Kept(DecidedResults(j, cfg, ts)) == Number(t => WouldKeep(j, cfg, t), ts)
  {
    if ts != [] {
      var last := ts[|ts| - 1];
      var rs := DecidedResults(j, cfg, ts[..|ts| - 1]);
      DecidedResultsAre(j, cfg, ts[..|ts| - 1]);
      if Counted(j, cfg, last) {
        assert (rs + [Eval(j, cfg, last).value])[..|rs|] == rs;
      }
    }
  }

  /** The candidate's side is a forecast: adopting the candidate now puts exactly these numbers in the statistics. */
  lemma CompareForecasts(j: Judge, s: ServerState, cand: Config, r: CompareResult)
    requires j.compiles(cand) && Compares(j, cand, s.store.order, r)
    ensures var stats := SetPolicy(j, s, cand).stats;
      stats.observed == r.candidate.observed && stats.keep == r.candidate.keep && stats.drop == r.candidate.drop
  {
    DecidedResultsAre(j, cand, s.store.order);
    NumberArithmetic(j, cand, s.store.order);
    RecordAllIs(DecidedResults(j, cand, s.store.order), "");
  }
}
