/**
 * What every serialised run keeps about decisions and statistics, for any
 * deterministic policy engine, errors included.
 */
module DecisionRuns {
  import opened Pdata
  import opened Policies
  import opened TraceTypes
  import opened TraceList
  import opened StoreSpec
  import opened Statistics
  import opened ServerSpec

  /** Results name the configuration's policies in order, and KEEP means that one matched. */
  ghost predicate Lawful(judge: Judge) {
    forall cfg, id, spans :: judge.eval(cfg, id, spans).Some? ==>
      ResultOf(cfg.policies, judge.eval(cfg, id, spans).value)
  }

  /** Nothing of a configuration but its policies is read. */
  ghost predicate ReadsPoliciesOnly(judge: Judge) {
    forall c: Config, d: Config, id, spans :: c.policies == d.policies ==>
      judge.eval(c, id, spans) == judge.eval(d, id, spans)
  }

  /** What an engine of this kind can be: lawful, and blind to everything but policies, id and spans. */
  ghost predicate Regular(judge: Judge) {
    Lawful(judge) && ReadsPoliciesOnly(judge)
  }

  /** A DECIDED trace carries what the policy says of its spans now, whenever that evaluation succeeds. */
  ghost predicate Agrees(judge: Judge, cfg: Config, t: Trace) {
    t.state.Decided? && Eval(judge, cfg, t).Some? ==>
      && t.decision == Eval(judge, cfg, t).value.decision
      && t.matched == MatchedNames(Eval(judge, cfg, t).value.policies)
  }

  ghost predicate Decisions(judge: Judge, s: ServerState) {
    forall i :: 0 <= i < |s.store.order| ==> Agrees(judge, s.cfg, s.store.order[i])
  }

  /** Under this policy every trace evaluates. */
  ghost predicate Answers(judge: Judge, cfg: Config) {
    forall id, spans :: judge.eval(cfg, id, spans).Some?
  }

  function DecidedCount(order: seq<Trace>): nat {
    if order == [] then 0
    else DecidedCount(order[..|order| - 1]) + if order[|order| - 1].state.Decided? then 1 else 0
  }

  ghost function CountedIn(judge: Judge, cfg: Config, order: seq<Trace>): nat {
    if order == [] then 0
    else CountedIn(judge, cfg, order[..|order| - 1]) + if Counted(judge, cfg, order[|order| - 1]) then 1 else 0
  }

  /** The statistics are the totals of a log of results of the current policies that covers every counted trace. */
  ghost predicate LogFor(judge: Judge, s: ServerState, log: seq<EvalResult>) {
    && s.stats == RecordAll(ZERO, log)
    && (forall i :: 0 <= i < |log| ==> ResultOf(s.cfg.policies, log[i]))
    && CountedIn(judge, s.cfg, s.store.order) <= |log|
  }

  ghost predicate Invariant(judge: Judge, s: ServerState) {
    Consistent(s.store) && Decisions(judge, s) && exists log :: LogFor(judge, s, log)
  }

  /** Where every trace evaluates, every DECIDED trace is counted. */
  lemma {:induction false} AnsweringCountsAll(judge: Judge, cfg: Config, order: seq<Trace>)
    requires Answers(judge, cfg)
    ensures CountedIn(judge, cfg, order) == DecidedCount(order)
  {
    if order != [] {
      AnsweringCountsAll(judge, cfg, order[..|order| - 1]);
    }
  }

  // ---- frames ----

  lemma {:induction false} CountedAppend(judge: Judge, cfg: Config, a: seq<Trace>, b: seq<Trace>)
    ensures CountedIn(judge, cfg, a + b) == CountedIn(judge, cfg, a) + CountedIn(judge, cfg, b)
  {
    if b == [] {
      assert a + b == a;
    } else {
      assert (a + b)[..|a + b| - 1] == a + b[..|b| - 1];
      CountedAppend(judge, cfg, a, b[..|b| - 1]);
    }
  }

  lemma CountedSuffix(judge: Judge, cfg: Config, a: seq<Trace>, k: nat)
    requires k <= |a|
    ensures CountedIn(judge, cfg, a[k..]) <= CountedIn(judge, cfg, a)
  {
    assert a == a[..k] + a[k..];
    CountedAppend(judge, cfg, a[..k], a[k..]);
  }

  lemma {:induction false} CountedWithout(judge: Judge, cfg: Config, order: seq<Trace>, ids: seq<TraceId>)
    ensures CountedIn(judge, cfg, Without(order, ids)) <= CountedIn(judge, cfg, order)
  {
    if order != [] {
      var init, last := order[..|order| - 1], order[|order| - 1];
      CountedWithout(judge, cfg, init, ids);
      CountedAppend(judge, cfg, Without(init, ids), [last]);
      assert [last][..0] == [];
    }
  }

  lemma {:induction false} NoneCounted(judge: Judge, cfg: Config, order: seq<Trace>)
    requires forall i :: 0 <= i < |order| ==> !order[i].state.Decided?
    ensures CountedIn(judge, cfg, order) == 0
  {
    if order != [] {
      NoneCounted(judge, cfg, order[..|order| - 1]);
    }
  }

  /** Arriving spans leave their trace undecided. */
  lemma TouchedUndecided(order: seq<Trace>, now: int, ids: seq<TraceId>, m: SpansByTrace)
    requires forall id <- ids :: id in m
    ensures forall i :: 0 <= i < |ids| ==> !TouchedSeq(order, now, ids, m)[i].state.Decided?
  {
  }

  /** After a frame every retained trace was there unchanged, or was touched. */
  lemma RetainedAfterFrame(s: StoreState, now: int, ids: seq<TraceId>, m: SpansByTrace, t: Trace)
    requires Distinct(ids) && (forall id <- ids :: id in m) && t in Ingest(s, now, ids, m).order
    ensures (t in s.order && t.id !in ids) || t in TouchedSeq(s.order, now, ids, m)
  {
    IngestAllIs(s.order, now, ids, m);
    EvictIsShortestPrefix(Merged(s, now, ids, m), now);
    WithoutIs(s.order, ids);
    assert t in Merged(s, now, ids, m).order;
  }

  lemma FrameKeepsDecisions(judge: Judge, s: ServerState, now: int, ids: seq<TraceId>, m: SpansByTrace)
    requires Decisions(judge, s) && Walks(ids, m)
    ensures Decisions(judge, HandleFrame(s, now, ids, m))
  {
    var order := HandleFrame(s, now, ids, m).store.order;
    TouchedUndecided(s.store.order, now, ids, m);
    forall i | 0 <= i < |order| ensures Agrees(judge, s.cfg, order[i]) {
      RetainedAfterFrame(s.store, now, ids, m, order[i]);
    }
  }

  lemma FrameCounts(judge: Judge, s: ServerState, now: int, ids: seq<TraceId>, m: SpansByTrace)
    requires Walks(ids, m)
    ensures CountedIn(judge, s.cfg, HandleFrame(s, now, ids, m).store.order) <= CountedIn(judge, s.cfg, s.store.order)
  {
    var order, merged := s.store.order, Merged(s.store, now, ids, m);
    IngestAllIs(order, now, ids, m);
    CountedAppend(judge, s.cfg, Without(order, ids), TouchedSeq(order, now, ids, m));
    CountedWithout(judge, s.cfg, order, ids);
    TouchedUndecided(order, now, ids, m);
    NoneCounted(judge, s.cfg, TouchedSeq(order, now, ids, m));
    EvictIsShortestPrefix(merged, now);
    CountedSuffix(judge, s.cfg, merged.order, EvictCount(merged, now));
  }

  // ---- ticks ----

  lemma {:induction false} TickCounts(judge: Judge, cfg: Config, now: int, order: seq<Trace>, after: seq<Trace>)
    requires |after| == |order| && forall i :: 0 <= i < |order| ==> after[i] == AfterDecide(judge, cfg, now, order[i])
    ensures CountedIn(judge, cfg, after) == CountedIn(judge, cfg, order) + |DueResults(judge, cfg, now, order)|
  {
    if order != [] {
      TickCounts(judge, cfg, now, order[..|order| - 1], after[..|order| - 1]);
    }
  }

  lemma {:induction false} DueResultsOf(judge: Judge, cfg: Config, now: int, order: seq<Trace>)
    requires Lawful(judge)
    ensures forall i :: 0 <= i < |DueResults(judge, cfg, now, order)| ==>
      ResultOf(cfg.policies, DueResults(judge, cfg, now, order)[i])
  {
    if order != [] {
      DueResultsOf(judge, cfg, now, order[..|order| - 1]);
    }
  }

  lemma TickKeeps(judge: Judge, s: ServerState, now: int)
    requires Lawful(judge) && Invariant(judge, s)
    ensures Invariant(judge, DecideDue(judge, s, now))
  {
    var t, rs := DecideDue(judge, s, now), DueResults(judge, s.cfg, now, s.store.order);
    DecideDueIs(judge, s, now);
    assert SameTraces(s.store.order, t.store.order);
    SameTracesConsistent(s.store, t.store.order);
    TickCounts(judge, s.cfg, now, s.store.order, t.store.order);
    DueResultsOf(judge, s.cfg, now, s.store.order);
    var log :| LogFor(judge, s, log);
    RecordAllAppend(ZERO, log, rs);
    assert LogFor(judge, t, log + rs);
    forall i | 0 <= i < |t.store.order| ensures Agrees(judge, t.cfg, t.store.order[i]) {
      assert Agrees(judge, s.cfg, s.store.order[i]);
    }
  }

  // ---- a new policy ----

  lemma {:induction false} PolicyCounts(judge: Judge, cfg: Config, order: seq<Trace>, after: seq<Trace>)
    requires |after| == |order| && forall i :: 0 <= i < |order| ==> after[i] == Reevaluated(judge, cfg, order[i])
    ensures CountedIn(judge, cfg, after) == |DecidedResults(judge, cfg, order)|
  {
    if order != [] {
      PolicyCounts(judge, cfg, order[..|order| - 1], after[..|order| - 1]);
    }
  }

  lemma {:induction false} DecidedResultsOf(judge: Judge, cfg: Config, order: seq<Trace>)
    requires Lawful(judge)
    ensures forall i :: 0 <= i < |DecidedResults(judge, cfg, order)| ==>
      ResultOf(cfg.policies, DecidedResults(judge, cfg, order)[i])
  {
    if order != [] {
      DecidedResultsOf(judge, cfg, order[..|order| - 1]);
    }
  }

  /**
   * Replacing the policy re-establishes the invariant whatever was there, and leaves one observation
   * per counted trace.
   */
  lemma PolicyEstablishes(judge: Judge, s: ServerState, cfg: Config)
    requires Lawful(judge) && Consistent(s.store) && judge.compiles(cfg)
    ensures var t := SetPolicy(judge, s, cfg);
      Invariant(judge, t) && t.stats.observed == CountedIn(judge, cfg, t.store.order)
  {
    var t, rs := SetPolicy(judge, s, cfg), DecidedResults(judge, cfg, s.store.order);
    assert SameTraces(s.store.order, t.store.order);
    SameTracesConsistent(s.store, t.store.order);
    PolicyCounts(judge, cfg, s.store.order, t.store.order);
    DecidedResultsOf(judge, cfg, s.store.order);
    assert LogFor(judge, t, rs);
    RecordAllIs(rs, "");
  }

  // ---- every run ----

  lemma StepKeeps(judge: Judge, lib: Lib, s: ServerState, e: Event)
    requires Lawful(judge) && Invariant(judge, s) && Possible(lib, e)
    ensures Invariant(judge, Step(judge, lib, s, e))
  {
    match e {
      case Frame(now, _, m, ids) =>
        IngestConsistent(s.store, now, ids, m);
        FrameKeepsDecisions(judge, s, now, ids, m);
        FrameCounts(judge, s, now, ids, m);
        var log :| LogFor(judge, s, log);
        assert LogFor(judge, Step(judge, lib, s, e), log);
      case Tick(now) => TickKeeps(judge, s, now);
      case NewPolicy(cfg) =>
        if judge.compiles(cfg) {
          PolicyEstablishes(judge, s, cfg);
        }
    }
  }

  lemma InitialKeeps(judge: Judge, storeCfg: StoreConfig, cfg: Config)
    ensures Invariant(judge, InitialState(storeCfg, cfg))
  {
    assert LogFor(judge, InitialState(storeCfg, cfg), []);
  }

  /** Decision consistency and agreeing statistics hold after every run from an empty server. */
  lemma {:induction false} RunKeeps(judge: Judge, lib: Lib, storeCfg: StoreConfig, cfg: Config, es: seq<Event>)
    requires Lawful(judge) && AllPossible(lib, es)
    ensures Invariant(judge, Run(judge, lib, InitialState(storeCfg, cfg), es))
  {
    if es == [] {
      InitialKeeps(judge, storeCfg, cfg);
    } else {
      RunKeeps(judge, lib, storeCfg, cfg, es[..|es| - 1]);
      StepKeeps(judge, lib, Run(judge, lib, InitialState(storeCfg, cfg), es[..|es| - 1]), es[|es| - 1]);
    }
  }

  /**
   * What the statistics panel shows after any run: kept and dropped make up the observed, the
   * observed cover every counted trace, kept traces were matched by some policy, and with distinct
   * names no policy matched more often than traces were kept.
   */
  lemma StatisticsAgree(judge: Judge, s: ServerState, name: string)
    requires Invariant(judge, s)
    ensures s.stats.keep + s.stats.drop == s.stats.observed
    ensures CountedIn(judge, s.cfg, s.store.order) <= s.stats.observed
    ensures s.stats.keep <= SumCounts(s.stats.matches, s.cfg.policies)
    ensures DistinctNames(s.cfg.policies) ==> Count(s.stats.matches, name) <= s.stats.keep
  {
    var log :| LogFor(judge, s, log);
    RecordAllIs(log, name);
    KeptAtMostMatches(s.cfg.policies, log);
    if DistinctNames(s.cfg.policies) {
      MatchesAtMostKept(s.cfg.policies, log, name);
    }
  }
}
