/**
 * Short runs of the real engine from an empty server: a trace counted twice, a name counted twice, a
 * verdict before its time, and a browser left behind. Each starts with one batch of one span.
 */
module Scenarios {
  import opened Wrappers
  import opened Pdata
  import opened Policies
  import opened TraceTypes
  import opened Assembler
  import opened TraceList
  import opened StoreSpec
  import opened Statistics
  import opened ServerSpec
  import opened Engines
  import opened Lifecycle
  import opened Messages
  import opened Replica

  // ---- one batch of one span ----

  const SPAN := Span(7, 1, 0, "handle", 2, 1, 2, 0, "", "", [], 0, 0)
  const BATCH: Traces := [ResourceSpans([], [ScopeSpans([SPAN])])]

  function Stored(lib: Lib): seq<FlatSpan> {
    [ToFlat(lib, [], SPAN)]
  }

  function BatchAt(lib: Lib, now: int): Event {
    Frame(now, BATCH, map[7 := Stored(lib)], [7])
  }

  lemma BatchFlattens()
    ensures Flatten(BATCH) == [([], SPAN)]
  {
    assert BATCH[..0] == [] && BATCH[0].scopes[..0] == [];
    assert ScopesSpans(BATCH[0].scopes) == [SPAN];
  }

  lemma SpansOfBatch(lib: Lib, id: TraceId)
    ensures SpansOf(lib, [([], SPAN)], id) == if id == 7 then Stored(lib) else []
  {
    var pairs: seq<(Attrs, Span)> := [([], SPAN)];
    assert pairs[..0] == [];
  }

  lemma BatchIsPossible(lib: Lib, now: int)
    ensures Possible(lib, BatchAt(lib, now))
  {
    BatchFlattens();
    forall id ensures SpansOf(lib, Flatten(BATCH), id) == if id == 7 then Stored(lib) else [] {
      SpansOfBatch(lib, id);
    }
  }

  ghost function Bytes(lib: Lib): nat {
    SpansSize(Stored(lib))
  }

  lemma BytesPositive(lib: Lib)
    ensures Bytes(lib) > 0
  {
  }

  /** Room for the batch twice over. */
  ghost function Roomy(lib: Lib): StoreConfig {
    StoreConfig(10, 0, 2 * Bytes(lib))
  }

  ghost function Holding(lib: Lib, t: Trace): StoreState {
    StoreState(Defaulted(Roomy(lib)), [t], t.sizeBytes, 0)
  }

  ghost function New(lib: Lib, now: int): Trace {
    Trace(7, now, now, Stored(lib), Bytes(lib), Receiving, Pending, [])
  }

  lemma MergesOne(s: StoreState, now: int, spans: seq<FlatSpan>)
    ensures Walks([7], map[7 := spans])
    ensures Merged(s, now, [7], map[7 := spans])
         == s.(order := IngestOne(s.order, now, 7, spans), totalBytes := s.totalBytes + SpansSize(spans))
  {
    var m := map[7 := spans];
    var ids: seq<TraceId> := [7];
    assert ids[..0] == [];
    assert IngestAll(s.order, now, [], m) == s.order && AddedBytes([], m) == 0;
  }

  /** The server after its first frame. */
  ghost function Begun(lib: Lib, cfg: Config, now: int): ServerState {
    ServerState(Holding(lib, New(lib, now)), cfg, ZERO, 1, 1)
  }

  lemma FirstFrame(judge: Judge, lib: Lib, cfg: Config, now: int)
    ensures Possible(lib, BatchAt(lib, now))
    ensures Step(judge, lib, InitialState(Roomy(lib), cfg), BatchAt(lib, now)) == Begun(lib, cfg, now)
  {
    var s, e := InitialState(Roomy(lib), cfg), BatchAt(lib, now);
    BatchIsPossible(lib, now);
    BytesPositive(lib);
    MergesOne(s.store, now, Stored(lib));
    OneId(s.store.order, now, Stored(lib));
  }

  /** The two counters of a frame with one id. */
  lemma OneId(order: seq<Trace>, now: int, spans: seq<FlatSpan>)
    ensures SpanTotal([7], map[7 := spans]) == |spans|
    ensures FirstSeenAt(TouchedSeq(order, now, [7], map[7 := spans]), now) ==
      if Touch(Find(order, 7), now, 7, spans).firstSeen == now then 1 else 0
  {
    var ids: seq<TraceId> := [7];
    assert ids[..0] == [];
    var touched := TouchedSeq(order, now, ids, map[7 := spans]);
    assert touched[..0] == [];
  }

  lemma Then(judge: Judge, lib: Lib, s: ServerState, es: seq<Event>, e: Event)
    requires AllPossible(lib, es) && Possible(lib, e)
    ensures AllPossible(lib, es + [e]) && Run(judge, lib, s, es + [e]) == Step(judge, lib, Run(judge, lib, s, es), e)
  {
    assert (es + [e])[..|es|] == es;
  }

  lemma RunOfOne(judge: Judge, lib: Lib, s: ServerState, e: Event)
    requires Possible(lib, e)
    ensures AllPossible(lib, [e]) && Run(judge, lib, s, [e]) == Step(judge, lib, s, e)
  {
    assert [e][..0] == [];
  }

  lemma Begins(judge: Judge, lib: Lib, cfg: Config, now: int)
    ensures AllPossible(lib, [BatchAt(lib, now)])
    ensures Run(judge, lib, InitialState(Roomy(lib), cfg), [BatchAt(lib, now)]) == Begun(lib, cfg, now)
  {
    FirstFrame(judge, lib, cfg, now);
    RunOfOne(judge, lib, InitialState(Roomy(lib), cfg), BatchAt(lib, now));
  }

  // ---- the same instant twice ----

  /** Two frames with one time for the same trace: it is counted twice, and there is one of it. */
  lemma RecountedExample(judge: Judge, lib: Lib, cfg: Config)
    ensures AllPossible(lib, [BatchAt(lib, 0)] + [BatchAt(lib, 0)])
    ensures var s := Run(judge, lib, InitialState(Roomy(lib), cfg), [BatchAt(lib, 0)] + [BatchAt(lib, 0)]);
      s.tracesReceived == 2 && |s.store.order| + s.store.evicted == 1
  {
    Begins(judge, lib, cfg, 0);
    Then(judge, lib, InitialState(Roomy(lib), cfg), [BatchAt(lib, 0)], BatchAt(lib, 0));
    SecondFrame(judge, lib, cfg);
  }

  lemma SecondFrame(judge: Judge, lib: Lib, cfg: Config)
    ensures Possible(lib, BatchAt(lib, 0))
    ensures var s := Step(judge, lib, Begun(lib, cfg, 0), BatchAt(lib, 0));
      s.tracesReceived == 2 && |s.store.order| == 1 && s.store.evicted == 0
  {
    var s := Begun(lib, cfg, 0);
    BatchIsPossible(lib, 0);
    BytesPositive(lib);
    MergesOne(s.store, 0, Stored(lib));
    OneId(s.store.order, 0, Stored(lib));
    assert s.store.order[..0] == [];
    assert Find(s.store.order, 7) == Some(New(lib, 0)) && Without(s.store.order, [7]) == [];
  }

  // ---- a policy named twice, and one that replaces another ----

  const WAIT := 30_000_000_000
  const TWICE := Config(WAIT, [PolicyCfg("a", One(AlwaysSample)), PolicyCfg("a", One(AlwaysSample))])

  lemma TwiceEval(lib: Lib, t: Trace)
    ensures ConfigCompiles(lib, TWICE)
    ensures Eval(EngineJudge(lib), TWICE, t) ==
      Some(EvalResult(Keep, [PolicyResult("a", true), PolicyResult("a", true)]))
  {
    var ps, views := TWICE.policies, StoredViews(t.spans);
    assert ps[..1][..0] == [] && ps[..1][0] == ps[0];
    assert Outcome(lib, ps[0].spec, t.id, views) == Some(true) && Outcome(lib, ps[1].spec, t.id, views) == Some(true);
    assert [] + [PolicyResult("a", true)] == [PolicyResult("a", true)];
    assert Results(lib, ps[..1], t.id, views) == Some([PolicyResult("a", true)]);
    assert [PolicyResult("a", true)] + [PolicyResult("a", true)] == [PolicyResult("a", true), PolicyResult("a", true)];
    assert Results(lib, ps, t.id, views) == Some([PolicyResult("a", true), PolicyResult("a", true)]);
    assert [PolicyResult("a", true), PolicyResult("a", true)][0].matched;
  }

  lemma TwiceCounted(r: EvalResult)
    requires r == EvalResult(Keep, [PolicyResult("a", true), PolicyResult("a", true)])
    ensures RecordAll(ZERO, [r]).keep == 1 && Count(RecordAll(ZERO, [r]).matches, "a") == 2
  {
    assert [r][..0] == [];
    RecordAllIs([r], "a");
    assert r.policies[..1][..0] == [] && r.policies[..1][0] == PolicyResult("a", true);
    assert Hits(r.policies[..1], "a") == 1 && Hits(r.policies, "a") == 2;
    assert AllHits([r], "a") == 2;
  }

  /** A tick under a policy list that names two policies alike: one trace kept, and the name counted twice. */
  lemma SharedNameExample(lib: Lib)
    ensures ConfigCompiles(lib, TWICE) && AllPossible(lib, [BatchAt(lib, 0)] + [Tick(WAIT)])
    ensures var s := Run(EngineJudge(lib), lib, InitialState(Roomy(lib), TWICE), [BatchAt(lib, 0)] + [Tick(WAIT)]);
      s.stats.keep == 1 && Count(s.stats.matches, "a") == 2
  {
    var judge, t := EngineJudge(lib), New(lib, 0);
    Begins(judge, lib, TWICE, 0);
    Then(judge, lib, InitialState(Roomy(lib), TWICE), [BatchAt(lib, 0)], Tick(WAIT));
    TwiceEval(lib, t);
    OneDistinct(t);
    DecideDueIs(judge, Begun(lib, TWICE, 0), WAIT);
    assert [t][..0] == [];
    var r := Eval(judge, TWICE, t).value;
    assert DueResults(judge, TWICE, WAIT, [t]) == [] + [r];
    assert [] + [r] == [r];
    TwiceCounted(r);
  }

  lemma OneDistinct(t: Trace)
    ensures Distinct(Ids([t]))
  {
  }

  /** A policy installed the moment a trace arrives: KEEP on a trace of age zero. */
  lemma EarlyVerdictExample(lib: Lib)
    ensures AllPossible(lib, [BatchAt(lib, 0)] + [NewPolicy(TWICE)])
    ensures var s := Run(EngineJudge(lib), lib, InitialState(Roomy(lib), TWICE),
        [BatchAt(lib, 0)] + [NewPolicy(TWICE)]);
      && |s.store.order| == 1 && s.store.order[0].state == Receiving && s.store.order[0].decision == Keep
      && !NoEarlyVerdict(s.store.order, WaitOf(s.cfg), 0)
  {
    var judge, t := EngineJudge(lib), New(lib, 0);
    Begins(judge, lib, TWICE, 0);
    Then(judge, lib, InitialState(Roomy(lib), TWICE), [BatchAt(lib, 0)], NewPolicy(TWICE));
    TwiceEval(lib, t);
    var after := Reevaluated(judge, TWICE, t);
    assert Early(after, WAIT, 0);
  }

  // ---- a trace that fails to evaluate ----

  const CONDITION := Config(WAIT, [PolicyCfg("c", One(OTTLCondition("x")))])

  /** A library whose OTTL conditions compile and fail at run time. */
  ghost predicate ConditionsFail(lib: Lib) {
    lib.ottlCompiles("x") && forall views :: lib.ottl("x", views) == None
  }

  lemma ConditionEval(lib: Lib, t: Trace)
    requires ConditionsFail(lib)
    ensures ConfigCompiles(lib, CONDITION) && Eval(EngineJudge(lib), CONDITION, t) == None
  {
    assert Outcome(lib, CONDITION.policies[0].spec, t.id, StoredViews(t.spans)) == None;
  }

  /** A browser that joins after the batch shows the trace RECEIVING for good, while the tick has made it READY. */
  lemma LeftBehindExample(lib: Lib, c: AppState, around: Surroundings)
    requires ConditionsFail(lib)
    ensures ConfigCompiles(lib, CONDITION) && AllPossible(lib, [BatchAt(lib, 0)])
    ensures var s := Run(EngineJudge(lib), lib, InitialState(Roomy(lib), CONDITION), [BatchAt(lib, 0)]);
      var after := Step(EngineJudge(lib), lib, s, Tick(WAIT));
      var d := AfterAll(AfterMsg(c, SnapshotOf(s, around)), TickBroadcasts(EngineJudge(lib), s, WAIT));
      && |after.store.order| == 1 && after.store.order[0].id == 7 && after.store.order[0].state == Ready
      && 7 in d.traces && d.traces[7].state == Receiving
  {
    var judge, t := EngineJudge(lib), New(lib, 0);
    var s := Begun(lib, CONDITION, 0);
    Begins(judge, lib, CONDITION, 0);
    ConditionEval(lib, t);
    OneDistinct(t);
    DecideDueIs(judge, s, WAIT);
    SnapshotShows(c, s, around);
    assert s.store.order[0] == t;
    assert ShowsTrace(AfterMsg(c, SnapshotOf(s, around)), s.store.order[0]);
    TickSpares(judge, AfterMsg(c, SnapshotOf(s, around)), s, WAIT, 0);
  }
}
