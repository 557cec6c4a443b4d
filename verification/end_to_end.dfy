/** From wire to verdict: what a DECIDED trace on display stands for. */
module EndToEnd {
  import opened Pdata
  import opened Policies
  import opened TraceTypes
  import opened Assembler
  import opened PolicyEngine
  import opened PolicyAlgebra
  import opened Fidelity
  import opened TraceList
  import opened StoreSpec
  import opened Statistics
  import opened ServerSpec
  import opened Engines
  import opened DecisionRuns
  import opened Lifecycle

  lemma EngineIsLawful(lib: Lib)
    ensures Lawful(EngineJudge(lib))
  {
    forall cfg: Config, id: TraceId, spans: seq<FlatSpan> | EvalStored(lib, cfg, id, spans).Some?
      ensures ResultOf(cfg.policies, EvalStored(lib, cfg, id, spans).value)
    {
      ResultsLength(lib, cfg.policies, id, StoredViews(spans));
    }
  }

  lemma EngineIsRegular(lib: Lib)
    ensures Regular(EngineJudge(lib))
  {
    EngineIsLawful(lib);
  }

  /** The engine answers for every policy that compiles and has no OTTL condition. */
  lemma EngineAnswers(lib: Lib, cfg: Config)
    requires ConfigCompiles(lib, cfg) && WithoutOTTL(cfg)
    ensures Answers(EngineJudge(lib), cfg)
  {
    forall id, spans ensures EngineJudge(lib).eval(cfg, id, spans).Some? {
      CompiledWithoutOTTLAnswers(lib, cfg.policies, id, StoredViews(spans));
    }
  }

  // ---- where a trace's spans came from ----

  /** The batches of a run, in order of arrival. */
  function Batches(es: seq<Event>): seq<Traces> {
    if es == [] then []
    else if es[|es| - 1].Frame? then Batches(es[..|es| - 1]) + [es[|es| - 1].td]
    else Batches(es[..|es| - 1])
  }

  function Joined(bs: seq<Traces>): Traces {
    if bs == [] then [] else Joined(bs[..|bs| - 1]) + bs[|bs| - 1]
  }

  function SpansIn(lib: Lib, td: Traces, id: TraceId): seq<FlatSpan> {
    SpansOf(lib, Flatten(td), id)
  }

  lemma SpansInAppend(lib: Lib, td: Traces, ud: Traces, id: TraceId)
    ensures SpansIn(lib, td + ud, id) == SpansIn(lib, td, id) + SpansIn(lib, ud, id)
  {
    FlattenAppend(td, ud);
    SpansOfAppend(lib, Flatten(td), Flatten(ud), id);
  }

  lemma JoinedNext(lib: Lib, bs: seq<Traces>, td: Traces, n: nat, id: TraceId)
    requires n <= |bs|
    ensures SpansIn(lib, Joined((bs + [td])[n..]), id) == SpansIn(lib, Joined(bs[n..]), id) + SpansIn(lib, td, id)
  {
    assert (bs + [td])[n..] == bs[n..] + [td];
    assert (bs[n..] + [td])[..|bs| - n] == bs[n..];
    SpansInAppend(lib, Joined(bs[n..]), td, id);
  }

  /** The spans of t are those of its id in the batches from the n-th on. */
  ghost predicate Since(lib: Lib, bs: seq<Traces>, n: nat, t: Trace) {
    n <= |bs| && t.spans == SpansIn(lib, Joined(bs[n..]), t.id)
  }

  /** The batch that created the record now under an id: how many batches came before it. */
  ghost function CreatedBy(judge: Judge, lib: Lib, s: ServerState, es: seq<Event>, id: TraceId): nat
    requires AllPossible(lib, es)
  {
    if es == [] then 0
    else
      var init, e := es[..|es| - 1], es[|es| - 1];
      if e.Frame? && id in e.ids && Find(Run(judge, lib, s, init).store.order, id).None? then |Batches(init)|
      else CreatedBy(judge, lib, s, init, id)
  }

  /** Nothing was lost: retained traces hold all their spans, and ids not retained had none. */
  ghost predicate Complete(lib: Lib, bs: seq<Traces>, order: seq<Trace>) {
    && (forall i :: 0 <= i < |order| ==> Since(lib, bs, 0, order[i]))
    && (forall id :: Find(order, id).None? ==> SpansIn(lib, Joined(bs), id) == [])
  }

  ghost predicate Provenance(lib: Lib, bs: seq<Traces>, s: ServerState) {
    s.store.evicted == 0 ==> Complete(lib, bs, s.store.order)
  }

  lemma TouchedSince(lib: Lib, bs: seq<Traces>, td: Traces, n: nat, order: seq<Trace>, now: int, id: TraceId,
      spans: seq<FlatSpan>)
    requires spans == SpansIn(lib, td, id)
    requires match Find(order, id) case None => n == |bs| case Some(t) => Since(lib, bs, n, t)
    ensures Since(lib, bs + [td], n, Touch(Find(order, id), now, id, spans))
  {
    FindIs(order, id);
    JoinedNext(lib, bs, td, n, id);
    if Find(order, id).None? {
      assert bs[|bs|..] == [];
    }
  }

  lemma UntouchedSince(lib: Lib, bs: seq<Traces>, td: Traces, n: nat, t: Trace)
    requires Since(lib, bs, n, t) && SpansIn(lib, td, t.id) == []
    ensures Since(lib, bs + [td], n, t)
  {
    JoinedNext(lib, bs, td, n, t.id);
  }

  lemma FrameComplete(lib: Lib, bs: seq<Traces>, s: StoreState, now: int, td: Traces, ids: seq<TraceId>,
      m: SpansByTrace)
    requires Complete(lib, bs, s.order) && Grouped(lib, Flatten(td), m) && Walks(ids, m)
    requires Ingest(s, now, ids, m).evicted == s.evicted
    ensures Complete(lib, bs + [td], Ingest(s, now, ids, m).order)
  {
    var merged := Merged(s, now, ids, m);
    EvictIsShortestPrefix(merged, now);
    assert merged.order[0..] == merged.order;
    var order := merged.order;
    IngestAllIs(s.order, now, ids, m);
    forall i | 0 <= i < |order| ensures Since(lib, bs + [td], 0, order[i]) {
      var t := order[i];
      RetainedAfterFrame(s, now, ids, m, t);
      if t in s.order && t.id !in ids {
        var j :| 0 <= j < |s.order| && s.order[j] == t;
        UntouchedSince(lib, bs, td, 0, t);
      } else {
        var j :| 0 <= j < |ids| && TouchedSeq(s.order, now, ids, m)[j] == t;
        assert ids[j] in ids;
        TouchedComplete(lib, bs, td, s.order, now, ids[j], m[ids[j]]);
      }
    }
    forall id | Find(order, id).None? ensures SpansIn(lib, Joined(bs + [td]), id) == [] {
      AbsentStays(s.order, now, ids, m, id);
      JoinedNext(lib, bs, td, 0, id);
      assert bs[0..] == bs && (bs + [td])[0..] == bs + [td];
    }
  }

  lemma TouchedComplete(lib: Lib, bs: seq<Traces>, td: Traces, order: seq<Trace>, now: int, id: TraceId,
      spans: seq<FlatSpan>)
    requires Complete(lib, bs, order) && spans == SpansIn(lib, td, id)
    ensures Since(lib, bs + [td], 0, Touch(Find(order, id), now, id, spans))
  {
    FindIs(order, id);
    JoinedNext(lib, bs, td, 0, id);
    assert bs[0..] == bs;
    if Find(order, id).Some? {
      var k :| 0 <= k < |order| && order[k] == Find(order, id).value;
    }
  }

  lemma TouchedFound(order: seq<Trace>, now: int, ids: seq<TraceId>, m: SpansByTrace, id: TraceId)
    requires (forall i <- ids :: i in m) && id in ids
    ensures Find(TouchedSeq(order, now, ids, m), id).Some?
  {
    var j :| 0 <= j < |ids| && ids[j] == id;
    TouchKeepsId(order, now, id, m[id]);
    FindIs(TouchedSeq(order, now, ids, m), id);
    assert Ids(TouchedSeq(order, now, ids, m))[j] == id;
  }

  lemma AbsentStays(order: seq<Trace>, now: int, ids: seq<TraceId>, m: SpansByTrace, id: TraceId)
    requires Distinct(ids) && (forall i <- ids :: i in m) && Find(IngestAll(order, now, ids, m), id).None?
    ensures id !in ids && Find(order, id).None?
  {
    IngestAllIs(order, now, ids, m);
    FindAppend(Without(order, ids), TouchedSeq(order, now, ids, m), id);
    if id in ids {
      TouchedFound(order, now, ids, m, id);
    } else {
      FindUntouched(order, ids, id);
    }
  }

  lemma SameSpansSince(lib: Lib, bs: seq<Traces>, n: nat, t: Trace, u: Trace)
    requires Since(lib, bs, n, t) && u.id == t.id && u.spans == t.spans
    ensures Since(lib, bs, n, u)
  {
  }

  lemma SameTracesComplete(lib: Lib, bs: seq<Traces>, a: seq<Trace>, b: seq<Trace>)
    requires SameTraces(a, b) && Complete(lib, bs, a)
    ensures Complete(lib, bs, b)
  {
    forall i | 0 <= i < |b| ensures Since(lib, bs, 0, b[i]) {
      SameSpansSince(lib, bs, 0, a[i], b[i]);
    }
    SameTracesSum(a, b);
    forall id | Find(b, id).None? ensures SpansIn(lib, Joined(bs), id) == [] {
      FindIs(a, id);
      FindIs(b, id);
    }
  }

  lemma SameTracesProvenance(lib: Lib, bs: seq<Traces>, s: ServerState, t: ServerState)
    requires SameTraces(s.store.order, t.store.order) && t.store.evicted == s.store.evicted && Provenance(lib, bs, s)
    ensures Provenance(lib, bs, t)
  {
    if s.store.evicted == 0 {
      SameTracesComplete(lib, bs, s.store.order, t.store.order);
    }
  }

  lemma StepProvenance(judge: Judge, lib: Lib, bs: seq<Traces>, s: ServerState, e: Event)
    requires Possible(lib, e) && Provenance(lib, bs, s) && Consistent(s.store)
    ensures Provenance(lib, if e.Frame? then bs + [e.td] else bs, Step(judge, lib, s, e))
  {
    match e {
      case Frame(now, td, m, ids) =>
        EvictIsShortestPrefix(Merged(s.store, now, ids, m), now);
        if Ingest(s.store, now, ids, m).evicted == 0 {
          FrameComplete(lib, bs, s.store, now, td, ids, m);
        }
      case Tick(now) =>
        DecideDueIs(judge, s, now);
        assert SameTraces(s.store.order, DecideDue(judge, s, now).store.order);
        SameTracesProvenance(lib, bs, s, DecideDue(judge, s, now));
      case NewPolicy(cfg) =>
        if judge.compiles(cfg) {
          assert SameTraces(s.store.order, SetPolicy(judge, s, cfg).store.order);
          SameTracesProvenance(lib, bs, s, SetPolicy(judge, s, cfg));
        }
    }
  }

  /** While nothing was ever evicted, nothing is missing. */
  lemma {:induction false} RunProvenance(judge: Judge, lib: Lib, storeCfg: StoreConfig, cfg: Config, es: seq<Event>)
    requires Lawful(judge) && AllPossible(lib, es)
    ensures Provenance(lib, Batches(es), Run(judge, lib, InitialState(storeCfg, cfg), es))
  {
    if es != [] {
      var init := es[..|es| - 1];
      RunProvenance(judge, lib, storeCfg, cfg, init);
      RunKeeps(judge, lib, storeCfg, cfg, init);
      StepProvenance(judge, lib, Batches(init), Run(judge, lib, InitialState(storeCfg, cfg), init), es[|es| - 1]);
    }
  }

  lemma FrameSinceCreation(judge: Judge, lib: Lib, start: ServerState, es: seq<Event>, e: Event, t: Trace)
    requires AllPossible(lib, es) && Possible(lib, e) && AllPossible(lib, es + [e]) && e.Frame?
    requires var s := Run(judge, lib, start, es).store;
      && t in Ingest(s, e.now, e.ids, e.m).order
      && forall u <- s.order :: Since(lib, Batches(es), CreatedBy(judge, lib, start, es, u.id), u)
    ensures Since(lib, Batches(es) + [e.td], CreatedBy(judge, lib, start, es + [e], t.id), t)
  {
    var s := Run(judge, lib, start, es).store;
    assert (es + [e])[..|es|] == es;
    RetainedAfterFrame(s, e.now, e.ids, e.m, t);
    if t in s.order && t.id !in e.ids {
      UntouchedSince(lib, Batches(es), e.td, CreatedBy(judge, lib, start, es, t.id), t);
    } else {
      var j :| 0 <= j < |e.ids| && TouchedSeq(s.order, e.now, e.ids, e.m)[j] == t;
      var id := e.ids[j];
      assert id in e.ids;
      FindIs(s.order, id);
      TouchedSince(lib, Batches(es), e.td, CreatedBy(judge, lib, start, es + [e], id), s.order, e.now, id, e.m[id]);
    }
  }

  ghost predicate AllSinceCreation(judge: Judge, lib: Lib, start: ServerState, es: seq<Event>)
    requires AllPossible(lib, es)
  {
    forall t <- Run(judge, lib, start, es).store.order :: Since(lib, Batches(es),
        CreatedBy(judge, lib, start, es, t.id), t)
  }

  lemma StepSinceCreation(judge: Judge, lib: Lib, start: ServerState, es: seq<Event>, e: Event)
    requires AllPossible(lib, es) && Possible(lib, e) && AllPossible(lib, es + [e])
    requires AllSinceCreation(judge, lib, start, es) && Consistent(Run(judge, lib, start, es).store)
    ensures AllSinceCreation(judge, lib, start, es + [e])
  {
    var s := Run(judge, lib, start, es);
    assert (es + [e])[..|es|] == es;
    forall t | t in Step(judge, lib, s, e).store.order
      ensures Since(lib, Batches(es + [e]), CreatedBy(judge, lib, start, es + [e], t.id), t)
    {
      if e.Frame? {
        FrameSinceCreation(judge, lib, start, es, e, t);
      } else {
        StepShape(judge, lib, s, e);
        var i :| 0 <= i < |s.store.order| && Step(judge, lib, s, e).store.order[i] == t;
        assert s.store.order[i] in s.store.order;
        SameSpansSince(lib, Batches(es), CreatedBy(judge, lib, start, es, t.id), s.store.order[i], t);
      }
    }
  }

  /**
   * After every run each retained trace holds exactly the spans received for it since the batch that
   * created its record.
   */
  lemma {:induction false} RunSinceCreation(judge: Judge, lib: Lib, storeCfg: StoreConfig, cfg: Config, es: seq<Event>)
    requires Lawful(judge) && AllPossible(lib, es)
    ensures AllSinceCreation(judge, lib, InitialState(storeCfg, cfg), es)
  {
    if es != [] {
      var init, e := es[..|es| - 1], es[|es| - 1];
      RunSinceCreation(judge, lib, storeCfg, cfg, init);
      RunKeeps(judge, lib, storeCfg, cfg, init);
      assert init + [e] == es;
      StepSinceCreation(judge, lib, InitialState(storeCfg, cfg), init, e);
    }
  }

  lemma {:induction false} RunCompiles(lib: Lib, storeCfg: StoreConfig, cfg: Config, es: seq<Event>)
    requires ConfigCompiles(lib, cfg) && AllPossible(lib, es)
    ensures ConfigCompiles(lib, Run(EngineJudge(lib), lib, InitialState(storeCfg, cfg), es).cfg)
  {
    if es != [] {
      RunCompiles(lib, storeCfg, cfg, es[..|es| - 1]);
    }
  }

  // ---- the theorem ----

  /** The verdict the filters give on the batches themselves is the one on display. */
  ghost predicate VerdictMatches(lib: Lib, cfg: Config, td: Traces, t: Trace) {
    var r := EvaluationOnPdata(lib, cfg, t.id, Restrict(td, t.id));
    r.Some? && t.decision == r.value.decision && t.matched == MatchedNames(r.value.policies)
  }

  ghost predicate WellFormedFor(td: Traces, id: TraceId) {
    forall i :: 0 <= i < |PairsOf(Flatten(td), id)| ==> WellFormed(PairsOf(Flatten(td), id)[i])
  }

  lemma VerdictFrom(lib: Lib, cfg: Config, td: Traces, t: Trace)
    requires t.spans == SpansIn(lib, td, t.id) && WellFormedFor(td, t.id)
    requires ConfigCompiles(lib, cfg) && WithoutOTTL(cfg) && t.state.Decided? && Agrees(EngineJudge(lib), cfg, t)
    ensures VerdictMatches(lib, cfg, td, t)
  {
    CompiledWithoutOTTLAnswers(lib, cfg.policies, t.id, StoredViews(t.spans));
    PreviewFidelity(lib, cfg, td, t.id);
  }

  /** From batch n on, t holds exactly what was received for it, and shows the verdict of the filters on that. */
  ghost predicate ShowsVerdictSince(lib: Lib, cfg: Config, bs: seq<Traces>, n: nat, t: Trace) {
    && Since(lib, bs, n, t)
    && (WellFormedFor(Joined(bs[n..]), t.id) ==> VerdictMatches(lib, cfg, Joined(bs[n..]), t))
  }

  /**
   * Take any run of frames, ticks and policy changes from an empty server, and any trace then
   * DECIDED under a policy without OTTL conditions. From the batch that created its record on, and
   * from the very first when nothing was ever evicted, the trace holds exactly the spans received
   * under its id; and if those are well formed, its decision and matched policies are those of the
   * filters run on the batches.
   */
  lemma DecidedAsTheProcessorWould(lib: Lib, storeCfg: StoreConfig, cfg: Config, es: seq<Event>, t: Trace)
    requires ConfigCompiles(lib, cfg) && AllPossible(lib, es)
    requires t in Run(EngineJudge(lib), lib, InitialState(storeCfg, cfg), es).store.order && t.state.Decided?
    requires WithoutOTTL(Run(EngineJudge(lib), lib, InitialState(storeCfg, cfg), es).cfg)
    ensures var start := InitialState(storeCfg, cfg);
      var s := Run(EngineJudge(lib), lib, start, es);
      && ShowsVerdictSince(lib, s.cfg, Batches(es), CreatedBy(EngineJudge(lib), lib, start, es, t.id), t)
      && (s.store.evicted == 0 ==> ShowsVerdictSince(lib, s.cfg, Batches(es), 0, t))
  {
    var judge, start := EngineJudge(lib), InitialState(storeCfg, cfg);
    var s := Run(judge, lib, start, es);
    EngineIsLawful(lib);
    RunKeeps(judge, lib, storeCfg, cfg, es);
    RunProvenance(judge, lib, storeCfg, cfg, es);
    RunSinceCreation(judge, lib, storeCfg, cfg, es);
    RunCompiles(lib, storeCfg, cfg, es);
    var i :| 0 <= i < |s.store.order| && s.store.order[i] == t;
    assert Agrees(judge, s.cfg, s.store.order[i]);
    VerdictSince(lib, s.cfg, Batches(es), CreatedBy(judge, lib, start, es, t.id), t);
    if s.store.evicted == 0 {
      VerdictSince(lib, s.cfg, Batches(es), 0, t);
    }
  }

  lemma VerdictSince(lib: Lib, cfg: Config, bs: seq<Traces>, n: nat, t: Trace)
    requires Since(lib, bs, n, t) && ConfigCompiles(lib, cfg) && WithoutOTTL(cfg)
    requires t.state.Decided? && Agrees(EngineJudge(lib), cfg, t)
    ensures ShowsVerdictSince(lib, cfg, bs, n, t)
  {
    if WellFormedFor(Joined(bs[n..]), t.id) {
      VerdictFrom(lib, cfg, Joined(bs[n..]), t);
    }
  }

  /** Observed never falls below the number of DECIDED traces, and SetPolicy makes them equal. */
  lemma ObservedCoversDecided(lib: Lib, storeCfg: StoreConfig, cfg: Config, es: seq<Event>)
    requires ConfigCompiles(lib, cfg) && AllPossible(lib, es)
    requires WithoutOTTL(Run(EngineJudge(lib), lib, InitialState(storeCfg, cfg), es).cfg)
    ensures var s := Run(EngineJudge(lib), lib, InitialState(storeCfg, cfg), es);
      && DecidedCount(s.store.order) <= s.stats.observed
      && (es != [] && es[|es| - 1].NewPolicy? && ConfigCompiles(lib, es[|es| - 1].cfg) ==>
             s.stats.observed == DecidedCount(s.store.order))
  {
    var judge := EngineJudge(lib);
    var s := Run(judge, lib, InitialState(storeCfg, cfg), es);
    EngineIsLawful(lib);
    RunKeeps(judge, lib, storeCfg, cfg, es);
    RunCompiles(lib, storeCfg, cfg, es);
    EngineAnswers(lib, s.cfg);
    AnsweringCountsAll(judge, s.cfg, s.store.order);
    StatisticsAgree(judge, s, "");
    if es != [] && es[|es| - 1].NewPolicy? && ConfigCompiles(lib, es[|es| - 1].cfg) {
      var before := Run(judge, lib, InitialState(storeCfg, cfg), es[..|es| - 1]);
      RunKeeps(judge, lib, storeCfg, cfg, es[..|es| - 1]);
      PolicyEstablishes(judge, before, es[|es| - 1].cfg);
    }
  }
}
