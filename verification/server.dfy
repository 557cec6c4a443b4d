/**
 * The preview server's methods over the live store, the statistics, the evaluator and the
 * connected browsers, each tied to its step in ServerSpec and its broadcasts in Messages.
 */
module PreviewServer {
  import opened Wrappers
  import opened Pdata
  import opened Policies
  import opened TraceTypes
  import opened Assembler
  import opened PolicyEngine
  import opened TraceList
  import opened StoreSpec
  import opened TraceStore
  import opened Statistics
  import opened ServerSpec
  import opened Engines
  import opened Messages
  import opened Browsers
  import Compare

  /** The spans of every group, counted in some order of the ids. */
  ghost function MapSpans(m: SpansByTrace): nat
    decreases |m|
  {
    if m == map[] then 0
    else
      var id :| id in m;
      assert |m - {id}| < |m| by { GroupsShrink(m, id); }
      |m[id]| + MapSpans(m - {id})
  }

  lemma {:induction false} MapSpansAnyOrder(m: SpansByTrace, id: TraceId)
    requires id in m
    ensures MapSpans(m) == |m[id]| + MapSpans(m - {id})
    decreases |m|
  {
    var k :| k in m && MapSpans(m) == |m[k]| + MapSpans(m - {k});
    if k != id {
      GroupsShrink(m, k);
      MapSpansAnyOrder(m - {k}, id);
      GroupsShrink(m, id);
      MapSpansAnyOrder(m - {id}, k);
      assert m - {k} - {id} == m - {id} - {k};
    }
  }

  /** Any walk of the ids counts the same spans. */
  lemma {:induction false} WalkCountsSpans(ids: seq<TraceId>, m: SpansByTrace, n: SpansByTrace)
    requires (forall id <- ids :: id in m) && Distinct(ids)
    requires n.Keys == (set id <- ids) && forall id <- ids :: n[id] == m[id]
    ensures SpanTotal(ids, m) == MapSpans(n)
  {
    if ids == [] {
      assert n == map[];
    } else {
      var k := |ids| - 1;
      DistinctPrefix(ids, k);
      MapSpansAnyOrder(n, ids[k]);
      assert ids == ids[..k] + [ids[k]];
      WalkCountsSpans(ids[..k], m, n - {ids[k]});
    }
  }

  lemma AnyWalkCounts(ids: seq<TraceId>, m: SpansByTrace)
    requires Walks(ids, m)
    ensures SpanTotal(ids, m) == MapSpans(m)
  {
    assert m.Keys == (set id <- ids);
    WalkCountsSpans(ids, m, m);
  }

  method CountSpans(m: SpansByTrace) returns (n: nat)
    ensures n == MapSpans(m)
  {
    n := 0;
    var rest := m;
    while rest != map[]
      invariant n + MapSpans(rest) == MapSpans(m)
      decreases |rest|
    {
      var id :| id in rest;
      MapSpansAnyOrder(rest, id);
      GroupsShrink(rest, id);
      n := n + |rest[id]|;
      rest := rest - {id};
    }
  }

  class Server {
    const lib: Lib
    const store: Store
    const stats: Engine
    const hub: Hub
    var evaluator: Evaluator
    var spansReceived: nat
    var tracesReceived: nat

    ghost function Abs(): ServerState
      reads this, store, stats
    {
      ServerState(store.Abs(), evaluator.cfg, stats.Snapshot(), spansReceived, tracesReceived)
    }

    ghost predicate Valid()
      reads this, store, store.Repr, stats, evaluator, evaluator.Matchers
    {
      store.Valid() && evaluator.Valid() && evaluator.lib == lib
    }

    constructor (lib: Lib, storeCfg: StoreConfig, evaluator: Evaluator)
      requires evaluator.Valid() && evaluator.lib == lib
      ensures Valid() && fresh(store) && fresh(store.Repr) && fresh(stats) && fresh(hub) && hub.Valid() && hub.log == []
      ensures Abs() == InitialState(storeCfg, evaluator.cfg) && this.evaluator == evaluator && this.lib == lib
    {
      var st := new Store(storeCfg);
      var en := new Engine();
      var hub := new Hub();
      this.lib, this.store, this.stats, this.evaluator, this.hub := lib, st, en, evaluator, hub;
      spansReceived, tracesReceived := 0, 0;
    }

    /** HandleBrowserWS: a browser joins with a snapshot. */
    method Join(b: BrowserId, around: Surroundings)
      requires Valid() && hub.Valid() && b !in hub.browsers
      modifies hub
      ensures hub.Valid() && hub.log == old(hub.log) &&
        hub.browsers == old(hub.browsers)[b := [SnapshotOf(Abs(), around)]]
    {
      var snapshot := TakeSnapshot(around);
      hub.Join(b, snapshot);
    }

    /** snapshot. */
    method TakeSnapshot(around: Surroundings) returns (msg: ServerMsg)
      requires Valid()
      ensures msg == SnapshotOf(Abs(), around)
    {
      var traces := store.All();
      var summaries: seq<TraceSummary> := [];
      for i := 0 to |traces|
        invariant summaries == Summaries(traces[..i])
      {
        assert traces[..i + 1][..i] == traces[..i];
        var summary := ToSummary(traces[i]);
        summaries := summaries + [summary];
      }
      assert traces[..|traces|] == traces;
      msg := Snapshot(around.session, around.collectors, summaries, evaluator.cfg, stats.Snapshot());
    }

    /** broadcastTraceUpdated. */
    method BroadcastTraceUpdated(t: Trace)
      requires hub.Valid()
      modifies hub
      ensures hub.Valid() && hub.log == old(hub.log) + [TraceUpdated(Summary(t))]
    {
      var summary := ToSummary(t);
      hub.Broadcast(TraceUpdated(summary));
    }

    /** The last loop of handleTraceFrame. */
    method AnnounceTraces(touched: seq<Trace>, now: int)
      requires hub.Valid()
      modifies this`tracesReceived, hub
      ensures tracesReceived == old(tracesReceived) + FirstSeenAt(touched, now)
      ensures hub.Valid() && hub.log == old(hub.log) + Updates(touched)
    {
      for i := 0 to |touched|
        invariant tracesReceived == old(tracesReceived) + FirstSeenAt(touched[..i], now)
        invariant hub.Valid() && hub.log == old(hub.log) + Updates(touched[..i])
      {
        UpdatesNext(touched, now, i);
        if touched[i].firstSeen == now {
          tracesReceived := tracesReceived + 1;
        }
        BroadcastTraceUpdated(touched[i]);
      }
      assert touched[..|touched|] == touched;
    }

    /** handleTraceFrame, from the decoded batch on. */
    method HandleTraceFrame(now: int, td: Traces) returns (touched: seq<Trace>, ghost m: SpansByTrace)
      requires Valid() && hub.Valid()
      modifies this`spansReceived, this`tracesReceived, store, store.Repr, hub
      ensures Valid() && hub.Valid() && fresh(store.Repr - old(store.Repr))
      ensures Grouped(lib, Flatten(td), m) && Walks(Ids(touched), m)
      ensures Abs() == HandleFrame(old(Abs()), now, Ids(touched), m)
      ensures hub.log == old(hub.log) + Updates(TouchedSeq(old(store.contents), now, Ids(touched), m))
    {
      var spansByTrace := Assemble(lib, td);
      m := spansByTrace;
      touched := IngestAndReport(now, spansByTrace);
    }

    /** handleTraceFrame once the spans are grouped. */
    method IngestAndReport(now: int, spansByTrace: SpansByTrace) returns (touched: seq<Trace>)
      requires Valid() && hub.Valid()
      modifies this`spansReceived, this`tracesReceived, store, store.Repr, hub
      ensures Valid() && hub.Valid() && fresh(store.Repr - old(store.Repr)) && Walks(Ids(touched), spansByTrace)
      ensures Abs() == HandleFrame(old(Abs()), now, Ids(touched), spansByTrace)
      ensures hub.log == old(hub.log) + Updates(TouchedSeq(old(store.contents), now, Ids(touched), spansByTrace))
    {
      ghost var s := Abs();
      touched := FoldIn(now, spansByTrace);
      AnnounceTraces(touched, now);
      FrameIs(s, Abs(), now, touched, spansByTrace);
    }

    method FoldIn(now: int, spansByTrace: SpansByTrace) returns (touched: seq<Trace>)
      requires Valid()
      modifies this`spansReceived, store, store.Repr
      ensures Valid() && fresh(store.Repr - old(store.Repr)) && Walks(Ids(touched), spansByTrace)
      ensures store.Abs() == Ingest(old(store.Abs()), now, Ids(touched), spansByTrace)
      ensures touched == TouchedSeq(old(store.contents), now, Ids(touched), spansByTrace)
      ensures spansReceived == old(spansReceived) + SpanTotal(Ids(touched), spansByTrace)
    {
      var spanCount := CountSpans(spansByTrace);
      spansReceived := spansReceived + spanCount;
      touched := store.Ingest(now, spansByTrace);
      AnyWalkCounts(Ids(touched), spansByTrace);
    }

    /** Apply an evaluation result, count it and announce it, unless the trace is gone. */
    method ApplyResult(id: TraceId, r: EvalResult)
      requires store.Valid() && hub.Valid()
      modifies store`contents, store.Repr, stats, hub
      ensures store.Valid() && hub.Valid() && store.Abs() == old(store.Abs()).(order := store.contents)
      ensures (store.contents, stats.Snapshot()) ==
        if Find(old(store.contents), id).None? then (old(store.contents), old(stats.Snapshot()))
        else (ApplyDecision(old(store.contents), id, r.decision, MatchedNames(r.policies)),
            Recorded(old(stats.Snapshot()), r))
      ensures hub.log == old(hub.log) + Announcement(old(store.contents), id, r)
    {
      FindIs(store.contents, id);
      var names := CollectMatchedNames(r.policies);
      var updated := store.ApplyDecision(id, r.decision, names);
      assert hub.log == old(hub.log) && old(hub.log) + [] == old(hub.log);
      if updated.Some? {
        stats.Record(r);
        hub.Broadcast(TraceDecided(updated.value.id, updated.value.decision, updated.value.matched));
      }
    }

    /** The evaluator on the stored spans of one trace; only its string caches change. */
    method EvaluateTrace(t: Trace) returns (result: Option<EvalResult>)
      requires Valid()
      modifies evaluator.Matchers
      ensures Valid() && result == Eval(EngineJudge(lib), evaluator.cfg, t)
    {
      EngineEval(lib, evaluator.cfg, t);
      result := evaluator.Evaluate(t.id, t.spans);
    }

    /** The body of decideDue's loop. */
    method DecideTrace(t: Trace)
      requires Valid() && hub.Valid()
      modifies store`contents, store.Repr, stats, evaluator.Matchers, hub
      ensures Valid() && hub.Valid()
      ensures store.Abs() == old(store.Abs()).(order := store.contents)
      ensures (store.contents, stats.Snapshot())
           == DecideOne(EngineJudge(lib), evaluator.cfg, old(store.contents), old(stats.Snapshot()), t)
      ensures hub.log == old(hub.log) + Verdict(EngineJudge(lib), evaluator.cfg, old(store.contents), t)
    {
      var result := EvaluateTrace(t);
      if result.None? {
        assert hub.log + [] == hub.log;
        return;
      }
      ApplyResult(t.id, result.value);
    }

    /** decideDue's loop has dealt with the first i due copies since the store held s and log was out. */
    ghost predicate DecidedSoFar(s: StoreState, st: Stats, log: seq<ServerMsg>, due: seq<Trace>, i: nat)
      reads this, store, store.Repr, stats, evaluator, evaluator.Matchers, hub
    {
      && Valid() && hub.Valid() && i <= |due|
      && store.Abs() == s.(order := store.contents)
      && (store.contents, stats.Snapshot()) == DecideEach(EngineJudge(lib), evaluator.cfg, s.order, st, due[..i])
      && hub.log == log + Verdicts(EngineJudge(lib), evaluator.cfg, s.order, st, due[..i])
    }

    /** One round of decideDue's loop. */
    method DecideNext(i: nat, due: seq<Trace>, ghost s: StoreState, ghost st: Stats, ghost log: seq<ServerMsg>)
      requires i < |due| && DecidedSoFar(s, st, log, due, i)
      modifies store`contents, store.Repr, stats, evaluator.Matchers, hub
      ensures DecidedSoFar(s, st, log, due, i + 1)
    {
      ghost var before, seen := (store.contents, stats.Snapshot()), hub.log;
      DecideTrace(due[i]);
      VerdictsNext(EngineJudge(lib), evaluator.cfg, s.order, st, due, i, before, (store.contents, stats.Snapshot()),
          log, seen, hub.log);
    }

    /** The loop of decideDue over the due copies. */
    method DecideAll(due: seq<Trace>)
      requires Valid() && hub.Valid()
      modifies store`contents, store.Repr, stats, evaluator.Matchers, hub
      ensures Valid() && hub.Valid() && store.Abs() == old(store.Abs()).(order := store.contents)
      ensures (store.contents, stats.Snapshot())
           == DecideEach(EngineJudge(lib), evaluator.cfg, old(store.contents), old(stats.Snapshot()), due)
      ensures hub.log == old(hub.log) + Verdicts(EngineJudge(lib), evaluator.cfg, old(store.contents),
          old(stats.Snapshot()), due)
    {
      ghost var s, st, log := store.Abs(), stats.Snapshot(), hub.log;
      for i := 0 to |due|
        invariant DecidedSoFar(s, st, log, due, i)
      {
        DecideNext(i, due, s, st, log);
      }
      assert due[..|due|] == due;
    }

    /** decideDue once some copies are due. */
    method DecideAndReport(due: seq<Trace>)
      requires Valid() && hub.Valid()
      modifies store`contents, store.Repr, stats, evaluator.Matchers, hub
      ensures Valid() && hub.Valid() && store.Abs() == old(store.Abs()).(order := store.contents)
      ensures (store.contents, stats.Snapshot())
           == DecideEach(EngineJudge(lib), evaluator.cfg, old(store.contents), old(stats.Snapshot()), due)
      ensures hub.log == old(hub.log) + (Verdicts(EngineJudge(lib), evaluator.cfg, old(store.contents),
          old(stats.Snapshot()), due)
                                         + [StatisticsUpdated(stats.Snapshot())])
    {
      DecideAll(due);
      hub.Broadcast(StatisticsUpdated(stats.Snapshot()));
    }

    /** decideDue. */
    method DecideDue(now: int)
      requires Valid() && hub.Valid()
      modifies store`contents, store.Repr, stats, evaluator.Matchers, hub
      ensures Valid() && hub.Valid()
      ensures Abs() == ServerSpec.DecideDue(EngineJudge(lib), old(Abs()), now)
      ensures hub.log == old(hub.log) + TickBroadcasts(EngineJudge(lib), old(Abs()), now)
    {
      var decisionWait := WaitOf(evaluator.cfg);
      var due := store.DueForDecision(now, decisionWait);
      if |due| == 0 {
        return;
      }
      DecideAndReport(due);
    }

    /** Overwrite the decision of the i-th live trace, and count it if that trace is DECIDED. */
    method Overwrite(i: nat, r: EvalResult)
      requires store.Valid() && i < |store.order|
      modifies store`contents, store.Repr, stats
      ensures store.Valid()
      ensures var t := old(store.contents)[i];
        && store.Abs() == old(store.Abs()).(order := old(store.contents)[i := t.(decision := r.decision,
               matched := MatchedNames(r.policies))])
        && stats.Snapshot() == if t.state.Decided? then Recorded(old(stats.Snapshot()), r) else old(stats.Snapshot())
    {
      var t := store.order[i].record;
      var names := CollectMatchedNames(r.policies);
      store.SetRecord(i, t.(decision := r.decision, matched := names));
      if t.state == Decided {
        stats.Record(r);
      }
    }

    /** The callback SetPolicy runs on each live trace. */
    method ReevaluateTrace(i: nat)
      requires Valid() && i < |store.order|
      modifies store`contents, store.Repr, stats, evaluator.Matchers
      ensures Valid()
      ensures var t, judge := old(store.contents)[i], EngineJudge(lib);
        && store.Abs() == old(store.Abs()).(order := old(store.contents)[i := Reevaluated(judge, evaluator.cfg, t)])
        && stats.Snapshot() ==
             if Counted(judge, evaluator.cfg, t) then
               Recorded(old(stats.Snapshot()), Eval(judge, evaluator.cfg, t).value)
                               else old(stats.Snapshot())
    {
      var t := store.order[i].record;
      ghost var s, st := store.Abs(), stats.Snapshot();
      var result := EvaluateTrace(t);
      if result.Some? {
        Overwrite(i, result.value);
      }
      ReevaluationIs(EngineJudge(lib), evaluator.cfg, s, st, i, store.Abs(), stats.Snapshot());
    }

    /** SetPolicy's loop has re-evaluated the first i traces of s and counted the results since st. */
    ghost predicate ReevaluatedSoFar(s: StoreState, st: Stats, i: nat)
      reads this, store, store.Repr, stats, evaluator, evaluator.Matchers
    {
      && Valid() && i <= |s.order| == |store.order|
      && store.Abs() == s.(order := ReevaluatedUpTo(EngineJudge(lib), evaluator.cfg, s.order, i))
      && stats.Snapshot() == RecordAll(st, DecidedResults(EngineJudge(lib), evaluator.cfg, s.order[..i]))
    }

    /** One round of SetPolicy's loop. */
    method ReevaluateNext(i: nat, ghost s: StoreState, ghost st: Stats)
      requires ReevaluatedSoFar(s, st, i) && i < |s.order|
      modifies store`contents, store.Repr, stats, evaluator.Matchers
      ensures ReevaluatedSoFar(s, st, i + 1)
    {
      ReevaluateOneMore(EngineJudge(lib), evaluator.cfg, s.order, st, i);
      ReevaluateTrace(i);
    }

    /** The loop of SetPolicy over the retained traces. */
    method ReevaluateEach()
      requires Valid()
      modifies store`contents, store.Repr, stats, evaluator.Matchers
      ensures Valid() && var judge, order := EngineJudge(lib), old(store.contents);
        && store.Abs() == old(store.Abs()).(order := ReevaluateAll(judge, evaluator.cfg, order))
        && stats.Snapshot() == RecordAll(old(stats.Snapshot()), DecidedResults(judge, evaluator.cfg, order))
    {
      ghost var s, st := store.Abs(), stats.Snapshot();
      var n := |store.order|;
      for i := 0 to n
        invariant n == |s.order| && ReevaluatedSoFar(s, st, i)
      {
        ReevaluateNext(i, s, st);
      }
      ReevaluatedAtEnd(EngineJudge(lib), evaluator.cfg, s.order);
      assert s.order[..n] == s.order;
    }

    /** SetPolicy: a configuration that compiles replaces the evaluator and re-evaluates everything. */
    method SetPolicy(cfg: Config, around: Surroundings) returns (ok: bool)
      requires Valid() && hub.Valid()
      modifies this`evaluator, store`contents, store.Repr, stats, hub
      ensures Valid() && hub.Valid() && ok == ConfigCompiles(lib, cfg)
      ensures Abs() == ServerSpec.SetPolicy(EngineJudge(lib), old(Abs()), cfg)
      ensures hub.log == old(hub.log) + PolicyBroadcasts(EngineJudge(lib), old(Abs()), cfg, around)
    {
      ok := ReplacePolicy(cfg);
      if ok {
        AnnouncePolicy(cfg, around);
      }
    }

    /** What SetPolicy tells the browsers: the policy, the statistics and a full snapshot. */
    method AnnouncePolicy(cfg: Config, around: Surroundings)
      requires Valid() && hub.Valid()
      modifies hub
      ensures hub.Valid()
      ensures hub.log == old(hub.log) + [PolicyUpdated(cfg), StatisticsUpdated(stats.Snapshot()),
          SnapshotOf(Abs(), around)]
    {
      var snapshot := TakeSnapshot(around);
      hub.Broadcast(PolicyUpdated(cfg));
      hub.Broadcast(StatisticsUpdated(stats.Snapshot()));
      hub.Broadcast(snapshot);
    }

    /** SetPolicy up to its broadcasts. */
    method ReplacePolicy(cfg: Config) returns (ok: bool)
      requires Valid()
      modifies this`evaluator, store`contents, store.Repr, stats
      ensures Valid() && ok == ConfigCompiles(lib, cfg)
      ensures Abs() == ServerSpec.SetPolicy(EngineJudge(lib), old(Abs()), cfg)
    {
      var ev := NewEvaluator(lib, cfg);
      if ev.None? {
        return false;
      }
      evaluator := ev.value;
      stats.Reset();
      ReevaluateEach();
      return true;
    }

    /** comparePolicy: the candidate is compiled, run on copies of the traces, and forgotten. */
    method ComparePolicy(candidate: Config) returns (r: Option<Compare.CompareResult>)
      requires Valid()
      ensures r.Some? <==> ConfigCompiles(lib, candidate)
      ensures r.Some? ==> Compare.Compares(EngineJudge(lib), candidate, store.contents, r.value)
    {
      var ev := NewEvaluator(lib, candidate);
      if ev.None? {
        return None;
      }
      var traces := store.All();
      var result := Compare.CompareTraces(ev.value, traces);
      return Some(result);
    }
  }

  /** New: no server when the initial policy does not compile. */
  method New(lib: Lib, storeCfg: StoreConfig, initial: Config) returns (s: Option<Server>)
    ensures s.Some? <==> ConfigCompiles(lib, EffectivePolicy(initial))
    ensures s.Some? ==> fresh(s.value) && s.value.Valid() && s.value.lib == lib
    ensures s.Some? ==> s.value.Abs() == InitialState(storeCfg, EffectivePolicy(initial))
    ensures s.Some? && initial.decisionWait > 0 ==> s.value.evaluator.cfg == initial
    ensures s.Some? && initial.decisionWait <= 0 ==> s.value.evaluator.cfg == DEFAULT_POLICY
    ensures s.Some? ==> s.value.hub.Valid() && s.value.hub.log == []
  {
    var policy := initial;
    if policy.decisionWait <= 0 {
      policy := DEFAULT_POLICY;
    }
    var evaluator := NewEvaluator(lib, policy);
    if evaluator.None? {
      return None;
    }
    var server := new Server(lib, storeCfg, evaluator.value);
    return Some(server);
  }

  lemma FrameIs(s: ServerState, t: ServerState, now: int, touched: seq<Trace>, m: SpansByTrace)
    requires Walks(Ids(touched), m) && touched == TouchedSeq(s.store.order, now, Ids(touched), m)
    requires t.store == Ingest(s.store, now, Ids(touched), m) && t.cfg == s.cfg && t.stats == s.stats
    requires t.spansReceived == s.spansReceived + SpanTotal(Ids(touched), m)
    requires t.tracesReceived == s.tracesReceived + FirstSeenAt(touched, now)
    ensures t == HandleFrame(s, now, Ids(touched), m)
  {
  }

  lemma ReevaluationIs(judge: Judge, cfg: Config, s: StoreState, st: Stats, i: nat, after: StoreState, now: Stats)
    requires i < |s.order|
    requires match Eval(judge, cfg, s.order[i])
      case None => after == s && now == st
      case Some(r) =>
        && after == s.(order := s.order[i := s.order[i].(decision := r.decision, matched := MatchedNames(r.policies))])
        && now == if s.order[i].state.Decided? then Recorded(st, r) else st
    ensures after == s.(order := s.order[i := Reevaluated(judge, cfg, s.order[i])])
    ensures now == if Counted(judge, cfg, s.order[i]) then Recorded(st, Eval(judge, cfg, s.order[i]).value) else st
  {
  }

  lemma UpdatesNext(touched: seq<Trace>, now: int, i: nat)
    requires i < |touched|
    ensures FirstSeenAt(touched[..i + 1], now) == FirstSeenAt(touched[..i], now) +
      if touched[i].firstSeen == now then 1 else 0
    ensures Updates(touched[..i + 1]) == Updates(touched[..i]) + [TraceUpdated(Summary(touched[i]))]
  {
    assert touched[..i + 1][..i] == touched[..i];
  }

  lemma VerdictsNext(judge: Judge, cfg: Config, order: seq<Trace>, st: Stats, due: seq<Trace>, i: nat,
                     before: (seq<Trace>, Stats), after: (seq<Trace>, Stats),
                     log: seq<ServerMsg>, seen: seq<ServerMsg>, now: seq<ServerMsg>)
    requires i < |due| && before == DecideEach(judge, cfg, order, st, due[..i]) &&
      seen == log + Verdicts(judge, cfg, order, st, due[..i])
    requires after == DecideOne(judge, cfg, before.0, before.1, due[i]) &&
      now == seen + Verdict(judge, cfg, before.0, due[i])
    ensures after == DecideEach(judge, cfg, order, st, due[..i + 1]) &&
      now == log + Verdicts(judge, cfg, order, st, due[..i + 1])
  {
    assert due[..i + 1][..i] == due[..i];
  }
}
