/** What a run has received against what it retains and has evicted. */
module Conservation {
  import opened Pdata
  import opened Policies
  import opened TraceTypes
  import opened TraceList
  import opened StoreSpec
  import opened ServerSpec
  import opened DecisionRuns
  import opened Lifecycle

  function SpansIn(order: seq<Trace>): nat {
    if order == [] then 0 else SpansIn(order[..|order| - 1]) + |order[|order| - 1].spans|
  }

  lemma {:induction false} SpansInAppend(a: seq<Trace>, b: seq<Trace>)
    ensures SpansIn(a + b) == SpansIn(a) + SpansIn(b)
  {
    if b == [] {
      assert a + b == a;
    } else {
      assert (a + b)[..|a + b| - 1] == a + b[..|b| - 1];
      SpansInAppend(a, b[..|b| - 1]);
    }
  }

  lemma {:induction false} SpansTakenOut(order: seq<Trace>, id: TraceId)
    requires Distinct(Ids(order))
    ensures SpansIn(order) ==
      SpansIn(Without(order, [id])) + (if Find(order, id).Some? then |Find(order, id).value.spans| else 0)
    ensures |order| == |Without(order, [id])| + (if Find(order, id).Some? then 1 else 0)
  {
    if order != [] {
      var init, last := order[..|order| - 1], order[|order| - 1];
      DistinctInit(order);
      SpansTakenOut(init, id);
      if last.id == id {
        FindIs(init, id);
      } else {
        assert (Without(init, [id]) + [last])[..|Without(init, [id])|] == Without(init, [id]);
      }
    }
  }

  /** Merging one trace's spans adds those spans, and a trace exactly when there was none. */
  lemma IngestOneAdds(order: seq<Trace>, now: int, id: TraceId, spans: seq<FlatSpan>)
    requires Distinct(Ids(order))
    ensures SpansIn(IngestOne(order, now, id, spans)) == SpansIn(order) + |spans|
    ensures |IngestOne(order, now, id, spans)| == |order| + if Find(order, id).None? then 1 else 0
  {
    var rest, t := Without(order, [id]), Touch(Find(order, id), now, id, spans);
    SpansTakenOut(order, id);
    assert (rest + [t])[..|rest|] == rest;
  }

  /** The ids among the first n that have no record yet. */
  ghost function NewIds(order: seq<Trace>, ids: seq<TraceId>): nat {
    if ids == [] then 0
    else NewIds(order, ids[..|ids| - 1]) + if Find(order, ids[|ids| - 1]).None? then 1 else 0
  }

  lemma {:induction false} MergedAdds(s: StoreState, now: int, ids: seq<TraceId>, m: SpansByTrace)
    requires Consistent(s) && Distinct(ids) && forall id <- ids :: id in m
    ensures SpansIn(Merged(s, now, ids, m).order) == SpansIn(s.order) + SpanTotal(ids, m)
    ensures |Merged(s, now, ids, m).order| == |s.order| + NewIds(s.order, ids)
  {
    if ids != [] {
      var init, id := ids[..|ids| - 1], ids[|ids| - 1];
      DistinctPrefix(ids, |ids| - 1);
      MergedAdds(s, now, init, m);
      MergedConsistent(s, now, init, m);
      var before := Merged(s, now, init, m).order;
      IngestOneAdds(before, now, id, m[id]);
      StillAbsent(s.order, now, init, m, id);
    }
  }

  /** The ids among the first n whose record was first seen at this very instant. */
  ghost function RecountedIn(order: seq<Trace>, now: int, ids: seq<TraceId>): nat {
    if ids == [] then 0
    else
      var t := Find(order, ids[|ids| - 1]);
      RecountedIn(order, now, ids[..|ids| - 1]) + if t.Some? && t.value.firstSeen == now then 1 else 0
  }

  /** The server counts every new trace, and an old one when its first span came at this very instant. */
  lemma {:induction false} FirstSeenCounts(order: seq<Trace>, now: int, ids: seq<TraceId>, m: SpansByTrace)
    requires forall id <- ids :: id in m
    ensures FirstSeenAt(TouchedSeq(order, now, ids, m), now) == NewIds(order, ids) + RecountedIn(order, now, ids)
  {
    if ids != [] {
      var n := |ids| - 1;
      FirstSeenCounts(order, now, ids[..n], m);
      TouchedLast(order, now, ids, m);
      var touched := TouchedSeq(order, now, ids[..n], m);
      assert (touched + [Touch(Find(order, ids[n]), now, ids[n], m[ids[n]])])[..n] == touched;
    }
  }

  /** Traces a frame counts a second time. */
  ghost function Recounted(s: ServerState, e: Event): nat {
    if e.Frame? then RecountedIn(s.store.order, e.now, e.ids) else 0
  }

  ghost function AllRecounted(judge: Judge, lib: Lib, s: ServerState, es: seq<Event>): nat
    requires AllPossible(lib, es)
  {
    if es == [] then 0
    else AllRecounted(judge, lib, s, es[..|es| - 1]) + Recounted(Run(judge, lib, s, es[..|es| - 1]), es[|es| - 1])
  }

  /** Spans of the traces a frame evicts. */
  ghost function EvictedSpans(s: ServerState, e: Event): nat
    requires e.Frame? ==> forall id <- e.ids :: id in e.m
  {
    if !e.Frame? then 0
    else
      var merged := Merged(s.store, e.now, e.ids, e.m);
      SpansIn(merged.order[..EvictCount(merged, e.now)])
  }

  ghost function AllEvictedSpans(judge: Judge, lib: Lib, s: ServerState, es: seq<Event>): nat
    requires AllPossible(lib, es)
  {
    if es == [] then 0
    else AllEvictedSpans(judge, lib, s, es[..|es| - 1]) + EvictedSpans(Run(judge, lib, s, es[..|es| - 1]), es[|es| - 1])
  }

  lemma SpansInSplit(order: seq<Trace>, k: nat)
    requires k <= |order|
    ensures SpansIn(order) == SpansIn(order[..k]) + SpansIn(order[k..])
  {
    assert order == order[..k] + order[k..];
    SpansInAppend(order[..k], order[k..]);
  }

  lemma IngestConserves(s: StoreState, now: int, ids: seq<TraceId>, m: SpansByTrace)
    requires Consistent(s) && Walks(ids, m)
    ensures var t, merged := Ingest(s, now, ids, m), Merged(s, now, ids, m);
      && SpansIn(s.order) + SpanTotal(ids, m) == SpansIn(t.order) + SpansIn(merged.order[..EvictCount(merged, now)])
      && |s.order| + s.evicted + NewIds(s.order, ids) == |t.order| + t.evicted
  {
    var merged := Merged(s, now, ids, m);
    var k := EvictCount(merged, now);
    MergedAdds(s, now, ids, m);
    EvictIsShortestPrefix(merged, now);
    SpansInSplit(merged.order, k);
  }

  lemma StepConserves(judge: Judge, lib: Lib, s: ServerState, e: Event)
    requires Possible(lib, e) && Consistent(s.store)
    ensures var t := Step(judge, lib, s, e);
      && t.spansReceived + SpansIn(s.store.order) == s.spansReceived + SpansIn(t.store.order) + EvictedSpans(s, e)
      && t.tracesReceived + |s.store.order| + s.store.evicted
         == s.tracesReceived + |t.store.order| + t.store.evicted + Recounted(s, e)
  {
    if e.Frame? {
      IngestConserves(s.store, e.now, e.ids, e.m);
      FirstSeenCounts(s.store.order, e.now, e.ids, e.m);
    } else {
      StepShape(judge, lib, s, e);
      SameSpanCount(s.store.order, Step(judge, lib, s, e).store.order);
    }
  }

  lemma {:induction false} SameSpanCount(a: seq<Trace>, b: seq<Trace>)
    requires SameTraces(a, b)
    ensures SpansIn(a) == SpansIn(b)
  {
    if a != [] {
      SameSpanCount(a[..|a| - 1], b[..|b| - 1]);
    }
  }

  /** In every run: spans received are retained or were evicted, and traces received are those and the recounted. */
  lemma {:induction false} RunConserves(judge: Judge, lib: Lib, storeCfg: StoreConfig, cfg: Config, es: seq<Event>)
    requires Lawful(judge) && AllPossible(lib, es)
    ensures var start := InitialState(storeCfg, cfg);
      var s := Run(judge, lib, start, es);
      && s.spansReceived == SpansIn(s.store.order) + AllEvictedSpans(judge, lib, start, es)
      && s.tracesReceived == |s.store.order| + s.store.evicted + AllRecounted(judge, lib, start, es)
  {
    if es != [] {
      var init := es[..|es| - 1];
      RunConserves(judge, lib, storeCfg, cfg, init);
      RunKeeps(judge, lib, storeCfg, cfg, init);
      StepConserves(judge, lib, Run(judge, lib, InitialState(storeCfg, cfg), init), es[|es| - 1]);
    }
  }

  // ---- when the trace counter is exact ----

  /** A frame with spans for a retained trace that was first seen at the frame's own time. */
  ghost predicate Recounts(s: ServerState, e: Event) {
    e.Frame? && exists id <- e.ids :: IsRecounted(s.store.order, e.now, id)
  }

  ghost predicate IsRecounted(order: seq<Trace>, now: int, id: TraceId) {
    Find(order, id).Some? && Find(order, id).value.firstSeen == now
  }

  lemma {:induction false} NoneRecountedIn(order: seq<Trace>, now: int, ids: seq<TraceId>)
    ensures RecountedIn(order, now, ids) == 0 <==> forall id <- ids :: !IsRecounted(order, now, id)
  {
    if ids != [] {
      var init, last := ids[..|ids| - 1], ids[|ids| - 1];
      NoneRecountedIn(order, now, init);
      assert ids == init + [last];
      assert (forall id <- ids :: !IsRecounted(order, now, id))
        <==> (forall id <- init :: !IsRecounted(order, now, id)) && !IsRecounted(order, now, last);
    }
  }

  lemma NoneRecountedNow(s: ServerState, e: Event)
    ensures Recounted(s, e) == 0 <==> !Recounts(s, e)
  {
    if e.Frame? {
      NoneRecountedIn(s.store.order, e.now, e.ids);
    }
  }

  /** No frame of the run recounts a trace. */
  ghost predicate NeverRecounts(judge: Judge, lib: Lib, s: ServerState, es: seq<Event>)
    requires AllPossible(lib, es)
  {
    es == [] ||
      (NeverRecounts(judge, lib, s, es[..|es| - 1]) && !Recounts(Run(judge, lib, s, es[..|es| - 1]), es[|es| - 1]))
  }

  lemma {:induction false} NoneRecounted(judge: Judge, lib: Lib, s: ServerState, es: seq<Event>)
    requires AllPossible(lib, es)
    ensures AllRecounted(judge, lib, s, es) == 0 <==> NeverRecounts(judge, lib, s, es)
  {
    if es != [] {
      NoneRecounted(judge, lib, s, es[..|es| - 1]);
      NoneRecountedNow(Run(judge, lib, s, es[..|es| - 1]), es[|es| - 1]);
    }
  }

  /** The trace counter is received = retained + evicted exactly when no frame of the run recounts. */
  lemma TracesConservedExactly(judge: Judge, lib: Lib, storeCfg: StoreConfig, cfg: Config, es: seq<Event>)
    requires Lawful(judge) && AllPossible(lib, es)
    ensures var start := InitialState(storeCfg, cfg);
      var s := Run(judge, lib, start, es);
      s.tracesReceived == |s.store.order| + s.store.evicted <==> NeverRecounts(judge, lib, start, es)
  {
    RunConserves(judge, lib, storeCfg, cfg, es);
    NoneRecounted(judge, lib, InitialState(storeCfg, cfg), es);
  }

  /** No two frames carry the same time; ticks may come whenever they like. */
  predicate DistinctFrameTimes(es: seq<Event>) {
    forall i, j :: 0 <= i < j < |es| && es[i].Frame? && es[j].Frame? ==> es[i].now != es[j].now
  }

  ghost predicate SeenInFrame(es: seq<Event>, t: Trace) {
    exists i :: 0 <= i < |es| && es[i].Frame? && es[i].now == t.firstSeen
  }

  lemma SeenStays(es: seq<Event>, e: Event, t: Trace)
    ensures SeenInFrame(es, t) || (e.Frame? && e.now == t.firstSeen) ==> SeenInFrame(es + [e], t)
  {
    if i :| 0 <= i < |es| && es[i].Frame? && es[i].now == t.firstSeen {
      assert (es + [e])[i] == es[i];
    }
    assert (es + [e])[|es|] == e;
  }

  lemma FrameFirstSeen(s: StoreState, now: int, ids: seq<TraceId>, m: SpansByTrace, t: Trace)
    requires Walks(ids, m) && t in Ingest(s, now, ids, m).order
    ensures t.firstSeen == now || exists u <- s.order :: u.firstSeen == t.firstSeen
  {
    RetainedAfterFrame(s, now, ids, m, t);
    if t in TouchedSeq(s.order, now, ids, m) {
      var j :| 0 <= j < |ids| && TouchedSeq(s.order, now, ids, m)[j] == t;
      FindIs(s.order, ids[j]);
    }
  }

  lemma {:induction false} RunSeenInFrames(judge: Judge, lib: Lib, storeCfg: StoreConfig, cfg: Config, es: seq<Event>)
    requires Lawful(judge) && AllPossible(lib, es)
    ensures forall t <- Run(judge, lib, InitialState(storeCfg, cfg), es).store.order :: SeenInFrame(es, t)
  {
    if es != [] {
      var init, e := es[..|es| - 1], es[|es| - 1];
      var s := Run(judge, lib, InitialState(storeCfg, cfg), init);
      RunSeenInFrames(judge, lib, storeCfg, cfg, init);
      RunKeeps(judge, lib, storeCfg, cfg, init);
      assert init + [e] == es;
      forall t | t in Step(judge, lib, s, e).store.order ensures SeenInFrame(es, t) {
        SeenStays(init, e, t);
        if e.Frame? {
          FrameFirstSeen(s.store, e.now, e.ids, e.m, t);
        } else {
          StepShape(judge, lib, s, e);
          var i :| 0 <= i < |s.store.order| && Step(judge, lib, s, e).store.order[i] == t;
          assert SeenInFrame(init, s.store.order[i]);
        }
      }
    }
  }

  lemma {:induction false} DistinctNeverRecount(judge: Judge, lib: Lib, storeCfg: StoreConfig, cfg: Config,
      es: seq<Event>)
    requires Lawful(judge) && AllPossible(lib, es) && DistinctFrameTimes(es)
    ensures NeverRecounts(judge, lib, InitialState(storeCfg, cfg), es)
  {
    if es != [] {
      var init, e := es[..|es| - 1], es[|es| - 1];
      var s := Run(judge, lib, InitialState(storeCfg, cfg), init);
      DistinctNeverRecount(judge, lib, storeCfg, cfg, init);
      RunSeenInFrames(judge, lib, storeCfg, cfg, init);
      if e.Frame? {
        forall id <- e.ids ensures !IsRecounted(s.store.order, e.now, id) {
          FindIs(s.store.order, id);
        }
      }
    }
  }

  /** With frames at distinct times the trace counter is exact. */
  lemma TracesConserved(judge: Judge, lib: Lib, storeCfg: StoreConfig, cfg: Config, es: seq<Event>)
    requires Lawful(judge) && AllPossible(lib, es) && DistinctFrameTimes(es)
    ensures var s := Run(judge, lib, InitialState(storeCfg, cfg), es);
      s.tracesReceived == |s.store.order| + s.store.evicted
  {
    DistinctNeverRecount(judge, lib, storeCfg, cfg, es);
    TracesConservedExactly(judge, lib, storeCfg, cfg, es);
  }
}
