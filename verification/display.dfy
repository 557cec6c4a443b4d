/** From the batches received to the row on display, without the flattened form in between. */
module Display {
  import opened Wrappers
  import opened Pdata
  import opened Policies
  import opened TraceTypes
  import opened Assembler
  import opened Fidelity
  import opened TraceList
  import opened StoreSpec
  import opened ServerSpec
  import opened DecisionRuns
  import opened Lifecycle
  import opened Messages
  import opened EndToEnd

  // ---- what is stored of a span ----

  /** The first service.name among the resource's attributes, as text. */
  function Service(lib: Lib, resource: Attrs): string {
    lib.asString(match Get(resource, "service.name") case None => Empty case Some(v) => v)
  }

  /** f has the ids, the name, the times, the status and the rest of the raw span, and its resource's service. */
  ghost predicate Keeps(lib: Lib, p: (Attrs, Span), f: FlatSpan) {
    var s := p.1;
    && f.traceId == s.traceId && f.spanId == s.spanId && f.parentSpanId == s.parentSpanId
    && f.name == s.name && f.kind == s.kind && f.startTime == AsTime(s.start) && f.endTime == AsTime(s.end)
    && (f.statusCode == StatusOK <==> s.status == 1) && (f.statusCode == StatusError <==> s.status == 2)
    && f.statusMessage == s.statusMessage && f.traceStateRaw == s.traceState
    && f.eventCount == s.eventCount && f.linkCount == s.linkCount && f.serviceName == Service(lib, p.0)
  }

  /** The keys a stored span has besides those of its attributes. */
  ghost predicate WellKnown(f: FlatSpan) {
    && {"name", "kind", "service.name", "status.code", "duration_ms"} <= f.attributes.Keys
    && f.attributes["name"] == Str(f.name) && f.attributes["service.name"] == Str(f.serviceName)
    && f.attributes["status.code"] ==
         Str(match f.statusCode case StatusOK => "OK" case StatusError => "ERROR" case StatusUnset => "UNSET")
    && f.attributes["kind"] ==
         Str(if 0 <= f.kind <= 5 then ["Unspecified", "Internal", "Server", "Client", "Producer", "Consumer"][f.kind]
             else "")
    && f.attributes["duration_ms"] == Double(Milliseconds(Sub(f.endTime, f.startTime)) as real)
  }

  lemma FlatKeeps(lib: Lib, p: (Attrs, Span))
    ensures Keeps(lib, p, ToFlat(lib, p.0, p.1)) && WellKnown(ToFlat(lib, p.0, p.1))
  {
  }

  /**
   * Assemble stores the raw spans of an id one for one and in order, so a span is another's parent
   * exactly when it was sent as that.
   */
  lemma StoredAsReceived(lib: Lib, td: Traces, id: TraceId)
    ensures var raw, spans := PairsOf(Flatten(td), id), SpansOf(lib, Flatten(td), id);
      && |spans| == |raw|
      && (forall i :: 0 <= i < |raw| ==> Keeps(lib, raw[i], spans[i]) && WellKnown(spans[i]))
      && forall i, j :: 0 <= i < |raw| && 0 <= j < |raw| ==>
           (spans[j].spanId == spans[i].parentSpanId <==> raw[j].1.spanId == raw[i].1.parentSpanId)
  {
    var raw, spans := PairsOf(Flatten(td), id), SpansOf(lib, Flatten(td), id);
    SpansOfPairs(lib, Flatten(td), id);
    forall i | 0 <= i < |raw| ensures Keeps(lib, raw[i], spans[i]) && WellKnown(spans[i]) {
      FlatKeeps(lib, raw[i]);
    }
  }

  // ---- what is shown of a trace ----

  /** Of the raw spans, the first without a parent; failing that, the one that starts first, and of equals the first. */
  predicate RawRoot(raw: seq<(Attrs, Span)>, r: nat)
    requires r < |raw|
  {
    if exists i :: 0 <= i < |raw| && raw[i].1.parentSpanId == 0 then
      raw[r].1.parentSpanId == 0 && forall i :: 0 <= i < r ==> raw[i].1.parentSpanId != 0
    else
      && (forall i :: 0 <= i < |raw| ==> AsTime(raw[r].1.start) <= AsTime(raw[i].1.start))
      && (forall i :: 0 <= i < r ==> AsTime(raw[r].1.start) < AsTime(raw[i].1.start))
  }

  ghost predicate FirstStart(raw: seq<(Attrs, Span)>, a: nat)
    requires a < |raw|
  {
    forall i :: 0 <= i < |raw| ==> AsTime(raw[a].1.start) <= AsTime(raw[i].1.start)
  }

  ghost predicate LastEnd(raw: seq<(Attrs, Span)>, b: nat)
    requires b < |raw|
  {
    forall i :: 0 <= i < |raw| ==> AsTime(raw[i].1.end) <= AsTime(raw[b].1.end)
  }

  /**
   * The row shows the raw spans r-th first: their number, root, service, length from first start to
   * last end, and errors.
   */
  ghost predicate Shows(lib: Lib, raw: seq<(Attrs, Span)>, row: TraceSummary, r: nat, a: nat, b: nat) {
    && r < |raw| && a < |raw| && b < |raw| && RawRoot(raw, r) && FirstStart(raw, a) && LastEnd(raw, b)
    && row.spanCount == |raw| && row.rootSpanName == raw[r].1.name
    && row.serviceName == (if Service(lib, raw[r].0) != "" then Service(lib, raw[r].0) else Service(lib, raw[0].0))
    && row.durationMs == Milliseconds(Sub(AsTime(raw[b].1.end), AsTime(raw[a].1.start)))
    && (row.hasError <==> exists i :: 0 <= i < |raw| && raw[i].1.status == 2)
  }

  /** What the record says of the trace is on the row as well. */
  predicate ShowsRecord(row: TraceSummary, t: Trace) {
    && row.traceId == t.id && row.state == t.state && row.decision == t.decision && row.matchedPolicies == t.matched
    && row.firstSeen == t.firstSeen && row.lastSeen == t.lastSeen
  }

  lemma {:induction false} MinStartAt(spans: seq<FlatSpan>) returns (a: nat)
    requires spans != []
    ensures a < |spans| && spans[a].startTime == MinStart(spans)
    ensures forall i :: 0 <= i < |spans| ==> spans[a].startTime <= spans[i].startTime
  {
    a := |spans| - 1;
    if |spans| > 1 {
      var c := MinStartAt(spans[..|spans| - 1]);
      a := if spans[a].startTime < spans[c].startTime then a else c;
    }
  }

  lemma {:induction false} MaxEndAt(spans: seq<FlatSpan>) returns (b: nat)
    requires spans != []
    ensures b < |spans| && spans[b].endTime == MaxEnd(spans)
    ensures forall i :: 0 <= i < |spans| ==> spans[i].endTime <= spans[b].endTime
  {
    b := |spans| - 1;
    if |spans| > 1 {
      var c := MaxEndAt(spans[..|spans| - 1]);
      b := if spans[b].endTime > spans[c].endTime then b else c;
    }
  }

  ghost predicate AllKept(lib: Lib, raw: seq<(Attrs, Span)>, spans: seq<FlatSpan>) {
    |spans| == |raw| && forall i :: 0 <= i < |raw| ==> Keeps(lib, raw[i], spans[i])
  }

  lemma KeptRoot(lib: Lib, raw: seq<(Attrs, Span)>, spans: seq<FlatSpan>, r: nat)
    requires AllKept(lib, raw, spans) && r < |spans| && IsRoot(spans, r)
    ensures RawRoot(raw, r)
  {
    if i :| 0 <= i < |raw| && raw[i].1.parentSpanId == 0 {
      assert spans[i].parentSpanId == 0;
    }
    if i :| 0 <= i < |spans| && spans[i].parentSpanId == 0 {
      assert raw[i].1.parentSpanId == 0;
    }
  }

  lemma KeptErrors(lib: Lib, raw: seq<(Attrs, Span)>, spans: seq<FlatSpan>)
    requires AllKept(lib, raw, spans)
    ensures AnyError(spans) <==> exists i :: 0 <= i < |raw| && raw[i].1.status == 2
  {
    if i :| 0 <= i < |raw| && raw[i].1.status == 2 {
      assert spans[i].statusCode == StatusError;
    }
    if i :| 0 <= i < |spans| && spans[i].statusCode == StatusError {
      assert raw[i].1.status == 2;
    }
  }

  lemma KeptTimes(lib: Lib, raw: seq<(Attrs, Span)>, spans: seq<FlatSpan>) returns (a: nat, b: nat)
    requires AllKept(lib, raw, spans) && raw != []
    ensures a < |raw| && b < |raw| && FirstStart(raw, a) && LastEnd(raw, b)
    ensures TraceDuration(spans) == Sub(AsTime(raw[b].1.end), AsTime(raw[a].1.start))
  {
    a := MinStartAt(spans);
    b := MaxEndAt(spans);
    forall i | 0 <= i < |raw|
      ensures AsTime(raw[a].1.start) <= AsTime(raw[i].1.start) && AsTime(raw[i].1.end) <= AsTime(raw[b].1.end)
    {
      assert Keeps(lib, raw[i], spans[i]);
    }
  }

  lemma RowShows(lib: Lib, raw: seq<(Attrs, Span)>, t: Trace) returns (r: nat, a: nat, b: nat)
    requires AllKept(lib, raw, t.spans) && raw != []
    ensures Shows(lib, raw, Summary(t), r, a, b) && ShowsRecord(Summary(t), t)
  {
    r := RootWitness(t.spans);
    KeptRoot(lib, raw, t.spans, r);
    KeptErrors(lib, raw, t.spans);
    a, b := KeptTimes(lib, raw, t.spans);
    assert Keeps(lib, raw[r], t.spans[r]) && Keeps(lib, raw[0], t.spans[0]);
  }

  // ---- when a trace was seen ----

  /** The time of the frame that created the record now under an id. */
  ghost function CreatedAt(judge: Judge, lib: Lib, s: ServerState, es: seq<Event>, id: TraceId): Option<int>
    requires AllPossible(lib, es)
  {
    if es == [] then None
    else
      var init, e := es[..|es| - 1], es[|es| - 1];
      if e.Frame? && id in e.ids && Find(Run(judge, lib, s, init).store.order, id).None? then Some(e.now)
      else CreatedAt(judge, lib, s, init, id)
  }

  /** The time of the last frame with spans of an id. */
  function LastFrame(es: seq<Event>, id: TraceId): Option<int> {
    if es == [] then None
    else if es[|es| - 1].Frame? && id in es[|es| - 1].ids then Some(es[|es| - 1].now)
    else LastFrame(es[..|es| - 1], id)
  }

  ghost predicate Dated(judge: Judge, lib: Lib, start: ServerState, es: seq<Event>, t: Trace)
    requires AllPossible(lib, es)
  {
    && t.spans != []
    && CreatedAt(judge, lib, start, es, t.id) == Some(t.firstSeen) && LastFrame(es, t.id) == Some(t.lastSeen)
  }

  lemma UntouchedDated(judge: Judge, lib: Lib, start: ServerState, es: seq<Event>, e: Event, t: Trace)
    requires AllPossible(lib, es) && AllPossible(lib, es + [e]) && Dated(judge, lib, start, es, t)
    requires e.Frame? ==> t.id !in e.ids
    ensures Dated(judge, lib, start, es + [e], t)
  {
    assert (es + [e])[..|es|] == es;
  }

  lemma TouchedDated(judge: Judge, lib: Lib, start: ServerState, es: seq<Event>, e: Event, t: Trace)
    requires AllPossible(lib, es) && Possible(lib, e) && AllPossible(lib, es + [e]) && e.Frame? && t.id in e.ids
    requires var before := Find(Run(judge, lib, start, es).store.order, t.id);
      && t == Touch(before, e.now, t.id, e.m[t.id])
      && (before.Some? ==> before.value.id == t.id && Dated(judge, lib, start, es, before.value))
    ensures Dated(judge, lib, start, es + [e], t)
  {
    assert (es + [e])[..|es|] == es;
    assert e.m[t.id] != [];
  }

  lemma FrameDated(judge: Judge, lib: Lib, start: ServerState, es: seq<Event>, e: Event, t: Trace)
    requires AllPossible(lib, es) && Possible(lib, e) && AllPossible(lib, es + [e]) && e.Frame?
    requires forall u <- Run(judge, lib, start, es).store.order :: Dated(judge, lib, start, es, u)
    requires t in Ingest(Run(judge, lib, start, es).store, e.now, e.ids, e.m).order
    ensures Dated(judge, lib, start, es + [e], t)
  {
    var s := Run(judge, lib, start, es).store;
    RetainedAfterFrame(s, e.now, e.ids, e.m, t);
    if t in s.order && t.id !in e.ids {
      UntouchedDated(judge, lib, start, es, e, t);
    } else {
      var j :| 0 <= j < |e.ids| && TouchedSeq(s.order, e.now, e.ids, e.m)[j] == t;
      FindIs(s.order, e.ids[j]);
      TouchedDated(judge, lib, start, es, e, t);
    }
  }

  lemma {:induction false} RunDated(judge: Judge, lib: Lib, storeCfg: StoreConfig, cfg: Config, es: seq<Event>)
    requires Lawful(judge) && AllPossible(lib, es)
    ensures var start := InitialState(storeCfg, cfg);
      forall t <- Run(judge, lib, start, es).store.order :: Dated(judge, lib, start, es, t)
  {
    if es != [] {
      var start := InitialState(storeCfg, cfg);
      var init, e := es[..|es| - 1], es[|es| - 1];
      var s := Run(judge, lib, start, init);
      RunDated(judge, lib, storeCfg, cfg, init);
      RunKeeps(judge, lib, storeCfg, cfg, init);
      assert init + [e] == es;
      forall t | t in Run(judge, lib, start, es).store.order ensures Dated(judge, lib, start, es, t) {
        if e.Frame? {
          FrameDated(judge, lib, start, init, e, t);
        } else {
          StepDated(judge, lib, start, init, e, t);
        }
      }
    }
  }

  lemma StepDated(judge: Judge, lib: Lib, start: ServerState, es: seq<Event>, e: Event, t: Trace)
    requires AllPossible(lib, es) && Possible(lib, e) && AllPossible(lib, es + [e]) && !e.Frame?
    requires Consistent(Run(judge, lib, start, es).store)
    requires forall u <- Run(judge, lib, start, es).store.order :: Dated(judge, lib, start, es, u)
    requires t in Step(judge, lib, Run(judge, lib, start, es), e).store.order
    ensures Dated(judge, lib, start, es + [e], t)
  {
    var s := Run(judge, lib, start, es);
    StepShape(judge, lib, s, e);
    var i :| 0 <= i < |s.store.order| && Step(judge, lib, s, e).store.order[i] == t;
    UntouchedDated(judge, lib, start, es, e, s.store.order[i]);
  }

  // ---- the theorem ----

  /** The raw spans of an id, from batch n on. */
  function RawSince(bs: seq<Traces>, n: nat, id: TraceId): seq<(Attrs, Span)>
    requires n <= |bs|
  {
    PairsOf(Flatten(Joined(bs[n..])), id)
  }

  /**
   * After every run, the row of each retained trace shows the raw spans received
   * under its id since the batch that created its record: how many, the root among them and its
   * service, the time from the first start to the last end, and whether one has an error. First and
   * last seen are the times of the frame that created the record and of the last with spans of the id.
   */
  lemma ShownAsReceived(judge: Judge, lib: Lib, storeCfg: StoreConfig, cfg: Config, es: seq<Event>, t: Trace)
    returns (r: nat, a: nat, b: nat)
    requires Lawful(judge) && AllPossible(lib, es)
    requires t in Run(judge, lib, InitialState(storeCfg, cfg), es).store.order
    ensures var start := InitialState(storeCfg, cfg);
      var n, row := CreatedBy(judge, lib, start, es, t.id), Summary(t);
      && n <= |Batches(es)| && Shows(lib, RawSince(Batches(es), n, t.id), row, r, a, b) && ShowsRecord(row, t)
      && CreatedAt(judge, lib, start, es, t.id) == Some(row.firstSeen) && LastFrame(es, t.id) == Some(row.lastSeen)
  {
    var start := InitialState(storeCfg, cfg);
    RunSinceCreation(judge, lib, storeCfg, cfg, es);
    RunDated(judge, lib, storeCfg, cfg, es);
    var n := CreatedBy(judge, lib, start, es, t.id);
    assert Since(lib, Batches(es), n, t);
    StoredAsReceived(lib, Joined(Batches(es)[n..]), t.id);
    r, a, b := RowShows(lib, RawSince(Batches(es), n, t.id), t);
  }
}
