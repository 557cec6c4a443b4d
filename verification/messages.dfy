/** What the server tells its browsers after each step, and what a browser makes of it. */
module Messages {
  import opened Wrappers
  import opened Pdata
  import opened Policies
  import opened TraceTypes
  import opened TraceList
  import opened StoreSpec
  import opened Statistics
  import opened ServerSpec

  // ---- what goes over the wire ----

  datatype TraceSummary = TraceSummary(
    traceId: TraceId, serviceName: string, rootSpanName: string, durationMs: int, hasError: bool, spanCount: nat,
    state: State, decision: Decision, matchedPolicies: seq<string>, firstSeen: int, lastSeen: int)

  datatype SessionSummary = SessionSummary(state: string, sessionId: string, spans: nat, traces: nat)

  datatype CollectorSummary = CollectorSummary(id: string, version: string, connected: bool, spansReceived: nat,
      lastSeen: int)

  datatype ServerMsg =
    | Snapshot(session: SessionSummary, collectors: seq<CollectorSummary>, traces: seq<TraceSummary>, policy: Config,
        statistics: Stats)
    | TraceUpdated(trace: TraceSummary)
    | TraceDecided(traceId: TraceId, decision: Decision, matchedPolicies: seq<string>)
    | StatisticsUpdated(statistics: Stats)
    | SessionState(session: SessionSummary)
    | CollectorConnected(collector: CollectorSummary)
    | CollectorDisconnected(collectorId: string)
    | PolicyUpdated(policy: Config)
    | ErrorMsg(message: string)

  ghost function Summary(t: Trace): TraceSummary {
    var root := Root(t.spans);
    TraceSummary(t.id, RootServiceName(t.spans), if root.Some? then root.value.name else "",
                 Milliseconds(TraceDuration(t.spans)), AnyError(t.spans), |t.spans|,
                 t.state, t.decision, t.matched, t.firstSeen, t.lastSeen)
  }

  method ServiceName(spans: seq<FlatSpan>) returns (name: string)
    ensures name == RootServiceName(spans)
  {
    var root := RootSpan(spans);
    if root.Some? && root.value.serviceName != "" {
      return root.value.serviceName;
    }
    return if |spans| > 0 then spans[0].serviceName else "";
  }

  method ToSummary(t: Trace) returns (s: TraceSummary)
    ensures s == Summary(t)
  {
    var root := RootSpan(t.spans);
    var serviceName := ServiceName(t.spans);
    var duration := Duration(t.spans);
    var hasError := HasError(t.spans);
    s := TraceSummary(t.id, serviceName, if root.Some? then root.value.name else "",
                      Milliseconds(duration), hasError, |t.spans|,
                      t.state, t.decision, t.matched, t.firstSeen, t.lastSeen);
  }

  // ---- the browser's reducer ----

  datatype AppState = AppState(
    session: Option<SessionSummary>, collectors: map<string, CollectorSummary>, traces: map<TraceId, TraceSummary>,
    policy: Option<Config>, statistics: Option<Stats>, notice: Option<string>)

  const INITIAL := AppState(None, map[], map[], None, None, None)

  function ByTraceId(ts: seq<TraceSummary>): map<TraceId, TraceSummary> {
    if ts == [] then map[] else ByTraceId(ts[..|ts| - 1])[ts[|ts| - 1].traceId := ts[|ts| - 1]]
  }

  function ByCollectorId(cs: seq<CollectorSummary>): map<string, CollectorSummary> {
    if cs == [] then map[] else ByCollectorId(cs[..|cs| - 1])[cs[|cs| - 1].id := cs[|cs| - 1]]
  }

  function AfterMsg(c: AppState, msg: ServerMsg): AppState {
    match msg
    case Snapshot(session, collectors, traces, policy, statistics) =>
      c.(session := Some(session), collectors := ByCollectorId(collectors), traces := ByTraceId(traces),
         policy := Some(policy), statistics := Some(statistics))
    case TraceUpdated(t) => c.(traces := c.traces[t.traceId := t])
    case TraceDecided(id, decision, matched) =>
      if id !in c.traces then c
      else c.(traces := c.traces[id := c.traces[id].(decision := decision, matchedPolicies := matched,
          state := Decided)])
    case StatisticsUpdated(statistics) => c.(statistics := Some(statistics))
    case SessionState(session) => c.(session := Some(session))
    case CollectorConnected(collector) => c.(collectors := c.collectors[collector.id := collector])
    case CollectorDisconnected(id) =>
      if id !in c.collectors then c else c.(collectors := c.collectors[id := c.collectors[id].(connected := false)])
    case PolicyUpdated(policy) => c.(policy := Some(policy))
    case ErrorMsg(message) => c.(notice := Some(message))
  }

  /** applyServerMsg, whose snapshot case fills its records in loops. */
  method ApplyServerMsg(c: AppState, msg: ServerMsg) returns (r: AppState)
    ensures r == AfterMsg(c, msg)
  {
    match msg
    case Snapshot(session, cs, ts, policy, statistics) =>
      var traces: map<TraceId, TraceSummary> := map[];
      for i := 0 to |ts|
        invariant traces == ByTraceId(ts[..i])
      {
        assert ts[..i + 1][..i] == ts[..i];
        traces := traces[ts[i].traceId := ts[i]];
      }
      assert ts[..|ts|] == ts;
      var collectors: map<string, CollectorSummary> := map[];
      for i := 0 to |cs|
        invariant collectors == ByCollectorId(cs[..i])
      {
        assert cs[..i + 1][..i] == cs[..i];
        collectors := collectors[cs[i].id := cs[i]];
      }
      assert cs[..|cs|] == cs;
      r := c.(session := Some(session), collectors := collectors, traces := traces,
              policy := Some(policy), statistics := Some(statistics));
    case TraceUpdated(t) =>
      r := c.(traces := c.traces[t.traceId := t]);
    case TraceDecided(id, decision, matched) =>
      if id !in c.traces {
        return c;
      }
      var existing := c.traces[id];
      r := c.(traces := c.traces[id := existing.(decision := decision, matchedPolicies := matched, state := Decided)]);
    case StatisticsUpdated(statistics) =>
      r := c.(statistics := Some(statistics));
    case SessionState(session) =>
      r := c.(session := Some(session));
    case CollectorConnected(collector) =>
      r := c.(collectors := c.collectors[collector.id := collector]);
    case CollectorDisconnected(id) =>
      if id !in c.collectors {
        return c;
      }
      var existing := c.collectors[id];
      r := c.(collectors := c.collectors[id := existing.(connected := false)]);
    case PolicyUpdated(policy) =>
      r := c.(policy := Some(policy));
    case ErrorMsg(message) =>
      r := c.(notice := Some(message));
  }

  function AfterAll(c: AppState, msgs: seq<ServerMsg>): AppState {
    if msgs == [] then c else AfterMsg(AfterAll(c, msgs[..|msgs| - 1]), msgs[|msgs| - 1])
  }

  lemma {:induction false} AfterAllAppend(c: AppState, a: seq<ServerMsg>, b: seq<ServerMsg>)
    ensures AfterAll(c, a + b) == AfterAll(AfterAll(c, a), b)
  {
    if b == [] {
      assert a + b == a;
    } else {
      assert (a + b)[..|a + b| - 1] == a + b[..|b| - 1];
      AfterAllAppend(c, a, b[..|b| - 1]);
    }
  }

  lemma AfterOne(c: AppState, msg: ServerMsg)
    ensures AfterAll(c, [msg]) == AfterMsg(c, msg)
  {
    assert [msg][..0] == [];
  }

  // ---- which messages follow which step ----

  /** The session and the collectors at the moment of a snapshot. */
  datatype Surroundings = Surroundings(session: SessionSummary, collectors: seq<CollectorSummary>)

  ghost function Summaries(ts: seq<Trace>): seq<TraceSummary> {
    if ts == [] then [] else Summaries(ts[..|ts| - 1]) + [Summary(ts[|ts| - 1])]
  }

  ghost function SnapshotOf(s: ServerState, around: Surroundings): ServerMsg {
    Snapshot(around.session, around.collectors, Summaries(s.store.order), s.cfg, s.stats)
  }

  ghost function Updates(touched: seq<Trace>): seq<ServerMsg> {
    if touched == [] then [] else Updates(touched[..|touched| - 1]) + [TraceUpdated(Summary(touched[|touched| - 1]))]
  }

  /** What is announced of a result: nothing if the trace is gone. */
  ghost function Announcement(o: seq<Trace>, id: TraceId, r: EvalResult): seq<ServerMsg> {
    if Find(o, id).None? then [] else [TraceDecided(id, r.decision, MatchedNames(r.policies))]
  }

  /** What the loop of decideDue announces for one due copy. */
  ghost function Verdict(judge: Judge, cfg: Config, o: seq<Trace>, t: Trace): seq<ServerMsg> {
    match Eval(judge, cfg, t)
    case None => []
    case Some(r) => Announcement(o, t.id, r)
  }

  ghost function Verdicts(judge: Judge, cfg: Config, order: seq<Trace>, stats: Stats, due: seq<Trace>): seq<ServerMsg> {
    if due == [] then []
    else
      var init := due[..|due| - 1];
      Verdicts(judge, cfg, order, stats, init) + Verdict(judge, cfg, DecideEach(judge, cfg, order, stats, init).0,
          due[|due| - 1])
  }

  /** A tick without due traces is silent. */
  ghost function TickBroadcasts(judge: Judge, s: ServerState, now: int): seq<ServerMsg> {
    var order, wait := s.store.order, WaitOf(s.cfg);
    var due := DueOf(order, now, wait);
    if due == [] then []
    else Verdicts(judge, s.cfg, MarkReady(order, now, wait), s.stats,
        due) + [StatisticsUpdated(DecideDue(judge, s, now).stats)]
  }

  ghost function PolicyBroadcasts(judge: Judge, s: ServerState, cfg: Config, around: Surroundings): seq<ServerMsg> {
    if !judge.compiles(cfg) then []
    else
      var t := SetPolicy(judge, s, cfg);
      [PolicyUpdated(cfg), StatisticsUpdated(t.stats), SnapshotOf(t, around)]
  }

  /** Updates are sent from the copies taken before eviction. */
  ghost function Broadcasts(judge: Judge, lib: Lib, s: ServerState, e: Event, around: Surroundings): seq<ServerMsg>
    requires Possible(lib, e)
  {
    match e
    case Frame(now, _, m, ids) => Updates(TouchedSeq(s.store.order, now, ids, m))
    case Tick(now) => TickBroadcasts(judge, s, now)
    case NewPolicy(cfg) => PolicyBroadcasts(judge, s, cfg, around)
  }
}
