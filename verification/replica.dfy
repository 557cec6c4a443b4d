/**
 * How a browser's copy compares with the server's store, step after step, when each step's messages
 * are sent before the next step: always in step, and when exact.
 */
module Replica {
  import opened Wrappers
  import opened Pdata
  import opened Policies
  import opened TraceTypes
  import opened TraceList
  import opened StoreSpec
  import opened Statistics
  import opened ServerSpec
  import opened DecisionRuns
  import opened Lifecycle
  import opened Messages

  // ---- the replica invariant ----

  /** c shows t: its summary, or while t is READY that of the RECEIVING trace it was. */
  ghost predicate ShowsTrace(c: AppState, t: Trace) {
    && t.id in c.traces
    && (c.traces[t.id] == Summary(t) || (t.state.Ready? && c.traces[t.id] == Summary(t.(state := Receiving))))
  }

  ghost predicate Shows(c: AppState, order: seq<Trace>) {
    forall i :: 0 <= i < |order| ==> ShowsTrace(c, order[i])
  }

  ghost predicate InStep(c: AppState, s: ServerState) {
    Shows(c, s.store.order) && c.policy == Some(s.cfg) && c.statistics == Some(s.stats)
  }

  // ---- snapshots ----

  lemma {:induction false} ByTraceIdHas(order: seq<Trace>, i: nat)
    requires i < |order| && Distinct(Ids(order))
    ensures order[i].id in ByTraceId(Summaries(order)) && ByTraceId(Summaries(order))[order[i].id] == Summary(order[i])
  {
    var n := |order| - 1;
    assert Summaries(order)[..|Summaries(order[..n])|] == Summaries(order[..n]);
    if i < n {
      DistinctInit(order);
      ByTraceIdHas(order[..n], i);
      TwoIds(order, i, n);
    }
  }

  lemma SnapshotShows(c: AppState, s: ServerState, around: Surroundings)
    requires Distinct(Ids(s.store.order))
    ensures InStep(AfterMsg(c, SnapshotOf(s, around)), s)
  {
    forall i | 0 <= i < |s.store.order| ensures ShowsTrace(AfterMsg(c, SnapshotOf(s, around)), s.store.order[i]) {
      ByTraceIdHas(s.store.order, i);
    }
  }

  // ---- frames ----

  /** After the updates the touched traces are shown as sent and the others as before. */
  lemma {:induction false} UpdatesLand(c: AppState, touched: seq<Trace>, id: TraceId)
    requires Distinct(Ids(touched))
    ensures var d := AfterAll(c, Updates(touched));
      && d == c.(traces := d.traces)
      && (match Find(touched, id)
          case None => (id in d.traces <==> id in c.traces) && (id in c.traces ==> d.traces[id] == c.traces[id])
          case Some(t) => id in d.traces && d.traces[id] == Summary(t))
  {
    if touched != [] {
      var n := |touched| - 1;
      DistinctInit(touched);
      UpdatesLand(c, touched[..n], id);
      assert Updates(touched)[..|Updates(touched[..n])|] == Updates(touched[..n]);
    }
  }

  lemma FrameInStep(c: AppState, s: ServerState, now: int, ids: seq<TraceId>, m: SpansByTrace)
    requires Walks(ids, m) && InStep(c, s)
    ensures InStep(AfterAll(c, Updates(TouchedSeq(s.store.order, now, ids, m))), HandleFrame(s, now, ids, m))
  {
    var touched := TouchedSeq(s.store.order, now, ids, m);
    var d, order := AfterAll(c, Updates(touched)), HandleFrame(s, now, ids, m).store.order;
    TouchedIds(s.store.order, now, ids, m);
    UpdatesLand(c, touched, 0);
    forall i | 0 <= i < |order| ensures ShowsTrace(d, order[i]) {
      RetainedAfterFrame(s.store, now, ids, m, order[i]);
      RetainedShown(c, s.store.order, touched, order[i]);
    }
  }

  lemma RetainedShown(c: AppState, order: seq<Trace>, touched: seq<Trace>, t: Trace)
    requires Shows(c, order) && Distinct(Ids(touched))
    requires (t in order && t.id !in Ids(touched)) || t in touched
    ensures ShowsTrace(AfterAll(c, Updates(touched)), t)
  {
    UpdatesLand(c, touched, t.id);
    if t in touched {
      var j :| 0 <= j < |touched| && touched[j] == t;
      FindAt(touched, j);
    } else {
      FindIs(touched, t.id);
      var j :| 0 <= j < |order| && order[j] == t;
      assert ShowsTrace(c, order[j]);
    }
  }

  // ---- ticks ----

  lemma VerdictShown(judge: Judge, cfg: Config, c: AppState, o: seq<Trace>, st: Stats, t: Trace)
    requires Shows(c, o)
    ensures var d := AfterAll(c, Verdict(judge, cfg, o, t));
      Shows(d, DecideOne(judge, cfg, o, st, t).0) && d == c.(traces := d.traces)
  {
    if Eval(judge, cfg, t).Some? && Find(o, t.id).Some? {
      var r := Eval(judge, cfg, t).value;
      var msg := TraceDecided(t.id, r.decision, MatchedNames(r.policies));
      AfterOne(c, msg);
      assert DecideOne(judge, cfg, o, st, t).0 == ApplyDecision(o, t.id, r.decision, MatchedNames(r.policies));
      forall i | 0 <= i < |o| ensures ShowsTrace(AfterMsg(c, msg), DecideOne(judge, cfg, o, st, t).0[i]) {
        assert ShowsTrace(c, o[i]);
        DecisionShown(c, o[i], t.id, r.decision, MatchedNames(r.policies));
      }
    }
  }

  lemma DecisionShown(c: AppState, u: Trace, id: TraceId, decision: Decision, matched: seq<string>)
    requires ShowsTrace(c, u)
    ensures ShowsTrace(AfterMsg(c, TraceDecided(id, decision, matched)),
        if u.id == id then Decide(u, decision, matched) else u)
  {
  }

  lemma {:induction false} VerdictsShown(judge: Judge, cfg: Config, c: AppState, order: seq<Trace>,
      stats: Stats, due: seq<Trace>)
    requires Shows(c, order)
    ensures var d := AfterAll(c, Verdicts(judge, cfg, order, stats, due));
      Shows(d, DecideEach(judge, cfg, order, stats, due).0) && d == c.(traces := d.traces)
  {
    if due != [] {
      var init, t := due[..|due| - 1], due[|due| - 1];
      VerdictsShown(judge, cfg, c, order, stats, init);
      var sent := Verdicts(judge, cfg, order, stats, init);
      var (o, st) := DecideEach(judge, cfg, order, stats, init);
      AfterAllAppend(c, sent, Verdict(judge, cfg, o, t));
      VerdictShown(judge, cfg, AfterAll(c, sent), o, st, t);
    }
  }

  lemma ReadyShown(c: AppState, order: seq<Trace>, now: int, wait: int)
    requires Shows(c, order)
    ensures Shows(c, MarkReady(order, now, wait))
  {
    forall i | 0 <= i < |order| ensures ShowsTrace(c, MarkReady(order, now, wait)[i]) {
      assert ShowsTrace(c, order[i]);
    }
  }

  lemma {:induction false} NoneDue(order: seq<Trace>, now: int, wait: int)
    requires DueOf(order, now, wait) == []
    ensures MarkReady(order, now, wait) == order
  {
    if order != [] {
      NoneDue(order[..|order| - 1], now, wait);
      assert MarkReady(order, now, wait)[..|order| - 1] == MarkReady(order[..|order| - 1], now, wait);
    }
  }

  lemma TickInStep(judge: Judge, c: AppState, s: ServerState, now: int)
    requires InStep(c, s)
    ensures InStep(AfterAll(c, TickBroadcasts(judge, s, now)), DecideDue(judge, s, now))
  {
    var order, wait := s.store.order, WaitOf(s.cfg);
    var due := DueOf(order, now, wait);
    if due == [] {
      NoneDue(order, now, wait);
    } else {
      ReadyShown(c, order, now, wait);
      VerdictsShown(judge, s.cfg, c, MarkReady(order, now, wait), s.stats, due);
      StatisticsLast(c, Verdicts(judge, s.cfg, MarkReady(order, now, wait), s.stats, due), DecideDue(judge, s, now));
    }
  }

  lemma StatisticsLast(c: AppState, sent: seq<ServerMsg>, s: ServerState)
    requires Shows(AfterAll(c, sent), s.store.order) && AfterAll(c, sent).policy == Some(s.cfg)
    ensures InStep(AfterAll(c, sent + [StatisticsUpdated(s.stats)]), s)
  {
    assert (sent + [StatisticsUpdated(s.stats)])[..|sent|] == sent;
    SameTracesShown(AfterAll(c, sent), AfterAll(c, sent + [StatisticsUpdated(s.stats)]), s.store.order);
  }

  lemma SameTracesShown(c: AppState, d: AppState, order: seq<Trace>)
    requires Shows(c, order) && d.traces == c.traces
    ensures Shows(d, order)
  {
    forall i | 0 <= i < |order| ensures ShowsTrace(d, order[i]) {
      assert ShowsTrace(c, order[i]);
    }
  }

  // ---- runs ----

  /** Messages about anything but traces, policy and statistics. */
  predicate Aside(msg: ServerMsg) {
    msg.SessionState? || msg.CollectorConnected? || msg.CollectorDisconnected? || msg.ErrorMsg?
  }

  /** A step of the server with its broadcasts, or another message in between. */
  datatype Activity =
    | Serves(e: Event, around: Surroundings)
    | Tells(msg: ServerMsg)

  ghost predicate Able(lib: Lib, a: Activity) {
    match a
    case Serves(e, _) => Possible(lib, e)
    case Tells(msg) => Aside(msg)
  }

  ghost predicate AllAble(lib: Lib, acts: seq<Activity>) {
    forall i :: 0 <= i < |acts| ==> Able(lib, acts[i])
  }

  ghost function After(judge: Judge, lib: Lib, s: ServerState, acts: seq<Activity>): ServerState
    requires AllAble(lib, acts)
  {
    if acts == [] then s
    else
      var t := After(judge, lib, s, acts[..|acts| - 1]);
      if acts[|acts| - 1].Serves? then Step(judge, lib, t, acts[|acts| - 1].e) else t
  }

  ghost function Sent(judge: Judge, lib: Lib, s: ServerState, a: Activity): seq<ServerMsg>
    requires Able(lib, a)
  {
    match a
    case Serves(e, around) => Broadcasts(judge, lib, s, e, around)
    case Tells(msg) => [msg]
  }

  /** Everything sent, in order. */
  ghost function AllSent(judge: Judge, lib: Lib, s: ServerState, acts: seq<Activity>): seq<ServerMsg>
    requires AllAble(lib, acts)
  {
    if acts == [] then []
    else AllSent(judge, lib, s, acts[..|acts| - 1]) + Sent(judge, lib, After(judge, lib, s, acts[..|acts| - 1]),
        acts[|acts| - 1])
  }

  lemma StepInStep(judge: Judge, lib: Lib, c: AppState, s: ServerState, a: Activity)
    requires Able(lib, a) && InStep(c, s) && Consistent(s.store)
    ensures InStep(AfterAll(c, Sent(judge, lib, s, a)), if a.Serves? then Step(judge, lib, s, a.e) else s)
  {
    if a.Tells? {
      AfterOne(c, a.msg);
      SameTracesShown(c, AfterMsg(c, a.msg), s.store.order);
    } else if a.e.Frame? {
      FrameInStep(c, s, a.e.now, a.e.ids, a.e.m);
    } else if a.e.Tick? {
      TickInStep(judge, c, s, a.e.now);
    } else if judge.compiles(a.e.cfg) {
      PolicyInStep(judge, c, s, a.e.cfg, a.around);
    }
  }

  lemma PolicyInStep(judge: Judge, c: AppState, s: ServerState, cfg: Config, around: Surroundings)
    requires judge.compiles(cfg) && Consistent(s.store)
    ensures InStep(AfterAll(c, PolicyBroadcasts(judge, s, cfg, around)), SetPolicy(judge, s, cfg))
  {
    var t, msgs := SetPolicy(judge, s, cfg), PolicyBroadcasts(judge, s, cfg, around);
    assert SameTraces(s.store.order, t.store.order);
    SameTracesSum(s.store.order, t.store.order);
    SnapshotShows(AfterAll(c, msgs[..2]), t, around);
  }

  lemma ActivityConsistent(judge: Judge, lib: Lib, s: ServerState, a: Activity)
    requires Able(lib, a) && Consistent(s.store)
    ensures Consistent((if a.Serves? then Step(judge, lib, s, a.e) else s).store)
  {
    if a.Serves? {
      if a.e.Frame? {
        IngestConsistent(s.store, a.e.now, a.e.ids, a.e.m);
      } else {
        StepShape(judge, lib, s, a.e);
        SameTracesConsistent(s.store, Step(judge, lib, s, a.e).store.order);
      }
    }
  }

  /**
   * A browser that joins at any consistent state of the server and receives everything sent from
   * then on, in order, shows every retained trace, the policy and the statistics, evaluation
   * errors or not.
   */
  lemma {:induction false} ReplicaFollows(judge: Judge, lib: Lib, s: ServerState, c: AppState,
      around: Surroundings, acts: seq<Activity>)
    requires Consistent(s.store) && AllAble(lib, acts)
    ensures InStep(AfterAll(c, [SnapshotOf(s, around)] + AllSent(judge, lib, s, acts)), After(judge, lib, s, acts))
    ensures Consistent(After(judge, lib, s, acts).store)
  {
    var joined := AfterMsg(c, SnapshotOf(s, around));
    AfterOne(c, SnapshotOf(s, around));
    AfterAllAppend(c, [SnapshotOf(s, around)], AllSent(judge, lib, s, acts));
    if acts == [] {
      SnapshotShows(c, s, around);
    } else {
      var init, a := acts[..|acts| - 1], acts[|acts| - 1];
      var t := After(judge, lib, s, init);
      ReplicaFollows(judge, lib, s, c, around, init);
      AfterAllAppend(c, [SnapshotOf(s, around)], AllSent(judge, lib, s, init));
      AfterAllAppend(joined, AllSent(judge, lib, s, init), Sent(judge, lib, t, a));
      StepInStep(judge, lib, AfterAll(joined, AllSent(judge, lib, s, init)), t, a);
      ActivityConsistent(judge, lib, t, a);
    }
  }

  // ---- when the copy is exact ----

  ghost predicate Exact(c: AppState, s: ServerState) {
    && (forall i :: 0 <= i < |s.store.order| ==>
          s.store.order[i].id in c.traces && c.traces[s.store.order[i].id] == Summary(s.store.order[i]))
    && c.policy == Some(s.cfg) && c.statistics == Some(s.stats)
  }

  /** Every policy installed along the way evaluates every trace without error. */
  ghost predicate ErrorFree(judge: Judge, acts: seq<Activity>) {
    forall i :: 0 <= i < |acts| ==> Harmless(judge, acts[i])
  }

  ghost predicate Harmless(judge: Judge, a: Activity) {
    a.Serves? && a.e.NewPolicy? && judge.compiles(a.e.cfg) ==> Answers(judge, a.e.cfg)
  }

  ghost predicate NoneReady(order: seq<Trace>) {
    forall i :: 0 <= i < |order| ==> !order[i].state.Ready?
  }

  lemma FrameNoneReady(s: ServerState, now: int, ids: seq<TraceId>, m: SpansByTrace)
    requires NoneReady(s.store.order) && Walks(ids, m)
    ensures NoneReady(HandleFrame(s, now, ids, m).store.order)
  {
    var order := HandleFrame(s, now, ids, m).store.order;
    forall i | 0 <= i < |order| ensures !order[i].state.Ready? {
      RetainedAfterFrame(s.store, now, ids, m, order[i]);
      if order[i] in TouchedSeq(s.store.order, now, ids, m) {
        var j :| 0 <= j < |ids| && TouchedSeq(s.store.order, now, ids, m)[j] == order[i];
        FindIs(s.store.order, ids[j]);
      }
    }
  }

  lemma ActivityNoneReady(judge: Judge, lib: Lib, s: ServerState, a: Activity)
    requires Able(lib, a) && Consistent(s.store) && NoneReady(s.store.order)
    requires Answers(judge, s.cfg) && Harmless(judge, a)
    ensures var t := if a.Serves? then Step(judge, lib, s, a.e) else s;
      NoneReady(t.store.order) && Answers(judge, t.cfg)
  {
    if a.Serves? && a.e.Frame? {
      FrameNoneReady(s, a.e.now, a.e.ids, a.e.m);
    } else if a.Serves? && a.e.Tick? {
      DecideDueIs(judge, s, a.e.now);
    }
  }

  lemma {:induction false} NeverReady(judge: Judge, lib: Lib, storeCfg: StoreConfig, cfg: Config, acts: seq<Activity>)
    requires AllAble(lib, acts) && Answers(judge, cfg) && ErrorFree(judge, acts)
    ensures var s := After(judge, lib, InitialState(storeCfg, cfg), acts);
      NoneReady(s.store.order) && Answers(judge, s.cfg) && Consistent(s.store)
  {
    if acts != [] {
      var init, a := acts[..|acts| - 1], acts[|acts| - 1];
      NeverReady(judge, lib, storeCfg, cfg, init);
      var s := After(judge, lib, InitialState(storeCfg, cfg), init);
      ActivityConsistent(judge, lib, s, a);
      ActivityNoneReady(judge, lib, s, a);
    }
  }

  lemma {:induction false} AfterAppend(judge: Judge, lib: Lib, s: ServerState, a: seq<Activity>, b: seq<Activity>)
    requires AllAble(lib, a) && AllAble(lib, b) && AllAble(lib, a + b)
    ensures After(judge, lib, s, a + b) == After(judge, lib, After(judge, lib, s, a), b)
  {
    if b == [] {
      assert a + b == a;
    } else {
      assert (a + b)[..|a + b| - 1] == a + b[..|b| - 1];
      AfterAppend(judge, lib, s, a, b[..|b| - 1]);
    }
  }

  /**
   * Without evaluation errors the copy is exact: a browser that joins after `before` shows, after
   * `later`, every retained trace as it is, the active policy and the statistics.
   */
  lemma ReplicaIsExact(judge: Judge, lib: Lib, storeCfg: StoreConfig, cfg: Config, c: AppState, around: Surroundings,
                       before: seq<Activity>, later: seq<Activity>)
    requires AllAble(lib, before) && AllAble(lib, later)
    requires Answers(judge, cfg) && ErrorFree(judge, before) && ErrorFree(judge, later)
    ensures var s := After(judge, lib, InitialState(storeCfg, cfg), before);
      Exact(AfterAll(c, [SnapshotOf(s, around)] + AllSent(judge, lib, s, later)), After(judge, lib, s, later))
  {
    var s := After(judge, lib, InitialState(storeCfg, cfg), before);
    NeverReady(judge, lib, storeCfg, cfg, before);
    ReplicaFollows(judge, lib, s, c, around, later);
    AfterAppend(judge, lib, InitialState(storeCfg, cfg), before, later);
    NeverReady(judge, lib, storeCfg, cfg, before + later);
    ExactUnlessReady(AfterAll(c, [SnapshotOf(s, around)] + AllSent(judge, lib, s, later)), After(judge, lib, s, later));
  }

  lemma ExactUnlessReady(c: AppState, s: ServerState)
    requires InStep(c, s) && NoneReady(s.store.order)
    ensures Exact(c, s)
  {
    forall i | 0 <= i < |s.store.order|
      ensures s.store.order[i].id in c.traces && c.traces[s.store.order[i].id] == Summary(s.store.order[i])
    {
      assert ShowsTrace(c, s.store.order[i]);
    }
  }

  lemma {:induction false} VerdictsSpare(judge: Judge, cfg: Config, c: AppState, order: seq<Trace>,
      stats: Stats, due: seq<Trace>, id: TraceId)
    requires id in c.traces && forall t <- due :: t.id == id ==> Eval(judge, cfg, t).None?
    ensures var d := AfterAll(c, Verdicts(judge, cfg, order, stats, due));
      id in d.traces && d.traces[id] == c.traces[id]
  {
    if due != [] {
      var init, t := due[..|due| - 1], due[|due| - 1];
      VerdictsSpare(judge, cfg, c, order, stats, init, id);
      var sent, o := Verdicts(judge, cfg, order, stats, init), DecideEach(judge, cfg, order, stats, init).0;
      AfterAllAppend(c, sent, Verdict(judge, cfg, o, t));
      VerdictSpares(judge, cfg, AfterAll(c, sent), o, t, id);
    }
  }

  lemma VerdictSpares(judge: Judge, cfg: Config, c: AppState, o: seq<Trace>, t: Trace, id: TraceId)
    requires id in c.traces && (t.id == id ==> Eval(judge, cfg, t).None?)
    ensures var d := AfterAll(c, Verdict(judge, cfg, o, t));
      id in d.traces && d.traces[id] == c.traces[id]
  {
    if Verdict(judge, cfg, o, t) != [] {
      AfterOne(c, Verdict(judge, cfg, o, t)[0]);
    }
  }

  /** A tick sends nothing about a trace that is not due or fails to evaluate. */
  lemma TickSpares(judge: Judge, c: AppState, s: ServerState, now: int, i: nat)
    requires i < |s.store.order| && Distinct(Ids(s.store.order)) && s.store.order[i].id in c.traces
    requires IsDue(s.store.order[i], now, WaitOf(s.cfg)) ==> Eval(judge, s.cfg, s.store.order[i]).None?
    ensures var d, id := AfterAll(c, TickBroadcasts(judge, s, now)), s.store.order[i].id;
      id in d.traces && d.traces[id] == c.traces[id]
  {
    var order, wait, id := s.store.order, WaitOf(s.cfg), s.store.order[i].id;
    var due := DueOf(order, now, wait);
    if due != [] {
      forall u | u in due && u.id == id ensures Eval(judge, s.cfg, u).None? {
        DueIsUnique(order, now, wait, i, u);
      }
      VerdictsSpare(judge, s.cfg, c, MarkReady(order, now, wait), s.stats, due, id);
      var sent, last := Verdicts(judge, s.cfg, MarkReady(order, now, wait), s.stats,
          due), StatisticsUpdated(DecideDue(judge, s, now).stats);
      assert (sent + [last])[..|sent|] == sent;
    }
  }

  lemma DueIsUnique(order: seq<Trace>, now: int, wait: int, i: nat, u: Trace)
    requires i < |order| && Distinct(Ids(order)) && u in DueOf(order, now, wait) && u.id == order[i].id
    ensures IsDue(order[i], now, wait) && u == order[i].(state := Ready)
  {
    DueOfIs(order, now, wait);
    var j :| 0 <= j < |order| && IsDue(order[j], now, wait) && u == order[j].(state := Ready);
    if j != i {
      TwoIds(order, i, j);
    }
  }

  /**
   * A tick leaves a browser that showed a trace exactly behind if and only if that trace was due and
   * failed to evaluate.
   */
  lemma TickLeavesBehindExactly(judge: Judge, c: AppState, s: ServerState, now: int, i: nat)
    requires InStep(c, s) && Consistent(s.store) && i < |s.store.order|
    requires c.traces[s.store.order[i].id] == Summary(s.store.order[i])
    ensures var d, t := AfterAll(c, TickBroadcasts(judge, s, now)), s.store.order[i];
      && t.id in d.traces
      && (d.traces[t.id] != Summary(AfterDecide(judge, s.cfg, now, t)) <==>
            IsDue(t, now, WaitOf(s.cfg)) && Eval(judge, s.cfg, t).None?)
  {
    var d, t, order, wait := AfterAll(c, TickBroadcasts(judge, s, now)), s.store.order[i], s.store.order, WaitOf(s.cfg);
    TickInStep(judge, c, s, now);
    DecideDueIs(judge, s, now);
    assert ShowsTrace(d, DecideDue(judge, s, now).store.order[i]);
    if t.state.Ready? || (IsDue(t, now, wait) && Eval(judge, s.cfg, t).None?) {
      TickSpares(judge, c, s, now, i);
    }
  }
}
