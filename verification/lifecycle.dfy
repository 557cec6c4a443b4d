/** Clocks, counters and states over whole runs. */
module Lifecycle {
  import opened Wrappers
  import opened Pdata
  import opened Policies
  import opened TraceTypes
  import opened TraceList
  import opened StoreSpec
  import opened Statistics
  import opened ServerSpec
  import opened DecisionRuns

  // ---- the clock of a run ----

  function TimeOf(e: Event): Option<int> {
    match e
    case Frame(now, _, _, _) => Some(now)
    case Tick(now) => Some(now)
    case NewPolicy(_) => None
  }

  /** The time of the latest timed event, or start. */
  function Clock(start: int, es: seq<Event>): int {
    if es == [] then start
    else if TimeOf(es[|es| - 1]).Some? then TimeOf(es[|es| - 1]).value
    else Clock(start, es[..|es| - 1])
  }

  /** Time never goes back. */
  predicate Monotone(start: int, es: seq<Event>) {
    es == [] ||
      (&& Monotone(start, es[..|es| - 1])
       && (TimeOf(es[|es| - 1]).Some? ==> Clock(start, es[..|es| - 1]) <= TimeOf(es[|es| - 1]).value))
  }

  lemma SameTracesSorted(a: seq<Trace>, b: seq<Trace>, clock: int, later: int)
    requires SameTraces(a, b) && SortedBy(a, clock) && clock <= later
    ensures SortedBy(b, later)
  {
    forall t <- b ensures t.lastSeen <= later {
      var i :| 0 <= i < |b| && b[i] == t;
      assert a[i] in a;
    }
  }

  lemma StepShape(judge: Judge, lib: Lib, s: ServerState, e: Event)
    requires Possible(lib, e) && !e.Frame? && Distinct(Ids(s.store.order))
    ensures SameTraces(s.store.order, Step(judge, lib, s, e).store.order)
    ensures var t := Step(judge, lib, s, e);
      t.store.evicted == s.store.evicted && t.spansReceived == s.spansReceived && t.tracesReceived == s.tracesReceived
      && t.store.cfg == s.store.cfg && t.store.totalBytes == s.store.totalBytes
  {
    if e.Tick? {
      DecideDueIs(judge, s, e.now);
    }
  }

  lemma StepSorted(judge: Judge, lib: Lib, s: ServerState, e: Event, clock: int)
    requires Possible(lib, e) && Consistent(s.store) && SortedBy(s.store.order, clock)
    requires TimeOf(e).Some? ==> clock <= TimeOf(e).value
    ensures SortedBy(Step(judge, lib, s, e).store.order, if TimeOf(e).Some? then TimeOf(e).value else clock)
  {
    if e.Frame? {
      EveryRetainedIsYoung(s.store, clock, e.now, e.ids, e.m);
    } else {
      StepShape(judge, lib, s, e);
      SameTracesSorted(s.store.order, Step(judge, lib, s, e).store.order, clock,
          if TimeOf(e).Some? then TimeOf(e).value else clock);
    }
  }

  lemma {:induction false} RunSorted(judge: Judge, lib: Lib, storeCfg: StoreConfig, cfg: Config, start: int,
      es: seq<Event>)
    requires Lawful(judge) && AllPossible(lib, es) && Monotone(start, es)
    ensures SortedBy(Run(judge, lib, InitialState(storeCfg, cfg), es).store.order, Clock(start, es))
  {
    if es != [] {
      var init := es[..|es| - 1];
      RunSorted(judge, lib, storeCfg, cfg, start, init);
      RunKeeps(judge, lib, storeCfg, cfg, init);
      StepSorted(judge, lib, Run(judge, lib, InitialState(storeCfg, cfg), init), es[|es| - 1], Clock(start, init));
    }
  }

  /** In every run whose clock does not go back, a frame leaves all three bounds holding for every trace. */
  lemma RunBounded(judge: Judge, lib: Lib, storeCfg: StoreConfig, cfg: Config, start: int, es: seq<Event>)
    requires Lawful(judge) && AllPossible(lib, es) && Monotone(start, es) && es != [] && es[|es| - 1].Frame?
    ensures var store := Run(judge, lib, InitialState(storeCfg, cfg), es).store;
      && |store.order| <= store.cfg.maxTraces && store.totalBytes <= store.cfg.maxMemory
      && forall i :: 0 <= i < |store.order| ==> es[|es| - 1].now - store.order[i].lastSeen <= store.cfg.maxAge
  {
    var init, e := es[..|es| - 1], es[|es| - 1];
    var s := Run(judge, lib, InitialState(storeCfg, cfg), init);
    RunSorted(judge, lib, storeCfg, cfg, start, init);
    RunKeeps(judge, lib, storeCfg, cfg, init);
    EveryRetainedIsYoung(s.store, Clock(start, init), e.now, e.ids, e.m);
  }

  // ---- when traces were first seen ----

  ghost predicate SeenBy(order: seq<Trace>, clock: int) {
    forall i :: 0 <= i < |order| ==> order[i].firstSeen <= clock
  }

  lemma FrameSeenBy(s: StoreState, now: int, ids: seq<TraceId>, m: SpansByTrace, clock: int)
    requires SeenBy(s.order, clock) && clock <= now && Walks(ids, m)
    ensures SeenBy(Ingest(s, now, ids, m).order, now)
  {
    var order := Ingest(s, now, ids, m).order;
    forall i | 0 <= i < |order| ensures order[i].firstSeen <= now {
      RetainedAfterFrame(s, now, ids, m, order[i]);
      if order[i] in TouchedSeq(s.order, now, ids, m) {
        var j :| 0 <= j < |ids| && TouchedSeq(s.order, now, ids, m)[j] == order[i];
        FindIs(s.order, ids[j]);
      }
    }
  }

  lemma {:induction false} RunSeenBy(judge: Judge, lib: Lib, storeCfg: StoreConfig, cfg: Config, start: int,
      es: seq<Event>)
    requires Lawful(judge) && AllPossible(lib, es) && Monotone(start, es)
    ensures SeenBy(Run(judge, lib, InitialState(storeCfg, cfg), es).store.order, Clock(start, es))
  {
    if es != [] {
      var init, e := es[..|es| - 1], es[|es| - 1];
      var s := Run(judge, lib, InitialState(storeCfg, cfg), init);
      RunSeenBy(judge, lib, storeCfg, cfg, start, init);
      RunKeeps(judge, lib, storeCfg, cfg, init);
      if e.Frame? {
        FrameSeenBy(s.store, e.now, e.ids, e.m, Clock(start, init));
      } else {
        StepShape(judge, lib, s, e);
      }
    }
  }

  // ---- no verdict before decision_wait ----

  predicate Early(t: Trace, wait: int, now: int) {
    t.decision != Pending && now - t.firstSeen < wait
  }

  /** No retained trace shows KEEP or DROP while it is younger than wait. */
  ghost predicate NoEarlyVerdict(order: seq<Trace>, wait: int, now: int) {
    forall i :: 0 <= i < |order| ==> !Early(order[i], wait, now)
  }

  /** Early verdicts only on traces first seen by a given time, if any. */
  ghost predicate EarlyOnlyBy(order: seq<Trace>, wait: int, now: int, since: Option<int>) {
    forall i :: 0 <= i < |order| && Early(order[i], wait, now) ==> since.Some? && order[i].firstSeen <= since.value
  }

  /** Frames and ticks never introduce an early verdict. */
  lemma TimedStepEarly(judge: Judge, lib: Lib, s: ServerState, e: Event, clock: int, since: Option<int>)
    requires Possible(lib, e) && Consistent(s.store) && TimeOf(e).Some? && clock <= TimeOf(e).value
    requires EarlyOnlyBy(s.store.order, WaitOf(s.cfg), clock, since)
    ensures EarlyOnlyBy(Step(judge, lib, s, e).store.order, WaitOf(s.cfg), TimeOf(e).value, since)
  {
    var before, order := s.store.order, Step(judge, lib, s, e).store.order;
    if e.Tick? {
      DecideDueIs(judge, s, e.now);
      forall i | 0 <= i < |order| && Early(order[i], WaitOf(s.cfg), e.now)
        ensures since.Some? && order[i].firstSeen <= since.value
      {
        assert Early(before[i], WaitOf(s.cfg), clock);
      }
    } else {
      forall i | 0 <= i < |order| && Early(order[i], WaitOf(s.cfg), e.now)
        ensures since.Some? && order[i].firstSeen <= since.value
      {
        EarlyBeforeFrame(s, e, clock, order[i]);
      }
    }
  }

  lemma EarlyBeforeFrame(s: ServerState, e: Event, clock: int, t: Trace)
    requires e.Frame? && Walks(e.ids, e.m) && clock <= e.now
    requires t in Ingest(s.store, e.now, e.ids, e.m).order && Early(t, WaitOf(s.cfg), e.now)
    ensures exists i ::
      0 <= i < |s.store.order| && Early(s.store.order[i], WaitOf(s.cfg), clock) &&
        s.store.order[i].firstSeen == t.firstSeen
  {
    var before := s.store.order;
    RetainedAfterFrame(s.store, e.now, e.ids, e.m, t);
    if t in before && t.id !in e.ids {
      var j :| 0 <= j < |before| && before[j] == t;
    } else {
      var j :| 0 <= j < |e.ids| && TouchedSeq(before, e.now, e.ids, e.m)[j] == t;
      FindIs(before, e.ids[j]);
      var k :| 0 <= k < |before| && before[k] == Find(before, e.ids[j]).value;
    }
  }

  /** What the run's clock said when the policy was last replaced. */
  ghost function PolicyTime(judge: Judge, start: int, es: seq<Event>): Option<int> {
    if es == [] then None
    else if es[|es| - 1].NewPolicy? && judge.compiles(es[|es| - 1].cfg) then Some(Clock(start, es[..|es| - 1]))
    else PolicyTime(judge, start, es[..|es| - 1])
  }

  lemma {:induction false} RunEarlyOnlyBy(judge: Judge, lib: Lib, storeCfg: StoreConfig, cfg: Config,
      start: int, es: seq<Event>)
    requires Lawful(judge) && AllPossible(lib, es) && Monotone(start, es)
    ensures var s := Run(judge, lib, InitialState(storeCfg, cfg), es);
      EarlyOnlyBy(s.store.order, WaitOf(s.cfg), Clock(start, es), PolicyTime(judge, start, es))
  {
    if es != [] {
      var init, e := es[..|es| - 1], es[|es| - 1];
      var s := Run(judge, lib, InitialState(storeCfg, cfg), init);
      RunEarlyOnlyBy(judge, lib, storeCfg, cfg, start, init);
      RunKeeps(judge, lib, storeCfg, cfg, init);
      RunSeenBy(judge, lib, storeCfg, cfg, start, init);
      if !e.NewPolicy? {
        TimedStepEarly(judge, lib, s, e, Clock(start, init), PolicyTime(judge, start, init));
      }
    }
  }

  /**
   * Once the wait has elapsed since the policy was last replaced, and in every run without a
   * replacement, no verdict is early.
   */
  lemma RunNoEarlyVerdict(judge: Judge, lib: Lib, storeCfg: StoreConfig, cfg: Config, start: int, es: seq<Event>)
    requires Lawful(judge) && AllPossible(lib, es) && Monotone(start, es)
    requires var replaced := PolicyTime(judge, start, es);
      replaced.Some? ==>
        Clock(start, es) - replaced.value >= WaitOf(Run(judge, lib, InitialState(storeCfg, cfg), es).cfg)
    ensures var s := Run(judge, lib, InitialState(storeCfg, cfg), es);
      NoEarlyVerdict(s.store.order, WaitOf(s.cfg), Clock(start, es))
  {
    RunEarlyOnlyBy(judge, lib, storeCfg, cfg, start, es);
  }

  /**
   * SetPolicy does: it decides every retained trace, whatever its age. It shows no early
   * verdict exactly when each trace younger than the new wait is undecided and fails to evaluate.
   */
  lemma NewPolicyEarlyVerdictExactly(judge: Judge, s: ServerState, cfg: Config, now: int)
    requires judge.compiles(cfg) && Lawful(judge)
    ensures NoEarlyVerdict(SetPolicy(judge, s, cfg).store.order, WaitOf(cfg), now) <==>
      forall i :: 0 <= i < |s.store.order| && now - s.store.order[i].firstSeen < WaitOf(cfg) ==>
        s.store.order[i].decision == Pending && Eval(judge, cfg, s.store.order[i]).None?
  {
    var before, after := s.store.order, SetPolicy(judge, s, cfg).store.order;
    forall i | 0 <= i < |before|
      ensures Early(after[i], WaitOf(cfg), now) <==>
        now - before[i].firstSeen < WaitOf(cfg) && !(before[i].decision == Pending && Eval(judge, cfg, before[i]).None?)
    {
      assert Eval(judge, cfg, before[i]).Some? ==> ResultOf(cfg.policies, Eval(judge, cfg, before[i]).value);
    }
  }

  /** A policy that answers shows no early verdict exactly when no retained trace is younger than its wait. */
  lemma NewPolicyEarlyWhenYoung(judge: Judge, s: ServerState, cfg: Config, now: int)
    requires judge.compiles(cfg) && Lawful(judge) && Answers(judge, cfg)
    ensures NoEarlyVerdict(SetPolicy(judge, s, cfg).store.order, WaitOf(cfg), now) <==>
      forall i :: 0 <= i < |s.store.order| ==> now - s.store.order[i].firstSeen >= WaitOf(cfg)
  {
    NewPolicyEarlyVerdictExactly(judge, s, cfg, now);
    forall i | 0 <= i < |s.store.order| ensures Eval(judge, cfg, s.store.order[i]).Some? {
    }
  }

  // ---- one evaluation per opening ----

  /** The store's operations; ForEachMutate may rewrite any decision but no state. */
  datatype StoreOp =
    | OpIngest(now: int, ids: seq<TraceId>, m: SpansByTrace)
    | OpDue(now: int, wait: int)
    | OpApply(id: TraceId, decision: Decision, matched: seq<string>)
    | OpMutate(decisions: seq<(Decision, seq<string>)>)

  ghost predicate Doable(s: StoreState, op: StoreOp) {
    match op
    case OpIngest(_, ids, m) => Walks(ids, m)
    case OpMutate(ds) => |ds| == |s.order|
    case _ => true
  }

  ghost function Mutated(order: seq<Trace>, ds: seq<(Decision, seq<string>)>): (r: seq<Trace>)
    requires |ds| == |order|
    ensures |r| == |order| && forall i :: 0 <= i < |order| ==>
      r[i] == order[i].(decision := ds[i].0, matched := ds[i].1)
  {
    seq(|order|, i requires 0 <= i < |order| => order[i].(decision := ds[i].0, matched := ds[i].1))
  }

  ghost function Do(s: StoreState, op: StoreOp): StoreState
    requires Doable(s, op)
  {
    match op
    case OpIngest(now, ids, m) => Ingest(s, now, ids, m)
    case OpDue(now, wait) => s.(order := MarkReady(s.order, now, wait))
    case OpApply(id, d, names) => s.(order := ApplyDecision(s.order, id, d, names))
    case OpMutate(ds) => s.(order := Mutated(s.order, ds))
  }

  ghost predicate StateIs(s: StoreState, id: TraceId, state: State) {
    Find(s.order, id).Some? && Find(s.order, id).value.state == state
  }

  lemma {:induction false} FindMapped(a: seq<Trace>, b: seq<Trace>, id: TraceId)
    requires |a| == |b| && forall i :: 0 <= i < |a| ==> a[i].id == b[i].id
    ensures Find(a, id).None? <==> Find(b, id).None?
    ensures Find(a, id).Some? ==>
      exists i :: 0 <= i < |a| && a[i] == Find(a, id).value && b[i] == Find(b, id).value && a[i].id == id
  {
    if a != [] && a[|a| - 1].id != id {
      FindMapped(a[..|a| - 1], b[..|b| - 1], id);
      if Find(a, id).Some? {
        var i :| 0 <= i < |a| - 1 && a[..|a| - 1][i] == Find(a, id).value && b[..|b| - 1][i] == Find(b, id).value &&
          a[..|a| - 1][i].id == id;
        assert a[i] == Find(a, id).value;
      }
    }
  }

  /** While a trace stays retained, each operation moves its state only along the lifecycle. */
  lemma StateMoves(s: StoreState, op: StoreOp, id: TraceId)
    requires Consistent(s) && Doable(s, op) && Find(s.order, id).Some? && Find(Do(s, op).order, id).Some?
    ensures var a, b := Find(s.order, id).value.state, Find(Do(s, op).order, id).value.state;
      && (op.OpIngest? ==> b == if id in op.ids && (a == Decided || a == Expired) then Receiving else a)
      && (op.OpDue? ==> b == a || (a == Receiving && b == Ready))
      && (op.OpApply? ==> b == if op.id == id then Decided else a)
      && (op.OpMutate? ==> b == a)
  {
    match op {
      case OpIngest(now, ids, m) =>
        EvictedOrMerged(s, now, ids, m, id);
      case OpDue(now, wait) => FindMapped(s.order, MarkReady(s.order, now, wait), id);
      case OpApply(i, d, names) => FindMapped(s.order, ApplyDecision(s.order, i, d, names), id);
      case OpMutate(ds) => FindMapped(s.order, Mutated(s.order, ds), id);
    }
  }

  lemma StillAbsent(order: seq<Trace>, now: int, ids: seq<TraceId>, m: SpansByTrace, id: TraceId)
    requires Distinct(ids) && (forall i <- ids :: i in m) && id !in ids
    ensures Find(IngestAll(order, now, ids, m), id) == Find(order, id)
  {
    IngestAllIs(order, now, ids, m);
    var touched := TouchedSeq(order, now, ids, m);
    forall i | 0 <= i < |ids| ensures touched[i].id != id {
      TouchKeepsId(order, now, ids[i], m[ids[i]]);
    }
    PassOver(Without(order, ids), touched, id);
    FindUntouched(order, ids, id);
  }

  lemma EvictedOrMerged(s: StoreState, now: int, ids: seq<TraceId>, m: SpansByTrace, id: TraceId)
    requires Consistent(s) && Walks(ids, m) && Find(Ingest(s, now, ids, m).order, id).Some?
    ensures Find(Ingest(s, now, ids, m).order, id)
         == if id in ids then Some(Touch(Find(s.order, id), now, id, m[id])) else Find(s.order, id)
  {
    var merged, k := Merged(s, now, ids, m), EvictCount(Merged(s, now, ids, m), now);
    EvictIsShortestPrefix(merged, now);
    FoundInSuffix(merged.order, k, id);
    if id in ids {
      FindTouched(s.order, now, ids, m, id);
    } else {
      StillAbsent(s.order, now, ids, m, id);
    }
  }

  lemma FindTouched(order: seq<Trace>, now: int, ids: seq<TraceId>, m: SpansByTrace, id: TraceId)
    requires Distinct(ids) && (forall i <- ids :: i in m) && id in ids
    ensures Find(IngestAll(order, now, ids, m), id) == Some(Touch(Find(order, id), now, id, m[id]))
  {
    IngestAllIs(order, now, ids, m);
    var touched := TouchedSeq(order, now, ids, m);
    FindAppend(Without(order, ids), touched, id);
    FindIs(touched, id);
    var j :| 0 <= j < |ids| && ids[j] == id;
    TouchKeepsId(order, now, id, m[id]);
    assert Ids(touched)[j] == id;
    var i :| 0 <= i < |touched| && touched[i] == Find(touched, id).value;
    TouchKeepsId(order, now, ids[i], m[ids[i]]);
  }

  lemma {:induction false} DueOfIs(order: seq<Trace>, now: int, wait: int)
    ensures forall u ::
      u in DueOf(order, now, wait) <==>
        exists i :: 0 <= i < |order| && IsDue(order[i], now, wait) && u == order[i].(state := Ready)
  {
    if order != [] {
      var init := order[..|order| - 1];
      DueOfIs(init, now, wait);
      forall u
        ensures u in DueOf(order, now, wait) <==>
          exists i :: 0 <= i < |order| && IsDue(order[i], now, wait) && u == order[i].(state := Ready)
      {
        if i :| 0 <= i < |init| && IsDue(init[i], now, wait) && u == init[i].(state := Ready) {
          assert order[i] == init[i];
        }
        if i :| 0 <= i < |order| && IsDue(order[i], now, wait) && u == order[i].(state := Ready) {
          assert i < |init| ==> init[i] == order[i];
        }
      }
    }
  }

  lemma DoConsistent(s: StoreState, op: StoreOp)
    requires Consistent(s) && Doable(s, op)
    ensures Consistent(Do(s, op))
  {
    if op.OpIngest? {
      IngestConsistent(s, op.now, op.ids, op.m);
    } else {
      SameTracesConsistent(s, Do(s, op).order);
    }
  }

  ghost predicate DoableAll(s: StoreState, ops: seq<StoreOp>)
    decreases |ops|, 0
  {
    ops == [] || (DoableAll(s, ops[..|ops| - 1]) && Doable(DoAll(s, ops[..|ops| - 1]), ops[|ops| - 1]))
  }

  ghost function DoAll(s: StoreState, ops: seq<StoreOp>): StoreState
    requires DoableAll(s, ops)
    decreases |ops|, 1
  {
    if ops == [] then s else Do(DoAll(s, ops[..|ops| - 1]), ops[|ops| - 1])
  }

  /** The trace is never evicted along the way. */
  ghost predicate Retained(s: StoreState, ops: seq<StoreOp>, id: TraceId)
    requires DoableAll(s, ops)
  {
    Find(DoAll(s, ops).order, id).Some? && (ops == [] || Retained(s, ops[..|ops| - 1], id))
  }

  predicate Applied(ops: seq<StoreOp>, id: TraceId) {
    exists i :: 0 <= i < |ops| && ops[i].OpApply? && ops[i].id == id
  }

  /** A decision for the trace, and after it spans for the trace. */
  predicate Reopened(ops: seq<StoreOp>, id: TraceId) {
    exists j :: 0 <= j < |ops| && ops[j].OpIngest? && id in ops[j].ids && Applied(ops[..j], id)
  }

  lemma StillReopened(ops: seq<StoreOp>, op: StoreOp, id: TraceId)
    ensures Applied(ops, id) ==> Applied(ops + [op], id)
    ensures Reopened(ops, id) ==> Reopened(ops + [op], id)
    ensures op.OpApply? && op.id == id ==> Applied(ops + [op], id)
    ensures op.OpIngest? && id in op.ids && Applied(ops, id) ==> Reopened(ops + [op], id)
  {
    var all := ops + [op];
    if i :| 0 <= i < |ops| && ops[i].OpApply? && ops[i].id == id {
      assert all[i] == ops[i];
    }
    if j :| 0 <= j < |ops| && ops[j].OpIngest? && id in ops[j].ids && Applied(ops[..j], id) {
      assert all[j] == ops[j] && all[..j] == ops[..j];
    }
    assert all[|ops|] == op && all[..|ops|] == ops;
  }

  lemma {:induction false} ReadyUntilReopened(s: StoreState, ops: seq<StoreOp>, id: TraceId)
    requires Consistent(s) && StateIs(s, id, Ready) && DoableAll(s, ops) && Retained(s, ops, id)
    ensures Consistent(DoAll(s, ops)) && !StateIs(DoAll(s, ops), id, Expired)
    ensures StateIs(DoAll(s, ops), id, Decided) ==> Applied(ops, id)
    ensures StateIs(DoAll(s, ops), id, Receiving) ==> Reopened(ops, id)
  {
    if ops != [] {
      var init, op := ops[..|ops| - 1], ops[|ops| - 1];
      ReadyUntilReopened(s, init, id);
      DoConsistent(DoAll(s, init), op);
      StateMoves(DoAll(s, init), op, id);
      StillReopened(init, op, id);
      assert init + [op] == ops;
    }
  }

  lemma DueAt(order: seq<Trace>, now: int, wait: int, id: TraceId) returns (i: nat)
    requires exists u :: u in DueOf(order, now, wait) && u.id == id
    ensures i < |order| && order[i].id == id && IsDue(order[i], now, wait)
  {
    DueOfIs(order, now, wait);
    var u :| u in DueOf(order, now, wait) && u.id == id;
    i :| 0 <= i < |order| && IsDue(order[i], now, wait) && u == order[i].(state := Ready);
  }

  /**
   * A trace returned by DueForDecision, never evicted since and returned again, was decided in
   * between and received spans after that. The two calls may work with different waits.
   */
  lemma OncePerOpening(s: StoreState, now: int, wait: int, ops: seq<StoreOp>, later: int, newWait: int, id: TraceId)
    requires Consistent(s)
    requires DoableAll(Do(s, OpDue(now, wait)), ops) && Retained(Do(s, OpDue(now, wait)), ops, id)
    requires exists u :: u in DueOf(s.order, now, wait) && u.id == id
    requires exists u :: u in DueOf(DoAll(Do(s, OpDue(now, wait)), ops).order, later, newWait) && u.id == id
    ensures Reopened(ops, id)
  {
    var s1 := Do(s, OpDue(now, wait));
    DoConsistent(s, OpDue(now, wait));
    var i := DueAt(s.order, now, wait, id);
    FindAt(s1.order, i);
    ReadyUntilReopened(s1, ops, id);
    var s2 := DoAll(s1, ops);
    var k := DueAt(s2.order, later, newWait, id);
    FindAt(s2.order, k);
  }
}
