/** When traces are decided, and what frames, ticks and policies make of a record, field by field. */
module Deadlines {
  import opened Pdata
  import opened Policies
  import opened TraceTypes
  import opened TraceList
  import opened StoreSpec
  import opened ServerSpec
  import opened DecisionRuns
  import opened Lifecycle

  /** decision_wait, or 30 seconds where none is configured. */
  function Wait(cfg: Config): int {
    if cfg.decisionWait > 0 then cfg.decisionWait else 30 * 1_000_000_000
  }

  /**
   * What a tick makes of a trace: one still RECEIVING whose first span came at least wait ago is
   * judged, and any other is left alone.
   */
  ghost predicate AfterTick(judge: Judge, cfg: Config, now: int, t: Trace, u: Trace) {
    if t.state == Receiving && now - t.firstSeen >= Wait(cfg) then
      match judge.eval(cfg, t.id, t.spans)
      case None => u == t.(state := Ready)
      case Some(r) => u == t.(state := Decided, decision := r.decision, matched := MatchedNames(r.policies))
    else u == t
  }

  lemma TickIs(judge: Judge, lib: Lib, s: ServerState, now: int)
    requires Consistent(s.store)
    ensures var before, after := s.store.order, Step(judge, lib, s, Tick(now)).store.order;
      |after| == |before| && forall i :: 0 <= i < |before| ==> AfterTick(judge, s.cfg, now, before[i], after[i])
  {
    DecideDueIs(judge, s, now);
  }

  /**
   * In every run, a trace that is RECEIVING before a tick leaves that state if and only if
   * decision_wait has passed since its first span, whenever the last one came. It is then DECIDED if
   * it evaluates. So after a tick no retained trace is still RECEIVING that long after its first span.
   */
  lemma DecidedOnTime(judge: Judge, lib: Lib, storeCfg: StoreConfig, cfg: Config, es: seq<Event>, now: int)
    requires Lawful(judge) && AllPossible(lib, es) && AllPossible(lib, es + [Tick(now)])
    ensures var start := InitialState(storeCfg, cfg);
      var s, t := Run(judge, lib, start, es), Run(judge, lib, start, es + [Tick(now)]);
      && |t.store.order| == |s.store.order|
      && (forall i :: 0 <= i < |s.store.order| && s.store.order[i].state == Receiving ==>
            (t.store.order[i].state != Receiving <==> now - s.store.order[i].firstSeen >= Wait(s.cfg)))
      && (forall i :: 0 <= i < |s.store.order| && t.store.order[i].state != s.store.order[i].state ==>
            (t.store.order[i].state == Decided <==>
              judge.eval(s.cfg, s.store.order[i].id, s.store.order[i].spans).Some?))
      && (forall u <- t.store.order :: u.state == Receiving ==> now - u.firstSeen < Wait(t.cfg))
  {
    var s := Run(judge, lib, InitialState(storeCfg, cfg), es);
    assert (es + [Tick(now)])[..|es|] == es;
    RunKeeps(judge, lib, storeCfg, cfg, es);
    TickIs(judge, lib, s, now);
    DecideDueIs(judge, s, now);
    forall i | 0 <= i < |s.store.order| ensures
      AfterTick(judge, s.cfg, now, s.store.order[i], Step(judge, lib, s, Tick(now)).store.order[i])
    {
    }
  }

  /**
   * Spans that come for a retained trace are put behind those it has. Its verdict and the time it was
   * first seen stay, and if it was decided it is open for a new decision. Without a record it starts anew.
   */
  lemma LateSpansReopen(s: StoreState, now: int, ids: seq<TraceId>, m: SpansByTrace, id: TraceId)
    requires Consistent(s) && Walks(ids, m) && id in ids && Find(Ingest(s, now, ids, m).order, id).Some?
    ensures var u := Find(Ingest(s, now, ids, m).order, id).value;
      && u.id == id && u.lastSeen == now
      && match Find(s.order, id)
         case None =>
           && u.spans == m[id] && u.firstSeen == now
           && u.state == Receiving && u.decision == Pending && u.matched == []
         case Some(t) =>
           && u.spans == t.spans + m[id] && u.firstSeen == t.firstSeen
           && u.state == (if t.state == Decided || t.state == Expired then Receiving else t.state)
           && u.decision == t.decision && u.matched == t.matched
  {
    EvictedOrMerged(s, now, ids, m, id);
    FindIs(s.order, id);
  }

  /**
   * A policy that compiles gives every retained trace that evaluates its own verdict, whatever the
   * trace's state, and leaves all else of it alone. One that does not compile changes nothing.
   */
  lemma NewPolicyOnEach(judge: Judge, lib: Lib, s: ServerState, cfg: Config)
    ensures var t := Step(judge, lib, s, NewPolicy(cfg));
      && (!judge.compiles(cfg) ==> t == s)
      && (judge.compiles(cfg) ==>
            && t.cfg == cfg && |t.store.order| == |s.store.order|
            && t.store.totalBytes == s.store.totalBytes && t.store.evicted == s.store.evicted
            && forall i :: 0 <= i < |s.store.order| ==>
                 var before := s.store.order[i];
                 t.store.order[i] ==
                   match judge.eval(cfg, before.id, before.spans)
                   case None => before
                   case Some(r) => before.(decision := r.decision, matched := MatchedNames(r.policies)))
  {
  }

  // ---- engines that answer ----

  ghost predicate ReceivingOrDecided(order: seq<Trace>) {
    forall i :: 0 <= i < |order| ==> order[i].state in {Receiving, Decided}
  }

  ghost predicate OnlyAnswering(judge: Judge, es: seq<Event>) {
    forall i :: 0 <= i < |es| ==> (es[i].NewPolicy? && judge.compiles(es[i].cfg) ==> Answers(judge, es[i].cfg))
  }

  lemma FrameOpen(s: StoreState, now: int, ids: seq<TraceId>, m: SpansByTrace)
    requires Consistent(s) && ReceivingOrDecided(s.order) && Walks(ids, m)
    ensures ReceivingOrDecided(Ingest(s, now, ids, m).order)
  {
    var order := Ingest(s, now, ids, m).order;
    forall i | 0 <= i < |order| ensures order[i].state in {Receiving, Decided} {
      RetainedAfterFrame(s, now, ids, m, order[i]);
      if order[i] in TouchedSeq(s.order, now, ids, m) {
        var j :| 0 <= j < |ids| && TouchedSeq(s.order, now, ids, m)[j] == order[i];
        FindIs(s.order, ids[j]);
      }
    }
  }

  lemma {:induction false} RunOpen(judge: Judge, lib: Lib, storeCfg: StoreConfig, cfg: Config, es: seq<Event>)
    requires Lawful(judge) && AllPossible(lib, es) && Answers(judge, cfg) && OnlyAnswering(judge, es)
    ensures var s := Run(judge, lib, InitialState(storeCfg, cfg), es);
      ReceivingOrDecided(s.store.order) && Answers(judge, s.cfg)
  {
    if es != [] {
      var init, e := es[..|es| - 1], es[|es| - 1];
      var s := Run(judge, lib, InitialState(storeCfg, cfg), init);
      RunOpen(judge, lib, storeCfg, cfg, init);
      RunKeeps(judge, lib, storeCfg, cfg, init);
      if e.Frame? {
        FrameOpen(s.store, e.now, e.ids, e.m);
      } else if e.Tick? {
        DecideDueIs(judge, s, e.now);
      }
    }
  }

  /** With policies that evaluate every trace, after a tick every retained trace older than decision_wait is DECIDED. */
  lemma AllOldAreDecided(judge: Judge, lib: Lib, storeCfg: StoreConfig, cfg: Config, es: seq<Event>, now: int)
    requires Lawful(judge) && AllPossible(lib, es) && AllPossible(lib, es + [Tick(now)])
    requires Answers(judge, cfg) && OnlyAnswering(judge, es)
    ensures var t := Run(judge, lib, InitialState(storeCfg, cfg), es + [Tick(now)]);
      forall u <- t.store.order :: now - u.firstSeen >= Wait(t.cfg) ==> u.state == Decided
  {
    RunOpen(judge, lib, storeCfg, cfg, es);
    forall i | 0 <= i < |es + [Tick(now)]|
      ensures (es + [Tick(now)])[i].NewPolicy? && judge.compiles((es + [Tick(now)])[i].cfg) ==>
        Answers(judge, (es + [Tick(now)])[i].cfg)
    {
      assert i < |es| ==> (es + [Tick(now)])[i] == es[i];
    }
    RunOpen(judge, lib, storeCfg, cfg, es + [Tick(now)]);
    DecidedOnTime(judge, lib, storeCfg, cfg, es, now);
  }
}
