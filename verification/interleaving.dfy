/** The server's steps lock by lock, and what still holds of decisions. */
module Interleaving {
  import opened Wrappers
  import opened Pdata
  import opened Policies
  import opened TraceTypes
  import opened TraceList
  import opened StoreSpec
  import opened Statistics
  import opened ServerSpec
  import opened DecisionRuns
  import opened Lifecycle

  /** A copy DueForDecision returned, with the birth of the record it was made of. */
  datatype Copy = Copy(trace: Trace, birth: nat)

  datatype Decider =
    | Idle
    | Holding(cfg: Config)
    | Deciding(cfg: Config, todo: seq<Copy>)

  /**
   * births counts how often each id was created; installed remembers every policy; rewriting
   * holds the SetPolicy calls that have installed their policy but not yet gone over the store;
   * mistaken holds the ids whose record last took the result of an earlier record's copy.
   */
  datatype Machine = Machine(
    store: StoreState, policy: Config, decider: Decider, rewriting: multiset<Config>,
    installed: set<Config>, births: map<TraceId, nat>, mistaken: set<TraceId>)

  datatype Action =
    | Ingests(now: int, ids: seq<TraceId>, m: SpansByTrace)
    | ReadsEvaluator
    | TakesDue(now: int)
    | Applies
    | Installs(cfg: Config)
    | Rewrites(cfg: Config)

  function Birth(births: map<TraceId, nat>, id: TraceId): nat {
    if id in births then births[id] else 0
  }

  ghost predicate Enabled(judge: Judge, s: Machine, a: Action) {
    match a
    case Ingests(_, ids, m) => Walks(ids, m)
    case ReadsEvaluator => s.decider.Idle? || (s.decider.Deciding? && s.decider.todo == [])
    case TakesDue(_) => s.decider.Holding?
    case Applies => s.decider.Deciding? && s.decider.todo != []
    case Installs(cfg) => judge.compiles(cfg)
    case Rewrites(cfg) => cfg in s.rewriting
  }

  /** Every id this frame creates is born once more. */
  ghost function Reborn(births: map<TraceId, nat>, order: seq<Trace>, ids: seq<TraceId>): map<TraceId, nat> {
    map id | id in births.Keys + (set i <- ids) ::
      if id in ids && Find(order, id).None? then Birth(births, id) + 1 else Birth(births, id)
  }

  function Copies(due: seq<Trace>, births: map<TraceId, nat>): (r: seq<Copy>)
    ensures |r| == |due| && forall i :: 0 <= i < |due| ==> r[i] == Copy(due[i], Birth(births, due[i].id))
  {
    seq(|due|, i requires 0 <= i < |due| => Copy(due[i], Birth(births, due[i].id)))
  }

  /** The first copy is evaluated with the evaluator in hand and its result applied to whatever has its id now. */
  ghost function ApplyNext(judge: Judge, s: Machine): Machine
    requires s.decider.Deciding? && s.decider.todo != []
  {
    var u, cfg := s.decider.todo[0], s.decider.cfg;
    var t := s.(decider := Deciding(cfg, s.decider.todo[1..]));
    match Eval(judge, cfg, u.trace)
    case None => t
    case Some(r) =>
      t.(store := s.store.(order := ApplyDecision(s.store.order, u.trace.id, r.decision, MatchedNames(r.policies))),
         mistaken := if u.birth == Birth(s.births, u.trace.id) then s.mistaken - {u.trace.id}
         else s.mistaken + {u.trace.id})
  }

  ghost predicate Judged(judge: Judge, cfg: Config, order: seq<Trace>, id: TraceId) {
    Find(order, id).Some? && Eval(judge, cfg, Find(order, id).value).Some?
  }

  ghost function Perform(judge: Judge, s: Machine, a: Action): Machine
    requires Enabled(judge, s, a)
  {
    match a
    case Ingests(now, ids, m) =>
      s.(store := Ingest(s.store, now, ids, m), births := Reborn(s.births, s.store.order, ids),
         mistaken := set id | id in s.mistaken && (id !in ids || Find(s.store.order, id).Some?))
    case ReadsEvaluator => s.(decider := Holding(s.policy))
    case TakesDue(now) =>
      var wait := WaitOf(s.decider.cfg);
      s.(store := s.store.(order := MarkReady(s.store.order, now, wait)),
         decider := Deciding(s.decider.cfg, Copies(DueOf(s.store.order, now, wait), s.births)))
    case Applies => ApplyNext(judge, s)
    case Installs(cfg) => s.(policy := cfg, installed := s.installed + {cfg}, rewriting := s.rewriting + multiset{cfg})
    case Rewrites(cfg) =>
      s.(store := s.store.(order := ReevaluateAll(judge, cfg, s.store.order)), rewriting := s.rewriting - multiset{cfg},
         mistaken := set id | id in s.mistaken && !Judged(judge, cfg, s.store.order, id))
  }

  // ---- the invariant ----

  ghost predicate JustifiedBy(judge: Judge, cfg: Config, n: nat, t: Trace) {
    n <= |t.spans| &&
    var r := judge.eval(cfg, t.id, t.spans[..n]);
    r.Some? && t.decision == r.value.decision && t.matched == MatchedNames(r.value.policies)
  }

  /** The decision is what some installed policy gives on some prefix of the spans. */
  ghost predicate Justified(judge: Judge, installed: set<Config>, t: Trace) {
    t.decision == Pending || exists cfg, n: nat :: cfg in installed && JustifiedBy(judge, cfg, n, t)
  }

  /** A copy of the record that has its id now holds a prefix of that record's spans. */
  ghost predicate Current(s: Machine, u: Copy) {
    u.birth <= Birth(s.births, u.trace.id) &&
    (u.birth == Birth(s.births, u.trace.id) ==>
      forall i :: 0 <= i < |s.store.order| && s.store.order[i].id == u.trace.id ==>
        u.trace.spans <= s.store.order[i].spans)
  }

  ghost predicate CopiesCurrent(s: Machine) {
    s.decider.Deciding? ==> forall k :: 0 <= k < |s.decider.todo| ==> Current(s, s.decider.todo[k])
  }

  ghost predicate AllJustified(judge: Judge, s: Machine) {
    forall i :: 0 <= i < |s.store.order| && s.store.order[i].id !in s.mistaken ==>
      Justified(judge, s.installed, s.store.order[i])
  }

  ghost predicate Remembered(s: Machine) {
    s.policy in s.installed && (s.decider.Idle? || s.decider.cfg in s.installed) && forall cfg :: cfg in s.rewriting ==>
      cfg in s.installed
  }

  ghost predicate Inv(judge: Judge, s: Machine) {
    Consistent(s.store) && CopiesCurrent(s) && AllJustified(judge, s) && Remembered(s)
  }

  // ---- frames ----

  lemma StillJustified(judge: Judge, installed: set<Config>, t: Trace, u: Trace)
    requires Justified(judge, installed, t)
    requires u.id == t.id && u.decision == t.decision && u.matched == t.matched && t.spans <= u.spans
    ensures Justified(judge, installed, u)
  {
    if t.decision != Pending {
      var cfg, n: nat :| cfg in installed && JustifiedBy(judge, cfg, n, t);
      assert t.spans[..n] == u.spans[..n];
      assert JustifiedBy(judge, cfg, n, u);
    }
  }

  /** A retained trace is as before, or one of the touched with its earlier spans in front, or new. */
  lemma AfterIngest(s: StoreState, now: int, ids: seq<TraceId>, m: SpansByTrace, t: Trace)
    returns (before: Option<Trace>)
    requires Walks(ids, m) && t in Ingest(s, now, ids, m).order
    ensures before.None? ==> t.id in ids && Find(s.order, t.id).None? && t.decision == Pending
    ensures before.Some? ==>
      && before.value in s.order && before.value.id == t.id && before.value.spans <= t.spans
      && t.decision == before.value.decision && t.matched == before.value.matched
    ensures before.Some? && t.id in ids ==> Find(s.order, t.id).Some?
    ensures t.state.Decided? ==> before == Some(t)
  {
    RetainedAfterFrame(s, now, ids, m, t);
    if t in s.order && t.id !in ids {
      before := Some(t);
    } else {
      var j :| 0 <= j < |ids| && TouchedSeq(s.order, now, ids, m)[j] == t;
      FindIs(s.order, ids[j]);
      before := Find(s.order, ids[j]);
    }
  }

  lemma IngestsJustified(judge: Judge, s: Machine, a: Action)
    requires a.Ingests? && Enabled(judge, s, a) && AllJustified(judge, s)
    ensures AllJustified(judge, Perform(judge, s, a))
  {
    var p := Perform(judge, s, a);
    forall i | 0 <= i < |p.store.order| && p.store.order[i].id !in p.mistaken
      ensures Justified(judge, p.installed, p.store.order[i])
    {
      var t := p.store.order[i];
      var before := AfterIngest(s.store, a.now, a.ids, a.m, t);
      if before.Some? {
        var j :| 0 <= j < |s.store.order| && s.store.order[j] == before.value;
        StillJustified(judge, s.installed, before.value, t);
      }
    }
  }

  lemma IngestsCurrent(judge: Judge, s: Machine, a: Action, u: Copy)
    requires a.Ingests? && Enabled(judge, s, a) && Current(s, u)
    ensures Current(Perform(judge, s, a), u)
  {
    var p := Perform(judge, s, a);
    assert Birth(p.births, u.trace.id) == Birth(s.births, u.trace.id) +
      if u.trace.id in a.ids && Find(s.store.order, u.trace.id).None? then 1 else 0;
    if u.birth == Birth(p.births, u.trace.id) {
      forall i | 0 <= i < |p.store.order| && p.store.order[i].id == u.trace.id
        ensures u.trace.spans <= p.store.order[i].spans
      {
        var before := AfterIngest(s.store, a.now, a.ids, a.m, p.store.order[i]);
        var j :| 0 <= j < |s.store.order| && s.store.order[j] == before.value;
        assert u.trace.spans <= s.store.order[j].spans;
      }
    }
  }

  // ---- deciding ----

  lemma TakesDueCurrent(judge: Judge, s: Machine, a: Action, k: nat)
    requires a.TakesDue? && Enabled(judge, s, a) && Consistent(s.store)
    requires k < |Perform(judge, s, a).decider.todo|
    ensures Current(Perform(judge, s, a), Perform(judge, s, a).decider.todo[k])
  {
    var p, wait := Perform(judge, s, a), WaitOf(s.decider.cfg);
    var u := p.decider.todo[k];
    var due := DueOf(s.store.order, a.now, wait);
    assert due[k] in due;
    DueOfIs(s.store.order, a.now, wait);
    var j :| 0 <= j < |s.store.order| && IsDue(s.store.order[j], a.now, wait) &&
      due[k] == s.store.order[j].(state := Ready);
    forall i | 0 <= i < |p.store.order| && p.store.order[i].id == u.trace.id
      ensures u.trace.spans <= p.store.order[i].spans
    {
      if i != j {
        TwoIds(s.store.order, i, j);
      }
    }
  }

  lemma AppliesJustified(judge: Judge, s: Machine)
    requires s.decider.Deciding? && s.decider.todo != [] && Inv(judge, s)
    ensures AllJustified(judge, ApplyNext(judge, s))
  {
    var u, cfg, p := s.decider.todo[0], s.decider.cfg, ApplyNext(judge, s);
    var r := Eval(judge, cfg, u.trace);
    if r.Some? {
      forall i | 0 <= i < |p.store.order| && p.store.order[i].id !in p.mistaken
        ensures Justified(judge, p.installed, p.store.order[i])
      {
        if s.store.order[i].id == u.trace.id {
          assert Current(s, u);
          VerdictJustified(judge, s.installed, cfg, u.trace, s.store.order[i]);
        }
      }
    }
  }

  lemma VerdictJustified(judge: Judge, installed: set<Config>, cfg: Config, copy: Trace, t: Trace)
    requires cfg in installed && copy.id == t.id && copy.spans <= t.spans && Eval(judge, cfg, copy).Some?
    ensures var r := Eval(judge, cfg, copy).value;
      Justified(judge, installed, Decide(t, r.decision, MatchedNames(r.policies)))
  {
    var r := Eval(judge, cfg, copy).value;
    assert t.spans[..|copy.spans|] == copy.spans;
    assert JustifiedBy(judge, cfg, |copy.spans|, Decide(t, r.decision, MatchedNames(r.policies)));
  }

  lemma SameSpansCurrent(s: Machine, p: Machine, u: Copy)
    requires Current(s, u) && SameTraces(s.store.order, p.store.order) && p.births == s.births
    ensures Current(p, u)
  {
    if u.birth == Birth(p.births, u.trace.id) {
      forall i | 0 <= i < |p.store.order| && p.store.order[i].id == u.trace.id
        ensures u.trace.spans <= p.store.order[i].spans
      {
        assert s.store.order[i].id == u.trace.id;
      }
    }
  }

  // ---- policies ----

  lemma RewritesJustified(judge: Judge, s: Machine, a: Action)
    requires a.Rewrites? && Enabled(judge, s, a) && Inv(judge, s)
    ensures AllJustified(judge, Perform(judge, s, a))
  {
    var p := Perform(judge, s, a);
    forall i | 0 <= i < |p.store.order| && p.store.order[i].id !in p.mistaken
      ensures Justified(judge, p.installed, p.store.order[i])
    {
      var t := s.store.order[i];
      FindAt(s.store.order, i);
      if Eval(judge, a.cfg, t).Some? {
        assert t.spans[..|t.spans|] == t.spans;
        assert JustifiedBy(judge, a.cfg, |t.spans|, p.store.order[i]);
      }
    }
  }

  lemma InstallsJustified(judge: Judge, s: Machine, a: Action)
    requires a.Installs? && Enabled(judge, s, a) && AllJustified(judge, s)
    ensures AllJustified(judge, Perform(judge, s, a))
  {
    var p := Perform(judge, s, a);
    forall i | 0 <= i < |p.store.order| && p.store.order[i].id !in p.mistaken
      ensures Justified(judge, p.installed, p.store.order[i])
    {
      var t := s.store.order[i];
      if t.decision != Pending {
        var cfg, n: nat :| cfg in s.installed && JustifiedBy(judge, cfg, n, t);
        assert cfg in p.installed;
      }
    }
  }

  // ---- every step, every run ----

  lemma PerformShape(judge: Judge, s: Machine, a: Action)
    requires Enabled(judge, s, a) && Consistent(s.store)
    ensures Consistent(Perform(judge, s, a).store)
    ensures !a.Ingests? ==>
      SameTraces(s.store.order, Perform(judge, s, a).store.order) && Perform(judge, s, a).births == s.births
  {
    if a.Ingests? {
      IngestConsistent(s.store, a.now, a.ids, a.m);
    } else {
      SameTracesConsistent(s.store, Perform(judge, s, a).store.order);
    }
  }

  lemma PerformCurrent(judge: Judge, s: Machine, a: Action)
    requires Enabled(judge, s, a) && Inv(judge, s)
    ensures CopiesCurrent(Perform(judge, s, a))
  {
    var p := Perform(judge, s, a);
    PerformShape(judge, s, a);
    if p.decider.Deciding? {
      forall k | 0 <= k < |p.decider.todo| ensures Current(p, p.decider.todo[k]) {
        if a.TakesDue? {
          TakesDueCurrent(judge, s, a, k);
        } else if a.Ingests? {
          IngestsCurrent(judge, s, a, s.decider.todo[k]);
        } else {
          var u := p.decider.todo[k];
          assert Current(s, s.decider.todo[if a.Applies? then k + 1 else k]);
          SameSpansCurrent(s, p, u);
        }
      }
    }
  }

  lemma PerformJustified(judge: Judge, s: Machine, a: Action)
    requires Enabled(judge, s, a) && Inv(judge, s)
    ensures AllJustified(judge, Perform(judge, s, a))
  {
    match a {
      case Ingests(_, _, _) => IngestsJustified(judge, s, a);
      case ReadsEvaluator =>
      case TakesDue(now) => TakesDueJustified(judge, s, a);
      case Applies => AppliesJustified(judge, s);
      case Installs(_) => InstallsJustified(judge, s, a);
      case Rewrites(_) => RewritesJustified(judge, s, a);
    }
  }

  lemma TakesDueJustified(judge: Judge, s: Machine, a: Action)
    requires a.TakesDue? && Enabled(judge, s, a) && AllJustified(judge, s)
    ensures AllJustified(judge, Perform(judge, s, a))
  {
    var p := Perform(judge, s, a);
    forall i | 0 <= i < |p.store.order| && p.store.order[i].id !in p.mistaken
      ensures Justified(judge, p.installed, p.store.order[i])
    {
      StillJustified(judge, s.installed, s.store.order[i], p.store.order[i]);
    }
  }

  lemma PerformKeeps(judge: Judge, s: Machine, a: Action)
    requires Enabled(judge, s, a) && Inv(judge, s)
    ensures Inv(judge, Perform(judge, s, a))
  {
    PerformShape(judge, s, a);
    PerformCurrent(judge, s, a);
    PerformJustified(judge, s, a);
  }

  function Start(storeCfg: StoreConfig, cfg: Config): Machine {
    Machine(EmptyStore(storeCfg), cfg, Idle, multiset{}, {cfg}, map[], {})
  }

  /** Each action is enabled in the state the earlier ones lead to. */
  ghost predicate Schedule(judge: Judge, s: Machine, actions: seq<Action>)
    decreases |actions|, 0
  {
    actions == [] ||
      (Schedule(judge, s, actions[..|actions| - 1]) &&
          Enabled(judge, Reached(judge, s, actions[..|actions| - 1]), actions[|actions| - 1]))
  }

  ghost function Reached(judge: Judge, s: Machine, actions: seq<Action>): Machine
    requires Schedule(judge, s, actions)
    decreases |actions|, 1
  {
    if actions == [] then s else Perform(judge, Reached(judge, s, actions[..|actions| - 1]), actions[|actions| - 1])
  }

  /**
   * Whatever the interleaving, every KEEP or DROP on a retained trace is what some installed
   * policy gives on some prefix of the trace's spans, unless the record took the result of a
   * copy made before it was created.
   */
  lemma {:induction false} DecisionsJustified(judge: Judge, storeCfg: StoreConfig, cfg: Config, actions: seq<Action>)
    requires Schedule(judge, Start(storeCfg, cfg), actions)
    ensures Inv(judge, Reached(judge, Start(storeCfg, cfg), actions))
  {
    if actions != [] {
      DecisionsJustified(judge, storeCfg, cfg, actions[..|actions| - 1]);
      PerformKeeps(judge, Reached(judge, Start(storeCfg, cfg), actions[..|actions| - 1]), actions[|actions| - 1]);
    }
  }

  /** A record becomes mistaken only when the result of a copy is applied to a record born after that copy was made. */
  lemma MistakenOnlyByOldCopy(judge: Judge, storeCfg: StoreConfig, cfg: Config, actions: seq<Action>, a: Action,
      id: TraceId)
    requires Schedule(judge, Start(storeCfg, cfg), actions)
    requires var s := Reached(judge, Start(storeCfg, cfg), actions);
      Enabled(judge, s, a) && id !in s.mistaken && id in Perform(judge, s, a).mistaken
    ensures var s := Reached(judge, Start(storeCfg, cfg), actions);
      a.Applies? && s.decider.todo[0].trace.id == id && s.decider.todo[0].birth < Birth(s.births, id)
  {
    DecisionsJustified(judge, storeCfg, cfg, actions);
    var s := Reached(judge, Start(storeCfg, cfg), actions);
    if a.Applies? {
      assert Current(s, s.decider.todo[0]);
    }
  }

  // ---- uninterrupted, the steps are the serialised ones ----

  /** The next k copies, one after the other. */
  ghost function ApplyMany(judge: Judge, s: Machine, k: nat): Machine
    requires s.decider.Deciding? && k <= |s.decider.todo|
    ensures ApplyMany(judge, s, k).decider == Deciding(s.decider.cfg, s.decider.todo[k..])
  {
    if k == 0 then s else ApplyNext(judge, ApplyMany(judge, s, k - 1))
  }

  lemma AbsentUnchanged(order: seq<Trace>, id: TraceId, decision: Decision, matched: seq<string>)
    requires Find(order, id).None?
    ensures ApplyDecision(order, id, decision, matched) == order
  {
    FindIs(order, id);
    NotListed(order, id);
  }

  lemma {:induction false} ApplyManyDecides(judge: Judge, s: Machine, due: seq<Trace>, st: Stats, k: nat)
    requires s.decider.Deciding? && k <= |due| && s.decider.todo == Copies(due, s.births)
    ensures ApplyMany(judge, s, k).births == s.births
    ensures ApplyMany(judge, s, k).store ==
      s.store.(order := DecideEach(judge, s.decider.cfg, s.store.order, st, due[..k]).0)
  {
    if k > 0 {
      ApplyManyDecides(judge, s, due, st, k - 1);
      assert due[..k][..k - 1] == due[..k - 1];
      var t := ApplyMany(judge, s, k - 1);
      assert t.decider.todo[0] == s.decider.todo[k - 1];
      ApplyOneDecides(judge, t, DecideEach(judge, s.decider.cfg, s.store.order, st, due[..k - 1]).1);
    }
  }

  lemma ApplyOneDecides(judge: Judge, t: Machine, st: Stats)
    requires t.decider.Deciding? && t.decider.todo != []
    ensures ApplyNext(judge, t).births == t.births
    ensures ApplyNext(judge, t).store ==
      t.store.(order := DecideOne(judge, t.decider.cfg, t.store.order, st, t.decider.todo[0].trace).0)
  {
    var u := t.decider.todo[0].trace;
    var r := Eval(judge, t.decider.cfg, u);
    if r.Some? && Find(t.store.order, u.id).None? {
      AbsentUnchanged(t.store.order, u.id, r.value.decision, MatchedNames(r.value.policies));
    }
  }

  /** A tick whose steps nothing comes between leaves the store as the serialised tick does. */
  lemma UninterruptedTick(judge: Judge, s: Machine, full: ServerState, now: int)
    requires Enabled(judge, s, ReadsEvaluator) && full.store == s.store && full.cfg == s.policy
    ensures var taken := Perform(judge, Perform(judge, s, ReadsEvaluator), TakesDue(now));
      var done := ApplyMany(judge, taken, |taken.decider.todo|);
      done.store == DecideDue(judge, full, now).store && done.decider == Deciding(s.policy, [])
  {
    var taken := Perform(judge, Perform(judge, s, ReadsEvaluator), TakesDue(now));
    var due := DueOf(s.store.order, now, WaitOf(s.policy));
    ApplyManyDecides(judge, taken, due, full.stats, |due|);
    assert due[..|due|] == due;
  }

  lemma UninterruptedPolicy(judge: Judge, s: Machine, full: ServerState, cfg: Config)
    requires judge.compiles(cfg) && full.store == s.store && full.cfg == s.policy
    ensures var done := Perform(judge, Perform(judge, s, Installs(cfg)), Rewrites(cfg));
      done.store == SetPolicy(judge, full, cfg).store && done.policy == SetPolicy(judge, full, cfg).cfg &&
        done.rewriting == s.rewriting
  {
  }
}
