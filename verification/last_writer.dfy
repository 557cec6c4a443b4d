/**
 * Whose verdict a record shows when the locks of frames, ticks and policy changes interleave, and
 * exactly when that verdict is the one the policy in force would give, over all engines whose
 * results depend on the policies and the spans alone.
 */
module LastWriter {
  import opened Wrappers
  import opened Pdata
  import opened Policies
  import opened TraceTypes
  import opened TraceList
  import opened StoreSpec
  import opened Statistics
  import opened ServerSpec
  import opened DecisionRuns
  import opened Interleaving

  // ---- telling two evaluations apart ----

  /** All of the policies match, or none. */
  ghost function AllOrNone(policies: seq<PolicyCfg>, all: bool): (r: EvalResult)
    ensures ResultOf(policies, r) && (r.decision == Keep <==> all && policies != [])
  {
    var ps := seq(|policies|, i requires 0 <= i < |policies| => PolicyResult(policies[i].name, all));
    assert all && policies != [] ==> ps[0].matched;
    EvalResult(if all && policies != [] then Keep else Drop, ps)
  }

  /**
   * An engine whose policies all match for one list of them and one trace's spans, and never
   * otherwise. It fails where j does.
   */
  ghost function Singling(j: Judge, policies: seq<PolicyCfg>, spans: seq<FlatSpan>): Judge {
    Judge(j.compiles, (c: Config, id: TraceId, s: seq<FlatSpan>) =>
      if j.eval(c, id, s).None? then None else Some(AllOrNone(c.policies, c.policies == policies && s == spans)))
  }

  ghost predicate FailsAlike(j: Judge, k: Judge) {
    && (forall cfg :: j.compiles(cfg) == k.compiles(cfg))
    && (forall cfg, id, spans :: j.eval(cfg, id, spans).None? == k.eval(cfg, id, spans).None?)
  }

  lemma SinglingIsRegular(j: Judge, policies: seq<PolicyCfg>, spans: seq<FlatSpan>)
    requires Regular(j)
    ensures Regular(Singling(j, policies, spans)) && FailsAlike(j, Singling(j, policies, spans))
  {
  }

  /** The policy and the spans a record's decision was made from. */
  datatype Writer = Writer(cfg: Config, spans: seq<FlatSpan>)

  /** The record shows what its writer's policy gives on the spans it saw. */
  ghost predicate ShowsVerdict(judge: Judge, x: Writer, t: Trace) {
    var r := judge.eval(x.cfg, t.id, x.spans);
    r.Some? && t.decision == r.value.decision && t.matched == MatchedNames(r.value.policies)
  }

  /** The same policies, and unless there are none, the same spans. */
  predicate AsGoodAs(x: Writer, cfg: Config, spans: seq<FlatSpan>) {
    x.cfg.policies == cfg.policies && (cfg.policies == [] || x.spans == spans)
  }

  lemma NoPoliciesDrop(judge: Judge, cfg: Config, id: TraceId, spans: seq<FlatSpan>)
    requires Regular(judge) && cfg.policies == [] && judge.eval(cfg, id, spans).Some?
    ensures judge.eval(cfg, id, spans).value == EvalResult(Drop, [])
  {
    assert ResultOf(cfg.policies, judge.eval(cfg, id, spans).value);
  }

  lemma AsGoodAgrees(judge: Judge, x: Writer, cfg: Config, t: Trace)
    requires Regular(judge) && ShowsVerdict(judge, x, t) && AsGoodAs(x, cfg, t.spans)
    ensures Agrees(judge, cfg, t)
  {
    if cfg.policies == [] && Eval(judge, cfg, t).Some? {
      NoPoliciesDrop(judge, x.cfg, t.id, x.spans);
      NoPoliciesDrop(judge, cfg, t.id, t.spans);
    } else {
      assert judge.eval(x.cfg, t.id, t.spans) == judge.eval(cfg, t.id, t.spans);
    }
  }

  /** An engine under which a DECIDED record with this writer disagrees with cfg. */
  lemma Separate(j: Judge, x: Writer, cfg: Config, t: Trace) returns (k: Judge)
    requires Regular(j) && !AsGoodAs(x, cfg, t.spans)
    requires j.eval(x.cfg, t.id, x.spans).Some? && Eval(j, cfg, t).Some?
    ensures Regular(k) && FailsAlike(j, k)
    ensures forall u | AlikeTrace(t, u) && u.state.Decided? && ShowsVerdict(k, x, u) :: !Agrees(k, cfg, u)
  {
    if x.cfg.policies != [] {
      k := Singling(j, x.cfg.policies, x.spans);
      SinglingIsRegular(j, x.cfg.policies, x.spans);
    } else {
      k := Singling(j, cfg.policies, t.spans);
      SinglingIsRegular(j, cfg.policies, t.spans);
    }
  }

  predicate AlikeTrace(t: Trace, u: Trace) {
    u == t.(decision := u.decision, matched := u.matched)
  }

  // ---- one step ----

  /** Wherever the evaluation of the copy succeeds, the record it was applied to agrees with the policy in force. */
  ghost predicate AppliesAgreesFor(judge: Judge, s: Machine, i: nat)
    requires s.decider.Deciding? && s.decider.todo != [] && i < |s.store.order|
  {
    Eval(judge, s.decider.cfg, s.decider.todo[0].trace).Some? ==>
      Agrees(judge, s.policy, ApplyNext(judge, s).store.order[i])
  }

  ghost predicate AppliesAgrees(s: Machine, i: nat)
    requires s.decider.Deciding? && s.decider.todo != [] && i < |s.store.order|
  {
    forall judge | Regular(judge) :: AppliesAgreesFor(judge, s, i)
  }

  /**
   * Over all regular engines, applying a copy's result leaves its record in agreement with the policy
   * in force exactly when the evaluator in hand has the same policies and, unless there are none, the
   * copy has all the spans. Another decision_wait makes no difference.
   */
  lemma AppliesAgreesExactly(s: Machine, i: nat)
    requires s.decider.Deciding? && s.decider.todo != []
    requires i < |s.store.order| && s.store.order[i].id == s.decider.todo[0].trace.id
    ensures AppliesAgrees(s, i) <==>
      AsGoodAs(Writer(s.decider.cfg, s.decider.todo[0].trace.spans), s.policy, s.store.order[i].spans)
  {
    var u, t := s.decider.todo[0].trace, s.store.order[i];
    var x := Writer(s.decider.cfg, u.spans);
    if AsGoodAs(x, s.policy, t.spans) {
      forall judge | Regular(judge) ensures AppliesAgreesFor(judge, s, i) {
        if Eval(judge, s.decider.cfg, u).Some? {
          AsGoodAgrees(judge, x, s.policy, ApplyNext(judge, s).store.order[i]);
        }
      }
    } else {
      var any := Judge((c: Config) => true,
          (c: Config, id: TraceId, spans: seq<FlatSpan>) => Some(AllOrNone(c.policies, false)));
      var k := Separate(any, x, s.policy, t.(state := Decided));
      assert AlikeTrace(t.(state := Decided), ApplyNext(k, s).store.order[i]);
      assert !AppliesAgreesFor(k, s, i);
    }
  }

  // ---- who wrote last ----

  ghost function JudgedIds(judge: Judge, cfg: Config, order: seq<Trace>): set<TraceId> {
    set t <- order | Judged(judge, cfg, order, t.id) :: t.id
  }

  /** A new record is unwritten; a result that is applied, and a policy going over the store, write. */
  ghost function WritersAfter(judge: Judge, s: Machine, w: map<TraceId, Writer>, a: Action): map<TraceId, Writer>
    requires Enabled(judge, s, a)
  {
    match a
    case Ingests(_, ids, _) => map id | id in w && (id !in ids || Find(s.store.order, id).Some?) :: w[id]
    case Applies =>
      var u, cfg := s.decider.todo[0].trace, s.decider.cfg;
      if Eval(judge, cfg, u).Some? then w[u.id := Writer(cfg, u.spans)] else w
    case Rewrites(cfg) =>
      var judged := JudgedIds(judge, cfg, s.store.order);
      map id | id in w.Keys + judged :: if id in judged then Writer(cfg, Find(s.store.order, id).value.spans) else w[id]
    case _ => w
  }

  ghost function Writers(judge: Judge, s: Machine, actions: seq<Action>): map<TraceId, Writer>
    requires Schedule(judge, s, actions)
  {
    if actions == [] then map[]
    else
      var init := actions[..|actions| - 1];
      WritersAfter(judge, Reached(judge, s, init), Writers(judge, s, init), actions[|actions| - 1])
  }

  /** The record shows its writer's verdict; without a writer it is undecided. */
  ghost predicate Written(judge: Judge, s: Machine, w: map<TraceId, Writer>, t: Trace) {
    if t.id !in w then t.decision == Pending && !t.state.Decided?
    else
      && w[t.id].cfg in s.installed && ShowsVerdict(judge, w[t.id], t)
      && (t.id !in s.mistaken ==> w[t.id].spans <= t.spans)
  }

  ghost predicate AllWritten(judge: Judge, s: Machine, w: map<TraceId, Writer>) {
    forall i :: 0 <= i < |s.store.order| ==> Written(judge, s, w, s.store.order[i])
  }

  lemma IngestsWritten(judge: Judge, s: Machine, w: map<TraceId, Writer>, a: Action)
    requires a.Ingests? && Enabled(judge, s, a) && AllWritten(judge, s, w)
    ensures AllWritten(judge, Perform(judge, s, a), WritersAfter(judge, s, w, a))
  {
    var p, v := Perform(judge, s, a), WritersAfter(judge, s, w, a);
    forall i | 0 <= i < |p.store.order| ensures Written(judge, p, v, p.store.order[i]) {
      var t := p.store.order[i];
      var before := AfterIngest(s.store, a.now, a.ids, a.m, t);
      if before.Some? {
        var j :| 0 <= j < |s.store.order| && s.store.order[j] == before.value;
        assert Written(judge, s, w, s.store.order[j]);
      }
    }
  }

  lemma AppliesWritten(judge: Judge, s: Machine, w: map<TraceId, Writer>)
    requires Enabled(judge, s, Applies) && Inv(judge, s) && AllWritten(judge, s, w)
    ensures AllWritten(judge, Perform(judge, s, Applies), WritersAfter(judge, s, w, Applies))
  {
    var p, v := Perform(judge, s, Applies), WritersAfter(judge, s, w, Applies);
    assert Current(s, s.decider.todo[0]);
    forall i | 0 <= i < |p.store.order| ensures Written(judge, p, v, p.store.order[i]) {
      assert Written(judge, s, w, s.store.order[i]);
    }
  }

  lemma RewritesWritten(judge: Judge, s: Machine, w: map<TraceId, Writer>, a: Action)
    requires a.Rewrites? && Enabled(judge, s, a) && Inv(judge, s) && AllWritten(judge, s, w)
    ensures AllWritten(judge, Perform(judge, s, a), WritersAfter(judge, s, w, a))
  {
    var p, v := Perform(judge, s, a), WritersAfter(judge, s, w, a);
    forall i | 0 <= i < |p.store.order| ensures Written(judge, p, v, p.store.order[i]) {
      var t := s.store.order[i];
      assert Written(judge, s, w, t);
      FindAt(s.store.order, i);
      assert t in s.store.order;
    }
  }

  lemma StepWritten(judge: Judge, s: Machine, w: map<TraceId, Writer>, a: Action)
    requires Enabled(judge, s, a) && Inv(judge, s) && AllWritten(judge, s, w)
    ensures AllWritten(judge, Perform(judge, s, a), WritersAfter(judge, s, w, a))
  {
    if a.Ingests? {
      IngestsWritten(judge, s, w, a);
    } else if a.Applies? {
      AppliesWritten(judge, s, w);
    } else if a.Rewrites? {
      RewritesWritten(judge, s, w, a);
    } else {
      var p := Perform(judge, s, a);
      forall i | 0 <= i < |p.store.order| ensures Written(judge, p, w, p.store.order[i]) {
        assert Written(judge, s, w, s.store.order[i]);
      }
    }
  }

  /** After every interleaving each record shows the verdict of its last writer. */
  lemma {:induction false} RunWritten(judge: Judge, storeCfg: StoreConfig, cfg: Config, actions: seq<Action>)
    requires Schedule(judge, Start(storeCfg, cfg), actions)
    ensures var s := Start(storeCfg, cfg); AllWritten(judge, Reached(judge, s, actions), Writers(judge, s, actions))
  {
    if actions != [] {
      var s, init := Start(storeCfg, cfg), actions[..|actions| - 1];
      RunWritten(judge, storeCfg, cfg, init);
      DecisionsJustified(judge, storeCfg, cfg, init);
      StepWritten(judge, Reached(judge, s, init), Writers(judge, s, init), actions[|actions| - 1]);
    }
  }

  // ---- engines that fail alike take the same steps ----

  ghost predicate AlikeTraces(a: seq<Trace>, b: seq<Trace>) {
    |a| == |b| && forall i :: 0 <= i < |a| ==> AlikeTrace(a[i], b[i])
  }

  ghost predicate AlikeCopies(a: seq<Copy>, b: seq<Copy>) {
    |a| == |b| && forall i :: 0 <= i < |a| ==> a[i].birth == b[i].birth && AlikeTrace(a[i].trace, b[i].trace)
  }

  ghost predicate AlikeStores(s: StoreState, t: StoreState) {
    s.cfg == t.cfg && s.totalBytes == t.totalBytes && s.evicted == t.evicted && AlikeTraces(s.order, t.order)
  }

  ghost predicate AlikeDeciders(d: Decider, e: Decider) {
    match d
    case Idle => e.Idle?
    case Holding(cfg) => e == d
    case Deciding(cfg, todo) => e.Deciding? && e.cfg == cfg && AlikeCopies(todo, e.todo)
  }

  /** The same machine up to the verdicts on records and copies. */
  ghost predicate Alike(s: Machine, p: Machine) {
    && AlikeStores(s.store, p.store) && AlikeDeciders(s.decider, p.decider)
    && s.policy == p.policy && s.rewriting == p.rewriting && s.installed == p.installed
    && s.births == p.births && s.mistaken == p.mistaken
  }

  lemma {:induction false} AlikeFind(a: seq<Trace>, b: seq<Trace>, id: TraceId)
    requires AlikeTraces(a, b)
    ensures Find(a, id).None? == Find(b, id).None?
    ensures Find(a, id).Some? ==> AlikeTrace(Find(a, id).value, Find(b, id).value)
  {
    if a != [] {
      AlikeFind(a[..|a| - 1], b[..|b| - 1], id);
    }
  }

  lemma {:induction false} AlikeWithout(a: seq<Trace>, b: seq<Trace>, ids: seq<TraceId>)
    requires AlikeTraces(a, b)
    ensures AlikeTraces(Without(a, ids), Without(b, ids))
  {
    if a != [] {
      AlikeWithout(a[..|a| - 1], b[..|b| - 1], ids);
    }
  }

  lemma {:induction false} AlikeIngestAll(a: seq<Trace>, b: seq<Trace>, now: int, ids: seq<TraceId>, m: SpansByTrace)
    requires AlikeTraces(a, b) && forall id <- ids :: id in m
    ensures AlikeTraces(IngestAll(a, now, ids, m), IngestAll(b, now, ids, m))
  {
    if ids != [] {
      var init, id := ids[..|ids| - 1], ids[|ids| - 1];
      AlikeIngestAll(a, b, now, init, m);
      AlikeWithout(IngestAll(a, now, init, m), IngestAll(b, now, init, m), [id]);
      AlikeFind(IngestAll(a, now, init, m), IngestAll(b, now, init, m), id);
    }
  }

  lemma {:induction false} AlikeEvict(s: StoreState, t: StoreState, now: int)
    requires AlikeStores(s, t)
    ensures AlikeStores(Evict(s, now), Evict(t, now))
    decreases |s.order|
  {
    if s.order != [] && Over(s, now) {
      AlikeEvict(DropFront(s), DropFront(t), now);
    }
  }

  lemma AlikeIngest(s: StoreState, t: StoreState, now: int, ids: seq<TraceId>, m: SpansByTrace)
    requires AlikeStores(s, t) && forall id <- ids :: id in m
    ensures AlikeStores(Ingest(s, now, ids, m), Ingest(t, now, ids, m))
  {
    AlikeIngestAll(s.order, t.order, now, ids, m);
    AlikeEvict(Merged(s, now, ids, m), Merged(t, now, ids, m), now);
  }

  lemma {:induction false} AlikeDue(a: seq<Trace>, b: seq<Trace>, now: int, wait: int)
    requires AlikeTraces(a, b)
    ensures AlikeTraces(DueOf(a, now, wait), DueOf(b, now, wait))
  {
    if a != [] {
      AlikeDue(a[..|a| - 1], b[..|b| - 1], now, wait);
    }
  }

  lemma AlikeEval(j: Judge, k: Judge, cfg: Config, t: Trace, u: Trace)
    requires FailsAlike(j, k) && AlikeTrace(t, u)
    ensures Eval(j, cfg, t).None? == Eval(k, cfg, u).None?
  {
  }

  lemma AlikeJudged(j: Judge, k: Judge, cfg: Config, a: seq<Trace>, b: seq<Trace>)
    requires FailsAlike(j, k) && AlikeTraces(a, b)
    ensures forall id :: Judged(j, cfg, a, id) == Judged(k, cfg, b, id)
    ensures JudgedIds(j, cfg, a) == JudgedIds(k, cfg, b)
  {
    forall id ensures Judged(j, cfg, a, id) == Judged(k, cfg, b, id) {
      AlikeFind(a, b, id);
      if Find(a, id).Some? {
        AlikeEval(j, k, cfg, Find(a, id).value, Find(b, id).value);
      }
    }
    forall id ensures id in JudgedIds(j, cfg, a) <==> id in JudgedIds(k, cfg, b) {
      if id in JudgedIds(j, cfg, a) {
        var i :| 0 <= i < |a| && a[i].id == id;
        assert b[i] in b && b[i].id == id;
      }
      if id in JudgedIds(k, cfg, b) {
        var i :| 0 <= i < |b| && b[i].id == id;
        assert a[i] in a && a[i].id == id;
      }
    }
  }

  lemma IngestsAlike(j: Judge, k: Judge, s: Machine, p: Machine, w: map<TraceId, Writer>, a: Action)
    requires a.Ingests? && FailsAlike(j, k) && Alike(s, p) && Enabled(j, s, a)
    ensures Enabled(k, p, a) && Alike(Perform(j, s, a), Perform(k, p, a)) &&
      WritersAfter(j, s, w, a) == WritersAfter(k, p, w, a)
  {
    AlikeIngest(s.store, p.store, a.now, a.ids, a.m);
    forall id ensures Find(s.store.order, id).None? == Find(p.store.order, id).None? {
      AlikeFind(s.store.order, p.store.order, id);
    }
    RebornAlike(s.births, s.store.order, p.store.order, a.ids);
    assert Perform(j, s, a).mistaken == Perform(k, p, a).mistaken;
  }

  lemma RebornAlike(births: map<TraceId, nat>, a: seq<Trace>, b: seq<Trace>, ids: seq<TraceId>)
    requires forall id :: Find(a, id).None? == Find(b, id).None?
    ensures Reborn(births, a, ids) == Reborn(births, b, ids)
  {
  }

  lemma AppliesAlike(j: Judge, k: Judge, s: Machine, p: Machine, w: map<TraceId, Writer>)
    requires FailsAlike(j, k) && Alike(s, p) && Enabled(j, s, Applies)
    ensures Enabled(k, p, Applies) && Alike(Perform(j, s, Applies), Perform(k, p, Applies))
    ensures WritersAfter(j, s, w, Applies) == WritersAfter(k, p, w, Applies)
  {
    AlikeEval(j, k, s.decider.cfg, s.decider.todo[0].trace, p.decider.todo[0].trace);
  }

  lemma MistakenAlike(j: Judge, k: Judge, s: Machine, p: Machine, a: Action)
    requires a.Rewrites? && FailsAlike(j, k) && Alike(s, p) && Enabled(j, s, a) && Enabled(k, p, a)
    ensures Perform(j, s, a).mistaken == Perform(k, p, a).mistaken
  {
    AlikeJudged(j, k, a.cfg, s.store.order, p.store.order);
  }

  lemma RewritersAlike(j: Judge, k: Judge, s: Machine, p: Machine, w: map<TraceId, Writer>, a: Action)
    requires a.Rewrites? && FailsAlike(j, k) && Alike(s, p) && Enabled(j, s, a) && Enabled(k, p, a)
    ensures WritersAfter(j, s, w, a) == WritersAfter(k, p, w, a)
  {
    AlikeJudged(j, k, a.cfg, s.store.order, p.store.order);
    forall id | id in JudgedIds(j, a.cfg, s.store.order)
      ensures Find(s.store.order, id).value.spans == Find(p.store.order, id).value.spans
    {
      AlikeFind(s.store.order, p.store.order, id);
    }
  }

  lemma RewritesAlike(j: Judge, k: Judge, s: Machine, p: Machine, w: map<TraceId, Writer>, a: Action)
    requires a.Rewrites? && FailsAlike(j, k) && Alike(s, p) && Enabled(j, s, a)
    ensures Enabled(k, p, a) && Alike(Perform(j, s, a), Perform(k, p, a)) &&
      WritersAfter(j, s, w, a) == WritersAfter(k, p, w, a)
  {
    MistakenAlike(j, k, s, p, a);
    RewritersAlike(j, k, s, p, w, a);
  }

  lemma StepAlike(j: Judge, k: Judge, s: Machine, p: Machine, w: map<TraceId, Writer>, a: Action)
    requires FailsAlike(j, k) && Alike(s, p) && Enabled(j, s, a)
    ensures Enabled(k, p, a) && Alike(Perform(j, s, a), Perform(k, p, a)) &&
      WritersAfter(j, s, w, a) == WritersAfter(k, p, w, a)
  {
    match a {
      case Ingests(_, _, _) => IngestsAlike(j, k, s, p, w, a);
      case TakesDue(now) => AlikeDue(s.store.order, p.store.order, now, WaitOf(s.decider.cfg));
      case Applies => AppliesAlike(j, k, s, p, w);
      case Rewrites(_) => RewritesAlike(j, k, s, p, w, a);
      case _ =>
    }
  }

  /** The same schedule leads engines that fail alike to the same machine, up to verdicts, with the same writers. */
  lemma {:induction false} RunAlike(j: Judge, k: Judge, s: Machine, actions: seq<Action>)
    requires FailsAlike(j, k) && Schedule(j, s, actions) && Alike(s, s)
    ensures Schedule(k, s, actions) && Alike(Reached(j, s, actions), Reached(k, s, actions))
    ensures Writers(j, s, actions) == Writers(k, s, actions)
  {
    if actions != [] {
      var init, a := actions[..|actions| - 1], actions[|actions| - 1];
      RunAlike(j, k, s, init);
      StepAlike(j, k, Reached(j, s, init), Reached(k, s, init), Writers(j, s, init), a);
    }
  }

  // ---- the theorems ----

  ghost predicate AgreesAtEnd(k: Judge, s: Machine, actions: seq<Action>, i: nat) {
    && Schedule(k, s, actions) && i < |Reached(k, s, actions).store.order|
    && Agrees(k, Reached(k, s, actions).policy, Reached(k, s, actions).store.order[i])
  }

  ghost predicate JustifiedAtEnd(k: Judge, s: Machine, actions: seq<Action>, i: nat) {
    && Schedule(k, s, actions) && i < |Reached(k, s, actions).store.order|
    && Justified(k, Reached(k, s, actions).installed, Reached(k, s, actions).store.order[i])
  }

  /** What the schedule ends in under an engine that fails where j does. */
  lemma EndsAlike(j: Judge, k: Judge, storeCfg: StoreConfig, cfg: Config, actions: seq<Action>, i: nat)
    requires FailsAlike(j, k) && Schedule(j, Start(storeCfg, cfg), actions)
    requires i < |Reached(j, Start(storeCfg, cfg), actions).store.order|
    ensures Schedule(k, Start(storeCfg, cfg), actions)
    ensures var s, p := Reached(j, Start(storeCfg, cfg), actions), Reached(k, Start(storeCfg, cfg), actions);
      && i < |p.store.order| && AlikeTrace(s.store.order[i], p.store.order[i])
      && p.policy == s.policy && p.installed == s.installed
      && Written(k, p, Writers(j, Start(storeCfg, cfg), actions), p.store.order[i])
  {
    RunAlike(j, k, Start(storeCfg, cfg), actions);
    RunWritten(k, storeCfg, cfg, actions);
  }

  /** Every regular engine that compiles and fails as j does. */
  ghost predicate Peer(j: Judge, k: Judge) {
    Regular(k) && FailsAlike(j, k)
  }

  /**
   * Take any interleaving and a DECIDED record at its end. Over all regular engines that fail where
   * this one does, the record agrees with the policy in force exactly when its last writer had the
   * same policies and, unless there are none, all the record's spans; or that policy fails on them.
   */
  lemma LastWriterDecides(j: Judge, storeCfg: StoreConfig, cfg: Config, actions: seq<Action>, i: nat)
    requires Regular(j) && Schedule(j, Start(storeCfg, cfg), actions)
    requires var s := Reached(j, Start(storeCfg, cfg), actions); i < |s.store.order| && s.store.order[i].state.Decided?
    ensures var start := Start(storeCfg, cfg);
      var s, ws := Reached(j, start, actions), Writers(j, start, actions);
      var t := s.store.order[i];
      && t.id in ws
      && ((forall k | Peer(j, k) :: AgreesAtEnd(k, start, actions, i)) <==>
            AsGoodAs(ws[t.id], s.policy, t.spans) || Eval(j, s.policy, t).None?)
  {
    var start := Start(storeCfg, cfg);
    var s, ws := Reached(j, start, actions), Writers(j, start, actions);
    var t := s.store.order[i];
    RunWritten(j, storeCfg, cfg, actions);
    assert Written(j, s, ws, t);
    if AsGoodAs(ws[t.id], s.policy, t.spans) || Eval(j, s.policy, t).None? {
      forall k | Peer(j, k) ensures AgreesAtEnd(k, start, actions, i) {
        EndsAlike(j, k, storeCfg, cfg, actions, i);
        if AsGoodAs(ws[t.id], s.policy, t.spans) {
          AsGoodAgrees(k, ws[t.id], s.policy, Reached(k, start, actions).store.order[i]);
        }
      }
    } else {
      var k := Separate(j, ws[t.id], s.policy, t);
      EndsAlike(j, k, storeCfg, cfg, actions, i);
      assert Peer(j, k) && !AgreesAtEnd(k, start, actions, i);
    }
  }

  /** Without policies, the engine succeeds on some prefix of the spans. */
  ghost predicate DropsSomePrefix(j: Judge, x: Writer, t: Trace) {
    x.cfg.policies == [] && exists n: nat :: n <= |t.spans| && j.eval(x.cfg, t.id, t.spans[..n]).Some?
  }

  lemma PrefixJustifies(k: Judge, installed: set<Config>, x: Writer, t: Trace)
    requires x.cfg in installed && x.spans <= t.spans && ShowsVerdict(k, x, t)
    ensures Justified(k, installed, t)
  {
    assert t.spans[..|x.spans|] == x.spans;
    assert JustifiedBy(k, x.cfg, |x.spans|, t);
  }

  lemma DropJustifies(j: Judge, k: Judge, installed: set<Config>, x: Writer, t: Trace)
    requires Peer(j, k) && x.cfg in installed && DropsSomePrefix(j, x, t) && ShowsVerdict(k, x, t)
    ensures Justified(k, installed, t)
  {
    var n: nat :| n <= |t.spans| && j.eval(x.cfg, t.id, t.spans[..n]).Some?;
    NoPoliciesDrop(k, x.cfg, t.id, x.spans);
    NoPoliciesDrop(k, x.cfg, t.id, t.spans[..n]);
    assert JustifiedBy(k, x.cfg, n, t);
  }

  /** All policies match, always. */
  ghost function Matching(j: Judge): Judge {
    Judge(j.compiles, (c: Config, id: TraceId, s: seq<FlatSpan>) =>
      if j.eval(c, id, s).None? then None else Some(AllOrNone(c.policies, true)))
  }

  /** An engine under which no policy on a prefix gives the writer's verdict. */
  lemma Unjustify(j: Judge, installed: set<Config>, x: Writer, t: Trace) returns (k: Judge)
    requires Regular(j) && x.cfg in installed && !(x.spans <= t.spans) && !DropsSomePrefix(j, x, t)
    requires j.eval(x.cfg, t.id, x.spans).Some?
    ensures Peer(j, k)
    ensures forall u | AlikeTrace(t, u) && ShowsVerdict(k, x, u) :: !Justified(k, installed, u)
  {
    if x.cfg.policies != [] {
      k := Singling(j, x.cfg.policies, x.spans);
      SinglingIsRegular(j, x.cfg.policies, x.spans);
      forall u, c: Config, n: nat | AlikeTrace(t, u) && ShowsVerdict(k, x, u) ensures !JustifiedBy(k, c, n, u) {
      }
    } else {
      k := Matching(j);
      forall u, c: Config, n: nat | AlikeTrace(t, u) && ShowsVerdict(k, x, u) ensures !JustifiedBy(k, c, n, u) {
        if n <= |u.spans| && c.policies == [] {
          assert j.eval(c, t.id, t.spans[..n]) == j.eval(x.cfg, t.id, t.spans[..n]);
        }
      }
    }
  }

  /**
   * Over the same engines, the verdict on a record is some installed policy's on some prefix of its
   * spans exactly when the spans its last writer saw are such a prefix, or the writer had no policies
   * and an empty list of policies succeeds on a prefix. They are one for every record not mistaken.
   */
  lemma LastWriterJustifies(j: Judge, storeCfg: StoreConfig, cfg: Config, actions: seq<Action>, i: nat)
    requires Regular(j) && Schedule(j, Start(storeCfg, cfg), actions)
    requires var s := Reached(j, Start(storeCfg, cfg), actions);
      i < |s.store.order| && s.store.order[i].id in Writers(j, Start(storeCfg, cfg), actions)
    ensures var start := Start(storeCfg, cfg);
      var s, ws := Reached(j, start, actions), Writers(j, start, actions);
      var t := s.store.order[i];
      && ((forall k | Peer(j, k) :: JustifiedAtEnd(k, start, actions, i)) <==>
            ws[t.id].spans <= t.spans || DropsSomePrefix(j, ws[t.id], t))
      && (t.id !in s.mistaken ==> ws[t.id].spans <= t.spans)
  {
    var start := Start(storeCfg, cfg);
    var s, ws := Reached(j, start, actions), Writers(j, start, actions);
    var t := s.store.order[i];
    RunWritten(j, storeCfg, cfg, actions);
    assert Written(j, s, ws, t);
    if ws[t.id].spans <= t.spans || DropsSomePrefix(j, ws[t.id], t) {
      forall k | Peer(j, k) ensures JustifiedAtEnd(k, start, actions, i) {
        EndsAlike(j, k, storeCfg, cfg, actions, i);
        EndJustified(j, k, s.installed, ws[t.id], t, Reached(k, start, actions).store.order[i]);
      }
    } else {
      var k := Unjustify(j, s.installed, ws[t.id], t);
      EndsAlike(j, k, storeCfg, cfg, actions, i);
      assert Peer(j, k) && !JustifiedAtEnd(k, start, actions, i);
    }
  }

  lemma EndJustified(j: Judge, k: Judge, installed: set<Config>, x: Writer, t: Trace, u: Trace)
    requires Peer(j, k) && x.cfg in installed && AlikeTrace(t, u) && ShowsVerdict(k, x, u)
    requires x.spans <= t.spans || DropsSomePrefix(j, x, t)
    ensures Justified(k, installed, u)
  {
    if x.spans <= t.spans {
      PrefixJustifies(k, installed, x, u);
    } else {
      DropJustifies(j, k, installed, x, u);
    }
  }
}
