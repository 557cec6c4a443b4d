/**
 * Statistics when resets, walks over the store and recordings interleave with everything else: what
 * observed still covers, and when it is the number of DECIDED traces.
 */
module InterleavedStatistics {
  import opened Pdata
  import opened Policies
  import opened TraceTypes
  import opened TraceList
  import opened StoreSpec
  import opened Statistics
  import opened Fidelity
  import opened ServerSpec
  import opened Engines
  import opened DecisionRuns
  import opened EndToEnd
  import opened Interleaving

  /**
   * The machine of the store's locks with the statistics engine beside it. uncounted are results
   * already applied and not yet recorded; toReset and toRewrite are the SetPolicy calls that have
   * still to reset the statistics, and those that have and are still to go over the store.
   */
  datatype Counting = Counting(
    machine: Machine, stats: Stats, uncounted: multiset<EvalResult>,
    toReset: multiset<Config>, toRewrite: multiset<Config>)

  datatype Step =
    | Locks(a: Action)
    | Resets(cfg: Config)
    | Records(r: EvalResult)

  ghost predicate Possible(judge: Judge, s: Counting, e: Step) {
    match e
    case Locks(a) => Enabled(judge, s.machine, a) && (a.Rewrites? ==> a.cfg in s.toRewrite)
    case Resets(cfg) => cfg in s.toReset
    case Records(r) => r in s.uncounted
  }

  /** What one locked step leaves to be recorded. */
  ghost function Results(judge: Judge, s: Machine, a: Action): seq<EvalResult>
    requires Enabled(judge, s, a)
  {
    match a
    case Applies =>
      var u := s.decider.todo[0].trace;
      var r := Eval(judge, s.decider.cfg, u);
      if r.Some? && Find(s.store.order, u.id).Some? then [r.value] else []
    case Rewrites(cfg) => DecidedResults(judge, cfg, s.store.order)
    case _ => []
  }

  ghost function Next(judge: Judge, s: Counting, e: Step): Counting
    requires Possible(judge, s, e)
  {
    match e
    case Locks(a) =>
      s.(machine := Perform(judge, s.machine, a), uncounted := s.uncounted + multiset(Results(judge, s.machine, a)),
         toReset := if a.Installs? then s.toReset + multiset{a.cfg} else s.toReset,
         toRewrite := if a.Rewrites? then s.toRewrite - multiset{a.cfg} else s.toRewrite)
    case Resets(cfg) =>
      s.(stats := ZERO, toReset := s.toReset - multiset{cfg}, toRewrite := s.toRewrite + multiset{cfg})
    case Records(r) => s.(stats := Recorded(s.stats, r), uncounted := s.uncounted - multiset{r})
  }

  function Begin(storeCfg: StoreConfig, cfg: Config): Counting {
    Counting(Start(storeCfg, cfg), ZERO, multiset{}, multiset{}, multiset{})
  }

  ghost predicate Schedule(judge: Judge, s: Counting, steps: seq<Step>)
    decreases |steps|, 0
  {
    steps == [] ||
      (Schedule(judge, s, steps[..|steps| - 1]) &&
          Possible(judge, After(judge, s, steps[..|steps| - 1]), steps[|steps| - 1]))
  }

  ghost function After(judge: Judge, s: Counting, steps: seq<Step>): Counting
    requires Schedule(judge, s, steps)
    decreases |steps|, 1
  {
    if steps == [] then s else Next(judge, After(judge, s, steps[..|steps| - 1]), steps[|steps| - 1])
  }

  /** Every policy this step installs evaluates every trace. */
  ghost predicate InstallsAnswering(judge: Judge, e: Step) {
    e.Locks? && e.a.Installs? ==> Answers(judge, e.a.cfg)
  }

  ghost predicate AllInstallAnswering(judge: Judge, steps: seq<Step>) {
    forall i :: 0 <= i < |steps| ==> InstallsAnswering(judge, steps[i])
  }

  /**
   * All installed policies answer, and observed is kept plus dropped; and unless a reset still waits
   * for its walk over the store, the observed and the uncounted together are at least the DECIDED traces.
   */
  ghost predicate Covers(judge: Judge, s: Counting) {
    && Inv(judge, s.machine) && (forall cfg <- s.machine.installed :: Answers(judge, cfg))
    && s.stats.observed == s.stats.keep + s.stats.drop
    && (s.toRewrite == multiset{} ==> DecidedCount(s.machine.store.order) <= s.stats.observed + |s.uncounted|)
  }

  // ---- how steps change the number of DECIDED traces ----

  lemma IngestDecides(judge: Judge, s: Machine, a: Action)
    requires Answers(judge, s.policy) && a.Ingests? && Enabled(judge, s, a)
    ensures DecidedCount(Perform(judge, s, a).store.order) <= DecidedCount(s.store.order)
  {
    var whole := ServerState(s.store, s.policy, ZERO, 0, 0);
    FrameCounts(judge, whole, a.now, a.ids, a.m);
    AnsweringCountsAll(judge, s.policy, s.store.order);
    AnsweringCountsAll(judge, s.policy, Perform(judge, s, a).store.order);
  }

  /** Traces whose states do not become DECIDED. */
  lemma {:induction false} SameDecided(a: seq<Trace>, b: seq<Trace>)
    requires |a| == |b| && forall i :: 0 <= i < |a| ==> (b[i].state.Decided? ==> a[i].state.Decided?)
    ensures DecidedCount(b) <= DecidedCount(a)
  {
    if a != [] {
      SameDecided(a[..|a| - 1], b[..|b| - 1]);
    }
  }

  lemma {:induction false} ApplyDecides(order: seq<Trace>, id: TraceId, decision: Decision, matched: seq<string>)
    requires Distinct(Ids(order))
    ensures DecidedCount(ApplyDecision(order, id, decision, matched)) <=
      DecidedCount(order) + if Find(order, id).Some? then 1 else 0
  {
    if order != [] {
      var init := order[..|order| - 1];
      DistinctInit(order);
      ApplyDecides(init, id, decision, matched);
      assert ApplyDecision(order, id, decision, matched)[..|init|] == ApplyDecision(init, id, decision, matched);
      if order[|init|].id == id {
        FindIs(init, id);
      }
    }
  }

  /** A walk records each DECIDED trace once, and decides none. */
  lemma RewriteDecides(judge: Judge, s: Machine, a: Action)
    requires a.Rewrites? && Answers(judge, a.cfg) && Enabled(judge, s, a)
    ensures DecidedCount(Perform(judge, s, a).store.order) == |Results(judge, s, a)| == DecidedCount(s.store.order)
  {
    PolicyCounts(judge, a.cfg, s.store.order, Perform(judge, s, a).store.order);
    AnsweringCountsAll(judge, a.cfg, Perform(judge, s, a).store.order);
    SameDecided(s.store.order, Perform(judge, s, a).store.order);
    SameDecided(Perform(judge, s, a).store.order, s.store.order);
  }

  lemma LocksDecide(judge: Judge, s: Machine, a: Action)
    requires Inv(judge, s) && Enabled(judge, s, a) && forall cfg <- s.installed :: Answers(judge, cfg)
    ensures a.Rewrites? ==> DecidedCount(Perform(judge, s, a).store.order) == |Results(judge, s, a)|
    ensures !a.Rewrites? ==>
      DecidedCount(Perform(judge, s, a).store.order) <= DecidedCount(s.store.order) + |Results(judge, s, a)|
  {
    match a {
      case Ingests(_, _, _) => IngestDecides(judge, s, a);
      case Rewrites(_) => RewriteDecides(judge, s, a);
      case Applies =>
        var u := s.decider.todo[0].trace;
        var r := Eval(judge, s.decider.cfg, u).value;
        ApplyDecides(s.store.order, u.id, r.decision, MatchedNames(r.policies));
      case _ => SameDecided(s.store.order, Perform(judge, s, a).store.order);
    }
  }

  lemma InstalledAnswer(judge: Judge, s: Machine, a: Action)
    requires Enabled(judge, s, a) && InstallsAnswering(judge, Locks(a)) &&
      forall cfg <- s.installed :: Answers(judge, cfg)
    ensures forall cfg <- Perform(judge, s, a).installed :: Answers(judge, cfg)
  {
  }

  lemma StepCovers(judge: Judge, s: Counting, e: Step)
    requires InstallsAnswering(judge, e) && Possible(judge, s, e) && Covers(judge, s)
    ensures Covers(judge, Next(judge, s, e))
  {
    if e.Locks? {
      PerformKeeps(judge, s.machine, e.a);
      LocksDecide(judge, s.machine, e.a);
      InstalledAnswer(judge, s.machine, e.a);
    }
  }

  /** In every interleaving in which only policies that answer are installed. */
  lemma {:induction false} RunCovers(judge: Judge, storeCfg: StoreConfig, cfg: Config, steps: seq<Step>)
    requires Answers(judge, cfg) && AllInstallAnswering(judge, steps)
    requires Schedule(judge, Begin(storeCfg, cfg), steps)
    ensures Covers(judge, After(judge, Begin(storeCfg, cfg), steps))
  {
    if steps != [] {
      RunCovers(judge, storeCfg, cfg, steps[..|steps| - 1]);
      StepCovers(judge, After(judge, Begin(storeCfg, cfg), steps[..|steps| - 1]), steps[|steps| - 1]);
    }
  }

  /** No result is still to be recorded, and no reset waits for its walk. */
  ghost predicate AtRest(s: Counting) {
    s.uncounted == multiset{} && s.toRewrite == multiset{}
  }

  /** At rest observed is kept plus dropped and covers every DECIDED trace on display. */
  lemma AtRestCovers(judge: Judge, storeCfg: StoreConfig, cfg: Config, steps: seq<Step>)
    requires Answers(judge, cfg) && AllInstallAnswering(judge, steps)
    requires Schedule(judge, Begin(storeCfg, cfg), steps) && AtRest(After(judge, Begin(storeCfg, cfg), steps))
    ensures var s := After(judge, Begin(storeCfg, cfg), steps);
      && s.stats.observed == s.stats.keep + s.stats.drop
      && DecidedCount(s.machine.store.order) <= s.stats.observed
  {
    RunCovers(judge, storeCfg, cfg, steps);
  }

  /** The same of the repository's engine, as long as no OTTL condition is installed. */
  lemma EngineAtRestCovers(lib: Lib, storeCfg: StoreConfig, cfg: Config, steps: seq<Step>)
    requires ConfigCompiles(lib, cfg) && WithoutOTTL(cfg)
    requires forall e <- steps :: e.Locks? && e.a.Installs? ==> WithoutOTTL(e.a.cfg)
    requires Schedule(EngineJudge(lib), Begin(storeCfg, cfg), steps)
    requires AtRest(After(EngineJudge(lib), Begin(storeCfg, cfg), steps))
    ensures var s := After(EngineJudge(lib), Begin(storeCfg, cfg), steps);
      && s.stats.observed == s.stats.keep + s.stats.drop
      && DecidedCount(s.machine.store.order) <= s.stats.observed
  {
    EngineAnswers(lib, cfg);
    forall i | 0 <= i < |steps| ensures InstallsAnswering(EngineJudge(lib), steps[i]) {
      if steps[i].Locks? && steps[i].a.Installs? {
        InstalledCompiles(EngineJudge(lib), Begin(storeCfg, cfg), steps, i);
        EngineAnswers(lib, steps[i].a.cfg);
      }
    }
    AtRestCovers(EngineJudge(lib), storeCfg, cfg, steps);
  }

  /** A policy is only installed if it compiles. */
  lemma {:induction false} InstalledCompiles(judge: Judge, start: Counting, steps: seq<Step>, i: nat)
    requires Schedule(judge, start, steps) && i < |steps| && steps[i].Locks? && steps[i].a.Installs?
    ensures judge.compiles(steps[i].a.cfg)
  {
    if i < |steps| - 1 {
      InstalledCompiles(judge, start, steps[..|steps| - 1], i);
    }
  }

  // ---- when observed is the number of DECIDED traces ----

  /**
   * A walk over the store leaves the observed and the uncounted together equal to the DECIDED traces
   * exactly when there were none of either before it.
   */
  lemma WalkCountsExactly(judge: Judge, s: Counting, a: Action)
    requires a.Rewrites? && Answers(judge, a.cfg) && Possible(judge, s, Locks(a))
    ensures var t := Next(judge, s, Locks(a));
      t.stats.observed + |t.uncounted| == DecidedCount(t.machine.store.order) <==>
        s.stats.observed == 0 && s.uncounted == multiset{}
  {
    RewriteDecides(judge, s.machine, a);
  }

  ghost predicate Leads(judge: Judge, start: Counting, steps: seq<Step>, t: Counting) {
    Schedule(judge, start, steps) && After(judge, start, steps) == t
  }

  lemma Then(judge: Judge, start: Counting, steps: seq<Step>, t: Counting, e: Step)
    returns (more: seq<Step>, u: Counting)
    requires Leads(judge, start, steps, t) && Possible(judge, t, e)
    ensures Leads(judge, start, more, u) && u == Next(judge, t, e)
  {
    more, u := steps + [e], Next(judge, t, e);
    assert more[..|steps|] == steps;
  }

  /** Everything that is uncounted gets recorded. */
  lemma RecordAllThen(judge: Judge, start: Counting, steps: seq<Step>, t: Counting)
    returns (more: seq<Step>, u: Counting)
    requires Leads(judge, start, steps, t)
    ensures Leads(judge, start, more, u)
    ensures u == t.(stats := u.stats, uncounted := multiset{}) && u.stats.observed == t.stats.observed + |t.uncounted|
    decreases |t.uncounted|
  {
    more, u := steps, t;
    if |t.uncounted| > 0 {
      var r :| r in t.uncounted;
      more, u := Then(judge, start, steps, t, Records(r));
      more, u := RecordAllThen(judge, start, more, u);
    }
  }

  /** SetPolicy up to its reset. */
  lemma InstallAndReset(judge: Judge, start: Counting, steps: seq<Step>, t: Counting, c: Config)
    returns (more: seq<Step>, u: Counting)
    requires Leads(judge, start, steps, t) && judge.compiles(c)
    ensures Leads(judge, start, more, u)
    ensures u.stats == ZERO && u.uncounted == t.uncounted && u.toRewrite == t.toRewrite + multiset{c}
    ensures u.machine.store == t.machine.store && u.machine.policy == c
    ensures u.machine.rewriting == t.machine.rewriting + multiset{c}
  {
    more, u := Then(judge, start, steps, t, Locks(Installs(c)));
    more, u := Then(judge, start, more, u, Resets(c));
  }

  /** Its walk over the store. */
  lemma Walk(judge: Judge, start: Counting, steps: seq<Step>, t: Counting, c: Config)
    returns (more: seq<Step>, u: Counting)
    requires Leads(judge, start, steps, t) && Answers(judge, c) && c in t.machine.rewriting && c in t.toRewrite
    ensures Leads(judge, start, more, u)
    ensures u.stats == t.stats && u.toRewrite == t.toRewrite - multiset{c}
    ensures u.machine.rewriting == t.machine.rewriting - multiset{c} && u.machine.policy == t.machine.policy
    ensures DecidedCount(u.machine.store.order) == DecidedCount(t.machine.store.order)
    ensures |u.uncounted| == |t.uncounted| + DecidedCount(t.machine.store.order)
  {
    RewriteDecides(judge, t.machine, Rewrites(c));
    more, u := Then(judge, start, steps, t, Locks(Rewrites(c)));
  }

  /** A SetPolicy call that nothing interrupts leaves observed equal to the DECIDED traces. */
  lemma OneWalk(judge: Judge, start: Counting, steps: seq<Step>, t: Counting, c: Config)
    returns (more: seq<Step>, u: Counting)
    requires Leads(judge, start, steps, t) && AtRest(t) && judge.compiles(c) && Answers(judge, c)
    ensures Leads(judge, start, more, u) && AtRest(u) && u.machine.policy == c
    ensures DecidedCount(u.machine.store.order) == DecidedCount(t.machine.store.order) == u.stats.observed
  {
    more, u := InstallAndReset(judge, start, steps, t, c);
    more, u := Walk(judge, start, more, u, c);
    more, u := RecordAllThen(judge, start, more, u);
  }

  /** Two whose resets both come before their walks leave it at twice their number. */
  lemma TwoWalks(judge: Judge, start: Counting, steps: seq<Step>, t: Counting, c: Config)
    returns (more: seq<Step>, u: Counting)
    requires Leads(judge, start, steps, t) && AtRest(t) && judge.compiles(c) && Answers(judge, c)
    ensures Leads(judge, start, more, u) && AtRest(u) && u.machine.policy == c
    ensures DecidedCount(u.machine.store.order) == DecidedCount(t.machine.store.order)
    ensures u.stats.observed == 2 * DecidedCount(u.machine.store.order)
  {
    more, u := InstallAndReset(judge, start, steps, t, c);
    more, u := InstallAndReset(judge, start, more, u, c);
    more, u := Walk(judge, start, more, u, c);
    more, u := Walk(judge, start, more, u, c);
    more, u := RecordAllThen(judge, start, more, u);
  }
}
