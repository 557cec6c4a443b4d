/**
 * Three interleavings of the real policy engine that the serialised server does not have: a span
 * that comes late, a policy that is overtaken, and a record that is evicted and born again meanwhile.
 */
module Races {
  import opened Wrappers
  import opened Pdata
  import opened Policies
  import opened TraceTypes
  import opened Assembler
  import opened TraceList
  import opened StoreSpec
  import opened ServerSpec
  import opened Engines
  import opened DecisionRuns
  import opened Interleaving

  /** Keep traces of at least n spans, one nanosecond after their first. */
  function AtLeast(n: nat): Config {
    Config(1, [PolicyCfg("spans", One(SpanCount(n, 0)))])
  }

  lemma AtLeastEval(lib: Lib, n: nat, id: TraceId, spans: seq<FlatSpan>)
    ensures EngineJudge(lib).compiles(AtLeast(n))
    ensures EngineJudge(lib).eval(AtLeast(n), id, spans)
         == Some(EvalResult(if |spans| >= n then Keep else Drop, [PolicyResult("spans", |spans| >= n)]))
  {
    var ps := AtLeast(n).policies;
    assert ps[..0] == [];
    assert Outcome(lib, ps[0].spec, id, StoredViews(spans)) == Some(|spans| >= n);
    assert Results(lib, ps[..0], id, StoredViews(spans)) == Some([]);
    assert [] + [PolicyResult("spans", |spans| >= n)] == [PolicyResult("spans", |spans| >= n)];
    assert Results(lib, ps, id, StoredViews(spans)) == Some([PolicyResult("spans", |spans| >= n)]);
    assert [PolicyResult("spans", |spans| >= n)][0].matched == (|spans| >= n);
  }

  function ASpan(id: TraceId): FlatSpan {
    FlatSpan(id, 1, 0, "", 0, 0, 0, StatusUnset, "", "", map[], "", 0, 0)
  }

  function Spans(id: TraceId, n: nat): seq<FlatSpan> {
    if n == 1 then [ASpan(id)] else [ASpan(id), ASpan(id)]
  }

  lemma SizeOfSpans(id: TraceId, n: nat)
    requires 0 < n <= 2
    ensures SpansSize(Spans(id, n)) == n * SPAN_OVERHEAD
  {
    var one, two := [ASpan(id)], [ASpan(id), ASpan(id)];
    assert SpanSize(ASpan(id)) == SPAN_OVERHEAD by { assert ASpan(id).attributes == map[]; }
    assert one[..0] == [] && two == one + one;
    SpansSizeAppend(one, one);
  }

  /** A frame with spans of one trace. */
  function OneTrace(now: int, id: TraceId, n: nat): Action {
    Ingests(now, [id], map[id := Spans(id, n)])
  }

  lemma IngestOneTrace(s: StoreState, now: int, id: TraceId, spans: seq<FlatSpan>)
    ensures Walks([id], map[id := spans])
    ensures var merged := s.(order := IngestOne(s.order, now, id, spans),
        totalBytes := s.totalBytes + SpansSize(spans));
      Ingest(s, now, [id], map[id := spans]) == Evict(merged, now)
  {
    assert [id][..0] == [];
    var m := map[id := spans];
    assert IngestAll(s.order, now, [], m) == s.order && AddedBytes([], m) == 0;
  }

  function NewTrace(now: int, id: TraceId, n: nat): Trace {
    Trace(id, now, now, Spans(id, n), n * SPAN_OVERHEAD, Receiving, Pending, [])
  }

  /** A store of this many traces at most, holding one trace. */
  function Just(maxTraces: nat, t: Trace, evicted: nat): StoreState {
    StoreState(Defaulted(StoreConfig(maxTraces, 0, 0)), [t], t.sizeBytes, evicted)
  }

  lemma ArrivesFirst(maxTraces: nat, now: int, id: TraceId, n: nat)
    requires 0 < maxTraces && 0 < n <= 2
    ensures Walks([id], map[id := Spans(id, n)])
    ensures Ingest(EmptyStore(StoreConfig(maxTraces, 0, 0)), now, [id], map[id := Spans(id, n)]) ==
      Just(maxTraces, NewTrace(now, id, n), 0)
  {
    SizeOfSpans(id, n);
    IngestOneTrace(EmptyStore(StoreConfig(maxTraces, 0, 0)), now, id, Spans(id, n));
  }

  /** A trace that arrives at a store with room for one drives out the trace there. */
  lemma ArrivesInstead(t: Trace, evicted: nat, now: int, id: TraceId, n: nat)
    requires id != t.id && 0 < n <= 2
    ensures Walks([id], map[id := Spans(id, n)])
    ensures Ingest(Just(1, t, evicted), now, [id], map[id := Spans(id, n)]) ==
      Just(1, NewTrace(now, id, n), evicted + 1)
  {
    var s := Just(1, t, evicted);
    SizeOfSpans(id, n);
    IngestOneTrace(s, now, id, Spans(id, n));
    assert s.order[..0] == [];
    assert Find(s.order, id) == None && Without(s.order, [id]) == [t];
    var merged := s.(order := [t, NewTrace(now, id, n)], totalBytes := t.sizeBytes + n * SPAN_OVERHEAD);
    assert Evict(merged, now) == Evict(DropFront(merged), now);
    assert merged.order[1..] == [NewTrace(now, id, n)];
    assert DropFront(merged) == Just(1, NewTrace(now, id, n), evicted + 1);
  }

  /** A second span for the trace there. */
  lemma ArrivesLate(t: Trace, now: int)
    requires t.id == 1 && t.spans == Spans(1, 1) && t.sizeBytes == SPAN_OVERHEAD && t.state == Ready
    ensures Walks([1], map[1 := Spans(1, 1)])
    ensures Ingest(Just(2, t, 0), now, [1], map[1 := Spans(1, 1)])
         == Just(2, t.(spans := Spans(1, 2), lastSeen := now, sizeBytes := 2 * SPAN_OVERHEAD), 0)
  {
    SizeOfSpans(1, 1);
    IngestOneTrace(Just(2, t, 0), now, 1, Spans(1, 1));
    var order := [t];
    assert order[..0] == [];
    assert Find(order, 1) == Some(t) && Without(order, [1]) == [];
    assert Spans(1, 1) + Spans(1, 1) == Spans(1, 2);
  }

  lemma Then(judge: Judge, s: Machine, actions: seq<Action>, a: Action)
    requires Schedule(judge, s, actions) && Enabled(judge, Reached(judge, s, actions), a)
    ensures Schedule(judge, s, actions + [a])
    ensures Reached(judge, s, actions + [a]) == Perform(judge, Reached(judge, s, actions), a)
  {
    assert (actions + [a])[..|actions|] == actions;
  }

  lemma RebornOne(births: map<TraceId, nat>, order: seq<Trace>, id: TraceId)
    ensures Reborn(births, order, [id]) == births[id := Birth(births, id) + if Find(order, id).None? then 1 else 0]
  {
  }

  lemma Arrival(judge: Judge, s: Machine, now: int, id: TraceId, n: nat, p: Machine)
    requires Walks([id], map[id := Spans(id, n)]) && Ingest(s.store, now, [id], map[id := Spans(id, n)]) == p.store &&
      s.mistaken == {}
    requires p == s.(store := p.store,
        births := s.births[id := Birth(s.births, id) + if Find(s.store.order, id).None? then 1 else 0])
    ensures Perform(judge, s, OneTrace(now, id, n)) == p
  {
    RebornOne(s.births, s.store.order, id);
  }

  lemma OnlyOne(t: Trace, id: TraceId)
    ensures Find([t], id) == if t.id == id then Some(t) else None
  {
    assert [t][..0] == [];
  }

  function Due(n: nat): Trace {
    NewTrace(0, 1, n).(state := Ready)
  }

  /** The machine when its only trace, of n spans, has become due and its copy is in hand. */
  function InHand(maxTraces: nat, n: nat): Machine {
    Machine(Just(maxTraces, Due(n), 0), AtLeast(2), Deciding(AtLeast(2), [Copy(Due(n), 1)]), multiset{}, {AtLeast(2)},
        map[1 := 1], {})
  }

  function First(maxTraces: nat): Machine {
    Start(StoreConfig(maxTraces, 0, 0), AtLeast(2))
  }

  lemma Begin(lib: Lib, maxTraces: nat, n: nat) returns (actions: seq<Action>)
    requires 0 < maxTraces && 0 < n <= 2
    ensures Schedule(EngineJudge(lib), First(maxTraces), actions)
    ensures Reached(EngineJudge(lib), First(maxTraces), actions) == InHand(maxTraces, n)
  {
    var judge, s := EngineJudge(lib), First(maxTraces);
    ArrivesFirst(maxTraces, 0, 1, n);
    actions := [];
    Then(judge, s, actions, OneTrace(0, 1, n));
    actions := actions + [OneTrace(0, 1, n)];
    var arrived := Reached(judge, s, actions);
    assert arrived == s.(store := Just(maxTraces, NewTrace(0, 1, n), 0), births := map[1 := 1]);
    Then(judge, s, actions, ReadsEvaluator);
    actions := actions + [ReadsEvaluator];
    TakesOnly(judge, Reached(judge, s, actions), maxTraces, n);
    Then(judge, s, actions, TakesDue(1));
    actions := actions + [TakesDue(1)];
  }

  lemma TakesOnly(judge: Judge, s: Machine, maxTraces: nat, n: nat)
    requires s == Machine(Just(maxTraces, NewTrace(0, 1, n), 0), AtLeast(2), Holding(AtLeast(2)), multiset{},
        {AtLeast(2)}, map[1 := 1], {})
    ensures Perform(judge, s, TakesDue(1)) == InHand(maxTraces, n)
  {
    assert s.store.order[..0] == [];
    assert IsDue(NewTrace(0, 1, n), 1, 1);
    assert DueOf(s.store.order, 1, 1) == [Due(n)];
    assert MarkReady(s.store.order, 1, 1) == [Due(n)];
    assert Copies([Due(n)], s.births) == [Copy(Due(n), 1)];
  }

  /** The copy in hand is decided by AtLeast(2). */
  lemma AppliesOnly(lib: Lib, s: Machine, n: nat, t: Trace)
    requires s.decider == Deciding(AtLeast(2), [Copy(Due(n), 1)]) && 0 < n <= 2 && s.store.order == [t] && t.id == 1
    ensures var matched := if n == 2 then ["spans"] else [];
      Perform(EngineJudge(lib), s, Applies) ==
        s.(store := s.store.(order := [Decide(t, if n == 2 then Keep else Drop, matched)]),
           decider := Deciding(AtLeast(2), []),
           mistaken := if Birth(s.births, 1) == 1 then s.mistaken - {1} else s.mistaken + {1})
  {
    var verdict, matched := if n == 2 then Keep else Drop, if n == 2 then ["spans"] else [];
    AtLeastEval(lib, 2, 1, Spans(1, n));
    OneName(n == 2);
    assert ApplyDecision([t], 1, verdict, matched) == [Decide(t, verdict, matched)];
    assert [Copy(Due(n), 1)][1..] == [];
  }

  lemma OneName(matched: bool)
    ensures MatchedNames([PolicyResult("spans", matched)]) == if matched then ["spans"] else []
  {
    assert [PolicyResult("spans", matched)][..0] == [];
  }

  /** As InHand, with a second span that the copy does not have. */
  function Late(): Machine {
    InHand(2, 1).(store := Just(2, Due(1).(spans := Spans(1, 2), lastSeen := 1, sizeBytes := 2 * SPAN_OVERHEAD), 0))
  }

  lemma BeginLate(lib: Lib) returns (actions: seq<Action>)
    ensures Schedule(EngineJudge(lib), First(2), actions) && Reached(EngineJudge(lib), First(2), actions) == Late()
  {
    actions := Begin(lib, 2, 1);
    ArrivesLate(Due(1), 1);
    OnlyOne(Due(1), 1);
    Arrival(EngineJudge(lib), InHand(2, 1), 1, 1, 1, Late());
    Then(EngineJudge(lib), First(2), actions, OneTrace(1, 1, 1));
    actions := actions + [OneTrace(1, 1, 1)];
  }

  /**
   * A span that arrives while its trace is being decided: the trace ends up DECIDED, and not as the
   * policy in force says.
   */
  lemma LateSpanExample(lib: Lib) returns (actions: seq<Action>)
    ensures Schedule(EngineJudge(lib), First(2), actions)
    ensures var end := Reached(EngineJudge(lib), First(2), actions);
      && end.decider == Deciding(end.policy, []) && end.rewriting == multiset{} && |end.store.order| == 1
      && end.store.order[0].state.Decided? && !Agrees(EngineJudge(lib), end.policy, end.store.order[0])
  {
    var judge, s := EngineJudge(lib), First(2);
    actions := BeginLate(lib);
    AppliesOnly(lib, Late(), 1, Late().store.order[0]);
    AtLeastEval(lib, 2, 1, Spans(1, 2));
    Then(judge, s, actions, Applies);
    actions := actions + [Applies];
  }

  /** As InHand, after another policy has gone over the store. */
  lemma BeginOvertaken(lib: Lib) returns (actions: seq<Action>, end: Machine)
    ensures Schedule(EngineJudge(lib), First(2), actions) && Reached(EngineJudge(lib), First(2), actions) == end
    ensures end == InHand(2, 1).(store := end.store, policy := AtLeast(1), installed := end.installed)
    ensures end.store.order == [Reevaluated(EngineJudge(lib), AtLeast(1), Due(1))]
  {
    var judge, s := EngineJudge(lib), First(2);
    actions := Begin(lib, 2, 1);
    AtLeastEval(lib, 1, 1, Spans(1, 1));
    Then(judge, s, actions, Installs(AtLeast(1)));
    actions := actions + [Installs(AtLeast(1))];
    Then(judge, s, actions, Rewrites(AtLeast(1)));
    actions := actions + [Rewrites(AtLeast(1))];
    end := Reached(judge, s, actions);
  }

  /**
   * A new policy goes over the store while the old evaluator still holds a copy: its KEEP gives way to
   * the old DROP.
   */
  lemma OvertakenPolicyExample(lib: Lib) returns (actions: seq<Action>)
    ensures Schedule(EngineJudge(lib), First(2), actions)
    ensures var end := Reached(EngineJudge(lib), First(2), actions);
      && end.policy == AtLeast(1) && end.decider == Deciding(AtLeast(2), []) && end.rewriting == multiset{} &&
           |end.store.order| == 1
      && end.store.order[0].state.Decided? && !Agrees(EngineJudge(lib), end.policy, end.store.order[0])
  {
    var end;
    actions, end := BeginOvertaken(lib);
    AtLeastEval(lib, 1, 1, Spans(1, 1));
    AppliesOnly(lib, end, 1, end.store.order[0]);
    Then(EngineJudge(lib), First(2), actions, Applies);
    actions := actions + [Applies];
  }

  /** As InHand, but the trace was evicted and arrived again, with fewer spans. */
  function Again(): Machine {
    InHand(1, 2).(store := Just(1, NewTrace(2, 1, 1), 2), births := map[1 := 2, 2 := 1])
  }

  lemma BeginAgain(lib: Lib) returns (actions: seq<Action>)
    ensures Schedule(EngineJudge(lib), First(1), actions) && Reached(EngineJudge(lib), First(1), actions) == Again()
  {
    actions := Begin(lib, 1, 2);
    var between := InHand(1, 2).(store := Just(1, NewTrace(1, 2, 1), 1), births := map[1 := 1, 2 := 1]);
    FirstOut(lib, between);
    Then(EngineJudge(lib), First(1), actions, OneTrace(1, 2, 1));
    actions := actions + [OneTrace(1, 2, 1)];
    SecondOut(lib, between);
    Then(EngineJudge(lib), First(1), actions, OneTrace(2, 1, 1));
    actions := actions + [OneTrace(2, 1, 1)];
  }

  lemma FirstOut(lib: Lib, between: Machine)
    requires between == InHand(1, 2).(store := Just(1, NewTrace(1, 2, 1), 1), births := map[1 := 1, 2 := 1])
    ensures Walks([2], map[2 := Spans(2, 1)]) && Perform(EngineJudge(lib), InHand(1, 2), OneTrace(1, 2, 1)) == between
  {
    ArrivesInstead(Due(2), 0, 1, 2, 1);
    OnlyOne(Due(2), 2);
    Arrival(EngineJudge(lib), InHand(1, 2), 1, 2, 1, between);
  }

  lemma SecondOut(lib: Lib, between: Machine)
    requires between == InHand(1, 2).(store := Just(1, NewTrace(1, 2, 1), 1), births := map[1 := 1, 2 := 1])
    ensures Walks([1], map[1 := Spans(1, 1)]) && Perform(EngineJudge(lib), between, OneTrace(2, 1, 1)) == Again()
  {
    ArrivesInstead(NewTrace(1, 2, 1), 1, 2, 1, 1);
    OnlyOne(NewTrace(1, 2, 1), 1);
    Arrival(EngineJudge(lib), between, 2, 1, 1, Again());
  }

  /**
   * A trace evicted and created again while its old copy is being decided: no installed policy gives
   * its KEEP on any prefix.
   */
  lemma BornAgainExample(lib: Lib) returns (actions: seq<Action>)
    ensures Schedule(EngineJudge(lib), First(1), actions)
    ensures var end := Reached(EngineJudge(lib), First(1), actions);
      && |end.store.order| == 1 && end.store.order[0].decision == Keep && end.mistaken == {1}
      && !Justified(EngineJudge(lib), end.installed, end.store.order[0])
  {
    var judge, s := EngineJudge(lib), First(1);
    actions := BeginAgain(lib);
    AppliesOnly(lib, Again(), 2, NewTrace(2, 1, 1));
    Then(judge, s, actions, Applies);
    actions := actions + [Applies];
    OneSpanIsDropped(lib, Decide(NewTrace(2, 1, 1), Keep, ["spans"]));
  }

  lemma OneSpanIsDropped(lib: Lib, t: Trace)
    requires |t.spans| == 1 && t.decision == Keep
    ensures !Justified(EngineJudge(lib), {AtLeast(2)}, t)
  {
    forall n: nat | n <= 1 ensures !JustifiedBy(EngineJudge(lib), AtLeast(2), n, t) {
      AtLeastEval(lib, 2, t.id, t.spans[..n]);
    }
  }
}
