/**
 * The preview server's steps on values: a frame arrives, the timer ticks, the policy is replaced,
 * each without another step in between; and runs of such steps.
 */
module ServerSpec {
  import opened Wrappers
  import opened Pdata
  import opened Policies
  import opened TraceTypes
  import opened Assembler
  import opened TraceList
  import opened StoreSpec
  import opened Statistics

  /**
   * What the server asks of the policy engine: which configurations compile, and the result
   * for a trace's spans (None is an evaluation error). Any functions will do here;
   * the engine of PolicyEngine is one choice.
   */
  datatype Judge = Judge(
    compiles: Config -> bool,
    eval: (Config, TraceId, seq<FlatSpan>) -> Option<EvalResult>)

  datatype ServerState = ServerState(store: StoreState, cfg: Config, stats: Stats, spansReceived: nat,
      tracesReceived: nat)

  const DEFAULT_WAIT := 30_000_000_000

  const DEFAULT_POLICY := Config(DEFAULT_WAIT, [PolicyCfg("errors", One(StatusCode(["ERROR"])))])

  /** An initial policy without a decision wait gives way, policies and all, to the default one. */
  function EffectivePolicy(initial: Config): Config {
    if initial.decisionWait <= 0 then DEFAULT_POLICY else initial
  }

  function WaitOf(cfg: Config): int {
    if cfg.decisionWait <= 0 then DEFAULT_WAIT else cfg.decisionWait
  }

  function Eval(j: Judge, cfg: Config, t: Trace): Option<EvalResult> {
    j.eval(cfg, t.id, t.spans)
  }

  function InitialState(storeCfg: StoreConfig, cfg: Config): ServerState {
    ServerState(EmptyStore(storeCfg), cfg, ZERO, 0, 0)
  }

  // ---- decideDue ----

  /** One due copy is evaluated and its result applied to the live trace, if that is still here. */
  ghost function DecideOne(judge: Judge, cfg: Config, o: seq<Trace>, st: Stats, t: Trace): (seq<Trace>, Stats) {
    match Eval(judge, cfg, t)
    case None => (o, st)
    case Some(r) =>
      if Find(o, t.id).None? then (o, st)
      else (ApplyDecision(o, t.id, r.decision, MatchedNames(r.policies)), Recorded(st, r))
  }

  /** The loop over the due copies. */
  ghost function DecideEach(judge: Judge, cfg: Config, order: seq<Trace>, stats: Stats,
      due: seq<Trace>): (seq<Trace>, Stats) {
    if due == [] then (order, stats)
    else
      var (o, st) := DecideEach(judge, cfg, order, stats, due[..|due| - 1]);
      DecideOne(judge, cfg, o, st, due[|due| - 1])
  }

  lemma DecideEachNext(judge: Judge, cfg: Config, order: seq<Trace>, stats: Stats, due: seq<Trace>, t: Trace)
    ensures var (o, st) := DecideEach(judge, cfg, order, stats, due);
      DecideEach(judge, cfg, order, stats, due + [t]) == DecideOne(judge, cfg, o, st, t)
  {
    assert (due + [t])[..|due|] == due;
  }

  ghost function DecideDue(judge: Judge, s: ServerState, now: int): ServerState {
    var order, wait := s.store.order, WaitOf(s.cfg);
    var (o, st) := DecideEach(judge, s.cfg, MarkReady(order, now, wait), s.stats, DueOf(order, now, wait));
    s.(store := s.store.(order := o), stats := st)
  }

  /** What decideDue does to one trace. */
  ghost function AfterDecide(judge: Judge, cfg: Config, now: int, t: Trace): Trace {
    if !IsDue(t, now, WaitOf(cfg)) then t
    else
      match Eval(judge, cfg, t)
      case None => t.(state := Ready)
      case Some(r) => Decide(t, r.decision, MatchedNames(r.policies))
  }

  /** The results decideDue records. */
  ghost function DueResults(judge: Judge, cfg: Config, now: int, order: seq<Trace>): seq<EvalResult> {
    if order == [] then []
    else
      var last := order[|order| - 1];
      var rs := DueResults(judge, cfg, now, order[..|order| - 1]);
      if IsDue(last, now, WaitOf(cfg)) && Eval(judge, cfg, last).Some? then rs + [Eval(judge, cfg, last).value] else rs
  }

  /** The list when the loop has decided the due traces among the first i. */
  ghost function DecidedUpTo(judge: Judge, cfg: Config, now: int, order: seq<Trace>, i: nat): (r: seq<Trace>)
    requires i <= |order|
    ensures |r| == |order|
  {
    if i == 0 then MarkReady(order, now, WaitOf(cfg))
    else DecidedUpTo(judge, cfg, now, order, i - 1)[i - 1 := AfterDecide(judge, cfg, now, order[i - 1])]
  }

  lemma {:induction false} DecidedUpToAt(judge: Judge, cfg: Config, now: int, order: seq<Trace>, i: nat, j: nat)
    requires i <= |order| && j < |order|
    ensures DecidedUpTo(judge, cfg, now, order, i)[j] ==
      if j < i then AfterDecide(judge, cfg, now, order[j]) else MarkReady(order, now, WaitOf(cfg))[j]
  {
    if i > 0 {
      DecidedUpToAt(judge, cfg, now, order, i - 1, j);
    }
  }

  lemma DecidedUpToIds(judge: Judge, cfg: Config, now: int, order: seq<Trace>, i: nat)
    requires i <= |order|
    ensures Ids(DecidedUpTo(judge, cfg, now, order, i)) == Ids(order)
  {
    forall j | 0 <= j < |order| ensures DecidedUpTo(judge, cfg, now, order, i)[j].id == order[j].id {
      DecidedUpToAt(judge, cfg, now, order, i, j);
    }
  }

  /** One more trace of the list: its due copy, if there is one, is decided. */
  lemma DecideNext(judge: Judge, cfg: Config, now: int, order: seq<Trace>, i: nat)
    requires 0 < i <= |order| && Distinct(Ids(order))
    ensures var t, before := order[i - 1], DecidedUpTo(judge, cfg, now, order, i - 1);
      var due := IsDue(t, now, WaitOf(cfg));
      && (due && Eval(judge, cfg, t).Some? ==>
           && Find(before, t.id).Some?
           && ApplyDecision(before, t.id, Eval(judge, cfg, t).value.decision,
                  MatchedNames(Eval(judge, cfg, t).value.policies))
              == DecidedUpTo(judge, cfg, now, order, i))
      && (!due || Eval(judge, cfg, t).None? ==> before == DecidedUpTo(judge, cfg, now, order, i))
  {
    var t, before := order[i - 1], DecidedUpTo(judge, cfg, now, order, i - 1);
    DecidedUpToAt(judge, cfg, now, order, i - 1, i - 1);
    if IsDue(t, now, WaitOf(cfg)) && Eval(judge, cfg, t).Some? {
      DecidedUpToIds(judge, cfg, now, order, i - 1);
      var r := Eval(judge, cfg, t).value;
      ApplyAt(before, i - 1, r.decision, MatchedNames(r.policies));
    }
  }

  lemma DueResultsNext(judge: Judge, cfg: Config, now: int, order: seq<Trace>, i: nat)
    requires 0 < i <= |order|
    ensures var rs, t := DueResults(judge, cfg, now, order[..i - 1]), order[i - 1];
      DueResults(judge, cfg, now, order[..i]) ==
        if IsDue(t, now, WaitOf(cfg)) && Eval(judge, cfg, t).Some? then rs + [Eval(judge, cfg, t).value] else rs
  {
    assert order[..i][..i - 1] == order[..i - 1];
  }

  lemma RecordAllNext(stats: Stats, rs: seq<EvalResult>, r: EvalResult)
    ensures RecordAll(stats, rs + [r]) == Recorded(RecordAll(stats, rs), r)
  {
    assert (rs + [r])[..|rs|] == rs;
  }

  lemma DecideDueCopy(judge: Judge, cfg: Config, now: int, order: seq<Trace>, start: seq<Trace>, stats: Stats,
      i: nat, due: seq<Trace>, rs: seq<EvalResult>)
    requires 0 < i <= |order| && Distinct(Ids(order)) && IsDue(order[i - 1], now, WaitOf(cfg))
    requires DecideEach(judge, cfg, start, stats, due) ==
      (DecidedUpTo(judge, cfg, now, order, i - 1), RecordAll(stats, rs))
    ensures var t, r := order[i - 1], Eval(judge, cfg, order[i - 1]);
      DecideEach(judge, cfg, start, stats, due + [t.(state := Ready)])
        == (DecidedUpTo(judge, cfg, now, order, i), RecordAll(stats, if r.Some? then rs + [r.value] else rs))
  {
    DecideNext(judge, cfg, now, order, i);
    DecideEachNext(judge, cfg, start, stats, due, order[i - 1].(state := Ready));
    var r := Eval(judge, cfg, order[i - 1]);
    if r.Some? {
      RecordAllNext(stats, rs, r.value);
    }
  }

  lemma NotDueNext(judge: Judge, cfg: Config, now: int, order: seq<Trace>, i: nat)
    requires 0 < i <= |order| && Distinct(Ids(order)) && !IsDue(order[i - 1], now, WaitOf(cfg))
    ensures DecidedUpTo(judge, cfg, now, order, i) == DecidedUpTo(judge, cfg, now, order, i - 1)
    ensures DueOf(order[..i], now, WaitOf(cfg)) == DueOf(order[..i - 1], now, WaitOf(cfg))
    ensures DueResults(judge, cfg, now, order[..i]) == DueResults(judge, cfg, now, order[..i - 1])
  {
    DecideNext(judge, cfg, now, order, i);
    DueNext(order, i - 1, now, WaitOf(cfg));
    DueResultsNext(judge, cfg, now, order, i);
  }

  /** The loop over the due copies has done its share of the first i traces. */
  ghost predicate DecidesUpTo(judge: Judge, cfg: Config, now: int, order: seq<Trace>, start: seq<Trace>, stats: Stats,
      i: nat)
    requires i <= |order|
  {
    DecideEach(judge, cfg, start, stats, DueOf(order[..i], now, WaitOf(cfg)))
      == (DecidedUpTo(judge, cfg, now, order, i), RecordAll(stats, DueResults(judge, cfg, now, order[..i])))
  }

  lemma DueNextUpTo(judge: Judge, cfg: Config, now: int, order: seq<Trace>, start: seq<Trace>, stats: Stats, i: nat)
    requires 0 < i <= |order| && Distinct(Ids(order)) && IsDue(order[i - 1], now, WaitOf(cfg))
    requires DecidesUpTo(judge, cfg, now, order, start, stats, i - 1)
    ensures DecidesUpTo(judge, cfg, now, order, start, stats, i)
  {
    DueNext(order, i - 1, now, WaitOf(cfg));
    DueResultsNext(judge, cfg, now, order, i);
    DecideDueCopy(judge, cfg, now, order, start, stats, i, DueOf(order[..i - 1], now, WaitOf(cfg)),
        DueResults(judge, cfg, now, order[..i - 1]));
  }

  lemma {:induction false} DecideEachUpTo(judge: Judge, cfg: Config, now: int, order: seq<Trace>,
      start: seq<Trace>, stats: Stats, i: nat)
    requires i <= |order| && Distinct(Ids(order)) && start == DecidedUpTo(judge, cfg, now, order, 0)
    ensures DecidesUpTo(judge, cfg, now, order, start, stats, i)
  {
    if i > 0 {
      DecideEachUpTo(judge, cfg, now, order, start, stats, i - 1);
      if IsDue(order[i - 1], now, WaitOf(cfg)) {
        DueNextUpTo(judge, cfg, now, order, start, stats, i);
      } else {
        NotDueNext(judge, cfg, now, order, i);
      }
    }
  }

  /** decideDue, trace by trace: the loop over copies decides each due trace once and no other. */
  lemma DecideDueIs(judge: Judge, s: ServerState, now: int)
    requires Distinct(Ids(s.store.order))
    ensures var t := DecideDue(judge, s, now);
      && t == s.(store := s.store.(order := t.store.order),
             stats := RecordAll(s.stats, DueResults(judge, s.cfg, now, s.store.order)))
      && |t.store.order| == |s.store.order|
      && forall i :: 0 <= i < |s.store.order| ==> t.store.order[i] == AfterDecide(judge, s.cfg, now, s.store.order[i])
  {
    var order := s.store.order;
    assert order[..|order|] == order;
    DecideEachUpTo(judge, s.cfg, now, order, DecidedUpTo(judge, s.cfg, now, order, 0), s.stats, |order|);
    forall i | 0 <= i < |order|
      ensures DecidedUpTo(judge, s.cfg, now, order, |order|)[i] == AfterDecide(judge, s.cfg, now, order[i])
    {
      DecidedUpToAt(judge, s.cfg, now, order, |order|, i);
    }
  }

  // ---- SetPolicy ----

  ghost function Reevaluated(judge: Judge, cfg: Config, t: Trace): Trace {
    match Eval(judge, cfg, t)
    case None => t
    case Some(r) => t.(decision := r.decision, matched := MatchedNames(r.policies))
  }

  ghost function ReevaluateAll(judge: Judge, cfg: Config, order: seq<Trace>): (r: seq<Trace>)
    ensures |r| == |order|
    ensures forall i :: 0 <= i < |order| ==> r[i] == Reevaluated(judge, cfg, order[i])
  {
    seq(|order|, i requires 0 <= i < |order| => Reevaluated(judge, cfg, order[i]))
  }

  /** The list when the loop has re-evaluated the first i traces. */
  ghost function ReevaluatedUpTo(judge: Judge, cfg: Config, order: seq<Trace>, i: nat): (r: seq<Trace>)
    requires i <= |order|
    ensures |r| == |order|
  {
    if i == 0 then order
    else ReevaluatedUpTo(judge, cfg, order, i - 1)[i - 1 := Reevaluated(judge, cfg, order[i - 1])]
  }

  lemma {:induction false} ReevaluatedUpToAt(judge: Judge, cfg: Config, order: seq<Trace>, i: nat, j: nat)
    requires i <= |order| && j < |order|
    ensures ReevaluatedUpTo(judge, cfg, order, i)[j] == if j < i then Reevaluated(judge, cfg, order[j]) else order[j]
  {
    if i > 0 {
      ReevaluatedUpToAt(judge, cfg, order, i - 1, j);
    }
  }

  lemma ReevaluatedAtEnd(judge: Judge, cfg: Config, order: seq<Trace>)
    ensures ReevaluatedUpTo(judge, cfg, order, |order|) == ReevaluateAll(judge, cfg, order)
  {
    forall j | 0 <= j < |order|
      ensures ReevaluatedUpTo(judge, cfg, order, |order|)[j] == Reevaluated(judge, cfg, order[j])
    {
      ReevaluatedUpToAt(judge, cfg, order, |order|, j);
    }
  }

  lemma DecidedResultsNext(judge: Judge, cfg: Config, order: seq<Trace>, i: nat)
    requires 0 < i <= |order|
    ensures var rs, t := DecidedResults(judge, cfg, order[..i - 1]), order[i - 1];
      DecidedResults(judge, cfg, order[..i]) == if Counted(judge, cfg, t) then rs + [Eval(judge, cfg, t).value] else rs
  {
    assert order[..i][..i - 1] == order[..i - 1];
  }

  ghost predicate Counted(judge: Judge, cfg: Config, t: Trace) {
    t.state.Decided? && Eval(judge, cfg, t).Some?
  }

  /** The results SetPolicy records: those of DECIDED traces. */
  ghost function DecidedResults(judge: Judge, cfg: Config, order: seq<Trace>): seq<EvalResult> {
    if order == [] then []
    else
      var last := order[|order| - 1];
      var rs := DecidedResults(judge, cfg, order[..|order| - 1]);
      if Counted(judge, cfg, last) then rs + [Eval(judge, cfg, last).value] else rs
  }

  /** One more trace re-evaluated: its record and, if it is counted, its result. */
  lemma ReevaluateOneMore(judge: Judge, cfg: Config, order: seq<Trace>, stats: Stats, i: nat)
    requires i < |order|
    ensures var o, t := ReevaluatedUpTo(judge, cfg, order, i), order[i];
      o[i] == t && ReevaluatedUpTo(judge, cfg, order, i + 1) == o[i := Reevaluated(judge, cfg, t)]
    ensures var st, t := RecordAll(stats, DecidedResults(judge, cfg, order[..i])), order[i];
      RecordAll(stats, DecidedResults(judge, cfg, order[..i + 1]))
        == if Counted(judge, cfg, t) then Recorded(st, Eval(judge, cfg, t).value) else st
  {
    ReevaluatedUpToAt(judge, cfg, order, i, i);
    DecidedResultsNext(judge, cfg, order, i + 1);
    if Counted(judge, cfg, order[i]) {
      RecordAllNext(stats, DecidedResults(judge, cfg, order[..i]), Eval(judge, cfg, order[i]).value);
    }
  }

  /** A configuration that does not compile changes nothing. */
  ghost function SetPolicy(judge: Judge, s: ServerState, cfg: Config): ServerState {
    if !judge.compiles(cfg) then s
    else s.(cfg := cfg, store := s.store.(order := ReevaluateAll(judge, cfg, s.store.order)),
            stats := RecordAll(ZERO, DecidedResults(judge, cfg, s.store.order)))
  }

  // ---- handleTraceFrame ----

  function SpanTotal(ids: seq<TraceId>, m: SpansByTrace): nat
    requires forall id <- ids :: id in m
  {
    if ids == [] then 0 else SpanTotal(ids[..|ids| - 1], m) + |m[ids[|ids| - 1]]|
  }

  /** The touched traces this ingest created, as the server counts them: first seen at this instant. */
  function FirstSeenAt(touched: seq<Trace>, now: int): nat {
    if touched == [] then 0
    else FirstSeenAt(touched[..|touched| - 1], now) + if touched[|touched| - 1].firstSeen == now then 1 else 0
  }

  ghost function HandleFrame(s: ServerState, now: int, ids: seq<TraceId>, m: SpansByTrace): ServerState
    requires forall id <- ids :: id in m
  {
    s.(store := Ingest(s.store, now, ids, m),
       spansReceived := s.spansReceived + SpanTotal(ids, m),
       tracesReceived := s.tracesReceived + FirstSeenAt(TouchedSeq(s.store.order, now, ids, m), now))
  }

  // ---- runs ----

  /** A step of the server. A frame carries its batch, what Assemble made of it and the order of the walk. */
  datatype Event =
    | Frame(now: int, td: Traces, m: SpansByTrace, ids: seq<TraceId>)
    | Tick(now: int)
    | NewPolicy(cfg: Config)

  ghost predicate Possible(lib: Lib, e: Event) {
    e.Frame? ==> Grouped(lib, Flatten(e.td), e.m) && Walks(e.ids, e.m)
  }

  ghost function Step(judge: Judge, lib: Lib, s: ServerState, e: Event): ServerState
    requires Possible(lib, e)
  {
    match e
    case Frame(now, _, m, ids) => HandleFrame(s, now, ids, m)
    case Tick(now) => DecideDue(judge, s, now)
    case NewPolicy(cfg) => SetPolicy(judge, s, cfg)
  }

  ghost predicate AllPossible(lib: Lib, es: seq<Event>) {
    forall i :: 0 <= i < |es| ==> Possible(lib, es[i])
  }

  ghost function Run(judge: Judge, lib: Lib, s: ServerState, es: seq<Event>): ServerState
    requires AllPossible(lib, es)
  {
    if es == [] then s else Step(judge, lib, Run(judge, lib, s, es[..|es| - 1]), es[|es| - 1])
  }
}
