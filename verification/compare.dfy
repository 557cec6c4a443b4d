/**
 * Policy Compare: every DECIDED trace judged a second time under a candidate
 * policy, and counted.
 */
module Compare {
  import opened Policies
  import opened TraceTypes
  import opened PolicyEngine
  import opened ServerSpec
  import opened Engines

  datatype PolicySnapshot = PolicySnapshot(observed: nat, keep: nat, drop: nat, samplingRate: real)

  datatype CompareResult = CompareResult(
    current: PolicySnapshot, candidate: PolicySnapshot,
    newlyKept: nat, newlyDropped: nat, errorTracesNewlyDropped: nat)

  const EMPTY := PolicySnapshot(0, 0, 0, 0.0)

  function SamplingRate(keep: nat, observed: nat): (r: real)
    ensures keep <= observed ==> 0.0 <= r <= 1.0
  {
    if observed == 0 then 0.0
    else
      assert keep <= observed ==> keep as real / observed as real <= 1.0 by {
        if keep <= observed { RateAtMostOne(keep, observed); }
      }
      keep as real / observed as real
  }

  lemma RateAtMostOne(keep: nat, observed: nat)
    requires keep <= observed && observed > 0
    ensures keep as real / observed as real <= 1.0
  {
    assert keep as real <= 1.0 * observed as real;
  }

  /** How many of the traces have the property. */
  ghost function Number(p: Trace -> bool, ts: seq<Trace>): nat {
    if ts == [] then 0 else Number(p, ts[..|ts| - 1]) + if p(ts[|ts| - 1]) then 1 else 0
  }

  // ---- the populations that are counted ----

  predicate NowKept(t: Trace) { t.state.Decided? && t.decision == Keep }
  predicate NowDropped(t: Trace) { t.state.Decided? && t.decision != Keep }
  ghost predicate WouldKeep(j: Judge, cfg: Config, t: Trace) {
    Counted(j, cfg, t) && Eval(j, cfg, t).value.decision == Keep
  }
  ghost predicate WouldDrop(j: Judge, cfg: Config, t: Trace) {
    Counted(j, cfg, t) && Eval(j, cfg, t).value.decision != Keep
  }
  ghost predicate Regained(j: Judge, cfg: Config, t: Trace) { WouldKeep(j, cfg, t) && t.decision != Keep }
  ghost predicate Lost(j: Judge, cfg: Config, t: Trace) { WouldDrop(j, cfg, t) && t.decision == Keep }
  ghost predicate LostError(j: Judge, cfg: Config, t: Trace) { Lost(j, cfg, t) && AnyError(t.spans) }

  /** A kept trace that the candidate cannot judge. */
  ghost predicate Unjudged(j: Judge, cfg: Config, t: Trace) { NowKept(t) && Eval(j, cfg, t).None? }

  /** Each side counts its own population, keep and drop apart. */
  ghost predicate CountsSides(j: Judge, cfg: Config, ts: seq<Trace>, r: CompareResult) {
    && r.current.observed == Number((t: Trace) => t.state.Decided?, ts)
    && r.current.keep == Number(NowKept, ts)
    && r.current.drop == Number(NowDropped, ts)
    && r.candidate.observed == Number(t => Counted(j, cfg, t), ts)
    && r.candidate.keep == Number(t => WouldKeep(j, cfg, t), ts)
    && r.candidate.drop == Number(t => WouldDrop(j, cfg, t), ts)
  }

  ghost predicate CountsChanges(j: Judge, cfg: Config, ts: seq<Trace>, r: CompareResult) {
    && r.newlyKept == Number(t => Regained(j, cfg, t), ts)
    && r.newlyDropped == Number(t => Lost(j, cfg, t), ts)
    && r.errorTracesNewlyDropped == Number(t => LostError(j, cfg, t), ts)
  }

  /** r is the comparison of the traces' decisions with the candidate's. */
  ghost predicate Compares(j: Judge, cfg: Config, ts: seq<Trace>, r: CompareResult) {
    && CountsSides(j, cfg, ts, r) && CountsChanges(j, cfg, ts, r)
    && r.current.samplingRate == SamplingRate(r.current.keep, r.current.observed)
    && r.candidate.samplingRate == SamplingRate(r.candidate.keep, r.candidate.observed)
  }

  // ---- comparePolicy ----

  /** What one trace adds, given the candidate's result for it. */
  ghost function Tallied(r: CompareResult, j: Judge, cfg: Config, t: Trace): CompareResult {
    CompareResult(
      PolicySnapshot(r.current.observed + One(t.state.Decided?), r.current.keep + One(NowKept(t)),
          r.current.drop + One(NowDropped(t)), r.current.samplingRate),
      PolicySnapshot(r.candidate.observed + One(Counted(j, cfg, t)), r.candidate.keep + One(WouldKeep(j, cfg, t)),
                     r.candidate.drop + One(WouldDrop(j, cfg, t)), r.candidate.samplingRate),
      r.newlyKept + One(Regained(j, cfg, t)), r.newlyDropped + One(Lost(j, cfg, t)),
      r.errorTracesNewlyDropped + One(LostError(j, cfg, t)))
  }

  function One(b: bool): nat { if b then 1 else 0 }

  lemma TalliedNext(j: Judge, cfg: Config, ts: seq<Trace>, i: nat, r: CompareResult)
    requires i < |ts| && CountsSides(j, cfg, ts[..i], r) && CountsChanges(j, cfg, ts[..i], r)
    ensures CountsSides(j, cfg, ts[..i + 1], Tallied(r, j, cfg, ts[i]))
    ensures CountsChanges(j, cfg, ts[..i + 1], Tallied(r, j, cfg, ts[i]))
  {
    assert ts[..i + 1][..i] == ts[..i];
  }

  /** The body of the loop. */
  method TallyTrace(ev: Evaluator, t: Trace, r: CompareResult) returns (result: CompareResult)
    requires ev.Valid()
    modifies ev.Matchers
    ensures ev.Valid()
    ensures result == Tallied(r, EngineJudge(ev.lib), ev.cfg, t)
  {
    assert Eval(EngineJudge(ev.lib), ev.cfg, t) == EvalStored(ev.lib, ev.cfg, t.id, t.spans);
    result := r;
    if t.state != Decided {
      return;
    }
    var currentKeep := t.decision == Keep;
    var current := result.current.(observed := result.current.observed + 1);
    if currentKeep {
      current := current.(keep := current.keep + 1);
    } else {
      current := current.(drop := current.drop + 1);
    }
    result := result.(current := current);
    var candResult := ev.Evaluate(t.id, t.spans);
    if candResult.None? {
      return;
    }
    var candidateKeep := candResult.value.decision == Keep;
    var candidate := result.candidate.(observed := result.candidate.observed + 1);
    if candidateKeep {
      candidate := candidate.(keep := candidate.keep + 1);
    } else {
      candidate := candidate.(drop := candidate.drop + 1);
    }
    result := result.(candidate := candidate);
    if !currentKeep && candidateKeep {
      result := result.(newlyKept := result.newlyKept + 1);
    } else if currentKeep && !candidateKeep {
      result := result.(newlyDropped := result.newlyDropped + 1);
      var isError := HasError(t.spans);
      if isError {
        result := result.(errorTracesNewlyDropped := result.errorTracesNewlyDropped + 1);
      }
    }
  }

  /** The loop over a copy of the store's traces, and the two rates. */
  method CompareTraces(ev: Evaluator, ts: seq<Trace>) returns (result: CompareResult)
    requires ev.Valid()
    modifies ev.Matchers
    ensures ev.Valid()
    ensures Compares(EngineJudge(ev.lib), ev.cfg, ts, result)
  {
    result := CompareResult(EMPTY, EMPTY, 0, 0, 0);
    for i := 0 to |ts|
      invariant ev.Valid()
      invariant CountsSides(EngineJudge(ev.lib), ev.cfg, ts[..i], result)
      invariant CountsChanges(EngineJudge(ev.lib), ev.cfg, ts[..i], result)
    {
      TalliedNext(EngineJudge(ev.lib), ev.cfg, ts, i, result);
      result := TallyTrace(ev, ts[i], result);
    }
    assert ts[..|ts|] == ts;
    result := result.(
      current := result.current.(samplingRate := SamplingRate(result.current.keep, result.current.observed)),
      candidate := result.candidate.(samplingRate := SamplingRate(result.candidate.keep, result.candidate.observed)));
  }
}
