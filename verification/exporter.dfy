/**
 * The exporter's bounded queue: any number of producers and one writer, one
 * channel or counter operation at a time.
 */
module Exporter {
  import opened Wrappers
  import opened Pdata

  type Payload = seq<int>

  /** Serialisation of a batch; None when it fails. */
  type Marshaller = Traces -> Option<Payload>

  const DEFAULT_CAPACITY := 1000

  /** The channel's capacity: a disabled or non-positive size gives way to the default. */
  function Capacity(enabled: bool, size: int): (r: nat)
    ensures r > 0
    ensures enabled && size > 0 ==> r == size
    ensures !enabled || size <= 0 ==> r == 1000
  {
    if !enabled || size <= 0 then DEFAULT_CAPACITY else size
  }

  /** Where the writer goroutine stands with the payload it took. */
  datatype Writer =
    | Waiting
    | Took(p: Payload)        // off the queue, still in the queueSize counter
    | Sending(p: Payload)
    | Sent(p: Payload)        // written, not yet counted
    | Failing(p: Payload)     // write error not yet counted
    | Failed(p: Payload)      // write error counted, the loss not yet
    | Stopped

  /**
   * The exporter between two atomic operations. entered, encoded, refused and queued are the
   * producer calls in flight, by how far they have come; started, accepted and handled record
   * what has happened.
   */
  datatype State = State(
    capacity: nat, queue: seq<Payload>, queueSize: int, sentTotal: nat, droppedTotal: nat, writeErrors: nat,
    entered: multiset<Traces>, encoded: multiset<Payload>, refused: nat, queued: nat, writer: Writer,
    started: nat, accepted: seq<Payload>, handled: seq<(Payload, bool)>)

  datatype Action =
    | Enters(td: Traces)
    | Checks(td: Traces, paused: bool)
    | Offers(p: Payload)
    | CountsQueued
    | CountsDropped
    | Takes
    | CountsTaken
    | Writes(ok: bool)
    | CountsSent
    | CountsError
    | CountsLost
    | Stops

  function Fresh(capacity: nat): State {
    State(capacity, [], 0, 0, 0, 0, multiset{}, multiset{}, 0, 0, Waiting, 0, [], [])
  }

  predicate Enabled(s: State, a: Action) {
    match a
    case Enters(_) => true
    case Checks(td, _) => td in s.entered
    case Offers(p) => p in s.encoded
    case CountsQueued => s.queued > 0
    case CountsDropped => s.refused > 0
    case Takes => s.writer.Waiting? && s.queue != []
    case CountsTaken => s.writer.Took?
    case Writes(_) => s.writer.Sending?
    case CountsSent => s.writer.Sent?
    case CountsError => s.writer.Failing?
    case CountsLost => s.writer.Failed?
    case Stops => s.writer.Waiting?
  }

  function Perform(f: Marshaller, s: State, a: Action): State
    requires Enabled(s, a)
  {
    match a
    case Enters(td) => s.(started := s.started + 1, entered := s.entered + multiset{td})
    case Checks(td, paused) =>
      var t := s.(entered := s.entered - multiset{td});
      if paused || f(td).None? then t.(refused := t.refused + 1) else t.(encoded := t.encoded + multiset{f(td).value})
    case Offers(p) =>
      var t := s.(encoded := s.encoded - multiset{p});
      if |s.queue| < s.capacity then t.(queue := s.queue + [p], accepted := s.accepted + [p], queued := s.queued + 1)
      else t.(refused := s.refused + 1)
    case CountsQueued => s.(queued := s.queued - 1, queueSize := s.queueSize + 1)
    case CountsDropped => s.(refused := s.refused - 1, droppedTotal := s.droppedTotal + 1)
    case Takes => s.(queue := s.queue[1..], writer := Took(s.queue[0]))
    case CountsTaken => s.(queueSize := s.queueSize - 1, writer := Sending(s.writer.p))
    case Writes(ok) =>
      s.(writer := if ok then Sent(s.writer.p) else Failing(s.writer.p), handled := s.handled + [(s.writer.p, ok)])
    case CountsSent => s.(sentTotal := s.sentTotal + 1, writer := Waiting)
    case CountsError => s.(writeErrors := s.writeErrors + 1, writer := Failed(s.writer.p))
    case CountsLost => s.(droppedTotal := s.droppedTotal + 1, writer := Waiting)
    case Stops => s.(writer := Stopped)
  }

  // ---- the invariant ----

  function One(b: bool): nat { if b then 1 else 0 }

  function Holds(w: Writer): nat { One(!w.Waiting? && !w.Stopped?) }

  /** Calls that have not yet been counted as dropped nor put a payload in the queue. */
  function InFlight(s: State): nat { |s.entered| + |s.encoded| + s.refused }

  /** The payload the writer holds and has not yet written. */
  function InHand(w: Writer): seq<Payload> {
    if w.Took? || w.Sending? then [w.p] else []
  }

  function Payloads(handled: seq<(Payload, bool)>): seq<Payload> {
    if handled == [] then [] else Payloads(handled[..|handled| - 1]) + [handled[|handled| - 1].0]
  }

  /** The frames that were written, in order. */
  function Wire(handled: seq<(Payload, bool)>): seq<Payload> {
    if handled == [] then []
    else
      var w := Wire(handled[..|handled| - 1]);
      if handled[|handled| - 1].1 then w + [handled[|handled| - 1].0] else w
  }

  ghost predicate Conserves(s: State) {
    s.started == s.sentTotal + s.droppedTotal + |s.queue| + InFlight(s) + Holds(s.writer)
  }

  predicate Counts(s: State) {
    && s.queueSize == |s.queue| + One(s.writer.Took?) - s.queued
    && s.sentTotal + One(s.writer.Sent?) == |Wire(s.handled)|
    && s.writeErrors + One(s.writer.Failing?) == |s.handled| - |Wire(s.handled)|
    && s.writeErrors <= s.droppedTotal + One(s.writer.Failed?)
  }

  predicate InOrder(s: State) {
    |s.queue| <= s.capacity && s.accepted == Payloads(s.handled) + InHand(s.writer) + s.queue
  }

  ghost predicate Inv(s: State) {
    Conserves(s) && Counts(s) && InOrder(s)
  }

  lemma HandledOne(handled: seq<(Payload, bool)>, p: Payload, ok: bool)
    ensures Payloads(handled + [(p, ok)]) == Payloads(handled) + [p]
    ensures Wire(handled + [(p, ok)]) == if ok then Wire(handled) + [p] else Wire(handled)
  {
    assert (handled + [(p, ok)])[..|handled|] == handled;
  }

  lemma KeepsConserving(f: Marshaller, s: State, a: Action)
    requires Conserves(s) && Enabled(s, a)
    ensures Conserves(Perform(f, s, a))
  {
  }

  lemma KeepsCounts(f: Marshaller, s: State, a: Action)
    requires Counts(s) && Enabled(s, a)
    ensures Counts(Perform(f, s, a))
  {
    if a.Writes? {
      HandledOne(s.handled, s.writer.p, a.ok);
    }
  }

  lemma Rejoins(done: seq<Payload>, held: seq<Payload>, queue: seq<Payload>, p: Payload)
    ensures done + held + queue + [p] == done + held + (queue + [p])
    ensures queue != [] ==> done + [] + queue == done + [queue[0]] + queue[1..]
    ensures done + [p] + queue == done + [p] + [] + queue
  {
  }

  lemma KeepsOrder(f: Marshaller, s: State, a: Action)
    requires InOrder(s) && Enabled(s, a)
    ensures InOrder(Perform(f, s, a))
  {
    if a.Writes? {
      HandledOne(s.handled, s.writer.p, a.ok);
      Rejoins(Payloads(s.handled), [], s.queue, s.writer.p);
    } else if a.Takes? {
      Rejoins(Payloads(s.handled), [], s.queue, []);
    } else if a.Offers? {
      Rejoins(Payloads(s.handled), InHand(s.writer), s.queue, a.p);
    }
  }

  lemma PerformKeeps(f: Marshaller, s: State, a: Action)
    requires Inv(s) && Enabled(s, a)
    ensures Inv(Perform(f, s, a))
  {
    KeepsConserving(f, s, a);
    KeepsCounts(f, s, a);
    KeepsOrder(f, s, a);
  }

  predicate Schedule(f: Marshaller, s: State, actions: seq<Action>)
    decreases |actions|, 0
  {
    actions == [] ||
      (Schedule(f, s, actions[..|actions| - 1]) &&
          Enabled(After(f, s, actions[..|actions| - 1]), actions[|actions| - 1]))
  }

  function After(f: Marshaller, s: State, actions: seq<Action>): State
    requires Schedule(f, s, actions)
    decreases |actions|, 1
  {
    if actions == [] then s else Perform(f, After(f, s, actions[..|actions| - 1]), actions[|actions| - 1])
  }

  lemma {:induction false} EveryRunKeeps(f: Marshaller, capacity: nat, actions: seq<Action>)
    requires Schedule(f, Fresh(capacity), actions)
    ensures Inv(After(f, Fresh(capacity), actions)) && After(f, Fresh(capacity), actions).capacity == capacity
  {
    if actions != [] {
      EveryRunKeeps(f, capacity, actions[..|actions| - 1]);
      PerformKeeps(f, After(f, Fresh(capacity), actions[..|actions| - 1]), actions[|actions| - 1]);
    }
  }

  // ---- what it means ----

  /** No call is half way and the writer holds nothing. */
  predicate AtRest(s: State) {
    InFlight(s) == 0 && s.queued == 0 && Holds(s.writer) == 0
  }

  /** b keeps some of a, in order. */
  ghost predicate Subsequence(b: seq<Payload>, a: seq<Payload>) {
    b == [] || (a != [] &&
        (Subsequence(b, a[..|a| - 1]) || (b[|b| - 1] == a[|a| - 1] && Subsequence(b[..|b| - 1], a[..|a| - 1]))))
  }

  lemma {:induction false} WireIsSubsequence(handled: seq<(Payload, bool)>)
    ensures Subsequence(Wire(handled), Payloads(handled))
  {
    if handled != [] {
      var init := handled[..|handled| - 1];
      WireIsSubsequence(init);
      assert Payloads(handled)[..|Payloads(init)|] == Payloads(init);
      if handled[|init|].1 {
        assert (Wire(init) + [handled[|init|].0])[..|Wire(init)|] == Wire(init);
      }
    }
  }

  lemma {:induction false} SubsequenceGrows(b: seq<Payload>, a: seq<Payload>, more: seq<Payload>)
    requires Subsequence(b, a)
    ensures Subsequence(b, a + more)
  {
    if more == [] {
      assert a + more == a;
    } else {
      SubsequenceGrows(b, a, more[..|more| - 1]);
      assert (a + more)[..|a + more| - 1] == a + more[..|more| - 1];
    }
  }

  /**
   * In every interleaving: every call is accounted for, the queue keeps within its capacity, what
   * was written is a subsequence of what was accepted, and each counter differs from the truth by
   * the operations not yet counted. So queueSize is negative exactly when more enqueues are
   * uncounted than payloads are in the queue or just taken from it.
   */
  lemma ExporterAccounts(f: Marshaller, capacity: nat, actions: seq<Action>)
    requires Schedule(f, Fresh(capacity), actions)
    ensures var s := After(f, Fresh(capacity), actions);
      && s.started == s.sentTotal + s.droppedTotal + |s.queue| + InFlight(s) + Holds(s.writer)
      && |s.queue| <= capacity
      && Subsequence(Wire(s.handled), s.accepted)
      && s.queueSize == |s.queue| + One(s.writer.Took?) - s.queued
      && (s.queueSize < 0 <==> s.queued > |s.queue| + One(s.writer.Took?))
      && s.queueSize <= capacity + 1
      && s.sentTotal + One(s.writer.Sent?) == |Wire(s.handled)|
      && s.writeErrors + One(s.writer.Failing?) == |s.handled| - |Wire(s.handled)|
      && s.writeErrors <= s.droppedTotal + One(s.writer.Failed?)
  {
    EveryRunKeeps(f, capacity, actions);
    WireInOrder(After(f, Fresh(capacity), actions));
  }

  lemma WireInOrder(s: State)
    requires InOrder(s)
    ensures Subsequence(Wire(s.handled), s.accepted)
  {
    WireIsSubsequence(s.handled);
    SubsequenceGrows(Wire(s.handled), Payloads(s.handled), InHand(s.writer) + s.queue);
    assert Payloads(s.handled) + (InHand(s.writer) + s.queue) == s.accepted;
  }

  lemma RestIsExact(s: State)
    requires Inv(s) && AtRest(s)
    ensures s.queueSize == |s.queue| && s.started == s.sentTotal + s.droppedTotal + |s.queue|
    ensures s.sentTotal == |Wire(s.handled)| && s.writeErrors <= s.droppedTotal
    ensures s.accepted == Payloads(s.handled) + s.queue
  {
  }

  /** At rest the counters are the truth. */
  lemma AtRestExact(f: Marshaller, capacity: nat, actions: seq<Action>)
    requires Schedule(f, Fresh(capacity), actions) && AtRest(After(f, Fresh(capacity), actions))
    ensures var s := After(f, Fresh(capacity), actions);
      && s.queueSize == |s.queue| && s.started == s.sentTotal + s.droppedTotal + |s.queue|
      && s.sentTotal == |Wire(s.handled)| && s.writeErrors <= s.droppedTotal
      && s.accepted == Payloads(s.handled) + s.queue
  {
    EveryRunKeeps(f, capacity, actions);
    RestIsExact(After(f, Fresh(capacity), actions));
  }

  function WriterWork(w: Writer): nat {
    match w
    case Took(_) => 4
    case Sending(_) => 3
    case Failing(_) => 2
    case Failed(_) => 1
    case Sent(_) => 1
    case _ => 0
  }

  /** Operations left to do, at most. */
  function Work(s: State): nat {
    8 * |s.entered| + 7 * |s.encoded| + s.refused + s.queued + 5 * |s.queue| + WriterWork(s.writer)
  }

  /** Nothing blocks: without new calls every operation brings the exporter nearer to rest with an empty queue. */
  lemma EveryOperationIsProgress(f: Marshaller, s: State, a: Action)
    requires Enabled(s, a) && !a.Enters? && !a.Stops?
    ensures Work(Perform(f, s, a)) < Work(s)
  {
  }

  /** Until the writer is stopped, some operation is possible except at rest with an empty queue. */
  lemma SomethingIsPossible(s: State) returns (a: Action)
    requires !s.writer.Stopped? && !(AtRest(s) && s.queue == [])
    ensures Enabled(s, a) && !a.Enters? && !a.Stops?
  {
    if !s.writer.Waiting? {
      a := match s.writer
        case Took(_) => CountsTaken
        case Sending(_) => Writes(true)
        case Sent(_) => CountsSent
        case Failing(_) => CountsError
        case Failed(_) => CountsLost
        case _ => Takes;
    } else if s.queue != [] {
      a := Takes;
    } else if s.queued > 0 {
      a := CountsQueued;
    } else if s.refused > 0 {
      a := CountsDropped;
    } else if |s.encoded| > 0 {
      var p :| p in s.encoded;
      a := Offers(p);
    } else {
      var td :| td in s.entered;
      a := Checks(td, false);
    }
  }

  ghost predicate Leads(f: Marshaller, s: State, actions: seq<Action>, t: State) {
    Schedule(f, s, actions) && After(f, s, actions) == t
  }

  lemma Then(f: Marshaller, s: State, actions: seq<Action>, t: State, a: Action) returns (more: seq<Action>, u: State)
    requires Leads(f, s, actions, t) && Enabled(t, a)
    ensures Leads(f, s, more, u) && u == Perform(f, t, a)
  {
    more, u := actions + [a], Perform(f, t, a);
    assert more[..|actions|] == actions;
  }

  // ---- one call and one write, uninterrupted ----

  /** A call to consumeTraces that nothing comes between. */
  function Consumed(f: Marshaller, s: State, td: Traces, paused: bool): State {
    if paused || f(td).None? || |s.queue| >= s.capacity then
      s.(started := s.started + 1, droppedTotal := s.droppedTotal + 1)
    else s.(started := s.started + 1, queue := s.queue + [f(td).value], accepted := s.accepted + [f(td).value],
        queueSize := s.queueSize + 1)
  }

  lemma CheckedFirst(f: Marshaller, s: State, td: Traces, paused: bool) returns (actions: seq<Action>, t: State)
    requires s.entered == multiset{} && s.encoded == multiset{}
    ensures Leads(f, s, actions, t)
    ensures t == if paused || f(td).None? then s.(started := s.started + 1, refused := s.refused + 1)
                 else s.(started := s.started + 1, encoded := multiset{f(td).value})
  {
    actions, t := Then(f, s, [], s, Enters(td));
    assert t.entered == multiset{td};
    actions, t := Then(f, s, actions, t, Checks(td, paused));
    assert t.entered == multiset{} && t.encoded == if paused || f(td).None? then multiset{} else multiset{f(td).value};
  }

  lemma OfferedNext(f: Marshaller, s: State, before: seq<Action>, t: State, p: Payload)
    returns (actions: seq<Action>, u: State)
    requires Leads(f, s, before, t) && t.encoded == multiset{p}
    ensures Leads(f, s, actions, u)
    ensures u == if |t.queue| < t.capacity then
      t.(encoded := multiset{}, queue := t.queue + [p], accepted := t.accepted + [p], queueSize := t.queueSize + 1)
                 else t.(encoded := multiset{}, refused := t.refused + 1)
  {
    actions, u := Then(f, s, before, t, Offers(p));
    assert u.encoded == multiset{};
    if |t.queue| < t.capacity {
      actions, u := Then(f, s, actions, u, CountsQueued);
    }
  }

  /** It is a schedule of the machine's operations. */
  lemma ConsumedIsASchedule(f: Marshaller, s: State, td: Traces, paused: bool) returns (actions: seq<Action>)
    requires s.entered == multiset{} && s.encoded == multiset{}
    ensures Leads(f, s, actions, Consumed(f, s, td, paused))
  {
    var t;
    actions, t := CheckedFirst(f, s, td, paused);
    if !paused && f(td).Some? {
      actions, t := OfferedNext(f, s, actions, t, f(td).value);
    }
    if paused || f(td).None? || |s.queue| >= s.capacity {
      actions, t := Then(f, s, actions, t, CountsDropped);
    }
  }

  /** n calls with batches that serialise, one after the other, while the writer takes nothing. */
  function CalledTimes(f: Marshaller, s: State, tds: seq<Traces>): State {
    if tds == [] then s else Consumed(f, CalledTimes(f, s, tds[..|tds| - 1]), tds[|tds| - 1], false)
  }

  /** An exporter nobody reads from takes exactly its capacity of them, and the rest are dropped. */
  lemma {:induction false} FillsUp(f: Marshaller, enabled: bool, size: int, tds: seq<Traces>)
    requires forall td <- tds :: f(td).Some?
    ensures var s, full := CalledTimes(f, Fresh(Capacity(enabled, size)), tds),
      if enabled && size > 0 then size else 1000;
      && s.started == |tds| && s.capacity == full
      && |s.queue| == s.queueSize == (if |tds| <= full then |tds| else full)
      && s.droppedTotal == (if |tds| <= full then 0 else |tds| - full)
  {
    if tds != [] {
      FillsUp(f, enabled, size, tds[..|tds| - 1]);
    }
  }

  /** The counter can fall below zero while a producer has not counted the payload the writer already took. */
  lemma NegativeQueueSizeExample(f: Marshaller, td: Traces) returns (actions: seq<Action>)
    requires f(td).Some?
    ensures Schedule(f, Fresh(1), actions) && After(f, Fresh(1), actions).queueSize == -1
  {
    var t;
    actions, t := CheckedFirst(f, Fresh(1), td, false);
    actions, t := Then(f, Fresh(1), actions, t, Offers(f(td).value));
    actions, t := Then(f, Fresh(1), actions, t, Takes);
    actions, t := Then(f, Fresh(1), actions, t, CountsTaken);
  }

  /** One round of writerLoop that nothing comes between. */
  function Written(s: State, ok: bool): State
    requires s.queue != []
  {
    var t := s.(queue := s.queue[1..], queueSize := s.queueSize - 1, handled := s.handled + [(s.queue[0], ok)]);
    if ok then t.(sentTotal := s.sentTotal + 1)
    else t.(writeErrors := s.writeErrors + 1, droppedTotal := s.droppedTotal + 1)
  }

  lemma TakenFirst(f: Marshaller, s: State, ok: bool) returns (actions: seq<Action>, t: State)
    requires s.queue != [] && s.writer.Waiting?
    ensures Leads(f, s, actions, t)
    ensures t == s.(queue := s.queue[1..], queueSize := s.queueSize - 1, handled := s.handled + [(s.queue[0], ok)],
        writer := if ok then Sent(s.queue[0]) else Failing(s.queue[0]))
  {
    actions, t := Then(f, s, [], s, Takes);
    actions, t := Then(f, s, actions, t, CountsTaken);
    actions, t := Then(f, s, actions, t, Writes(ok));
  }

  lemma WrittenIsASchedule(f: Marshaller, s: State, ok: bool) returns (actions: seq<Action>)
    requires s.queue != [] && s.writer.Waiting?
    ensures Leads(f, s, actions, Written(s, ok))
  {
    var t;
    actions, t := TakenFirst(f, s, ok);
    if ok {
      actions, t := Then(f, s, actions, t, CountsSent);
    } else {
      actions, t := Then(f, s, actions, t, CountsError);
      actions, t := Then(f, s, actions, t, CountsLost);
    }
  }

  class TailExporter {
    const capacity: nat
    const marshal: Marshaller
    var queue: seq<Payload>
    var queueSize: int
    var spansSentTotal: nat
    var spansDroppedTotal: nat
    var writeErrorsTotal: nat
    ghost var started: nat
    ghost var accepted: seq<Payload>
    ghost var handled: seq<(Payload, bool)>

    ghost function Abs(): State
      reads this
    {
      State(capacity, queue, queueSize, spansSentTotal, spansDroppedTotal, writeErrorsTotal,
            multiset{}, multiset{}, 0, 0, Waiting, started, accepted, handled)
    }

    /** newExporter. */
    constructor (enabled: bool, size: int, marshal: Marshaller)
      ensures Abs() == Fresh(Capacity(enabled, size)) && this.marshal == marshal
    {
      capacity, this.marshal := Capacity(enabled, size), marshal;
      queue, queueSize, spansSentTotal, spansDroppedTotal, writeErrorsTotal := [], 0, 0, 0, 0;
      started, accepted, handled := 0, [], [];
    }

    /** consumeTraces. */
    method ConsumeTraces(td: Traces, paused: bool)
      modifies this
      ensures Abs() == Consumed(marshal, old(Abs()), td, paused)
    {
      started := started + 1;
      if paused {
        spansDroppedTotal := spansDroppedTotal + 1;
        return;
      }
      var payload := marshal(td);
      if payload.None? {
        spansDroppedTotal := spansDroppedTotal + 1;
        return;
      }
      if |queue| < capacity {
        queue := queue + [payload.value];
        accepted := accepted + [payload.value];
        queueSize := queueSize + 1;
      } else {
        spansDroppedTotal := spansDroppedTotal + 1;
      }
    }

    /** One round of writerLoop; ok is what SendBinary reports. */
    method WriteNext(ok: bool)
      requires queue != []
      modifies this
      ensures Abs() == Written(old(Abs()), ok)
    {
      var payload := queue[0];
      queue := queue[1..];
      queueSize := queueSize - 1;
      handled := handled + [(payload, ok)];
      if !ok {
        writeErrorsTotal := writeErrorsTotal + 1;
        spansDroppedTotal := spansDroppedTotal + 1;
        return;
      }
      spansSentTotal := spansSentTotal + 1;
    }
  }
}
