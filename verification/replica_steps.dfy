/**
 * One trace's row in one browser when every message is built from the record under its lock and
 * sent after the lock is released, in any order: when the row ends up right, exactly, and a
 * schedule in which it does not.
 */
module ReplicaSteps {
  import opened Wrappers
  import opened Pdata
  import opened Policies
  import opened TraceTypes
  import opened TraceList
  import opened StoreSpec
  import opened ServerSpec
  import opened Messages
  import opened Replica

  /** What made a version of the record. */
  datatype Kind = Began | Ingested | Readied | Applied | Rewritten | Evicted

  /** A message, by the version of the record it was made from. */
  datatype Note = Updated(version: nat) | Verdicted(version: nat) | Full(version: nat)

  /**
   * versions lists every value of the record under one id, None while it is not retained. notes are
   * built and not yet sent, owed counts the snapshots not yet built, and sent is what went to the
   * browser, which was registered at version since.
   */
  datatype System = System(id: TraceId, versions: seq<Option<Trace>>, kinds: seq<Kind>, notes: multiset<Note>,
    owed: nat, joined: bool, since: nat, sent: seq<Note>)

  datatype Step =
    | Ingests(now: int, spans: seq<FlatSpan>)
    | Readies
    | Applies(decision: Decision, matched: seq<string>)
    | Rewrites(verdict: Option<(Decision, seq<string>)>)
    | Evicts
    | Joins
    | Builds
    | Sends(note: Note)

  function Initially(id: TraceId): System {
    System(id, [None], [Began], multiset{}, 0, false, 0, [])
  }

  function Current(s: System): Option<Trace>
    requires s.versions != []
  {
    s.versions[|s.versions| - 1]
  }

  predicate Enabled(s: System, a: Step) {
    s.versions != [] &&
    match a
    case Readies => Current(s).Some? && Current(s).value.state.Receiving?
    case Applies(_, _) => Current(s).Some?
    case Evicts => Current(s).Some?
    case Joins => !s.joined
    case Builds => s.owed > 0
    case Sends(note) => note in s.notes
    case _ => true
  }

  function Push(s: System, t: Option<Trace>, kind: Kind): System {
    s.(versions := s.versions + [t], kinds := s.kinds + [kind])
  }

  /** What SetPolicy makes of the record: nothing if it is gone or its evaluation fails. */
  function Overwritten(t: Option<Trace>, verdict: Option<(Decision, seq<string>)>): Option<Trace> {
    if t.Some? && verdict.Some? then Some(t.value.(decision := verdict.value.0, matched := verdict.value.1)) else t
  }

  ghost function Perform(s: System, a: Step): System
    requires Enabled(s, a)
  {
    var n, t := |s.versions|, Current(s);
    match a
    case Ingests(now, spans) =>
      Push(s, Some(Touch(t, now, s.id, spans)), Ingested).(notes := s.notes + multiset{Updated(n)})
    case Readies => Push(s, Some(t.value.(state := Ready)), Readied)
    case Applies(decision, matched) =>
      Push(s, Some(Decide(t.value, decision, matched)), Applied).(notes := s.notes + multiset{Verdicted(n)})
    case Rewrites(verdict) => Push(s, Overwritten(t, verdict), Rewritten).(owed := s.owed + 1)
    case Evicts => Push(s, None, Evicted)
    case Joins => s.(joined := true, since := n - 1, owed := s.owed + 1)
    case Builds => s.(owed := s.owed - 1, notes := s.notes + multiset{Full(n - 1)})
    case Sends(note) =>
      s.(notes := s.notes - multiset{note}, sent := if s.joined then s.sent + [note] else s.sent)
  }

  ghost predicate Schedule(s: System, steps: seq<Step>)
    decreases |steps|, 0
  {
    steps == [] || (Schedule(s, steps[..|steps| - 1]) && Enabled(Reached(s, steps[..|steps| - 1]), steps[|steps| - 1]))
  }

  ghost function Reached(s: System, steps: seq<Step>): System
    requires Schedule(s, steps)
    decreases |steps|, 1
  {
    if steps == [] then s else Perform(Reached(s, steps[..|steps| - 1]), steps[|steps| - 1])
  }

  // ---- the browser's row ----

  ghost function RowOf(t: Option<Trace>): Option<TraceSummary> {
    if t.Some? then Some(Summary(t.value)) else None
  }

  ghost function Overlaid(row: Option<TraceSummary>, decision: Decision, matched: seq<string>): Option<TraceSummary> {
    if row.None? then None
    else Some(row.value.(decision := decision, matchedPolicies := matched, state := Decided))
  }

  /** Every note is of a version of its own kind. */
  predicate Proper(versions: seq<Option<Trace>>, kinds: seq<Kind>, note: Note) {
    && |versions| == |kinds| && note.version < |versions|
    && (note.Updated? ==> kinds[note.version].Ingested?)
    && (note.Verdicted? ==> kinds[note.version].Applied? && versions[note.version].Some?)
  }

  ghost function NextRow(s: System, row: Option<TraceSummary>, note: Note): Option<TraceSummary>
    requires Proper(s.versions, s.kinds, note)
  {
    var t := s.versions[note.version];
    if note.Verdicted? then Overlaid(row, t.value.decision, t.value.matched) else RowOf(t)
  }

  /** The row once these messages have been read; a browser starts without rows. */
  ghost function Row(s: System, sent: seq<Note>): Option<TraceSummary>
    requires forall i :: 0 <= i < |sent| ==> Proper(s.versions, s.kinds, sent[i])
  {
    if sent == [] then None else NextRow(s, Row(s, sent[..|sent| - 1]), sent[|sent| - 1])
  }

  /** The row shows t: its summary, or while t is READY that of the RECEIVING trace it was. */
  ghost predicate RowShows(row: Option<TraceSummary>, t: Trace) {
    row == Some(Summary(t)) || (t.state.Ready? && row == Some(Summary(t.(state := Receiving))))
  }

  function Entry(c: AppState, id: TraceId): Option<TraceSummary> {
    if id in c.traces then Some(c.traces[id]) else None
  }

  lemma {:induction false} RowsOf(order: seq<Trace>, id: TraceId)
    requires Distinct(Ids(order))
    ensures (if id in ByTraceId(Summaries(order)) then Some(ByTraceId(Summaries(order))[id]) else None)
         == RowOf(Find(order, id))
  {
    if order != [] {
      var n := |order| - 1;
      DistinctInit(order);
      RowsOf(order[..n], id);
      assert Summaries(order)[..|Summaries(order[..n])|] == Summaries(order[..n]);
    }
  }

  /** It is what the reducer makes of the messages, row by row. */
  lemma RowIsReduced(c: AppState, t: Trace, s: ServerState, around: Surroundings, id: TraceId)
    requires Distinct(Ids(s.store.order))
    ensures Entry(AfterMsg(c, TraceUpdated(Summary(t))), id) == if id == t.id then RowOf(Some(t)) else Entry(c, id)
    ensures Entry(AfterMsg(c, TraceDecided(t.id, t.decision, t.matched)), id)
         == if id == t.id then Overlaid(Entry(c, id), t.decision, t.matched) else Entry(c, id)
    ensures Entry(AfterMsg(c, SnapshotOf(s, around)), id) == RowOf(Find(s.store.order, id))
  {
    RowsOf(s.store.order, id);
  }

  lemma RowShowsTrace(c: AppState, t: Trace)
    ensures ShowsTrace(c, t) <==> RowShows(Entry(c, t.id), t)
  {
  }

  // ---- what every interleaving keeps ----

  /** How a version follows from the one before. */
  predicate Follows(id: TraceId, kind: Kind, before: Option<Trace>, after: Option<Trace>) {
    match kind
    case Began => false
    case Ingested => after.Some?
    case Readied => before.Some? && before.value.state.Receiving? && after == Some(before.value.(state := Ready))
    case Applied =>
      before.Some? && after.Some? && after.value == Decide(before.value, after.value.decision, after.value.matched)
    case Rewritten =>
      before.Some? == after.Some? && (after.Some? ==>
        after.value == before.value.(decision := after.value.decision, matched := after.value.matched))
    case Evicted => after.None?
  }

  predicate Linked(s: System) {
    && s.since < |s.versions| == |s.kinds| && s.kinds[0].Began?
    && forall v :: 0 < v < |s.versions| ==> Follows(s.id, s.kinds[v], s.versions[v - 1], s.versions[v])
  }

  predicate AllProper(s: System) {
    && (forall i :: 0 <= i < |s.sent| ==> Proper(s.versions, s.kinds, s.sent[i]))
    && (forall note <- s.notes :: Proper(s.versions, s.kinds, note))
  }

  predicate Told(s: System, note: Note) {
    note in s.sent || note in s.notes
  }

  /** Every version since registration that makes a message has been told. */
  predicate NoneMissed(s: System) {
    s.joined ==> forall v :: s.since < v < |s.kinds| ==>
      (s.kinds[v].Ingested? ==> Told(s, Updated(v))) && (s.kinds[v].Applied? ==> Told(s, Verdicted(v)))
  }

  /** No policy was rewritten after version v, and the browser was there by then. */
  predicate Fresh(s: System, v: nat) {
    s.since <= v && forall w :: v < w < |s.kinds| ==> !s.kinds[w].Rewritten?
  }

  ghost predicate SnapshotTold(s: System) {
    s.joined && s.owed == 0 ==> exists v: nat :: Fresh(s, v) && Told(s, Full(v))
  }

  ghost predicate Inv(s: System) {
    Linked(s) && AllProper(s) && NoneMissed(s) && SnapshotTold(s)
  }

  lemma LinkedKept(s: System, a: Step)
    requires Linked(s) && Enabled(s, a)
    ensures Linked(Perform(s, a)) && s.versions <= Perform(s, a).versions && s.kinds <= Perform(s, a).kinds
  {
  }

  lemma ProperKept(s: System, a: Step)
    requires Linked(s) && AllProper(s) && Enabled(s, a)
    ensures AllProper(Perform(s, a))
  {
    var p := Perform(s, a);
    LinkedKept(s, a);
    forall note | note in s.notes || note in s.sent ensures Proper(p.versions, p.kinds, note) {
      assert Proper(s.versions, s.kinds, note);
    }
  }

  lemma ToldKept(s: System, a: Step, note: Note)
    requires Enabled(s, a) && s.joined && Told(s, note)
    ensures Told(Perform(s, a), note)
  {
  }

  lemma NoneMissedKept(s: System, a: Step)
    requires Linked(s) && NoneMissed(s) && Enabled(s, a)
    ensures NoneMissed(Perform(s, a))
  {
    var p := Perform(s, a);
    if s.joined {
      forall v | p.since < v < |p.kinds|
        ensures (p.kinds[v].Ingested? ==> Told(p, Updated(v))) && (p.kinds[v].Applied? ==> Told(p, Verdicted(v)))
      {
        if v < |s.kinds| && s.kinds[v].Ingested? {
          ToldKept(s, a, Updated(v));
        } else if v < |s.kinds| && s.kinds[v].Applied? {
          ToldKept(s, a, Verdicted(v));
        }
      }
    }
  }

  lemma SnapshotKept(s: System, a: Step)
    requires Linked(s) && SnapshotTold(s) && Enabled(s, a)
    ensures SnapshotTold(Perform(s, a))
  {
    var p := Perform(s, a);
    if p.joined && p.owed == 0 {
      if a.Builds? {
        assert Fresh(p, |p.versions| - 1) && Told(p, Full(|p.versions| - 1));
      } else {
        var v: nat :| Fresh(s, v) && Told(s, Full(v));
        ToldKept(s, a, Full(v));
        assert Fresh(p, v);
      }
    }
  }

  lemma {:induction false} EveryRunKeeps(id: TraceId, steps: seq<Step>)
    requires Schedule(Initially(id), steps)
    ensures Inv(Reached(Initially(id), steps))
  {
    if steps != [] {
      var init, a := steps[..|steps| - 1], steps[|steps| - 1];
      EveryRunKeeps(id, init);
      StepKeeps(Reached(Initially(id), init), a);
    }
  }

  lemma StepKeeps(s: System, a: Step)
    requires Inv(s) && Enabled(s, a)
    ensures Inv(Perform(s, a))
  {
    LinkedKept(s, a);
    ProperKept(s, a);
    NoneMissedKept(s, a);
    SnapshotKept(s, a);
  }

  // ---- at rest ----

  /** Every message has been built and sent, to a browser that was there. */
  predicate AtRest(s: System) {
    s.joined && s.owed == 0 && s.notes == multiset{}
  }

  /** The version of the last message that told the whole row. */
  function LastWhole(sent: seq<Note>): Option<nat> {
    if sent == [] then None
    else if sent[|sent| - 1].Verdicted? then LastWhole(sent[..|sent| - 1])
    else Some(sent[|sent| - 1].version)
  }

  lemma {:induction false} LastWholeAt(sent: seq<Note>, k: nat) returns (j: nat)
    requires k < |sent| && !sent[k].Verdicted?
    ensures k <= j < |sent| && !sent[j].Verdicted? && LastWhole(sent) == Some(sent[j].version)
    ensures forall i :: j < i < |sent| ==> sent[i].Verdicted?
  {
    j := |sent| - 1;
    if sent[j].Verdicted? {
      j := LastWholeAt(sent[..j], k);
    }
  }

  /** What the last message that told the whole row, and a verdict told last of all, make of the row. */
  ghost function ToldRow(s: System, sent: seq<Note>): Option<TraceSummary>
    requires forall i :: 0 <= i < |sent| ==> Proper(s.versions, s.kinds, sent[i])
    requires LastWhole(sent).Some? ==> LastWhole(sent).value < |s.versions|
  {
    if LastWhole(sent).None? then None
    else
      var whole, last := RowOf(s.versions[LastWhole(sent).value]), sent[|sent| - 1];
      assert Proper(s.versions, s.kinds, last);
      if !last.Verdicted? then whole
      else
        var t := s.versions[last.version].value;
        Overlaid(whole, t.decision, t.matched)
  }

  lemma {:induction false} RowIsToldRow(s: System, sent: seq<Note>)
    requires forall i :: 0 <= i < |sent| ==> Proper(s.versions, s.kinds, sent[i])
    ensures LastWhole(sent).Some? ==> LastWhole(sent).value < |s.versions|
    ensures Row(s, sent) == ToldRow(s, sent)
  {
    if sent != [] {
      RowIsToldRow(s, sent[..|sent| - 1]);
    }
  }

  /** The summaries differ in the verdict and the state at most. */
  ghost predicate SameFacts(t: Trace, u: Trace) {
    Summary(t) == Summary(u).(decision := t.decision, matchedPolicies := t.matched, state := t.state)
  }

  /** What was told last is as good as the record t. */
  ghost predicate AsGood(s: System, t: Trace)
    requires forall i :: 0 <= i < |s.sent| ==> Proper(s.versions, s.kinds, s.sent[i])
    requires LastWhole(s.sent).Some? && LastWhole(s.sent).value < |s.versions|
  {
    var whole, last := s.versions[LastWhole(s.sent).value], s.sent[|s.sent| - 1];
    assert Proper(s.versions, s.kinds, last);
    && whole.Some? && SameFacts(whole.value, t)
    && if last.Verdicted? then
      var u := s.versions[last.version].value;
      t.state.Decided? && u.decision == t.decision && u.matched == t.matched
    else
      && whole.value.decision == t.decision && whole.value.matched == t.matched
      && (whole.value.state == t.state || (whole.value.state.Receiving? && t.state.Ready?))
  }

  lemma SnapshotSent(s: System) returns (k: nat)
    requires Inv(s) && AtRest(s)
    ensures k < |s.sent| && s.sent[k].Full? && Fresh(s, s.sent[k].version)
  {
    var v: nat :| Fresh(s, v) && Told(s, Full(v));
    k :| 0 <= k < |s.sent| && s.sent[k] == Full(v);
  }

  lemma WholeShows(w: Trace, t: Trace)
    ensures RowShows(RowOf(Some(w)), t) <==>
      && SameFacts(w, t) && w.decision == t.decision && w.matched == t.matched
      && (w.state == t.state || (w.state.Receiving? && t.state.Ready?))
  {
  }

  lemma OverlaidShows(w: Trace, u: Trace, t: Trace)
    ensures RowShows(Overlaid(RowOf(Some(w)), u.decision, u.matched), t) <==>
      SameFacts(w, t) && t.state.Decided? && u.decision == t.decision && u.matched == t.matched
  {
  }

  lemma RestingRow(s: System)
    requires Inv(s) && AtRest(s) && Current(s).Some?
    ensures LastWhole(s.sent).Some? && LastWhole(s.sent).value < |s.versions|
    ensures RowShows(Row(s, s.sent), Current(s).value) <==> AsGood(s, Current(s).value)
  {
    var k := SnapshotSent(s);
    var j := LastWholeAt(s.sent, k);
    RowIsToldRow(s, s.sent);
    var whole, last := s.versions[s.sent[j].version], s.sent[|s.sent| - 1];
    if whole.Some? {
      WholeShows(whole.value, Current(s).value);
      if last.Verdicted? {
        OverlaidShows(whole.value, s.versions[last.version].value, Current(s).value);
      }
    }
  }

  /**
   * At rest the browser's row is right if and only if what it was told last is as good as the
   * record: the last whole row shows the same facts, and the verdict told after it, or else its own, is
   * the record's.
   */
  lemma AtRestExactly(id: TraceId, steps: seq<Step>)
    requires Schedule(Initially(id), steps)
    requires AtRest(Reached(Initially(id), steps)) && Current(Reached(Initially(id), steps)).Some?
    ensures var s := Reached(Initially(id), steps);
      && AllProper(s) && LastWhole(s.sent).Some? && LastWhole(s.sent).value < |s.versions|
      && (RowShows(Row(s, s.sent), Current(s).value) <==> AsGood(s, Current(s).value))
  {
    EveryRunKeeps(id, steps);
    RestingRow(Reached(Initially(id), steps));
  }

  // ---- told in order ----

  predicate InOrder(sent: seq<Note>) {
    forall i, j :: 0 <= i < j < |sent| ==> sent[i].version <= sent[j].version
  }

  /** The same record but for verdict and state. */
  predicate SameSpans(t: Trace, u: Trace) {
    t == u.(state := t.state, decision := t.decision, matched := t.matched)
  }

  /** Without a frame in between, a record has the spans it had. */
  lemma {:induction false} SpansStay(s: System, v: nat, w: nat)
    requires Linked(s) && v <= w < |s.versions| && s.versions[w].Some?
    requires forall u :: v < u <= w ==> !s.kinds[u].Ingested?
    ensures s.versions[v].Some? && SameSpans(s.versions[v].value, s.versions[w].value)
  {
    if v < w {
      assert Follows(s.id, s.kinds[w], s.versions[w - 1], s.versions[w]);
      SpansStay(s, v, w - 1);
    }
  }

  /** Without a frame, a decision or a policy in between, it has become READY at most. */
  lemma {:induction false} VerdictStays(s: System, v: nat, w: nat)
    requires Linked(s) && v <= w < |s.versions| && s.versions[w].Some?
    requires forall u :: v < u <= w ==> !s.kinds[u].Ingested? && !s.kinds[u].Applied? && !s.kinds[u].Rewritten?
    ensures s.versions[v].Some?
    ensures var t, u := s.versions[v].value, s.versions[w].value;
      u == t || (t.state.Receiving? && u == t.(state := Ready))
  {
    if v < w {
      assert Follows(s.id, s.kinds[w], s.versions[w - 1], s.versions[w]);
      VerdictStays(s, v, w - 1);
    }
  }

  /** In order, nothing that is told happened after the last message. */
  lemma NothingAfterLast(s: System)
    requires Inv(s) && AtRest(s) && InOrder(s.sent)
    ensures s.sent != []
    ensures forall v :: s.sent[|s.sent| - 1].version < v < |s.kinds| ==>
      !s.kinds[v].Ingested? && !s.kinds[v].Applied? && !s.kinds[v].Rewritten?
  {
    var k := SnapshotSent(s);
    LastIsLatest(s.sent);
    assert s.sent[k] in s.sent;
  }

  lemma LastIsLatest(sent: seq<Note>)
    requires InOrder(sent) && sent != []
    ensures forall note <- sent :: note.version <= sent[|sent| - 1].version
  {
  }

  /** In order, no frame comes between the last whole row and a verdict told after it. */
  lemma NoFrameBetween(s: System, j: nat, v: nat)
    requires Inv(s) && AtRest(s) && InOrder(s.sent) && j < |s.sent|
    requires forall i :: j < i < |s.sent| ==> s.sent[i].Verdicted?
    requires s.since <= s.sent[j].version < v < |s.kinds|
    ensures !s.kinds[v].Ingested?
  {
    LaterIsVerdict(s.sent, j);
  }

  lemma LaterIsVerdict(sent: seq<Note>, j: nat)
    requires InOrder(sent) && j < |sent| && forall i :: j < i < |sent| ==> sent[i].Verdicted?
    ensures forall note <- sent :: note.version > sent[j].version ==> note.Verdicted?
  {
  }

  /** In order, a verdict told last of all completes the row of its version. */
  lemma VerdictCompletes(s: System, j: nat, w: nat)
    requires Inv(s) && AtRest(s) && InOrder(s.sent) && j < |s.sent|
    requires forall i :: j < i < |s.sent| ==> s.sent[i].Verdicted?
    requires s.since <= s.sent[j].version <= w < |s.kinds| && s.kinds[w].Applied? && s.versions[w].Some?
    ensures var t := s.versions[w].value;
      Overlaid(RowOf(s.versions[s.sent[j].version]), t.decision, t.matched) == RowOf(s.versions[w])
  {
    forall v | s.sent[j].version < v <= w ensures !s.kinds[v].Ingested? {
      NoFrameBetween(s, j, v);
    }
    SpansStay(s, s.sent[j].version, w);
    assert Follows(s.id, s.kinds[w], s.versions[w - 1], s.versions[w]);
    VerdictOnTop(s.versions[s.sent[j].version].value, s.versions[w].value);
  }

  lemma LastWholeSent(s: System) returns (j: nat)
    requires Inv(s) && AtRest(s) && InOrder(s.sent)
    ensures j < |s.sent| && LastWhole(s.sent) == Some(s.sent[j].version)
    ensures s.since <= s.sent[j].version <= s.sent[|s.sent| - 1].version
    ensures forall i :: j < i < |s.sent| ==> s.sent[i].Verdicted?
  {
    var k := SnapshotSent(s);
    j := LastWholeAt(s.sent, k);
    assert s.sent[k].version <= s.sent[j].version;
  }

  lemma VerdictOnWhole(s: System, v: nat, w: nat)
    requires AllProper(s) && s.sent != [] && s.sent[|s.sent| - 1] == Verdicted(w) && LastWhole(s.sent) == Some(v)
    ensures v < |s.versions| && w < |s.versions| && s.versions[w].Some?
    ensures Row(s, s.sent) == Overlaid(RowOf(s.versions[v]), s.versions[w].value.decision, s.versions[w].value.matched)
  {
    RowIsToldRow(s, s.sent);
    assert Proper(s.versions, s.kinds, s.sent[|s.sent| - 1]);
  }

  lemma LastVerdictShown(s: System, w: nat)
    requires Inv(s) && AtRest(s) && InOrder(s.sent) && s.sent != [] && s.sent[|s.sent| - 1] == Verdicted(w)
    ensures w < |s.versions| && Row(s, s.sent) == RowOf(s.versions[w])
  {
    var j := LastWholeSent(s);
    VerdictOnWhole(s, s.sent[j].version, w);
    VerdictCompletes(s, j, w);
  }

  /** In order, the row is that of the version told last. */
  lemma LastToldShown(s: System)
    requires Inv(s) && AtRest(s) && InOrder(s.sent) && s.sent != []
    requires s.sent[|s.sent| - 1].version < |s.versions| && s.versions[s.sent[|s.sent| - 1].version].Some?
    ensures Row(s, s.sent) == RowOf(s.versions[s.sent[|s.sent| - 1].version])
  {
    var last := s.sent[|s.sent| - 1];
    if last.Verdicted? {
      LastVerdictShown(s, last.version);
    }
  }

  lemma VerdictOnTop(t: Trace, u: Trace)
    requires SameSpans(t, u) && u.state.Decided?
    ensures Overlaid(RowOf(Some(t)), u.decision, u.matched) == RowOf(Some(u))
  {
  }

  lemma RestingInOrder(s: System)
    requires Inv(s) && AtRest(s) && Current(s).Some? && InOrder(s.sent)
    ensures RowShows(Row(s, s.sent), Current(s).value)
  {
    NothingAfterLast(s);
    var v := s.sent[|s.sent| - 1].version;
    VerdictStays(s, v, |s.versions| - 1);
    LastToldShown(s);
    ReadyIsShown(s.versions[v].value, Current(s).value);
  }

  lemma ReadyIsShown(t: Trace, u: Trace)
    requires u == t || (t.state.Receiving? && u == t.(state := Ready))
    ensures RowShows(RowOf(Some(t)), u)
  {
    assert t.state.Receiving? && u == t.(state := Ready) ==> u.(state := Receiving) == t;
  }

  /** Told in the order of the record's versions, the row is right. */
  lemma InOrderIsRight(id: TraceId, steps: seq<Step>)
    requires Schedule(Initially(id), steps)
    requires AtRest(Reached(Initially(id), steps)) && Current(Reached(Initially(id), steps)).Some?
    requires InOrder(Reached(Initially(id), steps).sent)
    ensures var s := Reached(Initially(id), steps); AllProper(s) && RowShows(Row(s, s.sent), Current(s).value)
  {
    EveryRunKeeps(id, steps);
    RestingInOrder(Reached(Initially(id), steps));
  }

  // ---- a schedule that goes wrong ----

  ghost predicate Leads(id: TraceId, steps: seq<Step>, s: System) {
    Schedule(Initially(id), steps) && Reached(Initially(id), steps) == s
  }

  lemma Then(id: TraceId, steps: seq<Step>, s: System, a: Step) returns (more: seq<Step>)
    requires Leads(id, steps, s) && Enabled(s, a)
    ensures Leads(id, more, Perform(s, a))
  {
    more := steps + [a];
    assert more[..|steps|] == steps;
  }

  /** A browser that joined before the first frame, and has been told all but these notes. */
  function Watched(id: TraceId, versions: seq<Option<Trace>>, kinds: seq<Kind>, notes: multiset<Note>,
      sent: seq<Note>): System {
    System(id, versions, kinds, notes, 0, true, 0, sent)
  }

  lemma SendOne(id: TraceId, before: seq<Step>, s: System, note: Note, rest: multiset<Note>) returns (steps: seq<Step>)
    requires Leads(id, before, s) && s.versions != [] && s.joined && s.notes == rest + multiset{note}
    ensures Leads(id, steps, s.(notes := rest, sent := s.sent + [note]))
  {
    steps := Then(id, before, s, Sends(note));
    assert s.notes - multiset{note} == rest;
  }

  lemma Watch(id: TraceId) returns (steps: seq<Step>)
    ensures Leads(id, steps, Watched(id, [None], [Began], multiset{}, [Full(0)]))
  {
    steps := Then(id, [], Initially(id), Joins);
    var s := Initially(id).(joined := true, owed := 1);
    steps := Then(id, steps, s, Builds);
    s := Watched(id, [None], [Began], multiset{Full(0)}, []);
    steps := SendOne(id, steps, s, Full(0), multiset{});
    assert [] + [Full(0)] == [Full(0)];
  }

  lemma TakeFrame(id: TraceId, before: seq<Step>, s: System, now: int, spans: seq<FlatSpan>) returns (steps: seq<Step>)
    requires Leads(id, before, s) && s.notes == multiset{} && s.versions != []
    ensures Leads(id, steps, Push(s, Some(Touch(Current(s), now, id, spans)), Ingested).(
        notes := multiset{Updated(|s.versions|)}))
  {
    ReachedId(id, before);
    steps := Then(id, before, s, Ingests(now, spans));
    assert s.notes + multiset{Updated(|s.versions|)} == multiset{Updated(|s.versions|)};
  }

  lemma TakeVerdict(id: TraceId, before: seq<Step>, s: System, note: Note, t: Trace) returns (steps: seq<Step>)
    requires Leads(id, before, s) && s.notes == multiset{note} && s.versions != [] && Current(s) == Some(t)
    ensures Leads(id, steps, Push(s, Some(Decide(t, Keep, ["p"])), Applied).(
        notes := multiset{note, Verdicted(|s.versions|)}))
  {
    steps := Then(id, before, s, Applies(Keep, ["p"]));
    assert s.notes + multiset{Verdicted(|s.versions|)} == multiset{note, Verdicted(|s.versions|)};
  }

  /** A frame's update is sent at once. */
  lemma FrameTold(id: TraceId, before: seq<Step>, s: System, now: int, spans: seq<FlatSpan>) returns (steps: seq<Step>)
    requires Leads(id, before, s) && s.joined && s.notes == multiset{} && s.versions != []
    ensures Leads(id, steps, Push(s, Some(Touch(Current(s), now, id, spans)), Ingested).(
        sent := s.sent + [Updated(|s.versions|)]))
  {
    steps := TakeFrame(id, before, s, now, spans);
    var t := Push(s, Some(Touch(Current(s), now, id, spans)), Ingested).(notes := multiset{Updated(|s.versions|)});
    steps := SendOne(id, steps, t, Updated(|s.versions|), multiset{});
  }

  lemma {:induction false} ReachedId(id: TraceId, steps: seq<Step>)
    requires Schedule(Initially(id), steps)
    ensures Reached(Initially(id), steps).id == id
  {
    if steps != [] {
      ReachedId(id, steps[..|steps| - 1]);
    }
  }

  /** A trace that is due, with its first frame told. */
  lemma BecomesDue(id: TraceId, spans: seq<FlatSpan>) returns (steps: seq<Step>)
    ensures var t := Touch(None, 0, id, spans);
      Leads(id, steps, Watched(id, [None, Some(t), Some(t.(state := Ready))], [Began, Ingested, Readied], multiset{},
          [Full(0), Updated(1)]))
  {
    steps := Watch(id);
    steps := FrameTold(id, steps, Watched(id, [None], [Began], multiset{}, [Full(0)]), 0, spans);
    var t := Touch(None, 0, id, spans);
    assert [None] + [Some(t)] == [None, Some(t)];
    assert [Began] + [Ingested] == [Began, Ingested] && [Full(0)] + [Updated(1)] == [Full(0), Updated(1)];
    steps := Then(id, steps, Watched(id, [None, Some(t)], [Began, Ingested], multiset{}, [Full(0), Updated(1)]),
        Readies);
    assert [None, Some(t)] + [Some(t.(state := Ready))] == [None, Some(t), Some(t.(state := Ready))];
    assert [Began, Ingested] + [Readied] == [Began, Ingested, Readied];
  }

  /** Late spans and the decision, told the other way round. */
  lemma Overtaken(id: TraceId, spans: seq<FlatSpan>) returns (steps: seq<Step>, s: System)
    ensures Leads(id, steps, s) && s.joined && s.owed == 0 && s.notes == multiset{} && |s.versions| == 5
    ensures s.sent == [Full(0), Updated(1)] + [Verdicted(4)] + [Updated(3)]
    ensures var w := Touch(Some(Touch(None, 0, id, spans).(state := Ready)), 1, id, []);
      s.versions[3] == Some(w) && s.versions[4] == Some(Decide(w, Keep, ["p"]))
  {
    var t := Touch(None, 0, id, spans);
    var u := t.(state := Ready);
    steps := BecomesDue(id, spans);
    s := Watched(id, [None, Some(t), Some(u)], [Began, Ingested, Readied], multiset{}, [Full(0), Updated(1)]);
    var w := Touch(Some(u), 1, id, []);
    steps := TakeFrame(id, steps, s, 1, []);
    s := Push(s, Some(w), Ingested).(notes := multiset{Updated(3)});
    steps := TakeVerdict(id, steps, s, Updated(3), w);
    s := Push(s, Some(Decide(w, Keep, ["p"])), Applied).(notes := multiset{Updated(3), Verdicted(4)});
    steps := SendOne(id, steps, s, Verdicted(4), multiset{Updated(3)});
    s := s.(notes := multiset{Updated(3)}, sent := s.sent + [Verdicted(4)]);
    steps := SendOne(id, steps, s, Updated(3), multiset{});
    s := s.(notes := multiset{}, sent := s.sent + [Updated(3)]);
  }

  lemma LastUpdateShown(s: System, v: nat)
    requires AllProper(s) && s.sent != [] && s.sent[|s.sent| - 1] == Updated(v)
    ensures v < |s.versions| && Row(s, s.sent) == RowOf(s.versions[v])
  {
  }

  /** It leaves the record a KEEP that is DECIDED and the row PENDING, for good. */
  lemma LateUpdateExample(id: TraceId, spans: seq<FlatSpan>) returns (steps: seq<Step>)
    ensures Schedule(Initially(id), steps)
    ensures var s := Reached(Initially(id), steps);
      && AtRest(s) && Current(s).Some? && Current(s).value.state.Decided? && Current(s).value.decision == Keep
      && AllProper(s) && Row(s, s.sent).Some? && Row(s, s.sent).value.decision == Pending
      && !Row(s, s.sent).value.state.Decided?
  {
    var s;
    steps, s := Overtaken(id, spans);
    EveryRunKeeps(id, steps);
    LastUpdateShown(s, 3);
  }
}
