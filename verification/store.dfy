/**
 * The trace store as it runs: live trace records shared by an index and a recency list and
 * updated in place. Every method is tied to StoreSpec, where the properties are proved of values.
 */
module TraceStore {
  import opened Wrappers
  import opened Pdata
  import opened Policies
  import opened TraceTypes
  import opened TraceList
  import opened StoreSpec

  /** A record in the store, shared by the index and the list; copies of it leave the store as Trace values. */
  class LiveTrace {
    const id: TraceId
    var record: Trace

    constructor (record: Trace)
      ensures this.record == record && id == record.id
    {
      this.id, this.record := record.id, record;
    }

    /** Late-arriving spans re-open a decided trace. */
    method Merge(now: int, newSpans: seq<FlatSpan>, added: nat)
      requires added == SpansSize(newSpans)
      modifies this
      ensures record == Touch(Some(old(record)), now, record.id, newSpans)
    {
      record := record.(spans := record.spans + newSpans);
      record := record.(lastSeen := now);
      if record.state == Decided || record.state == Expired {
        record := record.(state := Receiving);
      }
      record := record.(sizeBytes := record.sizeBytes + added);
    }
  }

  /** contents is what the records hold, in list order. */
  ghost predicate Mirrors(contents: seq<Trace>, order: seq<LiveTrace>)
    reads order
  {
    |contents| == |order| && forall i :: 0 <= i < |order| ==>
      order[i].record == contents[i] && order[i].id == contents[i].id
  }

  /** The index leads from each listed id to its record, and from no other id. */
  ghost predicate Indexed(byID: map<TraceId, LiveTrace>, order: seq<LiveTrace>, contents: seq<Trace>) {
    && (forall t <- order :: t.id in byID && byID[t.id] == t)
    && (forall id :: id in byID ==> Find(contents, id).Some?)
  }

  lemma MovedToBack(o: seq<LiveTrace>, at: nat, c: seq<Trace>)
    requires at < |o| == |c|
    requires forall i :: 0 <= i < |o| && i != at ==> o[i].record == c[i] && o[i].id == c[i].id
    requires o[at].id == o[at].record.id
    ensures Mirrors(c[..at] + c[at + 1..] + [o[at].record], o[..at] + o[at + 1..] + [o[at]])
  {
    var p, d := o[..at] + o[at + 1..] + [o[at]], c[..at] + c[at + 1..] + [o[at].record];
    forall i | 0 <= i < |p| ensures p[i].record == d[i] && p[i].id == d[i].id {
      if i < at {
        assert p[i] == o[i] && d[i] == c[i];
      } else if i < |p| - 1 {
        assert p[i] == o[i + 1] && d[i] == c[i + 1];
      }
    }
  }

  lemma FoundAfter(c: seq<Trace>, t: Trace, x: TraceId)
    ensures Find(Without(c, [t.id]) + [t], x).Some? <==> x == t.id || Find(c, x).Some?
  {
    Snoc(Without(c, [t.id]), t, [], x);
    if x != t.id {
      FindUntouched(c, [t.id], x);
    }
  }

  lemma SameMembers(o: seq<LiveTrace>, at: nat)
    requires at < |o|
    ensures forall u <- o[..at] + o[at + 1..] + [o[at]] :: u in o
  {
  }

  lemma NotUnderflow(s: StoreState)
    requires Consistent(s) && s.order != []
    ensures s.totalBytes >= s.order[0].sizeBytes && Consistent(DropFront(s))
  {
    var front := s.order[..1];
    DroppedConsistent(s, 1);
    assert front[..0] == [];
    assert SumSizes(front) == s.order[0].sizeBytes;
  }

  lemma FrontRemoved(byID: map<TraceId, LiveTrace>, o: seq<LiveTrace>, c: seq<Trace>)
    requires o != [] && Indexed(byID, o, c) && Mirrors(c, o) && Distinct(Ids(c))
    ensures Indexed(byID - {o[0].id}, o[1..], c[1..]) && Mirrors(c[1..], o[1..])
  {
    forall u <- o[1..] ensures u.id != o[0].id {
      var i :| 0 <= i < |o| - 1 && o[1..][i] == u;
      assert Differ(Ids(c), 0, i + 1);
    }
    forall id | id in byID && id != o[0].id ensures Find(c[1..], id).Some? {
      FoundBehindFront(c, id);
    }
  }

  lemma TailListed(o: seq<LiveTrace>, repr: set<LiveTrace>)
    requires o != [] && forall t <- o :: t in repr
    ensures forall t <- o[1..] :: t in repr
  {
  }

  /** The index after t was put at the back under its id, whether it was listed before or not. */
  lemma IndexedAfter(byID: map<TraceId, LiveTrace>, o: seq<LiveTrace>, c: seq<Trace>, p: seq<LiveTrace>,
      t: LiveTrace, r: Trace)
    requires Indexed(byID, o, c) && r.id == t.id
    requires forall u <- p :: u in o || u == t
    requires t.id in byID ==> byID[t.id] == t
    ensures Indexed(byID[t.id := t], p, Without(c, [r.id]) + [r])
  {
    forall x | x in byID[t.id := t] ensures Find(Without(c, [r.id]) + [r], x).Some? {
      FoundAfter(c, r, x);
    }
  }

  lemma NewIsLast(c: seq<Trace>, now: int, id: TraceId, spans: seq<FlatSpan>)
    requires Find(c, id).None?
    ensures IngestOne(c, now, id, spans) == c + [Trace(id, now, now, spans, SpansSize(spans), Receiving, Pending, [])]
  {
    FindIs(c, id);
    NotListed(c, id);
    WithoutNone(c, [id]);
  }

  /** The store after one trace of the map. */
  ghost function IngestedOne(s: StoreState, now: int, id: TraceId, spans: seq<FlatSpan>): StoreState {
    s.(order := IngestOne(s.order, now, id, spans), totalBytes := s.totalBytes + SpansSize(spans))
  }

  ghost predicate NoRepeats(order: seq<LiveTrace>) {
    forall i, j :: 0 <= i < j < |order| ==> order[i] != order[j]
  }

  class Store {
    const cfg: StoreConfig
    var byID: map<TraceId, LiveTrace>
    var order: seq<LiveTrace>   // front = least recently touched
    var totalBytes: nat
    var evicted: nat
    ghost var contents: seq<Trace>
    ghost var Repr: set<LiveTrace>

    ghost function Abs(): StoreState
      reads this
    {
      StoreState(cfg, contents, totalBytes, evicted)
    }

    /** Index and list hold the same records, none twice, and the account is right. */
    ghost predicate Valid()
      reads this, Repr
    {
      (forall t <- order :: t in Repr) && Indexed(byID, order, contents) && Mirrors(contents, order) &&
        Consistent(Abs())
    }

    constructor (cfg: StoreConfig)
      ensures Valid() && Abs() == EmptyStore(cfg) && Repr == {}
    {
      this.cfg := Defaulted(cfg);
      byID, order, totalBytes, evicted, contents, Repr := map[], [], 0, 0, [], {};
    }

    /** No record is in the list twice. */
    lemma NoSharing()
      requires Mirrors(contents, order) && Distinct(Ids(contents))
      ensures NoRepeats(order)
    {
      forall i, j | 0 <= i < j < |order| ensures order[i] != order[j] {
        assert Differ(Ids(contents), i, j);
      }
    }

    lemma IndexedIsFound(id: TraceId)
      requires Indexed(byID, order, contents) && Mirrors(contents, order) && Distinct(Ids(contents))
      ensures id in byID <==> Find(contents, id).Some?
      ensures id in byID ==> byID[id] in order && Find(contents, id) == Some(byID[id].record)
    {
      FindIs(contents, id);
      if Find(contents, id).Some? {
        var i :| 0 <= i < |contents| && contents[i] == Find(contents, id).value;
        assert order[i] in order;
      }
    }

    /** order.MoveToBack. */
    method MoveToBack(t: LiveTrace) returns (ghost at: nat)
      requires t in order
      modifies this`order
      ensures at < |old(order)| && old(order)[at] == t
      ensures order == old(order)[..at] + old(order)[at + 1..] + [t]
    {
      var i :| 0 <= i < |order| && order[i] == t;
      at := i;
      order := order[..i] + order[i + 1..] + [t];
    }

    /** order.PushBack. */
    method PushBack(t: LiveTrace)
      requires Mirrors(contents, order) && t.id == t.record.id && forall u <- order :: u in Repr
      modifies this`order, this`contents, this`Repr
      ensures order == old(order) + [t] && contents == old(contents) + [t.record] && Repr == old(Repr) + {t}
      ensures Mirrors(contents, order) && forall u <- order :: u in Repr
    {
      order := order + [t];
      contents := contents + [t.record];
      Repr := Repr + {t};
    }

    /** order.Remove of the front, and delete of its id. */
    method PopFront()
      requires order != [] && Indexed(byID, order, contents) && Mirrors(contents, order)
      requires Distinct(Ids(contents)) && forall t <- order :: t in Repr
      modifies this`byID, this`order, this`contents
      ensures order == old(order)[1..] && contents == old(contents)[1..]
      ensures Indexed(byID, order, contents) && Mirrors(contents, order) && forall t <- order :: t in Repr
    {
      FrontRemoved(byID, order, contents);
      TailListed(order, Repr);
      byID := byID - {order[0].id};
      order := order[1..];
      contents := contents[1..];
    }

    method AddedSize(spans: seq<FlatSpan>) returns (added: nat)
      ensures added == SpansSize(spans)
    {
      added := 0;
      for i := 0 to |spans|
        invariant added == SpansSize(spans[..i])
      {
        assert spans[..i + 1][..i] == spans[..i];
        var size := ApproxSizeBytes(spans[i]);
        added := added + size;
      }
      assert spans[..|spans|] == spans;
    }

    /** The record's position is taken out of the list and of its mirror, and the record put at the back. */
    method Requeue(t: LiveTrace)
      requires t in order && t.id == t.record.id && |contents| == |order|
      requires forall i :: 0 <= i < |order| ==>
        order[i].id == contents[i].id && (order[i] != t ==> order[i].record == contents[i])
      requires NoRepeats(order) && Distinct(Ids(contents))
      modifies this`order, this`contents
      ensures Mirrors(contents, order)
      ensures contents == Without(old(contents), [t.id]) + [t.record]
      ensures forall u <- order :: u in old(order)
    {
      ghost var o := order;
      ghost var at := MoveToBack(t);
      WithoutAt(contents, at);
      SameMembers(o, at);
      MovedToBack(o, at, contents);
      contents := contents[..at] + contents[at + 1..] + [t.record];
    }

    /** An existing record takes the spans and moves to the back. */
    method IngestExisting(now: int, id: TraceId, newSpans: seq<FlatSpan>, added: nat) returns (t: LiveTrace)
      requires Valid() && id in byID && added == SpansSize(newSpans)
      modifies this`order, this`contents, Repr
      ensures (forall u <- order :: u in Repr) && Indexed(byID, order, contents) && Mirrors(contents, order)
      ensures contents == IngestOne(old(contents), now, id, newSpans) && contents[|contents| - 1] == t.record
    {
      ghost var o, c := order, contents;
      NoSharing();
      IndexedIsFound(id);
      FindIs(c, id);
      t := byID[id];
      t.Merge(now, newSpans, added);
      Requeue(t);
      IndexedAfter(byID, o, c, order, t, t.record);
      assert byID[t.id := t] == byID;
    }

    /** A new record goes to the back. */
    method IngestNew(now: int, id: TraceId, newSpans: seq<FlatSpan>, added: nat) returns (t: LiveTrace)
      requires Valid() && id !in byID && added == SpansSize(newSpans)
      modifies this`order, this`byID, this`contents, this`Repr
      ensures (forall u <- order :: u in Repr) && Indexed(byID, order, contents) && Mirrors(contents, order)
      ensures fresh(Repr - old(Repr))
      ensures contents == IngestOne(old(contents), now, id, newSpans) && contents[|contents| - 1] == t.record
    {
      IndexedIsFound(id);
      NewIsLast(contents, now, id, newSpans);
      t := new LiveTrace(Trace(id, now, now, newSpans, added, Receiving, Pending, []));
      IndexedAfter(byID, order, contents, order + [t], t, t.record);
      PushBack(t);
      byID := byID[id := t];
    }

    /** Ingest's branch on the index. */
    method MergeOrAdd(now: int, id: TraceId, spans: seq<FlatSpan>, added: nat) returns (t: LiveTrace)
      requires Valid() && added == SpansSize(spans)
      modifies this`order, this`byID, this`contents, this`Repr, Repr
      ensures (forall u <- order :: u in Repr) && Indexed(byID, order, contents) && Mirrors(contents, order)
      ensures fresh(Repr - old(Repr))
      ensures contents == IngestOne(old(contents), now, id, spans) && contents[|contents| - 1] == t.record
    {
      if id in byID {
        t := IngestExisting(now, id, spans, added);
      } else {
        t := IngestNew(now, id, spans, added);
      }
    }

    /** One trace of the map, but for the account's consistency. */
    method FoldInTrace(now: int, id: TraceId, spans: seq<FlatSpan>) returns (touched: Trace)
      requires Valid()
      modifies this, Repr
      ensures (forall u <- order :: u in Repr) && Indexed(byID, order, contents) && Mirrors(contents, order)
      ensures fresh(Repr - old(Repr))
      ensures contents == IngestOne(old(contents), now, id, spans)
      ensures totalBytes == old(totalBytes) + SpansSize(spans) && evicted == old(evicted)
      ensures touched == Touch(Find(old(contents), id), now, id, spans)
    {
      var added := AddedSize(spans);
      var t := MergeOrAdd(now, id, spans, added);
      totalBytes := totalBytes + added;
      touched := t.record;
    }

    /** The body of Ingest's loop. */
    method IngestTrace(now: int, id: TraceId, spans: seq<FlatSpan>) returns (touched: Trace)
      requires Valid()
      modifies this, Repr
      ensures Valid() && fresh(Repr - old(Repr))
      ensures Abs() == IngestedOne(old(Abs()), now, id, spans)
      ensures touched == Touch(Find(old(contents), id), now, id, spans)
    {
      ghost var s := Abs();
      touched := FoldInTrace(now, id, spans);
      IngestOneConsistent(s, now, id, spans);
    }

    method RemoveLocked()
      requires Valid() && order != []
      modifies this
      ensures Valid() && Repr == old(Repr) && order == old(order)[1..] && Abs() == DropFront(old(Abs()))
    {
      NotUnderflow(Abs());
      totalBytes := totalBytes - order[0].record.sizeBytes;
      PopFront();
      evicted := evicted + 1;
    }

    /** evictLocked: drop from the front until the bounds hold. */
    method EvictLocked(now: int)
      requires Valid()
      modifies this
      ensures Valid() && Repr == old(Repr) && Abs() == Evict(old(Abs()), now)
    {
      while true
        invariant Valid() && Repr == old(Repr)
        invariant Evict(Abs(), now) == Evict(old(Abs()), now)
        decreases |order|
      {
        if |order| == 0 {
          return;
        }
        var t := order[0].record;
        var overCount := |order| > cfg.maxTraces;
        var overAge := cfg.maxAge > 0 && now - t.lastSeen > cfg.maxAge;
        var overMemory := cfg.maxMemory > 0 && totalBytes > cfg.maxMemory;
        if !overCount && !overAge && !overMemory {
          return;
        }
        RemoveLocked();
      }
    }

    /** One round of Ingest's loop: any id that is left. */
    method IngestNext(now: int, touched: seq<Trace>, rest: SpansByTrace, ghost s: StoreState, ghost ids: seq<TraceId>,
        ghost m: SpansByTrace)
      returns (more: seq<Trace>, left: SpansByTrace, ghost walked: seq<TraceId>)
      requires Valid() && MergedSoFar(s, now, Abs(), touched, ids, rest, m) && rest != map[]
      modifies this, Repr
      ensures Valid() && fresh(Repr - old(Repr)) && |left| < |rest|
      ensures MergedSoFar(s, now, Abs(), more, walked, left, m)
    {
      var id :| id in rest;
      ghost var before := Abs();
      var t := IngestTrace(now, id, rest[id]);
      MergedNext(s, now, before, touched, ids, id, rest, m);
      more, left, walked := touched + [t], rest - {id}, ids + [id];
    }

    /** The loop of Ingest, over the map in any order. */
    method MergeAll(now: int, spansByTrace: SpansByTrace) returns (touched: seq<Trace>, ghost ids: seq<TraceId>)
      requires Valid()
      modifies this, Repr
      ensures Valid() && fresh(Repr - old(Repr))
      ensures MergedSoFar(old(Abs()), now, Abs(), touched, ids, map[], spansByTrace)
    {
      ghost var s := Abs();
      touched, ids := [], [];
      var rest := spansByTrace;
      while rest != map[]
        invariant Valid() && MergedSoFar(s, now, Abs(), touched, ids, rest, spansByTrace)
        invariant forall t <- Repr :: t in old(Repr) || fresh(t)
        decreases |rest|
      {
        touched, rest, ids := IngestNext(now, touched, rest, s, ids, spansByTrace);
      }
    }

    /** Ingest: merge each trace's spans, walking the map in any order, then evict. */
    method Ingest(now: int, spansByTrace: SpansByTrace) returns (touched: seq<Trace>)
      requires Valid()
      modifies this, Repr
      ensures Valid() && fresh(Repr - old(Repr))
      ensures Walks(Ids(touched), spansByTrace)
      ensures Abs() == StoreSpec.Ingest(old(Abs()), now, Ids(touched), spansByTrace)
      ensures touched == TouchedSeq(old(contents), now, Ids(touched), spansByTrace)
    {
      ghost var s, ids := Abs(), [];
      touched, ids := MergeAll(now, spansByTrace);
      TouchedIds(s.order, now, ids, spansByTrace);
      EvictLocked(now);
    }

    /** Writes one record in place; id, spans and times stay. */
    method SetRecord(i: nat, r: Trace)
      requires Valid() && i < |order| &&
        r == contents[i].(state := r.state, decision := r.decision, matched := r.matched)
      modifies this`contents, Repr
      ensures Valid() && Abs() == old(Abs()).(order := old(contents)[i := r])
    {
      ghost var s := Abs();
      NoSharing();
      SetMirror(i, r);
      SameTracesConsistent(s, contents);
      ReindexSame(byID, order, s.order, contents);
    }

    method SetMirror(i: nat, r: Trace)
      requires i < |order| && Mirrors(contents, order) && NoRepeats(order) && r.id == contents[i].id
      modifies this`contents, order[i]
      ensures contents == old(contents)[i := r] && Mirrors(contents, order)
    {
      forall j | 0 <= j < |order| && j != i ensures order[j] != order[i] {
        assert if i < j then order[i] != order[j] else order[j] != order[i];
      }
      order[i].record := r;
      contents := contents[i := r];
    }

    /** The loop of DueForDecision has passed i traces of s and collected due. */
    ghost predicate MarkedSoFar(s: StoreState, i: nat, now: int, wait: int, due: seq<Trace>)
      requires i <= |s.order|
      reads this, Repr
    {
      Valid() && Abs() == s.(order := MarkUpTo(s.order, i, now, wait)) && due == DueOf(s.order[..i], now, wait)
    }

    /** The record at i becomes READY, if it is due. */
    method MarkIfDue(i: nat, now: int, wait: int) returns (due: Option<Trace>)
      requires Valid() && i < |order|
      modifies this`contents, Repr
      ensures Valid() && var t := old(contents)[i]; var r := t.(state := Ready);
        && due == (if IsDue(t, now, wait) then Some(r) else None)
        && Abs() == old(Abs()).(order := if due.Some? then old(contents)[i := r] else old(contents))
    {
      var t := order[i].record;
      if t.state == Receiving && now - t.firstSeen >= wait {
        SetRecord(i, t.(state := Ready));
        return Some(t.(state := Ready));
      }
      return None;
    }

    /** One round of DueForDecision's loop. */
    method DueStep(i: nat, now: int, wait: int, ghost s: StoreState, due: seq<Trace>) returns (next: seq<Trace>)
      requires i < |s.order| && MarkedSoFar(s, i, now, wait, due)
      modifies this`contents, Repr
      ensures MarkedSoFar(s, i + 1, now, wait, next)
    {
      MarkUpToIs(s.order, i, now, wait);
      DueNext(s.order, i, now, wait);
      var marked := MarkIfDue(i, now, wait);
      return if marked.Some? then due + [marked.value] else due;
    }

    /** DueForDecision: RECEIVING traces old enough become READY and are returned. */
    method DueForDecision(now: int, wait: int) returns (due: seq<Trace>)
      requires Valid()
      modifies this`contents, Repr
      ensures Valid()
      ensures Abs() == old(Abs()).(order := MarkReady(old(contents), now, wait))
      ensures due == DueOf(old(contents), now, wait)
    {
      ghost var s := Abs();
      due := [];
      for i := 0 to |order|
        invariant MarkedSoFar(s, i, now, wait, due)
      {
        due := DueStep(i, now, wait, s, due);
      }
      MarkEnds(s.order, now, wait);
    }

    /** ApplyDecision: record an evaluation result, if the trace is still here. */
    method ApplyDecision(id: TraceId, decision: Decision, matched: seq<string>) returns (updated: Option<Trace>)
      requires Valid()
      modifies this`contents, Repr
      ensures Valid()
      ensures Abs() == old(Abs()).(order := StoreSpec.ApplyDecision(old(contents), id, decision, matched))
      ensures updated.None? ==> Abs() == old(Abs())
      ensures updated == match Find(old(contents),
          id) case None => None case Some(t) => Some(Decide(t, decision, matched))
    {
      IndexedIsFound(id);
      if id !in byID {
        FindIs(contents, id);
        NotListed(contents, id);
        assert StoreSpec.ApplyDecision(contents, id, decision, matched) == contents;
        return None;
      }
      var t := byID[id];
      var i :| 0 <= i < |order| && order[i] == t;
      var r := Decide(t.record, decision, matched);
      FindIs(contents, id);
      ApplyAt(contents, i, decision, matched);
      SetRecord(i, r);
      return Some(r);
    }

    /** All: copies of every trace, front first. */
    method All() returns (all: seq<Trace>)
      requires Valid()
      ensures all == contents
    {
      all := [];
      for i := 0 to |order|
        invariant all == contents[..i]
      {
        all := all + [order[i].record];
      }
    }

    method Get(id: TraceId) returns (t: Option<Trace>)
      requires Valid()
      ensures t == Find(contents, id)
    {
      IndexedIsFound(id);
      return if id in byID then Some(byID[id].record) else None;
    }
  }

  lemma ReindexSame(byID: map<TraceId, LiveTrace>, o: seq<LiveTrace>, c: seq<Trace>, d: seq<Trace>)
    requires Indexed(byID, o, c) && SameTraces(c, d)
    ensures Indexed(byID, o, d)
  {
    SameTracesSum(c, d);
    forall id | id in byID ensures Find(d, id).Some? {
      FindIs(c, id);
      FindIs(d, id);
    }
  }

  /** The list when the loop has passed i traces. */
  ghost function MarkUpTo(order: seq<Trace>, i: nat, now: int, wait: int): (r: seq<Trace>)
    requires i <= |order|
    ensures |r| == |order|
  {
    if i == 0 then order
    else
      var before := MarkUpTo(order, i - 1, now, wait);
      if IsDue(order[i - 1], now, wait) then before[i - 1 := order[i - 1].(state := Ready)] else before
  }

  lemma {:induction false} MarkUpToIs(order: seq<Trace>, i: nat, now: int, wait: int)
    requires i <= |order|
    ensures forall j :: i <= j < |order| ==> MarkUpTo(order, i, now, wait)[j] == order[j]
    ensures forall j :: 0 <= j < i ==> MarkUpTo(order, i, now, wait)[j] == MarkReady(order, now, wait)[j]
  {
    if i > 0 {
      MarkUpToIs(order, i - 1, now, wait);
    }
  }

  lemma MarkEnds(order: seq<Trace>, now: int, wait: int)
    ensures MarkUpTo(order, |order|, now, wait) == MarkReady(order, now, wait)
    ensures order[..|order|] == order
  {
    MarkUpToIs(order, |order|, now, wait);
  }

  /** ids are distinct keys of m and rest is what is left of m without them. */
  ghost predicate Walked(ids: seq<TraceId>, rest: SpansByTrace, m: SpansByTrace) {
    && Distinct(ids)
    && (forall id :: id in m <==> id in ids || id in rest)
    && (forall id :: id in rest ==> id !in ids && rest[id] == m[id])
  }

  lemma WalkedStep(order: seq<Trace>, now: int, ids: seq<TraceId>, id: TraceId, rest: SpansByTrace, m: SpansByTrace)
    requires Walked(ids, rest, m) && id in rest
    ensures Walked(ids + [id], rest - {id}, m)
    ensures TouchedSeq(order, now, ids + [id], m) ==
      TouchedSeq(order, now, ids, m) + [Touch(Find(order, id), now, id, m[id])]
  {
    AppendDistinct(ids, id);
  }

  /** One more id walked. */
  lemma IngestStep(s: StoreState, now: int, ids: seq<TraceId>, id: TraceId, m: SpansByTrace)
    requires (forall i <- ids :: i in m) && id in m && id !in ids && Distinct(ids)
    ensures var t := Merged(s, now, ids, m);
      && Merged(s, now, ids + [id], m) ==
           t.(order := IngestOne(t.order, now, id, m[id]), totalBytes := t.totalBytes + SpansSize(m[id]))
      && Find(t.order, id) == Find(s.order, id)
  {
    assert (ids + [id])[..|ids|] == ids;
    IngestAllIs(s.order, now, ids, m);
    FindUntouched(s.order, ids, id);
    var touched := TouchedSeq(s.order, now, ids, m);
    forall i | 0 <= i < |ids| ensures touched[i].id != id {
      TouchKeepsId(s.order, now, ids[i], m[ids[i]]);
    }
    PassOver(Without(s.order, ids), touched, id);
  }

  /** Ingest's loop has walked ids and got from s to t; rest is still to be walked. */
  ghost predicate MergedSoFar(s: StoreState, now: int, t: StoreState, touched: seq<Trace>, ids: seq<TraceId>,
      rest: SpansByTrace, m: SpansByTrace) {
    Walked(ids, rest, m) && t == Merged(s, now, ids, m) && touched == TouchedSeq(s.order, now, ids, m)
  }

  lemma MergedNext(s: StoreState, now: int, t: StoreState, touched: seq<Trace>, ids: seq<TraceId>, id: TraceId,
      rest: SpansByTrace, m: SpansByTrace)
    requires MergedSoFar(s, now, t, touched, ids, rest, m) && id in rest
    ensures MergedSoFar(s, now, IngestedOne(t, now, id, rest[id]),
        touched + [Touch(Find(t.order, id), now, id, rest[id])],
        ids + [id], rest - {id}, m)
    ensures |rest - {id}| < |rest|
  {
    WalkedStep(s.order, now, ids, id, rest, m);
    IngestStep(s, now, ids, id, m);
    GroupsShrink(rest, id);
  }
}
