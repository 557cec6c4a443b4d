/** The trace store on values, and what every operation keeps. */
module StoreSpec {
  import opened Wrappers
  import opened Pdata
  import opened Policies
  import opened TraceTypes
  import opened TraceList

  datatype StoreConfig = StoreConfig(maxTraces: int, maxAge: int, maxMemory: nat)

  /** The traces, front first (least recently touched), with the byte account and the eviction count. */
  datatype StoreState = StoreState(cfg: StoreConfig, order: seq<Trace>, totalBytes: int, evicted: nat)

  type SpansByTrace = map<TraceId, seq<FlatSpan>>

  lemma GroupsShrink(m: SpansByTrace, id: TraceId)
    requires id in m
    ensures |m - {id}| == |m| - 1
  {
    assert (m - {id}).Keys == m.Keys - {id};
  }

  const DEFAULT_CONFIG := StoreConfig(10_000, 300_000_000_000, 536_870_912)

  function Defaulted(cfg: StoreConfig): StoreConfig {
    StoreConfig(
      if cfg.maxTraces <= 0 then DEFAULT_CONFIG.maxTraces else cfg.maxTraces,
      if cfg.maxAge <= 0 then DEFAULT_CONFIG.maxAge else cfg.maxAge,
      if cfg.maxMemory <= 0 then DEFAULT_CONFIG.maxMemory else cfg.maxMemory)
  }

  function EmptyStore(cfg: StoreConfig): StoreState {
    StoreState(Defaulted(cfg), [], 0, 0)
  }

  // ---- Ingest ----

  /** The record after spans arrive for it; without a record, a new one. */
  ghost function Touch(t: Option<Trace>, now: int, id: TraceId, spans: seq<FlatSpan>): Trace {
    match t
    case None => Trace(id, now, now, spans, SpansSize(spans), Receiving, Pending, [])
    case Some(t) =>
      t.(spans := t.spans + spans, lastSeen := now, sizeBytes := t.sizeBytes + SpansSize(spans),
         state := if t.state.Decided? || t.state.Expired? then Receiving else t.state)
  }

  ghost function IngestOne(order: seq<Trace>, now: int, id: TraceId, spans: seq<FlatSpan>): seq<Trace> {
    Without(order, [id]) + [Touch(Find(order, id), now, id, spans)]
  }

  /** The loop over the incoming map, in the order ids names its keys. */
  ghost function IngestAll(order: seq<Trace>, now: int, ids: seq<TraceId>, m: SpansByTrace): seq<Trace>
    requires forall id <- ids :: id in m
  {
    if ids == [] then order
    else
      var id := ids[|ids| - 1];
      IngestOne(IngestAll(order, now, ids[..|ids| - 1], m), now, id, m[id])
  }

  ghost function AddedBytes(ids: seq<TraceId>, m: SpansByTrace): nat
    requires forall id <- ids :: id in m
  {
    if ids == [] then 0
    else AddedBytes(ids[..|ids| - 1], m) + SpansSize(m[ids[|ids| - 1]])
  }

  /** ids walks the map: every key once. */
  ghost predicate Walks(ids: seq<TraceId>, m: SpansByTrace) {
    Distinct(ids) && forall id :: id in ids <==> id in m
  }

  ghost function Ingest(s: StoreState, now: int, ids: seq<TraceId>, m: SpansByTrace): StoreState
    requires forall id <- ids :: id in m
  {
    Evict(Merged(s, now, ids, m), now)
  }

  /** The store after the loop, before eviction. */
  ghost function Merged(s: StoreState, now: int, ids: seq<TraceId>, m: SpansByTrace): StoreState
    requires forall id <- ids :: id in m
  {
    s.(order := IngestAll(s.order, now, ids, m), totalBytes := s.totalBytes + AddedBytes(ids, m))
  }

  // ---- evictLocked ----

  predicate Over(s: StoreState, now: int)
    requires s.order != []
  {
    || |s.order| > s.cfg.maxTraces
    || (s.cfg.maxAge > 0 && now - s.order[0].lastSeen > s.cfg.maxAge)
    || (s.cfg.maxMemory > 0 && s.totalBytes > s.cfg.maxMemory)
  }

  function DropFront(s: StoreState): StoreState
    requires s.order != []
  {
    s.(order := s.order[1..], totalBytes := s.totalBytes - s.order[0].sizeBytes, evicted := s.evicted + 1)
  }

  function Evict(s: StoreState, now: int): StoreState
    decreases |s.order|
  {
    if s.order == [] || !Over(s, now) then s else Evict(DropFront(s), now)
  }

  /** How many traces Evict drops. */
  function EvictCount(s: StoreState, now: int): (k: nat)
    ensures k <= |s.order|
    decreases |s.order|
  {
    if s.order == [] || !Over(s, now) then 0 else 1 + EvictCount(DropFront(s), now)
  }

  ghost function Dropped(s: StoreState, k: nat): StoreState
    requires k <= |s.order|
  {
    s.(order := s.order[k..], totalBytes := s.totalBytes - SumSizes(s.order[..k]), evicted := s.evicted + k)
  }

  ghost predicate Fits(s: StoreState, now: int) {
    s.order == [] || !Over(s, now)
  }

  lemma DropFrontFirst(s: StoreState, j: nat)
    requires j < |s.order|
    ensures Dropped(s, j + 1) == Dropped(DropFront(s), j)
  {
    var t := s.order[1..];
    assert s.order[..j + 1] == [s.order[0]] + t[..j];
    assert s.order[j + 1..] == t[j..];
    SumSizesAppend([s.order[0]], t[..j]);
    assert [s.order[0]][..0] == [];
  }

  /** Eviction removes the shortest prefix after which the bounds hold, and nothing else. */
  lemma {:induction false} EvictIsShortestPrefix(s: StoreState, now: int)
    ensures var k := EvictCount(s, now);
      && k <= |s.order|
      && Evict(s, now) == Dropped(s, k)
      && Fits(Dropped(s, k), now)
      && forall j :: 0 <= j < k ==> !Fits(Dropped(s, j), now)
    decreases |s.order|
  {
    assert s.order[..0] == [] && s.order[0..] == s.order;
    assert Dropped(s, 0) == s;
    if s.order != [] && Over(s, now) {
      EvictIsShortestPrefix(DropFront(s), now);
      DropFrontFirst(s, EvictCount(DropFront(s), now));
      forall j | 0 <= j < EvictCount(s, now) ensures !Fits(Dropped(s, j), now) {
        if j > 0 {
          DropFrontFirst(s, j - 1);
        }
      }
    }
  }

  // ---- the store's invariant ----

  ghost predicate Sized(t: Trace) {
    t.sizeBytes == SpansSize(t.spans)
  }

  /** Ids are distinct, sizes are the spans' sizes and the account is their sum. */
  ghost predicate Consistent(s: StoreState) {
    && ConsistentList(s.order)
    && s.totalBytes == SumSizes(s.order)
    && s.cfg.maxTraces > 0 && s.cfg.maxAge > 0 && s.cfg.maxMemory > 0
  }

  /** Oldest LastSeen first, none after the clock. */
  ghost predicate SortedBy(order: seq<Trace>, clock: int) {
    && (forall i, j :: 0 <= i < j < |order| ==> order[i].lastSeen <= order[j].lastSeen)
    && (forall t <- order :: t.lastSeen <= clock)
  }

  lemma {:induction false} TakenOut(order: seq<Trace>, id: TraceId)
    requires Distinct(Ids(order))
    ensures SumSizes(order) ==
      SumSizes(Without(order, [id])) + (if Find(order, id).Some? then Find(order, id).value.sizeBytes else 0)
  {
    if order != [] {
      var init, last := order[..|order| - 1], order[|order| - 1];
      DistinctInit(order);
      TakenOut(init, id);
      if last.id == id {
        FindIs(init, id);
      } else {
        Snoc(Without(init, [id]), last, [id], id);
      }
    }
  }

  lemma TouchSized(t: Option<Trace>, now: int, id: TraceId, spans: seq<FlatSpan>)
    requires t.Some? ==> Sized(t.value) && t.value.id == id
    ensures var u := Touch(t, now, id, spans);
      Sized(u) && u.id == id && u.sizeBytes == SpansSize(spans) + if t.Some? then t.value.sizeBytes else 0
  {
    if t.Some? {
      SpansSizeAppend(t.value.spans, spans);
    }
  }

  /** The list's share of the invariant. */
  ghost predicate ConsistentList(order: seq<Trace>) {
    Distinct(Ids(order)) && forall t <- order :: Sized(t)
  }

  lemma AddToList(rest: seq<Trace>, t: Trace)
    requires ConsistentList(rest) && Sized(t) && forall u <- rest :: u.id != t.id
    ensures ConsistentList(rest + [t]) && SumSizes(rest + [t]) == SumSizes(rest) + t.sizeBytes
  {
    AddDistinct(rest, t);
    Snoc(rest, t, [], 0);
  }

  lemma IngestOneConsistent(s: StoreState, now: int, id: TraceId, spans: seq<FlatSpan>)
    requires Consistent(s)
    ensures Consistent(s.(order := IngestOne(s.order, now, id, spans), totalBytes := s.totalBytes + SpansSize(spans)))
  {
    FindIs(s.order, id);
    TouchSized(Find(s.order, id), now, id, spans);
    TakenOut(s.order, id);
    WithoutIs(s.order, [id]);
    WithoutDistinct(s.order, [id]);
    AddToList(Without(s.order, [id]), Touch(Find(s.order, id), now, id, spans));
  }

  lemma {:induction false} MergedConsistent(s: StoreState, now: int, ids: seq<TraceId>, m: SpansByTrace)
    requires Consistent(s) && forall id <- ids :: id in m
    ensures Consistent(Merged(s, now, ids, m))
  {
    if ids != [] {
      var init, id := ids[..|ids| - 1], ids[|ids| - 1];
      MergedConsistent(s, now, init, m);
      IngestOneConsistent(Merged(s, now, init, m), now, id, m[id]);
    }
  }

  lemma DroppedConsistent(s: StoreState, k: nat)
    requires Consistent(s) && k <= |s.order|
    ensures Consistent(Dropped(s, k)) && Dropped(s, k).totalBytes >= 0
  {
    assert s.order == s.order[..k] + s.order[k..];
    SumSizesAppend(s.order[..k], s.order[k..]);
    IdsPrefix(s.order, k);
    DistinctSuffix(Ids(s.order), k);
  }

  lemma EvictConsistent(s: StoreState, now: int)
    requires Consistent(s)
    ensures Consistent(Evict(s, now)) && Fits(Evict(s, now), now)
  {
    EvictIsShortestPrefix(s, now);
    DroppedConsistent(s, EvictCount(s, now));
  }

  /** Every ingest keeps the store consistent; in particular no subtraction goes below zero. */
  lemma IngestConsistent(s: StoreState, now: int, ids: seq<TraceId>, m: SpansByTrace)
    requires Consistent(s) && forall id <- ids :: id in m
    ensures Consistent(Ingest(s, now, ids, m)) && Fits(Ingest(s, now, ids, m), now)
  {
    MergedConsistent(s, now, ids, m);
    EvictConsistent(Merged(s, now, ids, m), now);
  }

  // ---- what the loop leaves: untouched traces in place, touched ones at the back ----

  ghost function TouchedSeq(order: seq<Trace>, now: int, ids: seq<TraceId>, m: SpansByTrace): (r: seq<Trace>)
    requires forall id <- ids :: id in m
    ensures |r| == |ids| && forall i :: 0 <= i < |ids| ==> r[i] == Touch(Find(order, ids[i]), now, ids[i], m[ids[i]])
  {
    seq(|ids|, i requires 0 <= i < |ids| => Touch(Find(order, ids[i]), now, ids[i], m[ids[i]]))
  }

  lemma TouchKeepsId(order: seq<Trace>, now: int, id: TraceId, spans: seq<FlatSpan>)
    ensures Touch(Find(order, id), now, id, spans).id == id && Touch(Find(order, id), now, id, spans).lastSeen == now
  {
    FindIs(order, id);
  }

  lemma TouchedIds(order: seq<Trace>, now: int, ids: seq<TraceId>, m: SpansByTrace)
    requires forall id <- ids :: id in m
    ensures Ids(TouchedSeq(order, now, ids, m)) == ids
  {
    forall i | 0 <= i < |ids| ensures TouchedSeq(order, now, ids, m)[i].id == ids[i] {
      TouchKeepsId(order, now, ids[i], m[ids[i]]);
    }
  }

  lemma TouchedLast(order: seq<Trace>, now: int, ids: seq<TraceId>, m: SpansByTrace)
    requires ids != [] && forall id <- ids :: id in m
    ensures var n := |ids| - 1;
      TouchedSeq(order, now, ids, m) ==
        TouchedSeq(order, now, ids[..n], m) + [Touch(Find(order, ids[n]), now, ids[n], m[ids[n]])]
  {
  }

  lemma LastApart(ids: seq<TraceId>)
    requires ids != []
    ensures ids[..|ids| - 1] + [ids[|ids| - 1]] == ids
  {
  }

  lemma {:induction false} IngestAllIs(order: seq<Trace>, now: int, ids: seq<TraceId>, m: SpansByTrace)
    requires Distinct(ids) && forall id <- ids :: id in m
    ensures IngestAll(order, now, ids, m) == Without(order, ids) + TouchedSeq(order, now, ids, m)
  {
    if ids == [] {
      WithoutNone(order, ids);
    } else {
      var n := |ids| - 1;
      DistinctPrefix(ids, n);
      IngestAllIs(order, now, ids[..n], m);
      TouchedLast(order, now, ids, m);
      IngestLast(order, now, ids[..n], ids[n], m);
      LastApart(ids);
    }
  }

  /** One more id moves its own trace to the back and nothing else. */
  lemma IngestLast(order: seq<Trace>, now: int, ids: seq<TraceId>, id: TraceId, m: SpansByTrace)
    requires id !in ids && id in m && forall i <- ids :: i in m
    ensures IngestOne(Without(order, ids) + TouchedSeq(order, now, ids, m), now, id, m[id])
         == Without(order, ids + [id]) + (TouchedSeq(order, now, ids, m) + [Touch(Find(order, id), now, id, m[id])])
  {
    var rest, touched := Without(order, ids), TouchedSeq(order, now, ids, m);
    forall i | 0 <= i < |ids| ensures touched[i].id != id {
      TouchKeepsId(order, now, ids[i], m[ids[i]]);
    }
    PassOver(rest, touched, id);
    WithoutTwice(order, ids, id);
    FindUntouched(order, ids, id);
  }

  lemma PassOver(rest: seq<Trace>, touched: seq<Trace>, id: TraceId)
    requires forall i :: 0 <= i < |touched| ==> touched[i].id != id
    ensures Without(rest + touched, [id]) == Without(rest, [id]) + touched
    ensures Find(rest + touched, id) == Find(rest, id)
  {
    WithoutNone(touched, [id]);
    WithoutAppend(rest, touched, [id]);
    FindAppend(rest, touched, id);
    FindIs(touched, id);
  }

  /** With a clock that does not go back the list stays sorted by LastSeen. */
  lemma IngestAllSorted(order: seq<Trace>, clock: int, now: int, ids: seq<TraceId>, m: SpansByTrace)
    requires SortedBy(order, clock) && clock <= now && Distinct(ids) && forall id <- ids :: id in m
    ensures SortedBy(IngestAll(order, now, ids, m), now)
  {
    IngestAllIs(order, now, ids, m);
    WithoutSorted(order, clock, ids);
    forall i | 0 <= i < |ids| ensures TouchedSeq(order, now, ids, m)[i].lastSeen == now {
      TouchKeepsId(order, now, ids[i], m[ids[i]]);
    }
  }

  lemma {:induction false} WithoutSorted(order: seq<Trace>, clock: int, ids: seq<TraceId>)
    requires SortedBy(order, clock)
    ensures SortedBy(Without(order, ids), clock)
  {
    if order != [] {
      var init, last := order[..|order| - 1], order[|order| - 1];
      assert forall i :: 0 <= i < |init| ==> init[i].lastSeen <= last.lastSeen && init[i] in order;
      WithoutSorted(init, last.lastSeen, ids);
      assert last in order;
      var w := Without(init, ids);
      assert forall t <- w :: t.lastSeen <= last.lastSeen;
      assert forall i :: 0 <= i < |w| ==> w[i] in w;
    }
  }

  /** Only the front's age is tested, yet every retained trace is young enough. */
  lemma EveryRetainedIsYoung(s: StoreState, clock: int, now: int, ids: seq<TraceId>, m: SpansByTrace)
    requires Consistent(s) && SortedBy(s.order, clock) && clock <= now && Distinct(ids) && forall id <- ids :: id in m
    ensures var r := Ingest(s, now, ids, m);
      && SortedBy(r.order, now)
      && (forall i :: 0 <= i < |r.order| ==> now - r.order[i].lastSeen <= r.cfg.maxAge)
      && |r.order| <= r.cfg.maxTraces
      && r.totalBytes <= r.cfg.maxMemory
  {
    IngestAllSorted(s.order, clock, now, ids, m);
    IngestConsistent(s, now, ids, m);
    EvictSorted(Merged(s, now, ids, m), now);
    SortedFits(Ingest(s, now, ids, m), now);
  }

  lemma EvictSorted(s: StoreState, now: int)
    requires SortedBy(s.order, now)
    ensures SortedBy(Evict(s, now).order, now)
  {
    EvictIsShortestPrefix(s, now);
    DroppedSorted(s, EvictCount(s, now), now);
  }

  lemma DroppedSorted(s: StoreState, k: nat, clock: int)
    requires SortedBy(s.order, clock) && k <= |s.order|
    ensures SortedBy(Dropped(s, k).order, clock)
  {
  }

  lemma SortedFits(r: StoreState, now: int)
    requires Consistent(r) && SortedBy(r.order, now) && Fits(r, now)
    ensures forall i :: 0 <= i < |r.order| ==> now - r.order[i].lastSeen <= r.cfg.maxAge
    ensures |r.order| <= r.cfg.maxTraces && r.totalBytes <= r.cfg.maxMemory
  {
    forall i | 0 <= i < |r.order| ensures r.order[0].lastSeen <= r.order[i].lastSeen {
    }
  }

  // ---- decisions ----

  predicate IsDue(t: Trace, now: int, wait: int) {
    t.state.Receiving? && now - t.firstSeen >= wait
  }

  function MarkReady(order: seq<Trace>, now: int, wait: int): (r: seq<Trace>)
    ensures |r| == |order|
    ensures forall i :: 0 <= i < |order| ==>
      r[i] == if IsDue(order[i], now, wait) then order[i].(state := Ready) else order[i]
  {
    seq(|order|, i requires 0 <= i < |order| =>
      if IsDue(order[i], now, wait) then order[i].(state := Ready) else order[i])
  }

  /** Copies of the traces that became READY, front first. */
  function DueOf(order: seq<Trace>, now: int, wait: int): seq<Trace> {
    if order == [] then []
    else
      var due := DueOf(order[..|order| - 1], now, wait);
      if IsDue(order[|order| - 1], now, wait) then due + [order[|order| - 1].(state := Ready)] else due
  }

  lemma DueNext(order: seq<Trace>, i: nat, now: int, wait: int)
    requires i < |order|
    ensures DueOf(order[..i + 1], now, wait) ==
      if IsDue(order[i], now, wait) then DueOf(order[..i], now, wait) + [order[i].(state := Ready)]
      else DueOf(order[..i], now, wait)
  {
    assert order[..i + 1][..i] == order[..i];
  }

  function Decide(t: Trace, decision: Decision, matched: seq<string>): Trace {
    t.(decision := decision, matched := matched, state := Decided)
  }

  function ApplyDecision(order: seq<Trace>, id: TraceId, decision: Decision, matched: seq<string>): (r: seq<Trace>)
    ensures |r| == |order|
    ensures forall i :: 0 <= i < |order| ==>
      r[i] == if order[i].id == id then Decide(order[i], decision, matched) else order[i]
  {
    seq(|order|, i requires 0 <= i < |order| =>
      if order[i].id == id then Decide(order[i], decision, matched) else order[i])
  }

  /** Applying a result under the id at position i changes that position alone. */
  lemma ApplyAt(order: seq<Trace>, i: nat, decision: Decision, matched: seq<string>)
    requires i < |order| && Distinct(Ids(order))
    ensures ApplyDecision(order, order[i].id, decision, matched) == order[i := Decide(order[i], decision, matched)]
    ensures Find(order, order[i].id) == Some(order[i])
  {
    var a, b := ApplyDecision(order, order[i].id, decision, matched), order[i := Decide(order[i], decision, matched)];
    forall j | 0 <= j < |order| ensures a[j] == b[j] {
      if j != i {
        TwoIds(order, i, j);
      }
    }
    FindAt(order, i);
  }

  /** The same traces with the same spans and times; state and decision may differ. */
  ghost predicate SameTraces(a: seq<Trace>, b: seq<Trace>) {
    |a| == |b| && forall i :: 0 <= i < |a| ==>
      b[i] == a[i].(state := b[i].state, decision := b[i].decision, matched := b[i].matched)
  }

  lemma {:induction false} SameTracesSum(a: seq<Trace>, b: seq<Trace>)
    requires SameTraces(a, b)
    ensures SumSizes(a) == SumSizes(b) && Ids(a) == Ids(b)
  {
    if a != [] {
      SameTracesSum(a[..|a| - 1], b[..|b| - 1]);
    }
  }

  /** Deciding traces does not disturb the store. */
  lemma SameTracesConsistent(s: StoreState, order: seq<Trace>)
    requires Consistent(s) && SameTraces(s.order, order)
    ensures Consistent(s.(order := order))
  {
    SameTracesSum(s.order, order);
    forall t <- order ensures Sized(t) {
      var i :| 0 <= i < |order| && order[i] == t;
      assert s.order[i] in s.order;
    }
  }
}
