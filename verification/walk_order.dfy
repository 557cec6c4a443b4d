/** When the walk of the incoming map decides which traces an ingest leaves. */
module WalkOrder {
  import opened Wrappers
  import opened Pdata
  import opened TraceTypes
  import opened TraceList
  import opened StoreSpec
  import opened Confluence

  /** No touched record fits into the store even alone. */
  ghost predicate NoTouchedFits(s: StoreState, now: int, ids: seq<TraceId>, m: SpansByTrace)
    requires forall id <- ids :: id in m
  {
    forall i :: 0 <= i < |ids| ==> TouchedSeq(s.order, now, ids, m)[i].sizeBytes > s.cfg.maxMemory
  }

  ghost predicate SameSet(a: seq<Trace>, b: seq<Trace>) {
    forall t :: t in a <==> t in b
  }

  /** Any two walks of the map leave the same traces. */
  ghost predicate WalkIndependent(s: StoreState, now: int, m: SpansByTrace) {
    forall a, b :: Walks(a, m) && Walks(b, m) ==> SameSet(Ingest(s, now, a, m).order, Ingest(s, now, b, m).order)
  }

  // ---- what does not depend on the walk ----

  lemma SameTouchedBytes(s: StoreState, now: int, a: seq<TraceId>, b: seq<TraceId>, m: SpansByTrace)
    requires Consistent(s) && Walks(a, m) && Walks(b, m)
    ensures |a| == |b| && SumSizes(TouchedSeq(s.order, now, a, m)) == SumSizes(TouchedSeq(s.order, now, b, m))
  {
    AddedBytesSameSet(a, b, m);
    WithoutSameSet(s.order, a, b);
    MergedBytes(s, now, a, m);
    MergedBytes(s, now, b, m);
  }

  // ---- the first and the last of the walk ----

  lemma AloneFits(s: StoreState, now: int)
    requires Consistent(s) && s.order != [] && s.order[|s.order| - 1].lastSeen == now
    requires s.order[|s.order| - 1].sizeBytes <= s.cfg.maxMemory
    ensures Fits(Dropped(s, |s.order| - 1), now)
  {
    var n := |s.order| - 1;
    DroppedConsistent(s, n);
    var alone := s.order[n..];
    assert alone == [s.order[n]] && alone[..0] == [];
  }

  /** The trace walked last is the last to go. */
  lemma LastStays(s: StoreState, now: int, ids: seq<TraceId>, m: SpansByTrace)
    requires Consistent(s) && Walks(ids, m) && ids != []
    requires TouchedSeq(s.order, now, ids, m)[|ids| - 1].sizeBytes <= s.cfg.maxMemory
    ensures TouchedSeq(s.order, now, ids, m)[|ids| - 1] in Ingest(s, now, ids, m).order
  {
    var merged, x := Merged(s, now, ids, m), TouchedSeq(s.order, now, ids, m)[|ids| - 1];
    var k := EvictCount(merged, now);
    IngestAllIs(s.order, now, ids, m);
    MergedConsistent(s, now, ids, m);
    EvictIsShortestPrefix(merged, now);
    TouchKeepsId(s.order, now, ids[|ids| - 1], m[ids[|ids| - 1]]);
    AloneFits(merged, now);
    assert k <= |merged.order| - 1;
    assert merged.order[k..][|merged.order| - 1 - k] == x;
  }

  /** Without room for all, the trace walked first is gone. */
  lemma FirstGoes(s: StoreState, now: int, ids: seq<TraceId>, m: SpansByTrace)
    requires Consistent(s) && Walks(ids, m) && ids != [] && !AllTouchedFit(s, now, ids, m)
    ensures TouchedSeq(s.order, now, ids, m)[0] !in Ingest(s, now, ids, m).order
  {
    var u, a, merged := Without(s.order, ids), TouchedSeq(s.order, now, ids, m), Merged(s, now, ids, m);
    var k := EvictCount(merged, now);
    UntouchedSuffice(s, now, ids, m);
    IngestAllIs(s.order, now, ids, m);
    MergedConsistent(s, now, ids, m);
    EvictIsShortestPrefix(merged, now);
    forall i | k <= i < |merged.order| ensures merged.order[i].id != a[0].id {
      assert merged.order[|u|] == a[0];
      TwoIds(merged.order, |u|, i);
    }
  }

  lemma TooBigForever(s: StoreState, now: int, k: nat)
    requires Consistent(s) && k < |s.order| && s.order[|s.order| - 1].sizeBytes > s.cfg.maxMemory
    ensures !Fits(Dropped(s, k), now)
  {
    DroppedConsistent(s, k);
    var rest := s.order[k..];
    assert rest[|rest| - 1] == s.order[|s.order| - 1];
  }

  lemma AllGo(s: StoreState, now: int, ids: seq<TraceId>, m: SpansByTrace)
    requires Consistent(s) && Walks(ids, m) && ids != [] && NoTouchedFits(s, now, ids, m)
    ensures Ingest(s, now, ids, m).order == []
  {
    var merged := Merged(s, now, ids, m);
    IngestAllIs(s.order, now, ids, m);
    MergedConsistent(s, now, ids, m);
    EvictIsShortestPrefix(merged, now);
    forall k | 0 <= k < |merged.order| ensures !Fits(Dropped(merged, k), now) {
      TooBigForever(merged, now, k);
    }
  }

  // ---- moving one id to the front or to the back ----

  lemma Moved(ids: seq<TraceId>, i: nat, m: SpansByTrace)
    requires Walks(ids, m) && i < |ids|
    ensures Walks([ids[i]] + (ids[..i] + ids[i + 1..]), m) && Walks(ids[..i] + ids[i + 1..] + [ids[i]], m)
  {
    DistinctRemove(ids, i);
    var rest := ids[..i] + ids[i + 1..];
    assert forall id :: id in ids <==> id in rest || id == ids[i];
    AddedFront(rest, ids[i]);
    AppendDistinct(rest, ids[i]);
  }

  lemma AddedFront(ids: seq<TraceId>, id: TraceId)
    requires Distinct(ids) && id !in ids
    ensures Distinct([id] + ids)
  {
    forall i, j | 0 <= i < j < |ids| + 1 ensures Differ([id] + ids, i, j) {
      assert i > 0 ==> Differ(ids, i - 1, j - 1);
    }
  }

  /** Neither all touched traces fit nor none: a trace that fits alone stays if walked last and goes if walked first. */
  lemma TheWalkDecides(s: StoreState, now: int, ids: seq<TraceId>, m: SpansByTrace, i: nat)
    requires Consistent(s) && Walks(ids, m) && i < |ids| && !AllTouchedFit(s, now, ids, m)
    requires TouchedSeq(s.order, now, ids, m)[i].sizeBytes <= s.cfg.maxMemory
    ensures !WalkIndependent(s, now, m)
  {
    var first, last := [ids[i]] + (ids[..i] + ids[i + 1..]), ids[..i] + ids[i + 1..] + [ids[i]];
    var t := TouchedSeq(s.order, now, ids, m)[i];
    Moved(ids, i, m);
    SameTouchedBytes(s, now, ids, first, m);
    assert TouchedSeq(s.order, now, first, m)[0] == t;
    FirstGoes(s, now, first, m);
    assert TouchedSeq(s.order, now, last, m)[|last| - 1] == t;
    LastStays(s, now, last, m);
    assert !SameSet(Ingest(s, now, first, m).order, Ingest(s, now, last, m).order);
  }

  /**
   * Every walk leaves the same traces exactly when all touched traces fit together, or none fits
   * even alone. The condition can be checked on any one listing of the map's keys.
   */
  lemma WalkIndependentExactly(s: StoreState, now: int, ids: seq<TraceId>, m: SpansByTrace)
    requires Consistent(s) && Walks(ids, m)
    ensures WalkIndependent(s, now, m) <==> AllTouchedFit(s, now, ids, m) || NoTouchedFits(s, now, ids, m)
  {
    if AllTouchedFit(s, now, ids, m) || NoTouchedFits(s, now, ids, m) {
      forall a, b | Walks(a, m) && Walks(b, m) ensures SameSet(Ingest(s, now, a, m).order, Ingest(s, now, b, m).order) {
        if AllTouchedFit(s, now, ids, m) {
          IngestConfluence(s, now, ids, a, m);
          IngestConfluence(s, now, ids, b, m);
        } else {
          NoneFitAlong(s, now, ids, a, m);
          NoneFitAlong(s, now, ids, b, m);
        }
      }
    } else {
      var i :| 0 <= i < |ids| && TouchedSeq(s.order, now, ids, m)[i].sizeBytes <= s.cfg.maxMemory;
      TheWalkDecides(s, now, ids, m, i);
    }
  }

  lemma NoneFitAlong(s: StoreState, now: int, ids: seq<TraceId>, a: seq<TraceId>, m: SpansByTrace)
    requires Consistent(s) && Walks(ids, m) && Walks(a, m)
    requires NoTouchedFits(s, now, ids, m) && !AllTouchedFit(s, now, ids, m)
    ensures Ingest(s, now, a, m).order == []
  {
    SameTouchedBytes(s, now, ids, a, m);
    forall i | 0 <= i < |a| ensures TouchedSeq(s.order, now, a, m)[i].sizeBytes > s.cfg.maxMemory {
      TouchedIn(s.order, now, a, ids, m, TouchedSeq(s.order, now, a, m)[i]);
    }
    AllGo(s, now, a, m);
  }

  // ---- a store and a frame for which the walk decides ----

  function PlainSpan(name: string): FlatSpan {
    FlatSpan(0, 1, 0, name, 0, 1, 2, StatusUnset, "", "", map[], "", 0, 0)
  }

  /** With room for one of two new traces, the one walked last stays. */
  lemma WalkOrderMattersExample()
    ensures var s := StoreState(StoreConfig(10, 10, 200), [], 0, 0);
      var m: SpansByTrace := map[1 := [PlainSpan("a")], 2 := [PlainSpan("b")]];
      && Consistent(s) && Walks([1, 2], m) && Walks([2, 1], m)
      && Ids(Ingest(s, 5, [1, 2], m).order) == [2]
      && Ids(Ingest(s, 5, [2, 1], m).order) == [1]
  {
    var s := StoreState(StoreConfig(10, 10, 200), [], 0, 0);
    var m: SpansByTrace := map[1 := [PlainSpan("a")], 2 := [PlainSpan("b")]];
    LastWalkedStays(s, 1, 2, "a", "b", m);
    LastWalkedStays(s, 2, 1, "b", "a", m);
  }

  lemma LastWalkedStays(s: StoreState, x: TraceId, y: TraceId, a: string, b: string, m: SpansByTrace)
    requires s == StoreState(StoreConfig(10, 10, 200), [], 0, 0)
    requires x != y && m == map[x := [PlainSpan(a)], y := [PlainSpan(b)]] && |a| == |b| == 1
    ensures Walks([x, y], m) && Ids(Ingest(s, 5, [x, y], m).order) == [y]
  {
    forall i, j | 0 <= i < j < 2 ensures Differ([x, y], i, j) {
    }
    TwoSizes(x, y, a, b, m);
    TwoNew(x, y, m);
    FrontGoes(Merged(s, 5, [x, y], m), Touch(None, 5, x, m[x]), Touch(None, 5, y, m[y]));
  }

  lemma TwoNew(x: TraceId, y: TraceId, m: SpansByTrace)
    requires x != y && x in m && y in m
    ensures IngestAll([], 5, [x, y], m) == [Touch(None, 5, x, m[x]), Touch(None, 5, y, m[y])]
  {
    forall i, j | 0 <= i < j < 2 ensures Differ([x, y], i, j) {
    }
    IngestAllIs([], 5, [x, y], m);
  }

  lemma FrontGoes(s: StoreState, t: Trace, u: Trace)
    requires s == StoreState(StoreConfig(10, 10, 200), [t, u], 258, 0)
    requires t.sizeBytes == u.sizeBytes == 129 && t.lastSeen == u.lastSeen == 5
    ensures Evict(s, 5).order == [u]
  {
    assert s.order[1..] == [u];
    assert DropFront(s) == s.(order := [u], totalBytes := 129, evicted := 1);
    assert Over(s, 5) && !Over(DropFront(s), 5);
  }

  lemma TwoSizes(x: TraceId, y: TraceId, a: string, b: string, m: SpansByTrace)
    requires |a| == |b| == 1 && x in m && y in m && m[x] == [PlainSpan(a)] && m[y] == [PlainSpan(b)]
    ensures AddedBytes([x, y], m) == 258 && SpansSize(m[x]) == SpansSize(m[y]) == 129
  {
    OneSpanSize(a);
    OneSpanSize(b);
    assert [x, y][..1] == [x] && [x][..0] == [];
    assert AddedBytes([x], m) == 129;
  }

  lemma OneSpanSize(name: string)
    requires |name| == 1
    ensures SpansSize([PlainSpan(name)]) == 129
  {
    assert [PlainSpan(name)][..0] == [];
  }
}
