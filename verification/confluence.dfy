/**
 * Go walks the incoming map in an arbitrary order. What of the store after an
 * ingest depends on that order, and what does not.
 */
module Confluence {
  import opened Pdata
  import opened TraceTypes
  import opened TraceList
  import opened StoreSpec

  // ---- the account does not depend on the order ----

  lemma {:induction false} AddedBytesWithout(ids: seq<TraceId>, i: nat, m: SpansByTrace)
    requires i < |ids| && forall id <- ids :: id in m
    ensures AddedBytes(ids, m) == AddedBytes(ids[..i] + ids[i + 1..], m) + SpansSize(m[ids[i]])
  {
    var init, last := ids[..|ids| - 1], ids[|ids| - 1];
    if i == |init| {
      assert ids[..i] + ids[i + 1..] == init;
    } else {
      AddedBytesWithout(init, i, m);
      assert ids[..i] + ids[i + 1..] == init[..i] + init[i + 1..] + [last];
      assert (init[..i] + init[i + 1..] + [last])[..|ids| - 2] == init[..i] + init[i + 1..];
    }
  }

  lemma DistinctRemove(ids: seq<TraceId>, i: nat)
    requires i < |ids| && Distinct(ids)
    ensures Distinct(ids[..i] + ids[i + 1..]) && ids[i] !in ids[..i] + ids[i + 1..]
    ensures forall id :: id in ids[..i] + ids[i + 1..] <==> id in ids && id != ids[i]
  {
    var r := ids[..i] + ids[i + 1..];
    forall j, k | 0 <= j < k < |r| ensures Differ(r, j, k) {
      assert Differ(ids, if j < i then j else j + 1, if k < i then k else k + 1);
    }
    forall j | 0 <= j < |r| ensures r[j] != ids[i] {
      assert if j < i then Differ(ids, j, i) else Differ(ids, i, j + 1);
    }
    forall id | id in ids && id != ids[i] ensures id in r {
      var j :| 0 <= j < |ids| && ids[j] == id;
      assert r[if j < i then j else j - 1] == id;
    }
  }

  lemma {:induction false} AddedBytesSameSet(a: seq<TraceId>, b: seq<TraceId>, m: SpansByTrace)
    requires Distinct(a) && Distinct(b) && (forall id :: id in a <==> id in b) && forall id <- a :: id in m
    ensures AddedBytes(a, m) == AddedBytes(b, m) && |a| == |b|
    decreases |a|
  {
    assert |b| > 0 ==> b[0] in b;
    if a != [] {
      var n := |a| - 1;
      assert a[n] in b;
      var i :| 0 <= i < |b| && b[i] == a[n];
      AddedBytesWithout(b, i, m);
      DistinctRemove(b, i);
      DistinctPrefix(a, n);
      var c := b[..i] + b[i + 1..];
      forall id ensures id in a[..n] <==> id in c {
        assert a == a[..n] + [a[n]];
        assert id in a <==> id in b;
      }
      AddedBytesSameSet(a[..n], c, m);
    }
  }

  lemma {:induction false} WithoutSameSet(order: seq<Trace>, a: seq<TraceId>, b: seq<TraceId>)
    requires forall id :: id in a <==> id in b
    ensures Without(order, a) == Without(order, b)
  {
    if order != [] {
      WithoutSameSet(order[..|order| - 1], a, b);
    }
  }

  // ---- eviction sees the untouched traces first ----

  /** Two stores that differ only behind the same untouched front. */
  ghost predicate SameFront(s: StoreState, t: StoreState, u: seq<Trace>, a: seq<Trace>, b: seq<Trace>, now: int) {
    && s.cfg == t.cfg && s.cfg.maxAge > 0 && s.totalBytes == t.totalBytes && s.evicted == t.evicted
    && s.order == u + a && t.order == u + b && |a| == |b|
    && (forall i :: 0 <= i < |a| ==> a[i].lastSeen == now && b[i].lastSeen == now)
  }

  lemma {:induction false} EvictSameFront(s: StoreState, t: StoreState, u: seq<Trace>, a: seq<Trace>,
      b: seq<Trace>, now: int)
    requires SameFront(s, t, u, a, b, now)
    ensures EvictCount(s, now) <= |u| ==> EvictCount(t, now) == EvictCount(s, now)
    ensures EvictCount(s, now) <= |u| ==> Evict(s, now).totalBytes == Evict(t, now).totalBytes
    ensures EvictCount(s, now) <= |u| <==> EvictCount(t, now) <= |u|
    decreases |u|
  {
    if u != [] {
      assert Over(s, now) == Over(t, now);
      if Over(s, now) {
        assert (u + a)[1..] == u[1..] + a && (u + b)[1..] == u[1..] + b;
        EvictSameFront(DropFront(s), DropFront(t), u[1..], a, b, now);
      }
    } else {
      assert u + a == a && u + b == b;
      if a != [] {
        assert Over(s, now) == Over(t, now);
      }
    }
  }

  lemma MergedSameFront(s: StoreState, now: int, a: seq<TraceId>, b: seq<TraceId>, m: SpansByTrace)
    requires Consistent(s) && Walks(a, m) && Walks(b, m)
    ensures SameFront(Merged(s, now, a, m), Merged(s, now, b, m), Without(s.order, a),
                      TouchedSeq(s.order, now, a, m), TouchedSeq(s.order, now, b, m), now)
  {
    IngestAllIs(s.order, now, a, m);
    IngestAllIs(s.order, now, b, m);
    AddedBytesSameSet(a, b, m);
    WithoutSameSet(s.order, a, b);
    forall i | 0 <= i < |a|
      ensures TouchedSeq(s.order, now, a, m)[i].lastSeen == now && TouchedSeq(s.order, now, b, m)[i].lastSeen == now
    {
      TouchKeepsId(s.order, now, a[i], m[a[i]]);
      TouchKeepsId(s.order, now, b[i], m[b[i]]);
    }
  }

  /** The touched records are the same, in whatever order they were walked. */
  lemma SameTouched(order: seq<Trace>, now: int, a: seq<TraceId>, b: seq<TraceId>, m: SpansByTrace)
    requires Walks(a, m) && Walks(b, m)
    ensures forall t :: t in TouchedSeq(order, now, a, m) <==> t in TouchedSeq(order, now, b, m)
  {
    forall t | t in TouchedSeq(order, now, a, m) ensures t in TouchedSeq(order, now, b, m) {
      TouchedIn(order, now, a, b, m, t);
    }
    forall t | t in TouchedSeq(order, now, b, m) ensures t in TouchedSeq(order, now, a, m) {
      TouchedIn(order, now, b, a, m, t);
    }
  }

  lemma TouchedIn(order: seq<Trace>, now: int, a: seq<TraceId>, b: seq<TraceId>, m: SpansByTrace, t: Trace)
    requires Walks(a, m) && Walks(b, m) && t in TouchedSeq(order, now, a, m)
    ensures t in TouchedSeq(order, now, b, m)
  {
    var i :| 0 <= i < |a| && TouchedSeq(order, now, a, m)[i] == t;
    assert a[i] in a && a[i] in b;
    var j :| 0 <= j < |b| && b[j] == a[i];
    assert TouchedSeq(order, now, b, m)[j] == t;
  }

  // ---- the theorem ----

  lemma SurvivorsSplit(u: seq<Trace>, a: seq<Trace>, ids: seq<TraceId>, k: nat)
    requires k <= |u + a|
    requires forall i :: 0 <= i < |u| ==> u[i].id !in ids
    requires forall i :: 0 <= i < |a| ==> a[i].id in ids
    ensures k <= |u| ==> (u + a)[k..] == u[k..] + a
    ensures Without((u + a)[k..], ids) == if k <= |u| then u[k..] else []
  {
    if k <= |u| {
      assert (u + a)[k..] == u[k..] + a;
      WithoutNone(u[k..], ids);
      WithoutAll(a, ids);
      WithoutAppend(u[k..], a, ids);
    } else {
      assert (u + a)[k..] == a[k - |u|..];
      WithoutAll(a[k - |u|..], ids);
    }
  }

  lemma {:induction false} WithoutAll(order: seq<Trace>, ids: seq<TraceId>)
    requires forall i :: 0 <= i < |order| ==> order[i].id in ids
    ensures Without(order, ids) == []
  {
    if order != [] {
      WithoutAll(order[..|order| - 1], ids);
    }
  }

  lemma UntouchedIds(order: seq<Trace>, ids: seq<TraceId>)
    ensures forall i :: 0 <= i < |Without(order, ids)| ==> Without(order, ids)[i].id !in ids
  {
    WithoutIs(order, ids);
    forall i | 0 <= i < |Without(order, ids)| ensures Without(order, ids)[i].id !in ids {
      assert Without(order, ids)[i] in Without(order, ids);
    }
  }

  lemma SurvivorsOf(s: StoreState, now: int, ids: seq<TraceId>, m: SpansByTrace)
    requires Walks(ids, m)
    ensures var u, a, k := Without(s.order, ids), TouchedSeq(s.order, now, ids, m), EvictCount(Merged(s, now, ids, m),
        now);
      var r := Ingest(s, now, ids, m);
      && (k <= |u| ==> r.order == u[k..] + a)
      && Without(r.order, ids) == (if k <= |u| then u[k..] else [])
      && r.evicted == s.evicted + k
  {
    var u, a := Without(s.order, ids), TouchedSeq(s.order, now, ids, m);
    IngestAllIs(s.order, now, ids, m);
    EvictIsShortestPrefix(Merged(s, now, ids, m), now);
    UntouchedIds(s.order, ids);
    forall i | 0 <= i < |a| ensures a[i].id in ids {
      TouchKeepsId(s.order, now, ids[i], m[ids[i]]);
    }
    SurvivorsSplit(u, a, ids, EvictCount(Merged(s, now, ids, m), now));
  }

  /** The bounds leave room for everything the frame touched: what a caller can check before the walk. */
  ghost predicate AllTouchedFit(s: StoreState, now: int, ids: seq<TraceId>, m: SpansByTrace)
    requires forall id <- ids :: id in m
  {
    |ids| <= s.cfg.maxTraces && SumSizes(TouchedSeq(s.order, now, ids, m)) <= s.cfg.maxMemory
  }

  /** Dropping the first k of u leaves at least the bytes of a. */
  lemma DroppedBehind(s: StoreState, u: seq<Trace>, a: seq<Trace>, k: nat)
    requires k <= |u| && s.order == u + a && s.totalBytes == SumSizes(u) + SumSizes(a)
    ensures Dropped(s, k).order == u[k..] + a && Dropped(s, k).totalBytes == SumSizes(u[k..]) + SumSizes(a)
  {
    assert s.order[..k] == u[..k] && s.order[k..] == u[k..] + a;
    assert u == u[..k] + u[k..];
    SumSizesAppend(u[..k], u[k..]);
  }

  lemma FittingMeans(s: StoreState, u: seq<Trace>, a: seq<Trace>, k: nat, now: int)
    requires k <= |u| && s.order == u + a && s.totalBytes == SumSizes(u) + SumSizes(a)
    requires s.cfg.maxTraces > 0 && s.cfg.maxAge > 0 && s.cfg.maxMemory > 0 && (a != [] ==> a[0].lastSeen == now)
    ensures Fits(Dropped(s, k), now) ==> |a| <= s.cfg.maxTraces && SumSizes(a) <= s.cfg.maxMemory
    ensures k == |u| && |a| <= s.cfg.maxTraces && SumSizes(a) <= s.cfg.maxMemory ==> Fits(Dropped(s, k), now)
  {
    DroppedBehind(s, u, a, k);
    if k == |u| {
      assert u[k..] == [] && [] + a == a;
    }
  }

  /** Eviction stops before a exactly when a fits. */
  lemma EvictedBehind(s: StoreState, u: seq<Trace>, a: seq<Trace>, now: int)
    requires s.order == u + a && s.totalBytes == SumSizes(u) + SumSizes(a)
    requires s.cfg.maxTraces > 0 && s.cfg.maxAge > 0 && s.cfg.maxMemory > 0 && (a != [] ==> a[0].lastSeen == now)
    ensures EvictCount(s, now) <= |u| <==> |a| <= s.cfg.maxTraces && SumSizes(a) <= s.cfg.maxMemory
  {
    EvictIsShortestPrefix(s, now);
    FittingMeans(s, u, a, |u|, now);
    if EvictCount(s, now) <= |u| {
      FittingMeans(s, u, a, EvictCount(s, now), now);
    }
  }

  lemma MergedBytes(s: StoreState, now: int, ids: seq<TraceId>, m: SpansByTrace)
    requires Consistent(s) && Walks(ids, m)
    ensures var u, a, merged := Without(s.order, ids), TouchedSeq(s.order, now, ids, m), Merged(s, now, ids, m);
      merged.order == u + a && merged.totalBytes == SumSizes(u) + SumSizes(a)
  {
    IngestAllIs(s.order, now, ids, m);
    MergedConsistent(s, now, ids, m);
    SumSizesAppend(Without(s.order, ids), TouchedSeq(s.order, now, ids, m));
  }

  /** Touched traces stay, every one of them, exactly when there is room for them all. */
  lemma UntouchedSuffice(s: StoreState, now: int, ids: seq<TraceId>, m: SpansByTrace)
    requires Consistent(s) && Walks(ids, m)
    ensures EvictCount(Merged(s, now, ids, m), now) <= |Without(s.order, ids)| <==> AllTouchedFit(s, now, ids, m)
  {
    MergedBytes(s, now, ids, m);
    if ids != [] {
      TouchKeepsId(s.order, now, ids[0], m[ids[0]]);
    }
    EvictedBehind(Merged(s, now, ids, m), Without(s.order, ids), TouchedSeq(s.order, now, ids, m), now);
  }

  /**
   * Whatever the order of the walk, the same untouched traces survive, in the same order. When
   * there is room for all touched traces, as there is whenever an untouched one survives, every
   * touched trace survives and the two stores hold the same traces, bytes and eviction count.
   */
  lemma IngestConfluence(s: StoreState, now: int, a: seq<TraceId>, b: seq<TraceId>, m: SpansByTrace)
    requires Consistent(s) && Walks(a, m) && Walks(b, m)
    ensures var r, q := Ingest(s, now, a, m), Ingest(s, now, b, m);
      && Without(r.order, a) == Without(q.order, b)
      && (Without(r.order, a) != [] ==> AllTouchedFit(s, now, a, m))
      && (AllTouchedFit(s, now, a, m) ==>
            && (forall t :: t in r.order <==> t in q.order)
            && (forall t :: t in TouchedSeq(s.order, now, a, m) ==> t in r.order)
            && r.totalBytes == q.totalBytes && r.evicted == q.evicted)
  {
    var u, k := Without(s.order, a), EvictCount(Merged(s, now, a, m), now);
    MergedSameFront(s, now, a, b, m);
    WithoutSameSet(s.order, a, b);
    EvictSameFront(Merged(s, now, a, m), Merged(s, now, b, m), u, TouchedSeq(s.order, now, a, m),
        TouchedSeq(s.order, now, b, m), now);
    SurvivorsOf(s, now, a, m);
    SurvivorsOf(s, now, b, m);
    UntouchedSuffice(s, now, a, m);
    if k <= |u| {
      SameTouched(s.order, now, a, b, m);
    }
  }
}
