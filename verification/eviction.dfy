/** Which traces eviction takes, with the three bounds written out. */
module Eviction {
  import opened Policies
  import opened Pdata
  import opened TraceTypes
  import opened TraceList
  import opened StoreSpec
  import opened ServerSpec
  import opened DecisionRuns
  import opened Lifecycle
  import opened Conservation

  /** Without the first k traces the store is within its count, its memory and, at the front, its age. */
  ghost predicate WithinBounds(s: StoreState, k: nat, now: int)
    requires k <= |s.order|
  {
    && |s.order| - k <= s.cfg.maxTraces
    && SumSizes(s.order[k..]) <= s.cfg.maxMemory
    && (k == |s.order| || now - s.order[k].lastSeen <= s.cfg.maxAge)
  }

  lemma FitsIsWithin(s: StoreState, k: nat, now: int)
    requires Consistent(s) && k <= |s.order|
    ensures Fits(Dropped(s, k), now) <==> WithinBounds(s, k, now)
  {
    DroppedConsistent(s, k);
    if k == |s.order| {
      assert s.order[k..] == [];
    } else {
      assert s.order[k..][0] == s.order[k];
    }
  }

  /** Eviction takes the fewest traces from the front that leave the store within its bounds. */
  lemma EvictsFewest(s: StoreState, now: int)
    requires Consistent(s)
    ensures var k := EvictCount(s, now);
      && WithinBounds(s, k, now)
      && (forall j :: 0 <= j < k ==> !WithinBounds(s, j, now))
      && Evict(s, now) == s.(order := s.order[k..], totalBytes := SumSizes(s.order[k..]), evicted := s.evicted + k)
  {
    var k := EvictCount(s, now);
    EvictIsShortestPrefix(s, now);
    DroppedConsistent(s, k);
    FitsIsWithin(s, k, now);
    forall j | 0 <= j < k ensures !WithinBounds(s, j, now) {
      FitsIsWithin(s, j, now);
    }
  }

  lemma SuffixIsSmaller(order: seq<Trace>, k: nat)
    requires k <= |order|
    ensures SumSizes(order[k..]) <= SumSizes(order)
  {
    assert order == order[..k] + order[k..];
    SumSizesAppend(order[..k], order[k..]);
  }

  /** A store with room by count and memory, oldest trace first, loses exactly the traces that are too old. */
  lemma RoomEvictsTheOld(s: StoreState, now: int)
    requires Consistent(s) && SortedBy(s.order, now)
    requires |s.order| <= s.cfg.maxTraces && s.totalBytes <= s.cfg.maxMemory
    ensures forall j :: 0 <= j < |s.order| ==>
      (j >= EvictCount(s, now) <==> now - s.order[j].lastSeen <= s.cfg.maxAge)
  {
    var k := EvictCount(s, now);
    EvictsFewest(s, now);
    forall j | 0 <= j < |s.order| ensures j >= k <==> now - s.order[j].lastSeen <= s.cfg.maxAge {
      if j < k {
        SuffixIsSmaller(s.order, j);
        assert !WithinBounds(s, j, now);
      }
    }
  }

  lemma InSuffix(order: seq<Trace>, j: nat, k: nat)
    requires j < |order| && k <= |order| && Distinct(Ids(order))
    ensures order[j] in order[k..] <==> j >= k
  {
    if j >= k {
      assert order[k..][j - k] == order[j];
    }
    if order[j] in order[k..] {
      var i :| 0 <= i < |order| - k && order[k..][i] == order[j];
      if k + i != j {
        TwoIds(order, k + i, j);
      }
    }
  }

  /** A store with room keeps a trace exactly when it is young enough. */
  lemma RoomKeepsTheYoung(s: StoreState, now: int, t: Trace)
    requires Consistent(s) && SortedBy(s.order, now) && t in s.order
    requires |s.order| <= s.cfg.maxTraces && s.totalBytes <= s.cfg.maxMemory
    ensures t in Evict(s, now).order <==> now - t.lastSeen <= s.cfg.maxAge
  {
    var j :| 0 <= j < |s.order| && s.order[j] == t;
    EvictsFewest(s, now);
    RoomEvictsTheOld(s, now);
    InSuffix(s.order, j, EvictCount(s, now));
  }

  /** The configured bounds, with the defaults the store falls back on. */
  ghost predicate Configured(storeCfg: StoreConfig, cfg: StoreConfig) {
    && cfg.maxTraces == (if storeCfg.maxTraces > 0 then storeCfg.maxTraces else 10_000)
    && cfg.maxAge == (if storeCfg.maxAge > 0 then storeCfg.maxAge else 300 * 1_000_000_000)
    && cfg.maxMemory == (if storeCfg.maxMemory > 0 then storeCfg.maxMemory else 512 * 1024 * 1024)
  }

  lemma {:induction false} RunConfigured(judge: Judge, lib: Lib, storeCfg: StoreConfig, cfg: Config, es: seq<Event>)
    requires Lawful(judge) && AllPossible(lib, es)
    ensures Configured(storeCfg, Run(judge, lib, InitialState(storeCfg, cfg), es).store.cfg)
  {
    if es != [] {
      var init, e := es[..|es| - 1], es[|es| - 1];
      var s := Run(judge, lib, InitialState(storeCfg, cfg), init);
      RunConfigured(judge, lib, storeCfg, cfg, init);
      RunKeeps(judge, lib, storeCfg, cfg, init);
      if e.Frame? {
        EvictIsShortestPrefix(Merged(s.store, e.now, e.ids, e.m), e.now);
      } else {
        StepShape(judge, lib, s, e);
      }
    }
  }

  /** The frame leaves room by count and by memory. */
  ghost predicate LeavesRoom(s: StoreState, ids: seq<TraceId>, m: SpansByTrace)
    requires forall id <- ids :: id in m
  {
    |s.order| + NewIds(s.order, ids) <= s.cfg.maxTraces && s.totalBytes + AddedBytes(ids, m) <= s.cfg.maxMemory
  }

  lemma MergedHasRoom(s: StoreState, clock: int, now: int, ids: seq<TraceId>, m: SpansByTrace)
    requires Consistent(s) && SortedBy(s.order, clock) && clock <= now && Walks(ids, m) && LeavesRoom(s, ids, m)
    ensures var merged := Merged(s, now, ids, m);
      && Consistent(merged) && SortedBy(merged.order, now) && merged.cfg == s.cfg
      && |merged.order| <= merged.cfg.maxTraces && merged.totalBytes <= merged.cfg.maxMemory
  {
    MergedConsistent(s, now, ids, m);
    MergedAdds(s, now, ids, m);
    IngestAllSorted(s.order, clock, now, ids, m);
  }

  lemma MergedHolds(s: StoreState, now: int, ids: seq<TraceId>, m: SpansByTrace)
    requires Walks(ids, m)
    ensures forall t <- s.order :: t.id !in ids ==> t in Merged(s, now, ids, m).order
    ensures forall id <- ids :: Touch(Find(s.order, id), now, id, m[id]) in Merged(s, now, ids, m).order
  {
    IngestAllIs(s.order, now, ids, m);
    WithoutIs(s.order, ids);
    forall id | id in ids ensures Touch(Find(s.order, id), now, id, m[id]) in TouchedSeq(s.order, now, ids, m) {
      var i :| 0 <= i < |ids| && ids[i] == id;
      assert TouchedSeq(s.order, now, ids, m)[i] == Touch(Find(s.order, id), now, id, m[id]);
    }
  }

  lemma FrameEvictsTheOld(s: StoreState, clock: int, now: int, ids: seq<TraceId>, m: SpansByTrace)
    requires Consistent(s) && SortedBy(s.order, clock) && clock <= now && Walks(ids, m) && LeavesRoom(s, ids, m)
    ensures forall t <- s.order :: t.id !in ids ==>
      (t in Ingest(s, now, ids, m).order <==> now - t.lastSeen <= s.cfg.maxAge)
    ensures forall id <- ids :: Touch(Find(s.order, id), now, id, m[id]) in Ingest(s, now, ids, m).order
  {
    var merged := Merged(s, now, ids, m);
    MergedHasRoom(s, clock, now, ids, m);
    MergedHolds(s, now, ids, m);
    forall t | t in s.order && t.id !in ids
      ensures t in Evict(merged, now).order <==> now - t.lastSeen <= s.cfg.maxAge
    {
      RoomKeepsTheYoung(merged, now, t);
    }
    forall id | id in ids ensures Touch(Find(s.order, id), now, id, m[id]) in Evict(merged, now).order {
      TouchKeepsId(s.order, now, id, m[id]);
      RoomKeepsTheYoung(merged, now, Touch(Find(s.order, id), now, id, m[id]));
    }
  }

  /**
   * In every run whose clock does not go back: a frame that leaves room by count and by memory
   * evicts exactly the traces it does not touch that were last seen more than max_age ago.
   */
  lemma OnlyTheOldAreEvicted(judge: Judge, lib: Lib, storeCfg: StoreConfig, cfg: Config, start: int, es: seq<Event>,
      e: Event)
    requires Lawful(judge) && AllPossible(lib, es) && AllPossible(lib, es + [e]) && Monotone(start, es + [e]) &&
      e.Frame?
    requires Possible(lib, e) && LeavesRoom(Run(judge, lib, InitialState(storeCfg, cfg), es).store, e.ids, e.m)
    ensures var start := InitialState(storeCfg, cfg);
      var before, after := Run(judge, lib, start, es).store, Run(judge, lib, start, es + [e]).store;
      && Configured(storeCfg, before.cfg)
      && (forall t <- before.order :: t.id !in e.ids ==>
            (t in after.order <==> e.now - t.lastSeen <= before.cfg.maxAge))
      && (forall id <- e.ids :: exists t <- after.order :: t.id == id)
  {
    var state := InitialState(storeCfg, cfg);
    var before := Run(judge, lib, state, es).store;
    assert (es + [e])[..|es|] == es;
    RunConfigured(judge, lib, storeCfg, cfg, es);
    RunSorted(judge, lib, storeCfg, cfg, start, es);
    RunKeeps(judge, lib, storeCfg, cfg, es);
    FrameEvictsTheOld(before, Clock(start, es), e.now, e.ids, e.m);
    forall id | id in e.ids ensures exists t <- Run(judge, lib, state, es + [e]).store.order :: t.id == id {
      TouchKeepsId(before.order, e.now, id, e.m[id]);
      assert Touch(Find(before.order, id), e.now, id, e.m[id]).id == id;
    }
  }
}
