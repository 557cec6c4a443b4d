/**
 * The recency list as a sequence of records: ids, lookup, taking records out and adding up their
 * sizes. Found from the back, since that is where records are put, and proved from the back as well.
 */
module TraceList {
  import opened Wrappers
  import opened Pdata
  import opened TraceTypes

  function Ids(order: seq<Trace>): (r: seq<TraceId>)
    ensures |r| == |order| && forall i :: 0 <= i < |order| ==> r[i] == order[i].id
  {
    seq(|order|, i requires 0 <= i < |order| => order[i].id)
  }

  ghost predicate Differ(ids: seq<TraceId>, i: nat, j: nat)
    requires i < |ids| && j < |ids|
  {
    ids[i] != ids[j]
  }

  ghost predicate Distinct(ids: seq<TraceId>) {
    forall i, j :: 0 <= i < j < |ids| ==> Differ(ids, i, j)
  }

  lemma DistinctPrefix(ids: seq<TraceId>, n: nat)
    requires n < |ids| && Distinct(ids)
    ensures Distinct(ids[..n]) && ids[n] !in ids[..n]
  {
    forall i, j | 0 <= i < j < n ensures Differ(ids[..n], i, j) {
      assert Differ(ids, i, j);
    }
    forall i | 0 <= i < n ensures ids[i] != ids[n] {
      assert Differ(ids, i, n);
    }
  }

  lemma DistinctSuffix(ids: seq<TraceId>, n: nat)
    requires n <= |ids| && Distinct(ids)
    ensures Distinct(ids[n..])
  {
    forall i, j | 0 <= i < j < |ids| - n ensures Differ(ids[n..], i, j) {
      assert Differ(ids, n + i, n + j);
    }
  }

  lemma AppendDistinct(ids: seq<TraceId>, id: TraceId)
    requires Distinct(ids) && id !in ids
    ensures Distinct(ids + [id])
  {
    forall i, j | 0 <= i < j < |ids| + 1 ensures Differ(ids + [id], i, j) {
      assert j < |ids| ==> Differ(ids, i, j);
    }
  }

  lemma IdsPrefix(order: seq<Trace>, n: nat)
    requires n <= |order|
    ensures Ids(order[..n]) == Ids(order)[..n] && Ids(order[n..]) == Ids(order)[n..]
  {
  }

  function Find(order: seq<Trace>, id: TraceId): Option<Trace> {
    if order == [] then None
    else if order[|order| - 1].id == id then Some(order[|order| - 1])
    else Find(order[..|order| - 1], id)
  }

  /** The list with the traces of the given ids taken out. */
  function Without(order: seq<Trace>, ids: seq<TraceId>): seq<Trace> {
    if order == [] then []
    else if order[|order| - 1].id in ids then Without(order[..|order| - 1], ids)
    else Without(order[..|order| - 1], ids) + [order[|order| - 1]]
  }

  ghost function SumSizes(order: seq<Trace>): nat {
    if order == [] then 0 else SumSizes(order[..|order| - 1]) + order[|order| - 1].sizeBytes
  }

  lemma Snoc(order: seq<Trace>, t: Trace, ids: seq<TraceId>, id: TraceId)
    ensures SumSizes(order + [t]) == SumSizes(order) + t.sizeBytes
    ensures Without(order + [t], ids) == if t.id in ids then Without(order, ids) else Without(order, ids) + [t]
    ensures Find(order + [t], id) == if t.id == id then Some(t) else Find(order, id)
  {
    assert (order + [t])[..|order|] == order;
  }

  lemma {:induction false} SumSizesAppend(a: seq<Trace>, b: seq<Trace>)
    ensures SumSizes(a + b) == SumSizes(a) + SumSizes(b)
  {
    if b == [] {
      assert a + b == a;
    } else {
      assert (a + b)[..|a + b| - 1] == a + b[..|b| - 1];
      SumSizesAppend(a, b[..|b| - 1]);
    }
  }

  lemma {:induction false} WithoutAppend(a: seq<Trace>, b: seq<Trace>, ids: seq<TraceId>)
    ensures Without(a + b, ids) == Without(a, ids) + Without(b, ids)
  {
    if b == [] {
      assert a + b == a;
    } else {
      assert (a + b)[..|a + b| - 1] == a + b[..|b| - 1];
      WithoutAppend(a, b[..|b| - 1], ids);
    }
  }

  lemma {:induction false} FindAppend(a: seq<Trace>, b: seq<Trace>, id: TraceId)
    ensures Find(a + b, id) == if Find(b, id).Some? then Find(b, id) else Find(a, id)
  {
    if b == [] {
      assert a + b == a;
    } else {
      assert (a + b)[..|a + b| - 1] == a + b[..|b| - 1];
      FindAppend(a, b[..|b| - 1], id);
    }
  }

  lemma FoundInSuffix(order: seq<Trace>, k: nat, id: TraceId)
    requires k <= |order| && Find(order[k..], id).Some?
    ensures Find(order, id) == Find(order[k..], id)
  {
    assert order == order[..k] + order[k..];
    FindAppend(order[..k], order[k..], id);
  }

  lemma FoundBehindFront(order: seq<Trace>, id: TraceId)
    requires order != [] && order[0].id != id
    ensures Find(order[1..], id) == Find(order, id)
  {
    assert order == order[..1] + order[1..];
    FindAppend(order[..1], order[1..], id);
    assert order[..1][..0] == [];
  }

  lemma DistinctInit(order: seq<Trace>)
    requires order != [] && Distinct(Ids(order))
    ensures Distinct(Ids(order[..|order| - 1])) && order[|order| - 1].id !in Ids(order[..|order| - 1])
  {
    IdsPrefix(order, |order| - 1);
    DistinctPrefix(Ids(order), |order| - 1);
  }

  lemma {:induction false} FindIs(order: seq<Trace>, id: TraceId)
    ensures Find(order, id).Some? ==> Find(order, id).value.id == id && Find(order, id).value in order
    ensures id !in Ids(order) <==> Find(order, id).None?
  {
    if order != [] {
      var init := order[..|order| - 1];
      FindIs(init, id);
      IdsPrefix(order, |init|);
      assert Ids(order) == Ids(init) + [order[|init|].id];
      assert order == init + [order[|init|]];
    }
  }

  /** With distinct ids a trace is found under its id. */
  lemma {:induction false} FindAt(order: seq<Trace>, i: nat)
    requires i < |order| && Distinct(Ids(order))
    ensures Find(order, order[i].id) == Some(order[i])
  {
    var init := order[..|order| - 1];
    DistinctInit(order);
    if i < |init| {
      assert Ids(init)[i] == order[i].id;
      FindAt(init, i);
    }
  }

  lemma {:induction false} WithoutIs(order: seq<Trace>, ids: seq<TraceId>)
    ensures forall t :: t in Without(order, ids) <==> t in order && t.id !in ids
    ensures |Without(order, ids)| <= |order|
  {
    if order != [] {
      WithoutIs(order[..|order| - 1], ids);
      assert order == order[..|order| - 1] + [order[|order| - 1]];
    }
  }

  lemma AddDistinct(order: seq<Trace>, t: Trace)
    requires Distinct(Ids(order)) && forall u <- order :: u.id != t.id
    ensures Distinct(Ids(order + [t]))
  {
    var ids := Ids(order + [t]);
    forall i, j | 0 <= i < j < |ids| ensures Differ(ids, i, j) {
      if j < |order| {
        assert Differ(Ids(order), i, j);
      } else {
        assert order[i] in order;
      }
    }
  }

  lemma {:induction false} WithoutDistinct(order: seq<Trace>, ids: seq<TraceId>)
    requires Distinct(Ids(order))
    ensures Distinct(Ids(Without(order, ids)))
  {
    if order != [] {
      var init, last := order[..|order| - 1], order[|order| - 1];
      DistinctInit(order);
      WithoutDistinct(init, ids);
      WithoutIs(init, ids);
      forall u <- init ensures u.id != last.id {
        var j :| 0 <= j < |init| && init[j] == u;
        assert Ids(init)[j] == u.id;
      }
      AddDistinct(Without(init, ids), last);
    }
  }

  lemma {:induction false} WithoutNone(order: seq<Trace>, ids: seq<TraceId>)
    requires forall i :: 0 <= i < |order| ==> order[i].id !in ids
    ensures Without(order, ids) == order
  {
    if order != [] {
      WithoutNone(order[..|order| - 1], ids);
    }
  }

  lemma {:induction false} WithoutTwice(order: seq<Trace>, ids: seq<TraceId>, id: TraceId)
    ensures Without(Without(order, ids), [id]) == Without(order, ids + [id])
  {
    if order != [] {
      var init, last := order[..|order| - 1], order[|order| - 1];
      WithoutTwice(init, ids, id);
      Snoc(Without(init, ids), last, [id], id);
    }
  }

  lemma {:induction false} FindUntouched(order: seq<Trace>, ids: seq<TraceId>, id: TraceId)
    requires id !in ids
    ensures Find(Without(order, ids), id) == Find(order, id)
  {
    if order != [] {
      var init, last := order[..|order| - 1], order[|order| - 1];
      FindUntouched(init, ids, id);
      Snoc(Without(init, ids), last, ids, id);
    }
  }

  lemma NotListed(order: seq<Trace>, id: TraceId)
    requires id !in Ids(order)
    ensures forall i :: 0 <= i < |order| ==> order[i].id != id
  {
    forall i | 0 <= i < |order| ensures order[i].id != id {
      assert Ids(order)[i] in Ids(order);
    }
  }

  lemma RejoinLast(order: seq<Trace>, i: nat)
    requires i + 1 < |order|
    ensures var init := order[..|order| - 1];
      init[..i] + init[i + 1..] + [order[|order| - 1]] == order[..i] + order[i + 1..]
  {
  }

  /** Taking out the one trace with an id is taking out its position. */
  lemma {:induction false} WithoutAt(order: seq<Trace>, i: nat)
    requires i < |order| && Distinct(Ids(order))
    ensures Without(order, [order[i].id]) == order[..i] + order[i + 1..]
  {
    var init, last := order[..|order| - 1], order[|order| - 1];
    DistinctInit(order);
    if i == |init| {
      NotListed(init, last.id);
      WithoutNone(init, [last.id]);
    } else {
      WithoutAt(init, i);
      assert Ids(init)[i] == order[i].id;
      RejoinLast(order, i);
    }
  }

  lemma TwoIds(order: seq<Trace>, i: nat, j: nat)
    requires i < |order| && j < |order| && i != j && Distinct(Ids(order))
    ensures order[i].id != order[j].id
  {
    assert if i < j then Differ(Ids(order), i, j) else Differ(Ids(order), j, i);
  }
}
