/**
 * The server's flattened spans and per-trace records, with the values that Live Tail derives from
 * them: size, root span, service name, duration and error flag.
 */
module TraceTypes {
  import opened Wrappers
  import opened Pdata
  import opened Policies

  datatype StatusKind = StatusUnset | StatusOK | StatusError

  datatype FlatSpan = FlatSpan(
    traceId: TraceId, spanId: SpanId, parentSpanId: SpanId, name: string, kind: int,
    startTime: int, endTime: int, statusCode: StatusKind, statusMessage: string,
    traceStateRaw: string, attributes: map<string, Value>, serviceName: string,
    eventCount: nat, linkCount: nat)

  datatype State = Receiving | Ready | Decided | Expired

  /** A trace's record, as the store hands out copies of it. */
  datatype Trace = Trace(
    id: TraceId, firstSeen: int, lastSeen: int, spans: seq<FlatSpan>, sizeBytes: nat,
    state: State, decision: Decision, matched: seq<string>)

  // ---- approxSizeBytes ----

  const SPAN_OVERHEAD := 128

  function ValueBytes(v: Value): nat {
    match v
    case Str(s) => |s|
    case Bool(_) => 8
    case Int(_) => 8
    case Double(_) => 8
    case _ => 16
  }

  /** The bytes of the entries, counted in some order of the keys. */
  ghost function AttributeBytes(m: map<string, Value>): nat
    decreases |m|
  {
    if m == map[] then 0
    else
      var k :| k in m;
      assert |m - {k}| < |m| by { RemoveShrinks(m, k); }
      |k| + ValueBytes(m[k]) + AttributeBytes(m - {k})
  }

  lemma RemoveShrinks(m: map<string, Value>, k: string)
    requires k in m
    ensures |m - {k}| == |m| - 1
  {
    assert (m - {k}).Keys == m.Keys - {k};
  }

  /** The order in which the map is walked does not change the sum. */
  lemma {:induction false} AttributeBytesAnyOrder(m: map<string, Value>, k: string)
    requires k in m
    ensures AttributeBytes(m) == |k| + ValueBytes(m[k]) + AttributeBytes(m - {k})
    decreases |m|
  {
    var l :| l in m && AttributeBytes(m) == |l| + ValueBytes(m[l]) + AttributeBytes(m - {l});
    if l != k {
      RemoveShrinks(m, l);
      AttributeBytesAnyOrder(m - {l}, k);
      RemoveShrinks(m, k);
      AttributeBytesAnyOrder(m - {k}, l);
      assert m - {l} - {k} == m - {k} - {l};
    }
  }

  ghost function SpanSize(s: FlatSpan): nat {
    SPAN_OVERHEAD + |s.name| + |s.serviceName| + |s.statusMessage| + |s.traceStateRaw| + AttributeBytes(s.attributes)
  }

  /**
   * 128 bytes and the texts; and for each attribute its key and its text, 8 bytes for a number or
   * truth value, 16 for the rest.
   */
  lemma SizeOfAttribute(s: FlatSpan, k: string, v: Value)
    requires k !in s.attributes
    ensures s.attributes == map[] ==>
      SpanSize(s) == 128 + |s.name| + |s.serviceName| + |s.statusMessage| + |s.traceStateRaw|
    ensures SpanSize(s.(attributes := s.attributes[k := v])) == SpanSize(s) + |k| +
      if v.Str? then |v.s| else if v.Bool? || v.Int? || v.Double? then 8 else 16
  {
    AttributeBytesAnyOrder(s.attributes[k := v], k);
    assert s.attributes[k := v] - {k} == s.attributes;
  }

  method ApproxSizeBytes(s: FlatSpan) returns (size: nat)
    ensures size == SpanSize(s)
  {
    size := SPAN_OVERHEAD;
    size := size + |s.name|;
    size := size + |s.serviceName|;
    size := size + |s.statusMessage|;
    size := size + |s.traceStateRaw|;
    var rest := s.attributes;
    while rest != map[]
      invariant size + AttributeBytes(rest) == SpanSize(s)
      decreases |rest|
    {
      var k :| k in rest;
      AttributeBytesAnyOrder(rest, k);
      RemoveShrinks(rest, k);
      size := size + |k| + ValueBytes(rest[k]);
      rest := rest - {k};
    }
  }

  ghost function SpansSize(spans: seq<FlatSpan>): nat {
    if spans == [] then 0 else SpansSize(spans[..|spans| - 1]) + SpanSize(spans[|spans| - 1])
  }

  lemma {:induction false} SpansSizeAppend(s: seq<FlatSpan>, t: seq<FlatSpan>)
    ensures SpansSize(s + t) == SpansSize(s) + SpansSize(t)
  {
    if t == [] {
      assert s + t == s;
    } else {
      assert (s + t)[..|s + t| - 1] == s + t[..|t| - 1];
      SpansSizeAppend(s, t[..|t| - 1]);
    }
  }

  // ---- RootSpan, Duration, HasError ----

  /** The first span without a parent; failing that, the earliest, and of equals the first. */
  ghost predicate IsRoot(spans: seq<FlatSpan>, r: nat)
    requires r < |spans|
  {
    if exists i :: 0 <= i < |spans| && spans[i].parentSpanId == 0 then
      spans[r].parentSpanId == 0 && forall i :: 0 <= i < r ==> spans[i].parentSpanId != 0
    else
      && (forall i :: 0 <= i < |spans| ==> spans[r].startTime <= spans[i].startTime)
      && (forall i :: 0 <= i < r ==> spans[r].startTime < spans[i].startTime)
  }

  lemma RootIsUnique(spans: seq<FlatSpan>, r: nat, q: nat)
    requires r < |spans| && q < |spans| && IsRoot(spans, r) && IsRoot(spans, q)
    ensures r == q
  {
  }

  method RootSpan(spans: seq<FlatSpan>) returns (r: Option<FlatSpan>)
    ensures r.None? <==> spans == []
    ensures r.Some? ==> exists i :: 0 <= i < |spans| && IsRoot(spans, i) && r.value == spans[i]
    ensures r == Root(spans)
  {
    if |spans| == 0 {
      return None;
    }
    ghost var w := RootWitness(spans);
    for i := 0 to |spans|
      invariant forall j :: 0 <= j < i ==> spans[j].parentSpanId != 0
    {
      if spans[i].parentSpanId == 0 {
        assert IsRoot(spans, i);
        RootIsUnique(spans, i, w);
        return Some(spans[i]);
      }
    }
    var root := spans[0];
    ghost var at := 0;
    for i := 1 to |spans|
      invariant 0 <= at < i && root == spans[at]
      invariant forall j :: 0 <= j < i ==> root.startTime <= spans[j].startTime
      invariant forall j :: 0 <= j < at ==> root.startTime < spans[j].startTime
    {
      if spans[i].startTime < root.startTime {
        root := spans[i];
        at := i;
      }
    }
    assert IsRoot(spans, at);
    RootIsUnique(spans, at, w);
    return Some(root);
  }

  lemma RootExists(spans: seq<FlatSpan>) returns (r: nat)
    requires spans != []
    ensures r < |spans| && IsRoot(spans, r)
  {
    if i :| 0 <= i < |spans| && spans[i].parentSpanId == 0 {
      r := 0;
      while spans[r].parentSpanId != 0
        invariant r <= i && forall j :: 0 <= j < r ==> spans[j].parentSpanId != 0
        decreases i - r
      {
        r := r + 1;
      }
    } else {
      r := 0;
      for n := 1 to |spans|
        invariant r < n
        invariant forall j :: 0 <= j < n ==> spans[r].startTime <= spans[j].startTime
        invariant forall j :: 0 <= j < r ==> spans[r].startTime < spans[j].startTime
      {
        if spans[n].startTime < spans[r].startTime {
          r := n;
        }
      }
    }
  }

  ghost function RootWitness(spans: seq<FlatSpan>): (r: nat)
    requires spans != []
    ensures r < |spans| && IsRoot(spans, r)
  {
    assert exists i: nat :: i < |spans| && IsRoot(spans, i) by { var i := RootExists(spans); }
    var i: nat :| i < |spans| && IsRoot(spans, i);
    i
  }

  ghost function Root(spans: seq<FlatSpan>): Option<FlatSpan> {
    if spans == [] then None else Some(spans[RootWitness(spans)])
  }

  ghost function RootServiceName(spans: seq<FlatSpan>): string {
    var root := Root(spans);
    if root.Some? && root.value.serviceName != "" then root.value.serviceName
    else if spans != [] then spans[0].serviceName
    else ""
  }

  function MinStart(spans: seq<FlatSpan>): int
    requires spans != []
  {
    var last := spans[|spans| - 1].startTime;
    if |spans| == 1 then last
    else var m := MinStart(spans[..|spans| - 1]); if last < m then last else m
  }

  function MaxEnd(spans: seq<FlatSpan>): int
    requires spans != []
  {
    var last := spans[|spans| - 1].endTime;
    if |spans| == 1 then last
    else var m := MaxEnd(spans[..|spans| - 1]); if last > m then last else m
  }

  function TraceDuration(spans: seq<FlatSpan>): int {
    if spans == [] then 0 else Sub(MaxEnd(spans), MinStart(spans))
  }

  method Duration(spans: seq<FlatSpan>) returns (d: int)
    ensures d == TraceDuration(spans)
  {
    if |spans| == 0 {
      return 0;
    }
    var start := spans[0].startTime;
    var end := spans[0].endTime;
    assert spans[..1] == [spans[0]];
    for i := 1 to |spans|
      invariant start == MinStart(spans[..i]) && end == MaxEnd(spans[..i])
    {
      assert spans[..i + 1][..i] == spans[..i];
      if spans[i].startTime < start {
        start := spans[i].startTime;
      }
      if spans[i].endTime > end {
        end := spans[i].endTime;
      }
    }
    assert spans[..|spans|] == spans;
    return Sub(end, start);
  }

  predicate AnyError(spans: seq<FlatSpan>) {
    exists i :: 0 <= i < |spans| && spans[i].statusCode == StatusError
  }

  method HasError(spans: seq<FlatSpan>) returns (r: bool)
    ensures r == AnyError(spans)
  {
    for i := 0 to |spans|
      invariant forall j :: 0 <= j < i ==> spans[j].statusCode != StatusError
    {
      if spans[i].statusCode == StatusError {
        return true;
      }
    }
    return false;
  }
}
