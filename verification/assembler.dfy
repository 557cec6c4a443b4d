/**
 * Flattening: OTLP batches to spans with prefixed keys, grouped by trace. What the stored form keeps
 * of a span is stated once, for the policy engine to take back apart.
 */
module Assembler {
  import opened Pdata
  import opened Policies
  import opened TraceTypes

  const RESOURCE := "resource."
  const ATTRIBUTES := "attributes."

  function FromPtraceStatus(code: int): StatusKind {
    if code == STATUS_OK then StatusOK else if code == STATUS_ERROR then StatusError else StatusUnset
  }

  function ToPtraceStatus(k: StatusKind): int {
    match k
    case StatusOK => STATUS_OK
    case StatusError => STATUS_ERROR
    case _ => STATUS_UNSET
  }

  function StatusLabel(k: StatusKind): string {
    match k
    case StatusOK => "OK"
    case StatusError => "ERROR"
    case _ => "UNSET"
  }

  function KindLabel(kind: int): string {
    match kind
    case 0 => "Unspecified"
    case 1 => "Internal"
    case 2 => "Server"
    case 3 => "Client"
    case 4 => "Producer"
    case 5 => "Consumer"
    case _ => ""
  }

  function DurationMs(s: Span): int {
    Milliseconds(Sub(AsTime(s.end), AsTime(s.start)))
  }

  /** Every entry of a, in order, assigned under its prefixed key. */
  function PutAll(base: map<string, Value>, prefix: string, a: Attrs): map<string, Value> {
    if a == [] then base
    else PutAll(base, prefix, a[..|a| - 1])[prefix + a[|a| - 1].0 := a[|a| - 1].1]
  }

  function ServiceName(lib: Lib, resource: Attrs): string {
    var v := Get(resource, "service.name");
    lib.asString(if v.Some? then v.value else Empty)
  }

  function FlatAttributes(lib: Lib, resource: Attrs, s: Span): map<string, Value> {
    PutAll(PutAll(map[], RESOURCE, resource), ATTRIBUTES, s.attrs)
    ["name" := Str(s.name)]
    ["kind" := Str(KindLabel(s.kind))]
    ["service.name" := Str(ServiceName(lib, resource))]
    ["status.code" := Str(StatusLabel(FromPtraceStatus(s.status)))]
    ["duration_ms" := Double(DurationMs(s) as real)]
  }

  function ToFlat(lib: Lib, resource: Attrs, s: Span): FlatSpan {
    FlatSpan(
      s.traceId, s.spanId, s.parentSpanId, s.name, s.kind, AsTime(s.start), AsTime(s.end),
      FromPtraceStatus(s.status), s.statusMessage, s.traceState, FlatAttributes(lib, resource, s),
      ServiceName(lib, resource), s.eventCount, s.linkCount)
  }

  /** The flattened spans of one trace id, in scan order. */
  function SpansOf(lib: Lib, s: seq<(Attrs, Span)>, id: TraceId): seq<FlatSpan> {
    if s == [] then []
    else
      var last := s[|s| - 1];
      SpansOf(lib, s[..|s| - 1], id) + if last.1.traceId == id then [ToFlat(lib, last.0, last.1)] else []
  }

  lemma {:induction false} SpansOfAppend(lib: Lib, s: seq<(Attrs, Span)>, t: seq<(Attrs, Span)>, id: TraceId)
    ensures SpansOf(lib, s + t, id) == SpansOf(lib, s, id) + SpansOf(lib, t, id)
  {
    if t == [] {
      assert s + t == s;
    } else {
      assert (s + t)[..|s + t| - 1] == s + t[..|t| - 1];
      SpansOfAppend(lib, s, t[..|t| - 1], id);
    }
  }

  method ToSpan(lib: Lib, s: Span, resource: Attrs, serviceName: string) returns (f: FlatSpan)
    requires serviceName == ServiceName(lib, resource)
    ensures f == ToFlat(lib, resource, s)
  {
    var attrs: map<string, Value> := map[];
    for i := 0 to |resource|
      invariant attrs == PutAll(map[], RESOURCE, resource[..i])
    {
      assert resource[..i + 1][..i] == resource[..i];
      attrs := attrs[RESOURCE + resource[i].0 := resource[i].1];
    }
    assert resource[..|resource|] == resource;
    ghost var base := attrs;
    for i := 0 to |s.attrs|
      invariant attrs == PutAll(base, ATTRIBUTES, s.attrs[..i])
    {
      assert s.attrs[..i + 1][..i] == s.attrs[..i];
      attrs := attrs[ATTRIBUTES + s.attrs[i].0 := s.attrs[i].1];
    }
    assert s.attrs[..|s.attrs|] == s.attrs;
    var statusCode := FromPtraceStatus(s.status);
    attrs := attrs["name" := Str(s.name)];
    attrs := attrs["kind" := Str(KindLabel(s.kind))];
    attrs := attrs["service.name" := Str(serviceName)];
    attrs := attrs["status.code" := Str(StatusLabel(statusCode))];
    attrs := attrs["duration_ms" := Double(DurationMs(s) as real)];
    f := FlatSpan(
      s.traceId, s.spanId, s.parentSpanId, s.name, s.kind, AsTime(s.start), AsTime(s.end),
      statusCode, s.statusMessage, s.traceState, attrs, serviceName, s.eventCount, s.linkCount);
  }

  /** out holds exactly the trace ids of s, each with its spans in order. */
  ghost predicate Grouped(lib: Lib, s: seq<(Attrs, Span)>, out: map<TraceId, seq<FlatSpan>>) {
    && (forall id :: id in out <==> SpansOf(lib, s, id) != [])
    && (forall id :: id in out ==> out[id] == SpansOf(lib, s, id))
  }

  method Assemble(lib: Lib, td: Traces) returns (out: map<TraceId, seq<FlatSpan>>)
    ensures Grouped(lib, Flatten(td), out)
  {
    out := map[];
    for i := 0 to |td|
      invariant Grouped(lib, Flatten(td[..i]), out)
    {
      var rs := td[i];
      var serviceName := ServiceName(lib, rs.resource);
      ghost var before := Flatten(td[..i]);
      assert before + WithResource(rs.resource, ScopesSpans(rs.scopes[..0])) == before;
      for j := 0 to |rs.scopes|
        invariant Grouped(lib, before + WithResource(rs.resource, ScopesSpans(rs.scopes[..j])), out)
      {
        out := AppendSpans(lib, rs.resource, serviceName, rs.scopes[j].spans, out,
                           before + WithResource(rs.resource, ScopesSpans(rs.scopes[..j])));
        ScopeDone(before, rs.resource, rs.scopes, j);
      }
      GroupDone(td, i);
    }
    assert td[..|td|] == td;
  }

  /** The innermost loop: the spans of one scope. */
  method AppendSpans(lib: Lib, resource: Attrs, serviceName: string, spans: seq<Span>,
                     out0: map<TraceId, seq<FlatSpan>>, ghost done: seq<(Attrs, Span)>)
    returns (out: map<TraceId, seq<FlatSpan>>)
    requires serviceName == ServiceName(lib, resource)
    requires Grouped(lib, done, out0)
    ensures Grouped(lib, done + WithResource(resource, spans), out)
  {
    out := out0;
    assert done + WithResource(resource, spans[..0]) == done;
    for k := 0 to |spans|
      invariant Grouped(lib, done + WithResource(resource, spans[..k]), out)
    {
      var span := ToSpan(lib, spans[k], resource, serviceName);
      GroupedStep(lib, done + WithResource(resource, spans[..k]), resource, spans[k], out);
      out := out[span.traceId := (if span.traceId in out then out[span.traceId] else []) + [span]];
      assert done + WithResource(resource, spans[..k]) + [(resource, spans[k])] ==
        done + WithResource(resource, spans[..k + 1]);
    }
    assert spans[..|spans|] == spans;
  }

  lemma ScopeDone(before: seq<(Attrs, Span)>, resource: Attrs, scopes: seq<ScopeSpans>, j: nat)
    requires j < |scopes|
    ensures before + WithResource(resource, ScopesSpans(scopes[..j])) + WithResource(resource, scopes[j].spans)
         == before + WithResource(resource, ScopesSpans(scopes[..j + 1]))
  {
    assert scopes[..j + 1][..j] == scopes[..j];
  }

  lemma GroupDone(td: Traces, i: nat)
    requires i < |td|
    ensures Flatten(td[..i]) + WithResource(td[i].resource, ScopesSpans(td[i].scopes[..|td[i].scopes|])) ==
      Flatten(td[..i + 1])
  {
    assert td[..i + 1][..i] == td[..i];
    assert td[i].scopes[..|td[i].scopes|] == td[i].scopes;
  }

  lemma GroupedStep(lib: Lib, s: seq<(Attrs, Span)>, resource: Attrs, span: Span, out: map<TraceId, seq<FlatSpan>>)
    requires Grouped(lib, s, out)
    ensures var f := ToFlat(lib, resource, span);
      Grouped(lib, s + [(resource, span)], out[f.traceId := (if f.traceId in out then out[f.traceId] else []) + [f]])
  {
    assert (s + [(resource, span)])[..|s|] == s;
  }

  // ---- the way back ----

  predicate HasPrefix(s: string, p: string) {
    |p| <= |s| && s[..|p|] == p
  }

  /** The entries under a prefix, with the prefix taken off. */
  function Unprefix(m: map<string, Value>, p: string): map<string, Value> {
    map k | k in (set x | x in m && HasPrefix(x, p) :: x[|p|..]) :: m[Restore(m, p, k)]
  }

  function Restore(m: map<string, Value>, p: string, k: string): (r: string)
    requires k in (set x | x in m && HasPrefix(x, p) :: x[|p|..])
    ensures r == p + k && r in m
  {
    assert exists x :: x in m && HasPrefix(x, p) && x[|p|..] == k;
    assert forall x: string :: HasPrefix(x, p) ==> x == p + x[|p|..];
    p + k
  }

  lemma UnprefixLookup(m: map<string, Value>, p: string, k: string)
    ensures k in Unprefix(m, p) <==> p + k in m
    ensures k in Unprefix(m, p) ==> Unprefix(m, p)[k] == m[p + k]
  {
    if p + k in m {
      assert HasPrefix(p + k, p) && (p + k)[|p|..] == k;
    }
  }

  /** What the filters see of a stored span once it is rebuilt as pdata. */
  function StoredView(f: FlatSpan): View {
    View(Unprefix(f.attributes, RESOURCE), Unprefix(f.attributes, ATTRIBUTES),
         ToPtraceStatus(f.statusCode), FromTime(f.startTime), FromTime(f.endTime), f.traceStateRaw)
  }

  function StoredViews(spans: seq<FlatSpan>): (r: seq<View>)
    ensures |r| == |spans| && forall i :: 0 <= i < |spans| ==> r[i] == StoredView(spans[i])
  {
    seq(|spans|, i requires 0 <= i < |spans| => StoredView(spans[i]))
  }

  lemma {:induction false} PutAllLookup(base: map<string, Value>, p: string, a: Attrs, key: string)
    ensures HasPrefix(key, p) && key[|p|..] in LastMap(a)
      ==> key in PutAll(base, p, a) && PutAll(base, p, a)[key] == LastMap(a)[key[|p|..]]
    ensures !(HasPrefix(key, p) && key[|p|..] in LastMap(a))
      ==> (key in PutAll(base, p, a) <==> key in base) && (key in base ==> PutAll(base, p, a)[key] == base[key])
  {
    if a != [] {
      var last := a[|a| - 1];
      PutAllLookup(base, p, a[..|a| - 1], key);
      assert HasPrefix(p + last.0, p) && (p + last.0)[|p|..] == last.0;
      assert HasPrefix(key, p) ==> key == p + key[|p|..];
    }
  }

  /** Taking the prefixed entries back out of a flattened span gives the last entry of each key. */
  lemma FlatAttributesSplit(lib: Lib, resource: Attrs, s: Span)
    ensures Unprefix(FlatAttributes(lib, resource, s), RESOURCE) == LastMap(resource)
    ensures Unprefix(FlatAttributes(lib, resource, s), ATTRIBUTES) == LastMap(s.attrs)
  {
    var m := FlatAttributes(lib, resource, s);
    forall k ensures HoldsAt(m, RESOURCE, LastMap(resource), k) && HoldsAt(m, ATTRIBUTES, LastMap(s.attrs), k) {
      PrefixedLookup(resource, s.attrs, k);
      WellKnownKeysDiffer(k);
    }
    UnprefixIs(m, RESOURCE, LastMap(resource));
    UnprefixIs(m, ATTRIBUTES, LastMap(s.attrs));
  }

  /** Under the prefix, m has at k what n has. */
  ghost predicate HoldsAt(m: map<string, Value>, p: string, n: map<string, Value>, k: string) {
    (p + k in m <==> k in n) && (k in n ==> m[p + k] == n[k])
  }

  lemma UnprefixIs(m: map<string, Value>, p: string, n: map<string, Value>)
    requires forall k :: HoldsAt(m, p, n, k)
    ensures Unprefix(m, p) == n
  {
    forall k ensures k in Unprefix(m, p) <==> k in n ensures k in n ==> Unprefix(m, p)[k] == n[k] {
      assert HoldsAt(m, p, n, k);
      UnprefixLookup(m, p, k);
    }
  }

  lemma WellKnownKeysDiffer(k: string)
    ensures RESOURCE + k !in {"name", "kind", "service.name", "status.code", "duration_ms"}
    ensures ATTRIBUTES + k !in {"name", "kind", "service.name", "status.code", "duration_ms"}
  {
    assert (RESOURCE + k)[0] == 'r' && (ATTRIBUTES + k)[0] == 'a';
    assert "name"[0] == 'n' && "kind"[0] == 'k' && "service.name"[0] == 's' && "status.code"[0] == 's' &&
      "duration_ms"[0] == 'd';
  }

  lemma PrefixedLookup(resource: Attrs, attrs: Attrs, k: string)
    ensures var m := PutAll(PutAll(map[], RESOURCE, resource), ATTRIBUTES, attrs);
      && (RESOURCE + k in m <==> k in LastMap(resource))
      && (k in LastMap(resource) ==> m[RESOURCE + k] == LastMap(resource)[k])
      && (ATTRIBUTES + k in m <==> k in LastMap(attrs))
      && (k in LastMap(attrs) ==> m[ATTRIBUTES + k] == LastMap(attrs)[k])
  {
    var r, a := RESOURCE + k, ATTRIBUTES + k;
    assert r[0] == 'r' && a[0] == 'a';
    assert HasPrefix(r, RESOURCE) && r[|RESOURCE|..] == k && !HasPrefix(r, ATTRIBUTES);
    assert HasPrefix(a, ATTRIBUTES) && a[|ATTRIBUTES|..] == k && !HasPrefix(a, RESOURCE);
    PutAllLookup(map[], RESOURCE, resource, r);
    PutAllLookup(map[], RESOURCE, resource, a);
    PutAllLookup(PutAll(map[], RESOURCE, resource), ATTRIBUTES, attrs, r);
    PutAllLookup(PutAll(map[], RESOURCE, resource), ATTRIBUTES, attrs, a);
  }

  /** The exact effect of flattening and rebuilding one span. */
  lemma FlattenedView(lib: Lib, resource: Attrs, s: Span)
    ensures StoredView(ToFlat(lib, resource, s))
         == View(LastMap(resource), LastMap(s.attrs), ToPtraceStatus(FromPtraceStatus(s.status)), s.start, s.end,
             s.traceState)
  {
    FlatAttributesSplit(lib, resource, s);
    TimestampRoundTrip(s.start);
    TimestampRoundTrip(s.end);
  }
}
