/**
 * OTLP trace data as the collector's pdata library holds it: a list of
 * ResourceSpans, each with resource attributes and scopes of spans.
 */
module Pdata {
  import opened Wrappers

  type TraceId = nat   // the 16 bytes, read as one number
  type SpanId = nat    // the 8 bytes; 0 is the zero id

  const TWO_TO_63: int := 0x8000_0000_0000_0000
  const TWO_TO_64: int := 0x1_0000_0000_0000_0000

  type Timestamp = t: nat | t < 0x1_0000_0000_0000_0000

  /** An attribute value. Bytes, slices and nested maps are `Other`: no filter looks inside them. */
  datatype Value = Empty | Str(s: string) | Int(i: int) | Double(d: real) | Bool(b: bool) | Other(text: string) {
    // The typed getters give the zero value of the type when the value is of another kind.
    function AsStr(): string { if Str? then s else "" }
    function AsInt(): int { if Int? then i else 0 }
    function AsBool(): bool { Bool? && b }
  }

  /** Attributes in wire order; a key may occur more than once. */
  type Attrs = seq<(string, Value)>

  datatype Span = Span(
    traceId: TraceId, spanId: SpanId, parentSpanId: SpanId, name: string, kind: int,
    start: Timestamp, end: Timestamp, status: int, statusMessage: string,
    traceState: string, attrs: Attrs, eventCount: nat, linkCount: nat)

  datatype ScopeSpans = ScopeSpans(spans: seq<Span>)
  datatype ResourceSpans = ResourceSpans(resource: Attrs, scopes: seq<ScopeSpans>)
  type Traces = seq<ResourceSpans>

  // The OTLP status codes.
  const STATUS_UNSET := 0
  const STATUS_OK := 1
  const STATUS_ERROR := 2

  /** pcommon.Map.Get: the first entry under the key. */
  function Get(a: Attrs, key: string): Option<Value> {
    if a == [] then None
    else if a[0].0 == key then Some(a[0].1)
    else Get(a[1..], key)
  }

  /** What a reader that calls Get sees: the first entry of each key. */
  function FirstMap(a: Attrs): map<string, Value> {
    if a == [] then map[] else FirstMap(a[1..])[a[0].0 := a[0].1]
  }

  /** What a writer that assigns every entry in order leaves: the last entry of each key. */
  function LastMap(a: Attrs): map<string, Value> {
    if a == [] then map[] else LastMap(a[..|a| - 1])[a[|a| - 1].0 := a[|a| - 1].1]
  }

  lemma {:induction false} GetIsFirstMap(a: Attrs, key: string)
    ensures Get(a, key) == if key in FirstMap(a) then Some(FirstMap(a)[key]) else None
  {
    if a != [] {
      GetIsFirstMap(a[1..], key);
    }
  }

  ghost predicate UniqueKeys(a: Attrs) {
    forall i, j :: 0 <= i < j < |a| ==> a[i].0 != a[j].0
  }

  lemma {:induction false} FirstMapEntries(a: Attrs, key: string)
    ensures key in FirstMap(a) ==> exists i :: 0 <= i < |a| && a[i] == (key, FirstMap(a)[key])
    ensures (exists i :: 0 <= i < |a| && a[i].0 == key) ==> key in FirstMap(a)
  {
    if a != [] {
      FirstMapEntries(a[1..], key);
      if key in FirstMap(a) {
        if a[0].0 == key {
          assert a[0] == (key, FirstMap(a)[key]);
        } else {
          var i :| 0 <= i < |a[1..]| && a[1..][i] == (key, FirstMap(a[1..])[key]);
          assert a[i + 1] == (key, FirstMap(a)[key]);
        }
      }
      forall i | 0 <= i < |a| && a[i].0 == key ensures key in FirstMap(a) {
        if i > 0 {
          assert a[1..][i - 1].0 == key;
        }
      }
    }
  }

  lemma {:induction false} LastMapEntries(a: Attrs, key: string)
    ensures key in LastMap(a) ==> exists i :: 0 <= i < |a| && a[i] == (key, LastMap(a)[key])
    ensures (exists i :: 0 <= i < |a| && a[i].0 == key) ==> key in LastMap(a)
  {
    if a != [] {
      var b := a[..|a| - 1];
      LastMapEntries(b, key);
      if key in LastMap(a) {
        if a[|a| - 1].0 == key {
          assert a[|a| - 1] == (key, LastMap(a)[key]);
        } else {
          var i :| 0 <= i < |b| && b[i] == (key, LastMap(b)[key]);
          assert a[i] == (key, LastMap(a)[key]);
        }
      }
      forall i | 0 <= i < |a| && a[i].0 == key ensures key in LastMap(a) {
        if i < |a| - 1 {
          assert b[i].0 == key;
        }
      }
    }
  }

  /** With unique keys, first entry and last entry are the same entry. */
  lemma UniqueKeysFirstIsLast(a: Attrs)
    requires UniqueKeys(a)
    ensures FirstMap(a) == LastMap(a)
  {
    forall key
      ensures key in FirstMap(a) <==> key in LastMap(a)
      ensures key in FirstMap(a) && key in LastMap(a) ==> FirstMap(a)[key] == LastMap(a)[key]
    {
      FirstMapEntries(a, key);
      LastMapEntries(a, key);
    }
  }

  // ---- time ----

  /** Timestamp.AsTime, as Unix nanoseconds: the 64 bits read as a signed number. */
  function AsTime(t: Timestamp): int {
    if t < TWO_TO_63 then t else t - TWO_TO_64
  }

  /** NewTimestampFromTime: the signed nanoseconds converted to unsigned. */
  function FromTime(ns: int): Timestamp {
    ns % TWO_TO_64
  }

  lemma TimestampRoundTrip(t: Timestamp)
    ensures FromTime(AsTime(t)) == t
  {
    if t >= TWO_TO_63 {
      assert (t - TWO_TO_64) % TWO_TO_64 == t;
    }
  }

  /** time.Time.Sub: the difference, saturated to a 64-bit duration. */
  function Sub(a: int, b: int): int {
    if a - b >= TWO_TO_63 then TWO_TO_63 - 1
    else if a - b < -TWO_TO_63 then -TWO_TO_63
    else a - b
  }

  /** Duration.Milliseconds: integer division that truncates towards zero. */
  function Milliseconds(d: int): int {
    if d >= 0 then d / 1_000_000 else -(-d / 1_000_000)
  }

  /** A difference of times is exact where it fits in 64 bits with a sign, and otherwise the nearest that does. */
  lemma SubIsNearest(a: int, b: int)
    ensures -0x8000_0000_0000_0000 <= Sub(a, b) <= 0x7fff_ffff_ffff_ffff
    ensures -0x8000_0000_0000_0000 <= a - b <= 0x7fff_ffff_ffff_ffff ==> Sub(a, b) == a - b
    ensures a - b > 0x7fff_ffff_ffff_ffff ==> Sub(a, b) == 0x7fff_ffff_ffff_ffff
    ensures a - b < -0x8000_0000_0000_0000 ==> Sub(a, b) == -0x8000_0000_0000_0000
  {
  }

  /** Whole milliseconds, with what is left over cut off towards zero. */
  lemma MillisecondsTruncate(d: int)
    ensures var ms := Milliseconds(d);
      && (d >= 0 ==> ms * 1_000_000 <= d < (ms + 1) * 1_000_000)
      && (d <= 0 ==> (ms - 1) * 1_000_000 < d <= ms * 1_000_000)
  {
  }

  lemma MillisecondsMonotone(d: int, e: int)
    requires d <= e
    ensures Milliseconds(d) <= Milliseconds(e)
  {
  }

  // ---- flattening ----

  function ScopesSpans(scopes: seq<ScopeSpans>): seq<Span> {
    if scopes == [] then [] else ScopesSpans(scopes[..|scopes| - 1]) + scopes[|scopes| - 1].spans
  }

  /** Each span beside the resource it was reported under, in scan order. */
  function Flatten(td: Traces): seq<(Attrs, Span)> {
    if td == [] then []
    else Flatten(td[..|td| - 1]) + WithResource(td[|td| - 1].resource, ScopesSpans(td[|td| - 1].scopes))
  }

  function WithResource(resource: Attrs, spans: seq<Span>): (r: seq<(Attrs, Span)>)
    ensures |r| == |spans| && forall i :: 0 <= i < |r| ==> r[i] == (resource, spans[i])
  {
    seq(|spans|, i requires 0 <= i < |spans| => (resource, spans[i]))
  }

  /** Scanning a prefix of the list scans a prefix of the flattened spans. */
  lemma {:induction false} FlattenAppend(td: Traces, ud: Traces)
    ensures Flatten(td + ud) == Flatten(td) + Flatten(ud)
  {
    if ud == [] {
      assert td + ud == td;
    } else {
      var init := ud[..|ud| - 1];
      assert (td + ud)[..|td + ud| - 1] == td + init;
      FlattenAppend(td, init);
    }
  }

  /** Every span of every ResourceSpans has a place in the flat list. */
  lemma {:induction false} PlaceOf(td: Traces, i: nat, j: nat) returns (k: nat)
    requires i < |td| && j < |ScopesSpans(td[i].scopes)|
    ensures k < |Flatten(td)| && Flatten(td)[k] == (td[i].resource, ScopesSpans(td[i].scopes)[j])
  {
    var n := |td| - 1;
    if i == n {
      k := |Flatten(td[..n])| + j;
    } else {
      k := PlaceOf(td[..n], i, j);
    }
  }

  /** Every place of the flat list holds a span of some ResourceSpans. */
  lemma {:induction false} SourceOf(td: Traces, k: nat) returns (i: nat, j: nat)
    requires k < |Flatten(td)|
    ensures i < |td| && j < |ScopesSpans(td[i].scopes)|
    ensures Flatten(td)[k] == (td[i].resource, ScopesSpans(td[i].scopes)[j])
  {
    var n := |td| - 1;
    if k < |Flatten(td[..n])| {
      i, j := SourceOf(td[..n], k);
    } else {
      i, j := n, k - |Flatten(td[..n])|;
    }
  }

  /** No ResourceSpans is without spans. */
  ghost predicate NoEmptyResource(td: Traces) {
    forall i :: 0 <= i < |td| ==> ScopesSpans(td[i].scopes) != []
  }
}
