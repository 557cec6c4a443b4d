/**
 * The policy engine: a configuration compiled into the vendored filters, a
 * stored trace rebuilt as pdata, and every policy run against it.
 */
module PolicyEngine {
  import opened Wrappers
  import opened Pdata
  import opened Policies
  import opened TraceTypes
  import opened Assembler
  import opened Filters

  /** A compiled policy: what the constructors of the vendored filters keep. */
  datatype Filter =
    | AlwaysFilter
    | LatencyFilter(thresholdMs: int, upperThresholdMs: int)
    | StatusFilter(statusCodes: seq<int>)
    | NumericFilter(key: string, min: int, max: int, invert: bool)
    | StringFilter(key: string, matcher: StringMatcher, invert: bool)
    | BooleanFilter(key: string, value: bool, invert: bool)
    | SpanCountFilter(minSpans: int, maxSpans: int)
    | TraceStateFilter(key: string, valuesMap: set<string>)
    | ProbabilisticFilter(threshold: nat, hashSalt: string)
    | OTTLFilter(condition: string)

  datatype Compiled = Single(filter: Filter) | Conjunction(filters: seq<Filter>)

  /** f is what the leaf policy compiles to. */
  ghost predicate FilterFor(lib: Lib, leaf: Leaf, f: Filter) {
    match leaf
    case AlwaysSample => f == AlwaysFilter
    case Latency(thr, upper) => f == LatencyFilter(thr, upper)
    case StatusCode(codes) =>
      f.StatusFilter? && |f.statusCodes| == |codes| && forall i :: 0 <= i < |codes| ==>
        StatusCodeOf(codes[i]) == Some(f.statusCodes[i])
    case NumericAttribute(key, min, max, invert) => f == NumericFilter(key, min, max, invert)
    case StringAttribute(key, values, regex, invert) =>
      f.StringFilter? && f.key == key && f.invert == invert && IsStringLeaf(leaf, key, f.matcher) &&
        f.matcher.lib == lib
    case BooleanAttribute(key, value, invert) => f == BooleanFilter(key, value, invert)
    case SpanCount(lo, hi) => f == SpanCountFilter(lo, hi)
    case TraceState(key, values) =>
      f == TraceStateFilter(key, set v | v in values && v != "" && |key| + |v| < 256)
    case Probabilistic(salt, p) => f == ProbabilisticFilter(lib.threshold(p / 100.0), Salt(salt))
    case OTTLCondition(c) => f == OTTLFilter(c)
    case Unbuildable => false
  }

  ghost predicate CompiledFor(lib: Lib, spec: Spec, c: Compiled) {
    match spec
    case One(leaf) => c.Single? && FilterFor(lib, leaf, c.filter)
    case And(subs) =>
      c.Conjunction? && |c.filters| == |subs| && forall i :: 0 <= i < |subs| ==>
        FilterFor(lib, subs[i].leaf, c.filters[i])
  }

  ghost function MatchersOf(c: Compiled): set<StringMatcher> {
    match c
    case Single(f) => MatcherOf(f)
    case Conjunction(fs) => set i, m | 0 <= i < |fs| && m in MatcherOf(fs[i]) :: m
  }

  ghost function MatcherOf(f: Filter): set<StringMatcher> {
    if f.StringFilter? then {f.matcher} else {}
  }

  // ---- buildEvaluator ----

  method BuildFilter(lib: Lib, leaf: Leaf) returns (f: Option<Filter>)
    ensures f.Some? <==> LeafCompiles(lib, leaf)
    ensures f.Some? ==> FilterFor(lib, leaf, f.value)
    ensures f.Some? ==> forall m :: m in MatcherOf(f.value) ==> fresh(m) && m.Valid()
  {
    match leaf
    case AlwaysSample => return Some(AlwaysFilter);
    case Latency(thr, upper) => return Some(LatencyFilter(thr, upper));
    case StatusCode(codes) => f := NewStatusCodeFilter(codes);
    case NumericAttribute(key, min, max, invert) => return Some(NumericFilter(key, min, max, invert));
    case StringAttribute(key, values, regex, invert) =>
      if regex {
        for i := 0 to |values|
          invariant forall k :: 0 <= k < i ==> lib.regexCompiles(values[k])
        {
          if !lib.regexCompiles(values[i]) {
            assert values[i] in values;
            return None;
          }
        }
      }
      var matcher := new StringMatcher(lib, values, regex);
      return Some(StringFilter(key, matcher, invert));
    case BooleanAttribute(key, value, invert) => return Some(BooleanFilter(key, value, invert));
    case SpanCount(lo, hi) => return Some(SpanCountFilter(lo, hi));
    case TraceState(key, values) =>
      var valuesMap: set<string> := {};
      for i := 0 to |values|
        invariant valuesMap == set v | v in values[..i] && v != "" && |key| + |v| < 256
      {
        if values[i] != "" && |key| + |values[i]| < 256 {
          valuesMap := valuesMap + {values[i]};
        }
      }
      assert values[..|values|] == values;
      return Some(TraceStateFilter(key, valuesMap));
    case Probabilistic(salt, p) => return Some(ProbabilisticFilter(lib.threshold(p / 100.0), Salt(salt)));
    case OTTLCondition(c) => return if lib.ottlCompiles(c) then Some(OTTLFilter(c)) else None;
    case Unbuildable => return None;
  }

  method NewStatusCodeFilter(names: seq<string>) returns (f: Option<Filter>)
    ensures f.Some? <==> names != [] && forall c <- names :: StatusCodeOf(c).Some?
    ensures f.Some? ==> f.value.StatusFilter? && |f.value.statusCodes| == |names|
    ensures f.Some? ==> forall i :: 0 <= i < |names| ==> StatusCodeOf(names[i]) == Some(f.value.statusCodes[i])
  {
    if |names| == 0 {
      return None;
    }
    var codes: seq<int> := [];
    for i := 0 to |names|
      invariant |codes| == i
      invariant forall k :: 0 <= k < i ==> StatusCodeOf(names[k]) == Some(codes[k])
    {
      var code := StatusCodeOf(names[i]);
      if code.None? {
        assert names[i] in names;
        return None;
      }
      codes := codes + [code.value];
    }
    return Some(StatusFilter(codes));
  }

  method Build(lib: Lib, spec: Spec) returns (c: Option<Compiled>)
    ensures c.Some? <==> SpecCompiles(lib, spec)
    ensures c.Some? ==> CompiledFor(lib, spec, c.value)
    ensures c.Some? ==> forall m :: m in MatchersOf(c.value) ==> fresh(m) && m.Valid()
  {
    match spec
    case One(leaf) =>
      var f := BuildFilter(lib, leaf);
      return if f.Some? then Some(Single(f.value)) else None;
    case And(subs) =>
      if |subs| == 0 {
        return None;
      }
      var filters: seq<Filter> := [];
      ghost var matchers: set<StringMatcher> := {};
      for i := 0 to |subs|
        invariant |filters| == i
        invariant forall k :: 0 <= k < i ==> LeafCompiles(lib, subs[k].leaf) && FilterFor(lib, subs[k].leaf, filters[k])
        invariant forall k :: 0 <= k < i ==> MatcherOf(filters[k]) <= matchers
        invariant forall m :: m in matchers ==> fresh(m) && m.Valid()
      {
        var f := BuildFilter(lib, subs[i].leaf);
        if f.None? {
          return None;
        }
        filters := filters + [f.value];
        matchers := matchers + MatcherOf(f.value);
      }
      return Some(Conjunction(filters));
  }

  // ---- running a filter ----

  ghost predicate IsOutcome(r: Option<SamplingDecision>, out: Option<bool>) {
    r == match out case None => None case Some(b) => Some(AsDecision(b))
  }

  method RunFilter(lib: Lib, ghost leaf: Leaf, f: Filter, id: TraceId, td: Traces, spanCount: int)
    returns (r: Option<SamplingDecision>)
    requires FilterFor(lib, leaf, f) && spanCount == |Flatten(td)|
    requires forall m :: m in MatcherOf(f) ==> m.Valid()
    modifies MatcherOf(f)
    ensures forall m :: m in MatcherOf(f) ==> m.Valid()
    ensures IsOutcome(r, LeafOnPdata(lib, leaf, id, td))
  {
    match f
    case AlwaysFilter =>
      return Some(Sampled);
    case LatencyFilter(thr, upper) =>
      var d := LatencyEvaluate(thr, upper, td);
      return Some(d);
    case StatusFilter(codes) =>
      var d := StatusEvaluate(leaf.codes, codes, td);
      return Some(d);
    case NumericFilter(key, min, max, invert) =>
      var d := NumericEvaluate(lib, leaf, key, min, max, invert, td);
      return Some(d);
    case StringFilter(key, matcher, invert) =>
      var d := StringEvaluate(key, matcher, leaf, td, invert);
      return Some(d);
    case BooleanFilter(key, value, invert) =>
      var d := BooleanEvaluate(lib, leaf, key, value, invert, td);
      return Some(d);
    case SpanCountFilter(lo, hi) =>
      if hi == 0 && spanCount >= lo {
        return Some(Sampled);
      } else if spanCount >= lo && spanCount <= hi {
        return Some(Sampled);
      } else {
        return Some(NotSampled);
      }
    case TraceStateFilter(key, valuesMap) =>
      var d := TraceStateEvaluate(lib, key, leaf.values, valuesMap, td);
      return Some(d);
    case ProbabilisticFilter(threshold, salt) =>
      return Some(if lib.hash(salt, id) <= threshold then Sampled else NotSampled);
    case OTTLFilter(c) =>
      var out := lib.ottl(c, Views(td));
      return if out.None? then None else Some(AsDecision(out.value));
  }

  method StatusEvaluate(ghost names: seq<string>, codes: seq<int>, td: Traces) returns (d: SamplingDecision)
    requires |codes| == |names| && forall i :: 0 <= i < |names| ==> StatusCodeOf(names[i]) == Some(codes[i])
    ensures d == AsDecision(exists i :: 0 <= i < |Views(td)| && StatusListed(names, Views(td)[i].status))
  {
    d := HasSpanWithCondition(td, (span: Span) => span.status in codes);
    forall status ensures status in codes <==> StatusListed(names, status) {
      if status in codes {
        var i :| 0 <= i < |codes| && codes[i] == status;
        assert names[i] in names;
      }
      if StatusListed(names, status) {
        var c :| c in names && StatusCodeOf(c) == Some(status);
        var i :| 0 <= i < |names| && names[i] == c;
        assert codes[i] == status;
      }
    }
    assert forall k :: 0 <= k < |Flatten(td)| ==> Views(td)[k].status == Flatten(td)[k].1.status;
  }

  method TraceStateEvaluate(lib: Lib, key: string, ghost values: seq<string>, valuesMap: set<string>, td: Traces)
    returns (d: SamplingDecision)
    requires valuesMap == set v | v in values && v != "" && |key| + |v| < 256
    ensures d == AsDecision(exists i :: 0 <= i < |Views(td)| && TraceStateHit(lib, key, values,
        Views(td)[i].traceState))
  {
    d := HasSpanWithCondition(td, (span: Span) =>
      var got := lib.traceStateGet(span.traceState, key);
      got.Some? && got.value in valuesMap);
    assert forall k :: 0 <= k < |Flatten(td)| ==> Views(td)[k].traceState == Flatten(td)[k].1.traceState;
  }

  /** A callback that is the negation of the hit test makes the inverted scan the complement. */
  lemma InvertedScanIsComplement(lib: Lib, leaf: Leaf, td: Traces, resource: Attrs -> bool, span: Span -> bool)
    requires IsAttributeLeaf(leaf)
    requires forall a :: resource(a) == !ResourceHit(lib, leaf, a)
    requires forall s :: span(s) == !SpanHit(lib, leaf, s.attrs)
    ensures ScanAll(td, resource, span) == !AttributeScan(lib, leaf, td)
  {
    forall i | 0 <= i < |td|
      ensures AllSpans(ScopesSpans(td[i].scopes), span) == !AnySpan(ScopesSpans(td[i].scopes), SpanTest(lib, leaf))
    {
    }
  }

  lemma ScanIsAttributeScan(lib: Lib, leaf: Leaf, td: Traces, resource: Attrs -> bool, span: Span -> bool)
    requires IsAttributeLeaf(leaf)
    requires forall a :: resource(a) == ResourceHit(lib, leaf, a)
    requires forall s :: span(s) == SpanHit(lib, leaf, s.attrs)
    ensures ScanAny(td, resource, span) == AttributeScan(lib, leaf, td)
  {
    forall i | 0 <= i < |td|
      ensures AnySpan(ScopesSpans(td[i].scopes), span) == AnySpan(ScopesSpans(td[i].scopes), SpanTest(lib, leaf))
    {
    }
  }

  method NumericEvaluate(ghost lib: Lib, ghost leaf: Leaf, key: string, min: int, max: int, invert: bool, td: Traces)
    returns (d: SamplingDecision)
    requires leaf == NumericAttribute(key, min, max, invert)
    ensures d == AsDecision(AttributeScan(lib, leaf, td) != invert)
  {
    if invert {
      var resource := (a: Attrs) => var v := Get(a, key);
        !(v.Some? && v.value.AsInt() >= min && v.value.AsInt() <= max);
      var span := (s: Span) => var v := Get(s.attrs, key);
        !(v.Some? && v.value.AsInt() >= min && v.value.AsInt() <= max);
      InvertedScanIsComplement(lib, leaf, td, resource, span);
      d := InvertHasResourceOrSpanWithCondition(td, resource, span);
    } else {
      var resource := (a: Attrs) => var v := Get(a, key); v.Some? && v.value.AsInt() >= min && v.value.AsInt() <= max;
      var span := (s: Span) => var v := Get(s.attrs, key); v.Some? && v.value.AsInt() >= min && v.value.AsInt() <= max;
      ScanIsAttributeScan(lib, leaf, td, resource, span);
      d := HasResourceOrSpanWithCondition(td, resource, span);
    }
  }

  method BooleanEvaluate(ghost lib: Lib, ghost leaf: Leaf, key: string, value: bool, invert: bool, td: Traces)
    returns (d: SamplingDecision)
    requires leaf == BooleanAttribute(key, value, invert)
    ensures d == AsDecision(AttributeScan(lib, leaf, td) != invert)
  {
    if invert {
      var resource := (a: Attrs) => var v := Get(a, key); if v.Some? then v.value.AsBool() != value else true;
      var span := (s: Span) => var v := Get(s.attrs, key); if v.Some? then v.value.AsBool() != value else true;
      InvertedScanIsComplement(lib, leaf, td, resource, span);
      d := InvertHasResourceOrSpanWithCondition(td, resource, span);
    } else {
      var resource := (a: Attrs) => var v := Get(a, key); if v.Some? then v.value.AsBool() == value else false;
      var span := (s: Span) => var v := Get(s.attrs, key); if v.Some? then v.value.AsBool() == value else false;
      ScanIsAttributeScan(lib, leaf, td, resource, span);
      d := HasResourceOrSpanWithCondition(td, resource, span);
    }
  }

  /** What is left to run decides: a prefix that all matched leaves the rest's outcome. */
  lemma {:induction false} AndSkip(lib: Lib, subs: seq<SubPolicy>, id: TraceId, td: Traces, i: nat)
    requires i <= |subs|
    requires forall k :: 0 <= k < i ==> LeafOnPdata(lib, subs[k].leaf, id, td) == Some(true)
    ensures AndOnPdata(lib, subs, id, td) == AndOnPdata(lib, subs[i..], id, td)
  {
    if i == 0 {
      assert subs[0..] == subs;
    } else {
      assert subs[1..][i - 1..] == subs[i..];
      AndSkip(lib, subs[1..], id, td, i - 1);
    }
  }

  /** And.Evaluate: the first sub-policy that errs or does not match ends the loop. */
  method RunConjunction(lib: Lib, ghost subs: seq<SubPolicy>, filters: seq<Filter>, id: TraceId, td: Traces,
      spanCount: int)
    returns (r: Option<SamplingDecision>)
    requires CompiledFor(lib, And(subs), Conjunction(filters)) && spanCount == |Flatten(td)|
    requires forall m :: m in MatchersOf(Conjunction(filters)) ==> m.Valid()
    modifies MatchersOf(Conjunction(filters))
    ensures forall m :: m in MatchersOf(Conjunction(filters)) ==> m.Valid()
    ensures IsOutcome(r, AndOnPdata(lib, subs, id, td))
  {
    for i := 0 to |filters|
      invariant forall m :: m in MatchersOf(Conjunction(filters)) ==> m.Valid()
      invariant forall k :: 0 <= k < i ==> LeafOnPdata(lib, subs[k].leaf, id, td) == Some(true)
    {
      assert MatcherOf(filters[i]) <= MatchersOf(Conjunction(filters));
      AndSkip(lib, subs, id, td, i);
      var d := RunFilter(lib, subs[i].leaf, filters[i], id, td, spanCount);
      if d.None? {
        return None;
      }
      if d.value == NotSampled {
        return Some(NotSampled);
      }
    }
    AndSkip(lib, subs, id, td, |subs|);
    return Some(Sampled);
  }

  method RunCompiled(lib: Lib, ghost spec: Spec, c: Compiled, id: TraceId, td: Traces, spanCount: int)
    returns (r: Option<SamplingDecision>)
    requires CompiledFor(lib, spec, c) && spanCount == |Flatten(td)|
    requires forall m :: m in MatchersOf(c) ==> m.Valid()
    modifies MatchersOf(c)
    ensures forall m :: m in MatchersOf(c) ==> m.Valid()
    ensures IsOutcome(r, OnPdata(lib, spec, id, td))
  {
    match c
    case Single(f) => r := RunFilter(lib, spec.leaf, f, id, td, spanCount);
    case Conjunction(fs) => r := RunConjunction(lib, spec.subs, fs, id, td, spanCount);
  }

  // ---- rehydrateTraceData ----

  /** PutEmpty followed by FromRaw: overwrite the first entry under the key, or append one. */
  function Put(a: Attrs, key: string, v: Value): Attrs {
    if a == [] then [(key, v)]
    else if a[0].0 == key then [(key, v)] + a[1..]
    else [a[0]] + Put(a[1..], key, v)
  }

  lemma {:induction false} PutUpdatesFirst(a: Attrs, key: string, v: Value)
    ensures FirstMap(Put(a, key, v)) == FirstMap(a)[key := v]
  {
    if a == [] {
      assert FirstMap([(key, v)][1..]) == map[];
    } else if a[0].0 != key {
      PutUpdatesFirst(a[1..], key, v);
    }
  }

  ghost predicate Unpacked(m: map<string, Value>, attrs: Attrs, resource: Attrs) {
    FirstMap(attrs) == Unprefix(m, ATTRIBUTES) && FirstMap(resource) == Unprefix(m, RESOURCE)
  }

  /** Splits a flattened attribute map by prefix, walking the map in any order. */
  method Unpack(m: map<string, Value>) returns (attrs: Attrs, resource: Attrs)
    ensures Unpacked(m, attrs, resource)
  {
    attrs, resource := [], [];
    var rest := m;
    ghost var done: map<string, Value> := map[];
    while rest != map[]
      invariant done.Keys !! rest.Keys && done + rest == m
      invariant Unpacked(done, attrs, resource)
      decreases |rest|
    {
      var k :| k in rest;
      attrs, resource := UnpackEntry(k, rest[k], attrs, resource, done);
      RemoveShrinks(rest, k);
      MoveEntry(done, rest, k);
      done := done[k := rest[k]];
      rest := rest - {k};
    }
    assert done == m;
  }

  lemma MoveEntry(done: map<string, Value>, rest: map<string, Value>, k: string)
    requires k in rest && done.Keys !! rest.Keys
    ensures done[k := rest[k]] + (rest - {k}) == done + rest
    ensures done[k := rest[k]].Keys !! (rest - {k}).Keys
  {
  }

  method UnpackEntry(k: string, v: Value, attrs0: Attrs, resource0: Attrs, ghost done: map<string, Value>)
    returns (attrs: Attrs, resource: Attrs)
    requires k !in done && Unpacked(done, attrs0, resource0)
    ensures Unpacked(done[k := v], attrs, resource)
  {
    attrs, resource := attrs0, resource0;
    NotBoth(k);
    UnprefixStep(done, k, v, ATTRIBUTES);
    UnprefixStep(done, k, v, RESOURCE);
    if HasPrefix(k, ATTRIBUTES) {
      PutUpdatesFirst(attrs, k[|ATTRIBUTES|..], v);
      attrs := Put(attrs, k[|ATTRIBUTES|..], v);
    } else if HasPrefix(k, RESOURCE) {
      PutUpdatesFirst(resource, k[|RESOURCE|..], v);
      resource := Put(resource, k[|RESOURCE|..], v);
    }
  }

  lemma NotBoth(k: string)
    ensures !(HasPrefix(k, ATTRIBUTES) && HasPrefix(k, RESOURCE))
  {
    if HasPrefix(k, ATTRIBUTES) {
      assert k[..|ATTRIBUTES|][0] == 'a';
    }
    if HasPrefix(k, RESOURCE) {
      assert k[..|RESOURCE|][0] == 'r';
    }
  }

  lemma UnprefixStep(m: map<string, Value>, k: string, v: Value, p: string)
    requires k !in m
    ensures Unprefix(m[k := v], p) == if HasPrefix(k, p) then Unprefix(m, p)[k[|p|..] := v] else Unprefix(m, p)
  {
    var n := m[k := v];
    var goal := if HasPrefix(k, p) then Unprefix(m, p)[k[|p|..] := v] else Unprefix(m, p);
    assert HasPrefix(k, p) ==> p + k[|p|..] == k;
    forall x
      ensures x in Unprefix(n, p) <==> x in goal
      ensures x in goal ==> Unprefix(n, p)[x] == goal[x]
    {
      UnprefixLookup(m, p, x);
      UnprefixLookup(n, p, x);
      assert HasPrefix(p + x, p) && (p + x)[|p|..] == x;
    }
  }

  /** One ResourceSpans per stored span. */
  method Rehydrate(spans: seq<FlatSpan>) returns (td: Traces, spanCount: int)
    ensures Views(td) == StoredViews(spans) && NoEmptyResource(td)
    ensures spanCount == |spans|
  {
    td := [];
    for i := 0 to |spans|
      invariant Views(td) == StoredViews(spans[..i]) && NoEmptyResource(td)
    {
      var s := spans[i];
      var attrs, resource := Unpack(s.attributes);
      var span := Span(
        s.traceId, s.spanId, s.parentSpanId, s.name, s.kind, FromTime(s.startTime), FromTime(s.endTime),
        ToPtraceStatus(s.statusCode), s.statusMessage, s.traceStateRaw, attrs, 0, 0);
      AddOneSpan(td, resource, span);
      td := td + [ResourceSpans(resource, [ScopeSpans([span])])];
      assert StoredViews(spans[..i + 1]) == StoredViews(spans[..i]) + [StoredView(s)];
    }
    assert spans[..|spans|] == spans;
    return td, |spans|;
  }

  lemma AddOneSpan(td: Traces, resource: Attrs, span: Span)
    ensures var ud := td + [ResourceSpans(resource, [ScopeSpans([span])])];
      Views(ud) == Views(td) + [ViewOf((resource, span))] && (NoEmptyResource(td) ==> NoEmptyResource(ud))
  {
    var rs := ResourceSpans(resource, [ScopeSpans([span])]);
    assert (td + [rs])[..|td|] == td;
    assert ScopesSpans(rs.scopes) == [span] by {
      assert rs.scopes[..0] == [];
    }
    assert Flatten(td + [rs]) == Flatten(td) + [(resource, span)];
  }

  /** EvalResult.MatchedNames, in configuration order. */
  method CollectMatchedNames(rs: seq<PolicyResult>) returns (names: seq<string>)
    ensures names == MatchedNames(rs)
  {
    names := [];
    for i := 0 to |rs|
      invariant names == MatchedNames(rs[..i])
    {
      assert rs[..i + 1][..i] == rs[..i];
      if rs[i].matched {
        names := names + [rs[i].name];
      }
    }
    assert rs[..|rs|] == rs;
  }

  /** What the engine says of a stored trace: its spans, and nothing else of it, decide. */
  ghost function EvalStored(lib: Lib, cfg: Config, id: TraceId, spans: seq<FlatSpan>): Option<EvalResult> {
    Evaluation(lib, cfg, id, StoredViews(spans))
  }

  class Evaluator {
    const lib: Lib
    const cfg: Config
    const compiled: seq<Compiled>
    ghost const Matchers: set<StringMatcher>

    ghost predicate Valid()
      reads Matchers
    {
      && |compiled| == |cfg.policies|
      && (forall i :: 0 <= i < |compiled| ==>
             CompiledFor(lib, cfg.policies[i].spec, compiled[i]) && MatchersOf(compiled[i]) <= Matchers)
      && (forall m :: m in Matchers ==> m.Valid())
    }

    constructor (lib: Lib, cfg: Config, compiled: seq<Compiled>, ghost matchers: set<StringMatcher>)
      requires |compiled| == |cfg.policies|
      requires forall i :: 0 <= i < |compiled| ==>
        CompiledFor(lib, cfg.policies[i].spec, compiled[i]) && MatchersOf(compiled[i]) <= matchers
      requires forall m :: m in matchers ==> m.Valid()
      ensures Valid() && this.lib == lib && this.cfg == cfg && Matchers == matchers
    {
      this.lib, this.cfg, this.compiled, Matchers := lib, cfg, compiled, matchers;
    }

    method Evaluate(id: TraceId, spans: seq<FlatSpan>) returns (r: Option<EvalResult>)
      requires Valid()
      modifies Matchers
      ensures Valid()
      ensures r == EvalStored(lib, cfg, id, spans)
    {
      var td, spanCount := Rehydrate(spans);
      EvaluationScansViews(lib, cfg, id, td);
      var results: seq<PolicyResult> := [];
      var kept := false;
      for i := 0 to |cfg.policies|
        invariant Valid()
        invariant ResultsOnPdata(lib, cfg.policies[..i], id, td) == Some(results)
        invariant kept == AnyMatched(results)
      {
        assert cfg.policies[..i + 1][..i] == cfg.policies[..i];
        var d := RunCompiled(lib, cfg.policies[i].spec, compiled[i], id, td, spanCount);
        if d.None? {
          ErrorEndsEvaluation(lib, cfg.policies, id, td, i + 1);
          return None;
        }
        var matched := d.value == Sampled;
        AnyMatchedStep(results, PolicyResult(cfg.policies[i].name, matched));
        results := results + [PolicyResult(cfg.policies[i].name, matched)];
        if matched {
          kept := true;
        }
      }
      assert cfg.policies[..|cfg.policies|] == cfg.policies;
      return Some(EvalResult(if kept then Keep else Drop, results));
    }
  }

  lemma AnyMatchedStep(results: seq<PolicyResult>, r: PolicyResult)
    ensures AnyMatched(results + [r]) == (AnyMatched(results) || r.matched)
  {
    if AnyMatched(results) {
      var i :| 0 <= i < |results| && results[i].matched;
      assert (results + [r])[i].matched;
    }
    if r.matched {
      assert (results + [r])[|results|].matched;
    }
  }

  lemma {:induction false} ErrorEndsEvaluation(lib: Lib, policies: seq<PolicyCfg>, id: TraceId, td: Traces, n: nat)
    requires n <= |policies| && ResultsOnPdata(lib, policies[..n], id, td).None?
    ensures ResultsOnPdata(lib, policies, id, td).None?
  {
    if n == |policies| {
      assert policies[..n] == policies;
    } else {
      assert policies[..|policies| - 1][..n] == policies[..n];
      ErrorEndsEvaluation(lib, policies[..|policies| - 1], id, td, n);
    }
  }

  /** NewEvaluator: every policy is compiled, or the first that cannot be is the error. */
  method NewEvaluator(lib: Lib, cfg: Config) returns (e: Option<Evaluator>)
    ensures e.Some? <==> ConfigCompiles(lib, cfg)
    ensures e.Some? ==> e.value.Valid() && e.value.lib == lib && e.value.cfg == cfg
    ensures e.Some? ==> fresh(e.value) && fresh(e.value.Matchers)
  {
    var compiled: seq<Compiled> := [];
    ghost var matchers: set<StringMatcher> := {};
    for i := 0 to |cfg.policies|
      invariant |compiled| == i
      invariant forall k :: 0 <= k < i ==> SpecCompiles(lib, cfg.policies[k].spec)
      invariant forall k :: 0 <= k < i ==>
        CompiledFor(lib, cfg.policies[k].spec, compiled[k]) && MatchersOf(compiled[k]) <= matchers
      invariant forall m :: m in matchers ==> fresh(m) && m.Valid()
    {
      var c := Build(lib, cfg.policies[i].spec);
      if c.None? {
        return None;
      }
      compiled := compiled + [c.value];
      matchers := matchers + MatchersOf(c.value);
    }
    var ev := new Evaluator(lib, cfg, compiled, matchers);
    return Some(ev);
  }
}
