/**
 * Policy configuration, and what each policy means: first on pdata, as the vendored filters scan it,
 * and then on the flat list of spans that a trace amounts to.
 */
module Policies {
  import opened Wrappers
  import opened Pdata

  /** The library calls the filters make, as functions the model knows nothing about. */
  datatype Lib = Lib(
    regexCompiles: string -> bool,
    regexMatch: (string, string) -> bool,                  // pattern, text
    traceStateGet: (string, string) -> Option<string>,     // raw, key; None when the raw text does not parse
    hash: (string, TraceId) -> nat,                        // salt, trace id
    threshold: real -> nat,                                // ratio
    ottlCompiles: string -> bool,
    ottl: (string, seq<View>) -> Option<bool>,             // condition; None is an evaluation error
    asString: Value -> string)                             // pcommon.Value.AsString

  datatype Leaf =
    | AlwaysSample
    | Latency(thresholdMs: int, upperThresholdMs: int)
    | StatusCode(codes: seq<string>)
    | NumericAttribute(key: string, min: int, max: int, invert: bool)
    | StringAttribute(key: string, values: seq<string>, regex: bool, invert: bool)
    | BooleanAttribute(key: string, value: bool, invert: bool)
    | SpanCount(minSpans: int, maxSpans: int)
    | TraceState(key: string, values: seq<string>)
    | Probabilistic(hashSalt: string, samplingPercentage: real)
    | OTTLCondition(condition: string)
    | Unbuildable   // an unknown type, or a type whose configuration is missing

  datatype SubPolicy = SubPolicy(name: string, leaf: Leaf)
  datatype Spec = One(leaf: Leaf) | And(subs: seq<SubPolicy>)
  datatype PolicyCfg = PolicyCfg(name: string, spec: Spec)
  datatype Config = Config(decisionWait: int, policies: seq<PolicyCfg>)

  datatype Decision = Pending | Keep | Drop
  datatype PolicyResult = PolicyResult(name: string, matched: bool)
  datatype EvalResult = EvalResult(decision: Decision, policies: seq<PolicyResult>)

  /** One span with its resource: all that the filters read of it. */
  datatype View = View(
    resource: map<string, Value>, attrs: map<string, Value>,
    status: int, start: Timestamp, end: Timestamp, traceState: string)

  function ViewOf(p: (Attrs, Span)): View {
    View(FirstMap(p.0), FirstMap(p.1.attrs), p.1.status, p.1.start, p.1.end, p.1.traceState)
  }

  function Views(td: Traces): (r: seq<View>)
    ensures |r| == |Flatten(td)|
  {
    ViewSeq(Flatten(td))
  }

  function ViewSeq(s: seq<(Attrs, Span)>): (r: seq<View>)
    ensures |r| == |s| && forall i :: 0 <= i < |s| ==> r[i] == ViewOf(s[i])
  {
    seq(|s|, i requires 0 <= i < |s| => ViewOf(s[i]))
  }

  // ---- which configurations compile ----

  function StatusCodeOf(name: string): Option<int> {
    if name == "OK" then Some(STATUS_OK)
    else if name == "ERROR" then Some(STATUS_ERROR)
    else if name == "UNSET" then Some(STATUS_UNSET)
    else None
  }

  predicate LeafCompiles(lib: Lib, leaf: Leaf) {
    match leaf
    case StatusCode(codes) => codes != [] && forall c <- codes :: StatusCodeOf(c).Some?
    case StringAttribute(_, values, regex, _) => regex ==> forall v <- values :: lib.regexCompiles(v)
    case OTTLCondition(c) => lib.ottlCompiles(c)
    case Unbuildable => false
    case _ => true
  }

  predicate SpecCompiles(lib: Lib, spec: Spec) {
    match spec
    case One(leaf) => LeafCompiles(lib, leaf)
    case And(subs) => subs != [] && forall i :: 0 <= i < |subs| ==> LeafCompiles(lib, subs[i].leaf)
  }

  predicate ConfigCompiles(lib: Lib, cfg: Config) {
    forall i :: 0 <= i < |cfg.policies| ==> SpecCompiles(lib, cfg.policies[i].spec)
  }

  // ---- attribute tests ----

  /** The string matcher: some regex matches, or the text is one of the non-empty values. */
  ghost predicate Accepts(lib: Lib, values: seq<string>, regex: bool, text: string) {
    if regex then exists v <- values :: lib.regexMatch(v, text)
    else text != "" && text in values
  }

  predicate IsAttributeLeaf(leaf: Leaf) {
    leaf.NumericAttribute? || leaf.StringAttribute? || leaf.BooleanAttribute?
  }

  ghost predicate ValueHit(lib: Lib, leaf: Leaf, v: Value)
    requires IsAttributeLeaf(leaf)
  {
    match leaf
    case NumericAttribute(_, min, max, _) => min <= v.AsInt() <= max
    case BooleanAttribute(_, value, _) => v.AsBool() == value
    case StringAttribute(_, values, regex, _) => Accepts(lib, values, regex, v.AsStr())
  }

  /** On a span, unlike on a resource, the string filter ignores the empty string. */
  ghost predicate SpanValueHit(lib: Lib, leaf: Leaf, v: Value)
    requires IsAttributeLeaf(leaf)
  {
    ValueHit(lib, leaf, v) && (leaf.StringAttribute? ==> v.AsStr() != "")
  }

  ghost predicate ResourceHit(lib: Lib, leaf: Leaf, a: Attrs)
    requires IsAttributeLeaf(leaf)
  {
    var v := Get(a, leaf.key);
    v.Some? && ValueHit(lib, leaf, v.value)
  }

  ghost predicate SpanHit(lib: Lib, leaf: Leaf, a: Attrs)
    requires IsAttributeLeaf(leaf)
  {
    var v := Get(a, leaf.key);
    v.Some? && SpanValueHit(lib, leaf, v.value)
  }

  ghost predicate ViewHit(lib: Lib, leaf: Leaf, v: View)
    requires IsAttributeLeaf(leaf)
  {
    || (leaf.key in v.resource && ValueHit(lib, leaf, v.resource[leaf.key]))
    || (leaf.key in v.attrs && SpanValueHit(lib, leaf, v.attrs[leaf.key]))
  }

  // ---- the scans of util.go, on pdata ----

  /** Some resource passes, or some span does; a resource counts even when it has no spans. */
  ghost predicate ScanAny(td: Traces, resource: Attrs -> bool, span: Span -> bool) {
    exists i :: 0 <= i < |td| && (resource(td[i].resource) || AnySpan(ScopesSpans(td[i].scopes), span))
  }

  ghost predicate ScanAll(td: Traces, resource: Attrs -> bool, span: Span -> bool) {
    forall i :: 0 <= i < |td| ==> resource(td[i].resource) && AllSpans(ScopesSpans(td[i].scopes), span)
  }

  ghost predicate AnySpan(spans: seq<Span>, test: Span -> bool) {
    exists j :: 0 <= j < |spans| && test(spans[j])
  }

  ghost predicate AllSpans(spans: seq<Span>, test: Span -> bool) {
    forall j :: 0 <= j < |spans| ==> test(spans[j])
  }

  ghost function ResourceTest(lib: Lib, leaf: Leaf): Attrs -> bool
    requires IsAttributeLeaf(leaf)
  {
    (a: Attrs) => ResourceHit(lib, leaf, a)
  }

  ghost function SpanTest(lib: Lib, leaf: Leaf): Span -> bool
    requires IsAttributeLeaf(leaf)
  {
    (span: Span) => SpanHit(lib, leaf, span.attrs)
  }

  ghost predicate AttributeScan(lib: Lib, leaf: Leaf, td: Traces)
    requires IsAttributeLeaf(leaf)
  {
    ScanAny(td, ResourceTest(lib, leaf), SpanTest(lib, leaf))
  }

  // ---- the latency fold ----

  /** The callback's two captured variables, or that it has answered true. */
  datatype LatencyRun = Running(minTime: Timestamp, maxTime: Timestamp) | Stopped

  predicate InWindow(thresholdMs: int, upperThresholdMs: int, duration: int) {
    if upperThresholdMs == 0 then Milliseconds(duration) > thresholdMs
    else thresholdMs < Milliseconds(duration) <= upperThresholdMs
  }

  function LatencyStep(thr: int, upper: int, minTime: Timestamp, maxTime: Timestamp, start: Timestamp,
      end: Timestamp): LatencyRun {
    var mn := if minTime == 0 || start < minTime then start else minTime;
    var mx := if maxTime == 0 || end > maxTime then end else maxTime;
    if InWindow(thr, upper, Sub(AsTime(mx), AsTime(mn))) then Stopped else Running(mn, mx)
  }

  function LatencyFold(thr: int, upper: int, views: seq<View>): LatencyRun {
    if views == [] then Running(0, 0)
    else
      var last := views[|views| - 1];
      match LatencyFold(thr, upper, views[..|views| - 1])
      case Stopped => Stopped
      case Running(mn, mx) => LatencyStep(thr, upper, mn, mx, last.start, last.end)
  }

  // ---- what a policy decides; None is an evaluation error ----

  const DEFAULT_HASH_SALT := "default-hash-seed"

  function Salt(s: string): string {
    if s == "" then DEFAULT_HASH_SALT else s
  }

  ghost predicate StatusListed(codes: seq<string>, status: int) {
    exists c <- codes :: StatusCodeOf(c) == Some(status)
  }

  /** The tracestate filter keeps only values whose key=value pair fits in 256 characters. */
  ghost predicate TraceStateHit(lib: Lib, key: string, values: seq<string>, raw: string) {
    match lib.traceStateGet(raw, key)
    case None => false
    case Some(got) => got != "" && got in values && |key| + |got| < 256
  }

  predicate CountInRange(minSpans: int, maxSpans: int, n: int) {
    (maxSpans == 0 && n >= minSpans) || minSpans <= n <= maxSpans
  }

  ghost function LeafOutcome(lib: Lib, leaf: Leaf, id: TraceId, views: seq<View>): Option<bool> {
    match leaf
    case AlwaysSample => Some(true)
    case Latency(thr, upper) => Some(LatencyFold(thr, upper, views).Stopped?)
    case StatusCode(codes) => Some(exists i :: 0 <= i < |views| && StatusListed(codes, views[i].status))
    case NumericAttribute(_, _, _, invert) => Some(AnyViewHit(lib, leaf, views) != invert)
    case StringAttribute(_, _, _, invert) => Some(AnyViewHit(lib, leaf, views) != invert)
    case BooleanAttribute(_, _, invert) => Some(AnyViewHit(lib, leaf, views) != invert)
    case SpanCount(lo, hi) => Some(CountInRange(lo, hi, |views|))
    case TraceState(key, values) =>
      Some(exists i :: 0 <= i < |views| && TraceStateHit(lib, key, values, views[i].traceState))
    case Probabilistic(salt, p) => Some(lib.hash(Salt(salt), id) <= lib.threshold(p / 100.0))
    case OTTLCondition(c) => lib.ottl(c, views)
    case Unbuildable => None
  }

  ghost predicate AnyViewHit(lib: Lib, leaf: Leaf, views: seq<View>)
    requires IsAttributeLeaf(leaf)
  {
    exists i :: 0 <= i < |views| && ViewHit(lib, leaf, views[i])
  }

  /** Sub-policies run in order; the first that errs or does not match ends the evaluation. */
  ghost function AndOutcome(lib: Lib, subs: seq<SubPolicy>, id: TraceId, views: seq<View>): Option<bool> {
    if subs == [] then Some(true)
    else
      var first := LeafOutcome(lib, subs[0].leaf, id, views);
      if first == Some(true) then AndOutcome(lib, subs[1..], id, views) else first
  }

  ghost function Outcome(lib: Lib, spec: Spec, id: TraceId, views: seq<View>): Option<bool> {
    match spec
    case One(leaf) => LeafOutcome(lib, leaf, id, views)
    case And(subs) => AndOutcome(lib, subs, id, views)
  }

  /** The policies' results in configuration order; an error in any of them is the evaluation's error. */
  ghost function Results(lib: Lib, policies: seq<PolicyCfg>, id: TraceId, views: seq<View>): Option<seq<PolicyResult>> {
    if policies == [] then Some([])
    else
      var last := policies[|policies| - 1];
      var init := Results(lib, policies[..|policies| - 1], id, views);
      var out := Outcome(lib, last.spec, id, views);
      if init.None? || out.None? then None
      else Some(init.value + [PolicyResult(last.name, out.value)])
  }

  ghost predicate AnyMatched(results: seq<PolicyResult>) {
    exists i :: 0 <= i < |results| && results[i].matched
  }

  /** Evaluator.Evaluate: KEEP when any policy matched. */
  ghost function Evaluation(lib: Lib, cfg: Config, id: TraceId, views: seq<View>): Option<EvalResult> {
    match Results(lib, cfg.policies, id, views)
    case None => None
    case Some(rs) => Some(EvalResult(if AnyMatched(rs) then Keep else Drop, rs))
  }

  /** EvalResult.MatchedNames. */
  function MatchedNames(rs: seq<PolicyResult>): seq<string> {
    if rs == [] then []
    else MatchedNames(rs[..|rs| - 1]) + if rs[|rs| - 1].matched then [rs[|rs| - 1].name] else []
  }

  // ---- the same on pdata, as the filters compute it ----

  ghost function LeafOnPdata(lib: Lib, leaf: Leaf, id: TraceId, td: Traces): Option<bool> {
    if IsAttributeLeaf(leaf) then Some(AttributeScan(lib, leaf, td) != leaf.invert)
    else LeafOutcome(lib, leaf, id, Views(td))
  }

  ghost function AndOnPdata(lib: Lib, subs: seq<SubPolicy>, id: TraceId, td: Traces): Option<bool> {
    if subs == [] then Some(true)
    else
      var first := LeafOnPdata(lib, subs[0].leaf, id, td);
      if first == Some(true) then AndOnPdata(lib, subs[1..], id, td) else first
  }

  ghost function OnPdata(lib: Lib, spec: Spec, id: TraceId, td: Traces): Option<bool> {
    match spec
    case One(leaf) => LeafOnPdata(lib, leaf, id, td)
    case And(subs) => AndOnPdata(lib, subs, id, td)
  }

  ghost function ResultsOnPdata(lib: Lib, policies: seq<PolicyCfg>, id: TraceId,
      td: Traces): Option<seq<PolicyResult>> {
    if policies == [] then Some([])
    else
      var last := policies[|policies| - 1];
      var init := ResultsOnPdata(lib, policies[..|policies| - 1], id, td);
      var out := OnPdata(lib, last.spec, id, td);
      if init.None? || out.None? then None
      else Some(init.value + [PolicyResult(last.name, out.value)])
  }

  ghost function EvaluationOnPdata(lib: Lib, cfg: Config, id: TraceId, td: Traces): Option<EvalResult> {
    match ResultsOnPdata(lib, cfg.policies, id, td)
    case None => None
    case Some(rs) => Some(EvalResult(if AnyMatched(rs) then Keep else Drop, rs))
  }

  /** Some span passes, or the resource it was reported under does. */
  ghost predicate AnyPair(s: seq<(Attrs, Span)>, resource: Attrs -> bool, span: Span -> bool) {
    exists k :: 0 <= k < |s| && (resource(s[k].0) || span(s[k].1))
  }

  /** Without empty resources, scanning the groups is scanning the flat list. */
  lemma ScanIsFlatScan(td: Traces, resource: Attrs -> bool, span: Span -> bool)
    requires NoEmptyResource(td)
    ensures ScanAny(td, resource, span) == AnyPair(Flatten(td), resource, span)
  {
    if ScanAny(td, resource, span) {
      var i :| 0 <= i < |td| && (resource(td[i].resource) || AnySpan(ScopesSpans(td[i].scopes), span));
      var j := 0;
      if !resource(td[i].resource) {
        j :| 0 <= j < |ScopesSpans(td[i].scopes)| && span(ScopesSpans(td[i].scopes)[j]);
      }
      var k := PlaceOf(td, i, j);
    }
    if AnyPair(Flatten(td), resource, span) {
      var k :| 0 <= k < |Flatten(td)| && (resource(Flatten(td)[k].0) || span(Flatten(td)[k].1));
      var i, j := SourceOf(td, k);
    }
  }

  /** An attribute filter's scan of the groups is a test of each span's view. */
  lemma ScanIsViewScan(lib: Lib, leaf: Leaf, td: Traces)
    requires IsAttributeLeaf(leaf) && NoEmptyResource(td)
    ensures AttributeScan(lib, leaf, td) == AnyViewHit(lib, leaf, Views(td))
  {
    ScanIsFlatScan(td, ResourceTest(lib, leaf), SpanTest(lib, leaf));
    var s := Flatten(td);
    forall k | 0 <= k < |s|
      ensures ViewHit(lib, leaf, Views(td)[k]) <==> ResourceHit(lib, leaf, s[k].0) || SpanHit(lib, leaf, s[k].1.attrs)
    {
      GetIsFirstMap(s[k].0, leaf.key);
      GetIsFirstMap(s[k].1.attrs, leaf.key);
    }
  }

  /** Every attribute filter finds in the groups what it finds in the flat list of views. */
  ghost predicate ScansAsViews(lib: Lib, td: Traces) {
    forall leaf :: IsAttributeLeaf(leaf) ==> AttributeScan(lib, leaf, td) == AnyViewHit(lib, leaf, Views(td))
  }

  lemma {:induction false} AndScansViews(lib: Lib, subs: seq<SubPolicy>, id: TraceId, td: Traces)
    requires ScansAsViews(lib, td)
    ensures AndOnPdata(lib, subs, id, td) == AndOutcome(lib, subs, id, Views(td))
  {
    if subs != [] {
      AndScansViews(lib, subs[1..], id, td);
    }
  }

  lemma {:induction false} ResultsScanViews(lib: Lib, policies: seq<PolicyCfg>, id: TraceId, td: Traces)
    requires ScansAsViews(lib, td)
    ensures ResultsOnPdata(lib, policies, id, td) == Results(lib, policies, id, Views(td))
  {
    if policies != [] {
      var n := |policies| - 1;
      ResultsScanViews(lib, policies[..n], id, td);
      if policies[n].spec.And? {
        AndScansViews(lib, policies[n].spec.subs, id, td);
      }
    }
  }

  /** Grouping does not matter: evaluation depends on the flat list of views alone. */
  lemma EvaluationScansViews(lib: Lib, cfg: Config, id: TraceId, td: Traces)
    requires NoEmptyResource(td)
    ensures EvaluationOnPdata(lib, cfg, id, td) == Evaluation(lib, cfg, id, Views(td))
  {
    forall leaf | IsAttributeLeaf(leaf) ensures AttributeScan(lib, leaf, td) == AnyViewHit(lib, leaf, Views(td)) {
      ScanIsViewScan(lib, leaf, td);
    }
    ResultsScanViews(lib, cfg.policies, id, td);
  }
}
