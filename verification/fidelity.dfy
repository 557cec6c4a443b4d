/** Preview fidelity: when flattened spans get the decision the batches get. */
module Fidelity {
  import opened Wrappers
  import opened Pdata
  import opened Policies
  import opened Assembler
  import opened PolicyEngine

  // ---- the batches of one trace id ----

  function RestrictSpans(spans: seq<Span>, id: TraceId): seq<Span> {
    if spans == [] then []
    else
      var last := spans[|spans| - 1];
      RestrictSpans(spans[..|spans| - 1], id) + if last.traceId == id then [last] else []
  }

  /** A group restricted to one trace; a group left without spans is dropped. */
  function RestrictGroup(rs: ResourceSpans, id: TraceId): Traces {
    var spans := RestrictSpans(ScopesSpans(rs.scopes), id);
    if spans == [] then [] else [ResourceSpans(rs.resource, [ScopeSpans(spans)])]
  }

  /** The spans of one trace, in the groups they came in. */
  function Restrict(td: Traces, id: TraceId): Traces {
    if td == [] then [] else Restrict(td[..|td| - 1], id) + RestrictGroup(td[|td| - 1], id)
  }

  function PairsOf(s: seq<(Attrs, Span)>, id: TraceId): seq<(Attrs, Span)> {
    if s == [] then []
    else PairsOf(s[..|s| - 1], id) + if s[|s| - 1].1.traceId == id then [s[|s| - 1]] else []
  }

  lemma {:induction false} PairsOfAppend(s: seq<(Attrs, Span)>, t: seq<(Attrs, Span)>, id: TraceId)
    ensures PairsOf(s + t, id) == PairsOf(s, id) + PairsOf(t, id)
  {
    if t == [] {
      assert s + t == s;
    } else {
      assert (s + t)[..|s + t| - 1] == s + t[..|t| - 1];
      PairsOfAppend(s, t[..|t| - 1], id);
    }
  }

  lemma {:induction false} PairsWithResource(resource: Attrs, spans: seq<Span>, id: TraceId)
    ensures PairsOf(WithResource(resource, spans), id) == WithResource(resource, RestrictSpans(spans, id))
  {
    if spans != [] {
      var n := |spans| - 1;
      assert WithResource(resource, spans)[..n] == WithResource(resource, spans[..n]);
      PairsWithResource(resource, spans[..n], id);
    }
  }

  lemma RestrictGroupFlattens(rs: ResourceSpans, id: TraceId)
    ensures Flatten(RestrictGroup(rs, id)) == PairsOf(WithResource(rs.resource, ScopesSpans(rs.scopes)), id)
    ensures NoEmptyResource(RestrictGroup(rs, id))
  {
    var spans := RestrictSpans(ScopesSpans(rs.scopes), id);
    PairsWithResource(rs.resource, ScopesSpans(rs.scopes), id);
    var scope := ScopeSpans(spans);
    var one := ResourceSpans(rs.resource, [scope]);
    assert [one][..0] == [] && [scope][..0] == [];
    assert ScopesSpans([scope]) == spans;
    assert Flatten([one]) == WithResource(rs.resource, spans);
  }

  /** Restricting the groups restricts the flat list, and leaves no group empty. */
  lemma {:induction false} RestrictFlattens(td: Traces, id: TraceId)
    ensures Flatten(Restrict(td, id)) == PairsOf(Flatten(td), id)
    ensures NoEmptyResource(Restrict(td, id))
  {
    if td != [] {
      var rs := td[|td| - 1];
      var init := td[..|td| - 1];
      RestrictFlattens(init, id);
      RestrictGroupFlattens(rs, id);
      FlattenAppend(Restrict(init, id), RestrictGroup(rs, id));
      PairsOfAppend(Flatten(init), WithResource(rs.resource, ScopesSpans(rs.scopes)), id);
    }
  }

  /** The flattened spans of the trace are the flattened pairs of the trace. */
  lemma {:induction false} SpansOfPairs(lib: Lib, s: seq<(Attrs, Span)>, id: TraceId)
    ensures |SpansOf(lib, s, id)| == |PairsOf(s, id)|
    ensures forall i :: 0 <= i < |PairsOf(s, id)| ==>
      SpansOf(lib, s, id)[i] == ToFlat(lib, PairsOf(s, id)[i].0, PairsOf(s, id)[i].1)
  {
    if s != [] {
      SpansOfPairs(lib, s[..|s| - 1], id);
    }
  }

  function KnownStatus(code: int): int {
    ToPtraceStatus(FromPtraceStatus(code))
  }

  /** The view of a span after flattening: last entries win, unknown status codes read as unset. */
  function FlattenedViewOf(p: (Attrs, Span)): View {
    View(LastMap(p.0), LastMap(p.1.attrs), KnownStatus(p.1.status), p.1.start, p.1.end, p.1.traceState)
  }

  function FlattenedViews(s: seq<(Attrs, Span)>): (r: seq<View>)
    ensures |r| == |s| && forall i :: 0 <= i < |s| ==> r[i] == FlattenedViewOf(s[i])
  {
    seq(|s|, i requires 0 <= i < |s| => FlattenedViewOf(s[i]))
  }

  lemma StoredViewsOfBatches(lib: Lib, td: Traces, id: TraceId)
    ensures StoredViews(SpansOf(lib, Flatten(td), id)) == FlattenedViews(PairsOf(Flatten(td), id))
  {
    var pairs := PairsOf(Flatten(td), id);
    SpansOfPairs(lib, Flatten(td), id);
    forall i | 0 <= i < |pairs| ensures StoredView(SpansOf(lib, Flatten(td), id)[i]) == FlattenedViewOf(pairs[i]) {
      FlattenedView(lib, pairs[i].0, pairs[i].1);
    }
  }

  // ---- the theorem, for well-formed spans ----

  /** Attribute keys occur once and the status code is one of the three OTLP defines. */
  ghost predicate WellFormed(p: (Attrs, Span)) {
    UniqueKeys(p.0) && UniqueKeys(p.1.attrs) && p.1.status in {STATUS_UNSET, STATUS_OK, STATUS_ERROR}
  }

  ghost predicate LeafWithoutOTTL(leaf: Leaf) {
    !leaf.OTTLCondition?
  }

  ghost predicate SpecWithoutOTTL(spec: Spec) {
    match spec
    case One(leaf) => LeafWithoutOTTL(leaf)
    case And(subs) => forall i :: 0 <= i < |subs| ==> LeafWithoutOTTL(subs[i].leaf)
  }

  ghost predicate WithoutOTTL(cfg: Config) {
    forall i :: 0 <= i < |cfg.policies| ==> SpecWithoutOTTL(cfg.policies[i].spec)
  }

  lemma WellFormedViews(s: seq<(Attrs, Span)>)
    requires forall i :: 0 <= i < |s| ==> WellFormed(s[i])
    ensures FlattenedViews(s) == ViewSeq(s)
  {
    forall i | 0 <= i < |s| ensures FlattenedViewOf(s[i]) == ViewOf(s[i]) {
      assert WellFormed(s[i]);
      UniqueKeysFirstIsLast(s[i].0);
      UniqueKeysFirstIsLast(s[i].1.attrs);
    }
  }

  /** The same decision and the same matched policies, whatever the libraries and the policies. */
  lemma PreviewFidelity(lib: Lib, cfg: Config, td: Traces, id: TraceId)
    requires WithoutOTTL(cfg)
    requires forall i :: 0 <= i < |PairsOf(Flatten(td), id)| ==> WellFormed(PairsOf(Flatten(td), id)[i])
    ensures EvalStored(lib, cfg, id, SpansOf(lib, Flatten(td), id)) == EvaluationOnPdata(lib, cfg, id, Restrict(td, id))
  {
    RestrictFlattens(td, id);
    EvaluationScansViews(lib, cfg, id, Restrict(td, id));
    StoredViewsOfBatches(lib, td, id);
    WellFormedViews(PairsOf(Flatten(td), id));
  }

  // ---- exactly when it holds ----

  /** What a policy can find out about integers, booleans, strings and statuses in a trace. */
  ghost predicate SeesInt(views: seq<View>, key: string, n: int) {
    exists i :: 0 <= i < |views| && HasInt(views[i], key, n)
  }

  predicate HasInt(v: View, key: string, n: int) {
    (key in v.resource && v.resource[key].AsInt() == n) || (key in v.attrs && v.attrs[key].AsInt() == n)
  }

  ghost predicate SeesBool(views: seq<View>, key: string, b: bool) {
    exists i :: 0 <= i < |views| && HasBool(views[i], key, b)
  }

  predicate HasBool(v: View, key: string, b: bool) {
    (key in v.resource && v.resource[key].AsBool() == b) || (key in v.attrs && v.attrs[key].AsBool() == b)
  }

  ghost predicate SeesStr(views: seq<View>, key: string, s: string) {
    exists i :: 0 <= i < |views| && HasStr(views[i], key, s)
  }

  predicate HasStr(v: View, key: string, s: string) {
    (key in v.resource && v.resource[key].AsStr() == s) || (s != "" && key in v.attrs && v.attrs[key].AsStr() == s)
  }

  ghost predicate SeesStatus(views: seq<View>, status: int) {
    exists i :: 0 <= i < |views| && views[i].status == status
  }

  ghost predicate SameObservations(v: seq<View>, w: seq<View>) {
    && (forall key, n :: SeesInt(v, key, n) == SeesInt(w, key, n))
    && (forall key, b :: SeesBool(v, key, b) == SeesBool(w, key, b))
    && (forall key, s :: SeesStr(v, key, s) == SeesStr(w, key, s))
    && (forall status :: 0 <= status <= 2 ==> SeesStatus(v, status) == SeesStatus(w, status))
  }

  /** Span for span the same times and tracestate; flattening always keeps those. */
  ghost predicate Aligned(v: seq<View>, w: seq<View>) {
    |v| == |w| && forall i :: 0 <= i < |v| ==>
      v[i].start == w[i].start && v[i].end == w[i].end && v[i].traceState == w[i].traceState
  }

  lemma NumericObservation(lib: Lib, leaf: Leaf, v: View)
    requires leaf.NumericAttribute?
    ensures ViewHit(lib, leaf, v) <==> exists n :: leaf.min <= n <= leaf.max && HasInt(v, leaf.key, n)
  {
    if leaf.key in v.resource && ValueHit(lib, leaf, v.resource[leaf.key]) {
      assert HasInt(v, leaf.key, v.resource[leaf.key].AsInt());
    }
    if leaf.key in v.attrs && ValueHit(lib, leaf, v.attrs[leaf.key]) {
      assert HasInt(v, leaf.key, v.attrs[leaf.key].AsInt());
    }
  }

  lemma StringObservation(lib: Lib, leaf: Leaf, v: View)
    requires leaf.StringAttribute?
    ensures ViewHit(lib, leaf, v) <==> exists s :: Accepts(lib, leaf.values, leaf.regex, s) && HasStr(v, leaf.key, s)
  {
    if leaf.key in v.resource && ValueHit(lib, leaf, v.resource[leaf.key]) {
      assert HasStr(v, leaf.key, v.resource[leaf.key].AsStr());
    }
    if leaf.key in v.attrs && SpanValueHit(lib, leaf, v.attrs[leaf.key]) {
      assert HasStr(v, leaf.key, v.attrs[leaf.key].AsStr());
    }
  }

  lemma NumericSeen(lib: Lib, leaf: Leaf, views: seq<View>)
    requires leaf.NumericAttribute?
    ensures AnyViewHit(lib, leaf, views) <==> exists n :: leaf.min <= n <= leaf.max && SeesInt(views, leaf.key, n)
  {
    if i :| 0 <= i < |views| && ViewHit(lib, leaf, views[i]) {
      NumericObservation(lib, leaf, views[i]);
      var n :| leaf.min <= n <= leaf.max && HasInt(views[i], leaf.key, n);
      assert SeesInt(views, leaf.key, n);
    }
    if n :| leaf.min <= n <= leaf.max && SeesInt(views, leaf.key, n) {
      var i :| 0 <= i < |views| && HasInt(views[i], leaf.key, n);
      NumericObservation(lib, leaf, views[i]);
    }
  }

  lemma BooleanSeen(lib: Lib, leaf: Leaf, views: seq<View>)
    requires leaf.BooleanAttribute?
    ensures AnyViewHit(lib, leaf, views) <==> SeesBool(views, leaf.key, leaf.value)
  {
    forall i | 0 <= i < |views| ensures ViewHit(lib, leaf, views[i]) <==> HasBool(views[i], leaf.key, leaf.value) {
    }
  }

  lemma StringSeen(lib: Lib, leaf: Leaf, views: seq<View>)
    requires leaf.StringAttribute?
    ensures AnyViewHit(lib, leaf, views) <==>
      exists s :: Accepts(lib, leaf.values, leaf.regex, s) && SeesStr(views, leaf.key, s)
  {
    if i :| 0 <= i < |views| && ViewHit(lib, leaf, views[i]) {
      StringObservation(lib, leaf, views[i]);
      var s :| Accepts(lib, leaf.values, leaf.regex, s) && HasStr(views[i], leaf.key, s);
      assert SeesStr(views, leaf.key, s);
    }
    if s :| Accepts(lib, leaf.values, leaf.regex, s) && SeesStr(views, leaf.key, s) {
      var i :| 0 <= i < |views| && HasStr(views[i], leaf.key, s);
      StringObservation(lib, leaf, views[i]);
    }
  }

  /** An attribute filter learns no more than the observations under its key. */
  lemma AttributeHitIsObservation(lib: Lib, leaf: Leaf, views: seq<View>)
    requires IsAttributeLeaf(leaf)
    ensures leaf.NumericAttribute? ==>
      (AnyViewHit(lib, leaf, views) <==> exists n :: leaf.min <= n <= leaf.max && SeesInt(views, leaf.key, n))
    ensures leaf.BooleanAttribute? ==> (AnyViewHit(lib, leaf, views) <==> SeesBool(views, leaf.key, leaf.value))
    ensures leaf.StringAttribute? ==>
      (AnyViewHit(lib, leaf, views) <==>
          exists s :: Accepts(lib, leaf.values, leaf.regex, s) && SeesStr(views, leaf.key, s))
  {
    match leaf {
      case NumericAttribute(_, _, _, _) => NumericSeen(lib, leaf, views);
      case BooleanAttribute(_, _, _) => BooleanSeen(lib, leaf, views);
      case StringAttribute(_, _, _, _) => StringSeen(lib, leaf, views);
    }
  }

  lemma {:induction false} LatencyReadsTimes(thr: int, upper: int, v: seq<View>, w: seq<View>)
    requires Aligned(v, w)
    ensures LatencyFold(thr, upper, v) == LatencyFold(thr, upper, w)
  {
    if v != [] {
      LatencyReadsTimes(thr, upper, v[..|v| - 1], w[..|w| - 1]);
    }
  }

  lemma SameObservationsSameLeaf(lib: Lib, leaf: Leaf, id: TraceId, v: seq<View>, w: seq<View>)
    requires Aligned(v, w) && SameObservations(v, w) && LeafWithoutOTTL(leaf)
    ensures LeafOutcome(lib, leaf, id, v) == LeafOutcome(lib, leaf, id, w)
  {
    if IsAttributeLeaf(leaf) {
      AttributeHitIsObservation(lib, leaf, v);
      AttributeHitIsObservation(lib, leaf, w);
    } else if leaf.Latency? {
      LatencyReadsTimes(leaf.thresholdMs, leaf.upperThresholdMs, v, w);
    } else if leaf.StatusCode? {
      StatusIsObservation(leaf.codes, v, w);
      StatusIsObservation(leaf.codes, w, v);
    }
  }

  lemma StatusIsObservation(codes: seq<string>, v: seq<View>, w: seq<View>)
    requires SameObservations(v, w) || SameObservations(w, v)
    ensures (exists i :: 0 <= i < |v| && StatusListed(codes, v[i].status)) ==>
      exists i :: 0 <= i < |w| && StatusListed(codes, w[i].status)
  {
    if i :| 0 <= i < |v| && StatusListed(codes, v[i].status) {
      var status := v[i].status;
      assert SeesStatus(v, status);
      assert 0 <= status <= 2;
      assert SeesStatus(w, status);
      var j :| 0 <= j < |w| && w[j].status == status;
    }
  }

  lemma {:induction false} SameObservationsSameAnd(lib: Lib, subs: seq<SubPolicy>, id: TraceId, v: seq<View>,
      w: seq<View>)
    requires Aligned(v, w) && SameObservations(v, w) && SpecWithoutOTTL(And(subs))
    ensures AndOutcome(lib, subs, id, v) == AndOutcome(lib, subs, id, w)
  {
    if subs != [] {
      SameObservationsSameLeaf(lib, subs[0].leaf, id, v, w);
      SameObservationsSameAnd(lib, subs[1..], id, v, w);
    }
  }

  lemma {:induction false} SameObservationsSameResults(lib: Lib, policies: seq<PolicyCfg>, id: TraceId,
      v: seq<View>, w: seq<View>)
    requires Aligned(v, w) && SameObservations(v, w)
    requires forall i :: 0 <= i < |policies| ==> SpecWithoutOTTL(policies[i].spec)
    ensures Results(lib, policies, id, v) == Results(lib, policies, id, w)
  {
    if policies != [] {
      var n := |policies| - 1;
      SameObservationsSameResults(lib, policies[..n], id, v, w);
      assert SpecWithoutOTTL(policies[n].spec);
      match policies[n].spec {
        case One(leaf) => SameObservationsSameLeaf(lib, leaf, id, v, w);
        case And(subs) => SameObservationsSameAnd(lib, subs, id, v, w);
      }
    }
  }

  /** No policy tells the two apart. */
  ghost predicate Indistinguishable(id: TraceId, v: seq<View>, w: seq<View>) {
    forall lib: Lib, cfg: Config :: WithoutOTTL(cfg) ==> Evaluation(lib, cfg, id, v) == Evaluation(lib, cfg, id, w)
  }

  function Alone(leaf: Leaf): Config {
    Config(1, [PolicyCfg("probe", One(leaf))])
  }

  lemma AloneIsTheLeaf(lib: Lib, leaf: Leaf, id: TraceId, views: seq<View>)
    requires IsAttributeLeaf(leaf) || leaf.StatusCode?
    ensures LeafWithoutOTTL(leaf) ==> WithoutOTTL(Alone(leaf))
    ensures Evaluation(lib, Alone(leaf), id, views).Some?
    ensures Evaluation(lib, Alone(leaf), id, views).value.decision.Keep? == LeafOutcome(lib, leaf, id, views).value
  {
    var policies := Alone(leaf).policies;
    var init := policies[..|policies| - 1];
    assert init == [];
    assert Results(lib, init, id, views) == Some([]);
    var b := LeafOutcome(lib, leaf, id, views).value;
    assert Outcome(lib, policies[0].spec, id, views) == Some(b);
    assert [] + [PolicyResult("probe", b)] == [PolicyResult("probe", b)];
    assert Results(lib, policies, id, views) == Some([PolicyResult("probe", b)]);
    assert AnyMatched([PolicyResult("probe", b)]) == b by {
      assert [PolicyResult("probe", b)][0].matched == b;
    }
  }

  /** A regex library whose every pattern matches the text equal to it. */
  function LiteralLib(): Lib {
    Lib(p => true, (p, text) => p == text, (raw, key) => None, (salt, id) => 0, r => 0, c => false, (c, views) => None,
        v => "")
  }

  function Probe(status: int): Leaf {
    StatusCode([if status == 0 then "UNSET" else if status == 1 then "OK" else "ERROR"])
  }

  lemma ProbesSee(id: TraceId, views: seq<View>, key: string, n: int, b: bool, s: string, status: int)
    requires 0 <= status <= 2
    ensures LeafOutcome(LiteralLib(), NumericAttribute(key, n, n, false), id, views) == Some(SeesInt(views, key, n))
    ensures LeafOutcome(LiteralLib(), BooleanAttribute(key, b, false), id, views) == Some(SeesBool(views, key, b))
    ensures LeafOutcome(LiteralLib(), StringAttribute(key, [s], true, false), id, views) == Some(SeesStr(views, key, s))
    ensures LeafOutcome(LiteralLib(), Probe(status), id, views) == Some(SeesStatus(views, status))
  {
    var lib := LiteralLib();
    NumericSeen(lib, NumericAttribute(key, n, n, false), views);
    BooleanSeen(lib, BooleanAttribute(key, b, false), views);
    StringSeen(lib, StringAttribute(key, [s], true, false), views);
    assert forall t: string :: Accepts(lib, [s], true, t) <==> t == s by {
      assert s in [s];
    }
    var codes := Probe(status).codes;
    assert codes[0] in codes;
    assert forall c :: StatusListed(codes, c) <==> c == status;
  }

  /** Policies can tell two aligned traces apart exactly when the observations differ. */
  lemma ObservationsDecide(id: TraceId, v: seq<View>, w: seq<View>)
    requires Aligned(v, w)
    ensures Indistinguishable(id, v, w) <==> SameObservations(v, w)
  {
    if SameObservations(v, w) {
      forall lib: Lib, cfg: Config | WithoutOTTL(cfg)
        ensures Evaluation(lib, cfg, id, v) == Evaluation(lib, cfg, id, w)
      {
        SameObservationsSameResults(lib, cfg.policies, id, v, w);
      }
    }
    if Indistinguishable(id, v, w) {
      forall key: string, n: int ensures SeesInt(v, key, n) == SeesInt(w, key, n) {
        ProbesAgree(id, v, w, key, n, false, "", 0);
      }
      forall key: string, b: bool ensures SeesBool(v, key, b) == SeesBool(w, key, b) {
        ProbesAgree(id, v, w, key, 0, b, "", 0);
      }
      forall key: string, s: string ensures SeesStr(v, key, s) == SeesStr(w, key, s) {
        ProbesAgree(id, v, w, key, 0, false, s, 0);
      }
      forall status | 0 <= status <= 2 ensures SeesStatus(v, status) == SeesStatus(w, status) {
        ProbesAgree(id, v, w, "", 0, false, "", status);
      }
    }
  }

  lemma ProbesAgree(id: TraceId, v: seq<View>, w: seq<View>, key: string, n: int, b: bool, s: string, status: int)
    requires Indistinguishable(id, v, w) && 0 <= status <= 2
    ensures SeesInt(v, key, n) == SeesInt(w, key, n) && SeesBool(v, key, b) == SeesBool(w, key, b)
    ensures SeesStr(v, key, s) == SeesStr(w, key, s) && SeesStatus(v, status) == SeesStatus(w, status)
  {
    ProbesSee(id, v, key, n, b, s, status);
    ProbesSee(id, w, key, n, b, s, status);
    ProbeAgrees(id, v, w, NumericAttribute(key, n, n, false));
    ProbeAgrees(id, v, w, BooleanAttribute(key, b, false));
    ProbeAgrees(id, v, w, StringAttribute(key, [s], true, false));
    ProbeAgrees(id, v, w, Probe(status));
  }

  lemma ProbeAgrees(id: TraceId, v: seq<View>, w: seq<View>, leaf: Leaf)
    requires Indistinguishable(id, v, w) && (IsAttributeLeaf(leaf) || leaf.StatusCode?)
    ensures LeafOutcome(LiteralLib(), leaf, id, v) == LeafOutcome(LiteralLib(), leaf, id, w)
  {
    AloneIsTheLeaf(LiteralLib(), leaf, id, v);
    AloneIsTheLeaf(LiteralLib(), leaf, id, w);
    assert Evaluation(LiteralLib(), Alone(leaf), id, v) == Evaluation(LiteralLib(), Alone(leaf), id, w);
  }

  /**
   * The exact condition for fidelity, over all policies and libraries: the last entries
   * under each key and the three known statuses show what the first entries and the raw
   * statuses showed. It reads the batches only.
   */
  lemma FidelityExactly(td: Traces, id: TraceId)
    ensures (forall lib: Lib, cfg: Config :: WithoutOTTL(cfg) ==>
              EvalStored(lib, cfg, id, SpansOf(lib, Flatten(td), id)) ==
                EvaluationOnPdata(lib, cfg, id, Restrict(td, id)))
        <==> SameObservations(FlattenedViews(PairsOf(Flatten(td), id)), ViewSeq(PairsOf(Flatten(td), id)))
  {
    var pairs := PairsOf(Flatten(td), id);
    RestrictFlattens(td, id);
    ObservationsDecide(id, FlattenedViews(pairs), ViewSeq(pairs));
    forall lib: Lib, cfg: Config
      ensures EvalStored(lib, cfg, id, SpansOf(lib, Flatten(td), id)) == Evaluation(lib, cfg, id, FlattenedViews(pairs))
      ensures EvaluationOnPdata(lib, cfg, id, Restrict(td, id)) == Evaluation(lib, cfg, id, ViewSeq(pairs))
    {
      StoredViewsOfBatches(lib, td, id);
      EvaluationScansViews(lib, cfg, id, Restrict(td, id));
    }
  }
}
