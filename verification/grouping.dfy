/**
 * Regrouping one span per ResourceSpans: when it is harmless, and inputs on
 * which flattening or regrouping changes a decision.
 */
module Grouping {
  import opened Wrappers
  import opened Pdata
  import opened Policies
  import opened Assembler
  import opened PolicyEngine
  import opened Fidelity

  function Single(p: (Attrs, Span)): ResourceSpans {
    ResourceSpans(p.0, [ScopeSpans([p.1])])
  }

  function RegroupPairs(s: seq<(Attrs, Span)>): Traces {
    if s == [] then [] else RegroupPairs(s[..|s| - 1]) + [Single(s[|s| - 1])]
  }

  /** The grouping the engine rebuilds: each span alone under a copy of its resource. */
  function Regroup(td: Traces): Traces {
    RegroupPairs(Flatten(td))
  }

  lemma SingleFlattens(td: Traces, p: (Attrs, Span))
    ensures ScopesSpans(Single(p).scopes) == [p.1]
    ensures Flatten(td + [Single(p)]) == Flatten(td) + [p]
    ensures NoEmptyResource(td) ==> NoEmptyResource(td + [Single(p)])
  {
    assert Single(p).scopes[..0] == [];
    assert (td + [Single(p)])[..|td|] == td;
  }

  lemma {:induction false} RegroupFlattens(s: seq<(Attrs, Span)>)
    ensures Flatten(RegroupPairs(s)) == s && NoEmptyResource(RegroupPairs(s))
  {
    if s != [] {
      var n := |s| - 1;
      RegroupFlattens(s[..n]);
      SingleFlattens(RegroupPairs(s[..n]), s[n]);
      assert s == s[..n] + [s[n]];
      assert RegroupPairs(s) == RegroupPairs(s[..n]) + [Single(s[n])];
    }
  }

  ghost predicate EmptyGroupsRepeated(td: Traces) {
    forall i :: 0 <= i < |td| && ScopesSpans(td[i].scopes) == [] ==>
      exists j :: 0 <= j < |td| && ScopesSpans(td[j].scopes) != [] && td[j].resource == td[i].resource
  }

  /**
   * Regrouping keeps what every conceivable test of a resource or a span finds, exactly when the
   * resource of every ResourceSpans without spans also occurs on one with spans.
   */
  lemma RegroupingExactly(td: Traces)
    ensures (forall resource: Attrs -> bool,
        span: Span -> bool :: ScanAny(td, resource, span) == ScanAny(Regroup(td), resource, span))
        <==> EmptyGroupsRepeated(td)
  {
    RegroupFlattens(Flatten(td));
    if EmptyGroupsRepeated(td) {
      forall resource: Attrs -> bool, span: Span -> bool
        ensures ScanAny(td, resource, span) == ScanAny(Regroup(td), resource, span)
      {
        ScanIsFlatScan(Regroup(td), resource, span);
        RepeatedIsFlatScan(td, resource, span);
      }
    }
    if forall resource: Attrs -> bool, span: Span -> bool ::
      ScanAny(td, resource, span) == ScanAny(Regroup(td), resource, span) {
      forall i | 0 <= i < |td| && ScopesSpans(td[i].scopes) == []
        ensures exists j :: 0 <= j < |td| && ScopesSpans(td[j].scopes) != [] && td[j].resource == td[i].resource
      {
        MustRepeat(td, i);
      }
    }
  }

  lemma FoundFlat(td: Traces, resource: Attrs -> bool, span: Span -> bool)
    requires ScanAny(td, resource, span) && ScanAny(td, resource, span) == ScanAny(Regroup(td), resource, span)
    ensures AnyPair(Flatten(td), resource, span)
  {
    RegroupFlattens(Flatten(td));
    ScanIsFlatScan(Regroup(td), resource, span);
  }

  /** The resource of a group, looked for by a test for nothing else. */
  lemma MustRepeat(td: Traces, i: nat)
    requires i < |td| && forall resource: Attrs -> bool, span: Span -> bool ::
      ScanAny(td, resource, span) == ScanAny(Regroup(td), resource, span)
    ensures exists j :: 0 <= j < |td| && ScopesSpans(td[j].scopes) != [] && td[j].resource == td[i].resource
  {
    var resource := (a: Attrs) => a == td[i].resource;
    var span := (s: Span) => false;
    assert resource(td[i].resource);
    FoundFlat(td, resource, span);
    var k :| 0 <= k < |Flatten(td)| && (resource(Flatten(td)[k].0) || span(Flatten(td)[k].1));
    var j, l := SourceOf(td, k);
    assert td[j].resource == td[i].resource;
  }

  lemma RepeatedIsFlatScan(td: Traces, resource: Attrs -> bool, span: Span -> bool)
    requires EmptyGroupsRepeated(td)
    ensures ScanAny(td, resource, span) == AnyPair(Flatten(td), resource, span)
  {
    if ScanAny(td, resource, span) {
      var i :| 0 <= i < |td| && (resource(td[i].resource) || AnySpan(ScopesSpans(td[i].scopes), span));
      var h, j := i, 0;
      if !resource(td[i].resource) {
        j :| 0 <= j < |ScopesSpans(td[i].scopes)| && span(ScopesSpans(td[i].scopes)[j]);
      } else if ScopesSpans(td[i].scopes) == [] {
        h :| 0 <= h < |td| && ScopesSpans(td[h].scopes) != [] && td[h].resource == td[i].resource;
      }
      var k := PlaceOf(td, h, j);
    }
    if AnyPair(Flatten(td), resource, span) {
      var k :| 0 <= k < |Flatten(td)| && (resource(Flatten(td)[k].0) || span(Flatten(td)[k].1));
      var i, j := SourceOf(td, k);
    }
  }

  // ---- regrouping and decisions ----

  /** What policies can find out about one value is also to be found in the views under its key. */
  ghost predicate ValueSeen(views: seq<View>, key: string, v: Value) {
    SeesInt(views, key, v.AsInt()) && SeesBool(views, key, v.AsBool()) && SeesStr(views, key, v.AsStr())
  }

  ghost predicate ResourceSeen(views: seq<View>, a: Attrs) {
    forall key :: Get(a, key).Some? ==> ValueSeen(views, key, Get(a, key).value)
  }

  /** Whatever a ResourceSpans without spans shows under a key, some span or its resource shows too. */
  ghost predicate EmptyGroupsSeen(td: Traces) {
    forall i :: 0 <= i < |td| && ScopesSpans(td[i].scopes) == [] ==> ResourceSeen(Views(td), td[i].resource)
  }

  lemma SeenIsHit(lib: Lib, leaf: Leaf, views: seq<View>, v: Value)
    requires IsAttributeLeaf(leaf) && ValueSeen(views, leaf.key, v) && ValueHit(lib, leaf, v)
    ensures AnyViewHit(lib, leaf, views)
  {
    AttributeHitIsObservation(lib, leaf, views);
  }

  /** The flat list finds what the groups find, up to resources of empty groups. */
  lemma ScanWithEmpties(lib: Lib, leaf: Leaf, td: Traces)
    requires IsAttributeLeaf(leaf)
    ensures AttributeScan(lib, leaf, td) <==>
      AnyViewHit(lib, leaf, Views(td)) ||
        exists i :: 0 <= i < |td| && ScopesSpans(td[i].scopes) == [] && ResourceHit(lib, leaf, td[i].resource)
  {
    RegroupFlattens(Flatten(td));
    ScanIsViewScan(lib, leaf, Regroup(td));
    var resource, span := ResourceTest(lib, leaf), SpanTest(lib, leaf);
    ScanIsFlatScan(Regroup(td), resource, span);
    if AttributeScan(lib, leaf, td) {
      var i :| 0 <= i < |td| && (resource(td[i].resource) || AnySpan(ScopesSpans(td[i].scopes), span));
      if ScopesSpans(td[i].scopes) != [] {
        var j := 0;
        if !resource(td[i].resource) {
          j :| 0 <= j < |ScopesSpans(td[i].scopes)| && span(ScopesSpans(td[i].scopes)[j]);
        }
        var k := PlaceOf(td, i, j);
      }
    }
    if AnyPair(Flatten(td), resource, span) {
      var k :| 0 <= k < |Flatten(td)| && (resource(Flatten(td)[k].0) || span(Flatten(td)[k].1));
      var i, j := SourceOf(td, k);
    }
    if i :| 0 <= i < |td| && ScopesSpans(td[i].scopes) == [] && ResourceHit(lib, leaf, td[i].resource) {
      assert resource(td[i].resource);
    }
  }

  lemma SeenScansAsViews(lib: Lib, td: Traces)
    requires EmptyGroupsSeen(td)
    ensures ScansAsViews(lib, td)
  {
    forall leaf | IsAttributeLeaf(leaf) ensures AttributeScan(lib, leaf, td) == AnyViewHit(lib, leaf, Views(td)) {
      ScanWithEmpties(lib, leaf, td);
      if i :| 0 <= i < |td| && ScopesSpans(td[i].scopes) == [] && ResourceHit(lib, leaf, td[i].resource) {
        assert ResourceSeen(Views(td), td[i].resource);
        SeenIsHit(lib, leaf, Views(td), Get(td[i].resource, leaf.key).value);
      }
    }
  }

  lemma RegroupedEvaluation(lib: Lib, cfg: Config, id: TraceId, td: Traces)
    ensures EvaluationOnPdata(lib, cfg, id, Regroup(td)) == Evaluation(lib, cfg, id, Views(td))
  {
    RegroupFlattens(Flatten(td));
    EvaluationScansViews(lib, cfg, id, Regroup(td));
  }

  lemma AloneOnPdata(lib: Lib, leaf: Leaf, id: TraceId, td: Traces)
    requires IsAttributeLeaf(leaf)
    ensures Decides(EvaluationOnPdata(lib, Alone(leaf), id, td),
        if AttributeScan(lib, leaf, td) != leaf.invert then Keep else Drop)
  {
    var policies := Alone(leaf).policies;
    var b := AttributeScan(lib, leaf, td) != leaf.invert;
    assert policies[..|policies| - 1] == [];
    assert OnPdata(lib, policies[0].spec, id, td) == Some(b);
    assert [] + [PolicyResult("probe", b)] == [PolicyResult("probe", b)];
    assert ResultsOnPdata(lib, policies, id, td) == Some([PolicyResult("probe", b)]);
    assert AnyMatched([PolicyResult("probe", b)]) == b by {
      assert [PolicyResult("probe", b)][0].matched == b;
    }
  }

  /** Regrouping changes no OTTL-free evaluation. */
  ghost predicate RegroupingKeeps(td: Traces, id: TraceId) {
    forall lib: Lib, cfg: Config :: WithoutOTTL(cfg) ==>
      EvaluationOnPdata(lib, cfg, id, td) == EvaluationOnPdata(lib, cfg, id, Regroup(td))
  }

  /** A policy on one attribute that hits the resource of an empty group hits some view as well. */
  lemma EmptyHitIsSeen(td: Traces, id: TraceId, i: nat, leaf: Leaf)
    requires RegroupingKeeps(td, id) && i < |td| && ScopesSpans(td[i].scopes) == []
    requires IsAttributeLeaf(leaf) && !leaf.invert && ResourceHit(LiteralLib(), leaf, td[i].resource)
    ensures LeafOutcome(LiteralLib(), leaf, id, Views(td)) == Some(true)
  {
    var lib := LiteralLib();
    ScanWithEmpties(lib, leaf, td);
    AloneOnPdata(lib, leaf, id, td);
    AloneIsTheLeaf(lib, leaf, id, Views(td));
    RegroupedEvaluation(lib, Alone(leaf), id, td);
    assert EvaluationOnPdata(lib, Alone(leaf), id, td) == EvaluationOnPdata(lib, Alone(leaf), id, Regroup(td));
  }

  lemma KeptIsSeen(td: Traces, id: TraceId, i: nat, key: string)
    requires RegroupingKeeps(td, id) && i < |td| && ScopesSpans(td[i].scopes) == [] && Get(td[i].resource, key).Some?
    ensures ValueSeen(Views(td), key, Get(td[i].resource, key).value)
  {
    var v := Get(td[i].resource, key).value;
    ProbesSee(id, Views(td), key, v.AsInt(), v.AsBool(), v.AsStr(), 0);
    assert v.AsStr() in [v.AsStr()];
    EmptyHitIsSeen(td, id, i, NumericAttribute(key, v.AsInt(), v.AsInt(), false));
    EmptyHitIsSeen(td, id, i, BooleanAttribute(key, v.AsBool(), false));
    EmptyHitIsSeen(td, id, i, StringAttribute(key, [v.AsStr()], true, false));
  }

  /**
   * The comment on rehydrateTraceData says that grouping never changes the Decision. Over all
   * libraries and OTTL-free policies that is so exactly when every integer, boolean and string
   * that the resource of an empty ResourceSpans shows under a key is also shown by the spans.
   */
  lemma RegroupingDecidesExactly(td: Traces, id: TraceId)
    ensures RegroupingKeeps(td, id) <==> EmptyGroupsSeen(td)
  {
    if EmptyGroupsSeen(td) {
      forall lib: Lib, cfg: Config | WithoutOTTL(cfg)
        ensures EvaluationOnPdata(lib, cfg, id, td) == EvaluationOnPdata(lib, cfg, id, Regroup(td))
      {
        SeenScansAsViews(lib, td);
        ResultsScanViews(lib, cfg.policies, id, td);
        RegroupedEvaluation(lib, cfg, id, td);
      }
    }
    if RegroupingKeeps(td, id) {
      forall i | 0 <= i < |td| && ScopesSpans(td[i].scopes) == [] ensures ResourceSeen(Views(td), td[i].resource) {
        forall key | Get(td[i].resource, key).Some? ensures ValueSeen(Views(td), key, Get(td[i].resource, key).value) {
          KeptIsSeen(td, id, i, key);
        }
      }
    }
  }

  // ---- inputs on which the preview differs ----

  function SpanWith(id: TraceId, status: int, attrs: Attrs): Span {
    Span(id, 1, 0, "handle", 2, 1, 2, status, "", "", attrs, 0, 0)
  }

  function OneGroup(resource: Attrs, spans: seq<Span>): Traces {
    [ResourceSpans(resource, [ScopeSpans(spans)])]
  }

  lemma OneSpanPairs(id: TraceId, resource: Attrs, s: Span)
    requires s.traceId == id
    ensures PairsOf(Flatten(OneGroup(resource, [s])), id) == [(resource, s)]
  {
    var td := OneGroup(resource, [s]);
    assert td[..0] == [] && td[0].scopes[..0] == [];
    assert ScopesSpans(td[0].scopes) == [s];
    assert Flatten(td) == [(resource, s)];
    assert Flatten(td)[..0] == [];
  }

  ghost predicate Decides(r: Option<EvalResult>, d: Decision) {
    r.Some? && r.value.decision == d
  }

  const UNKNOWN_STATUS := SpanWith(7, 3, [])
  const UNSET_POLICY := StatusCode(["UNSET"])

  /** A status code OTLP does not define is stored as unset: a policy on UNSET then keeps the trace. */
  lemma UnknownStatusExample(lib: Lib)
    ensures var td := OneGroup([], [UNKNOWN_STATUS]);
      && Decides(EvaluationOnPdata(lib, Alone(UNSET_POLICY), 7, Restrict(td, 7)), Drop)
      && Decides(EvalStored(lib, Alone(UNSET_POLICY), 7, SpansOf(lib, Flatten(td), 7)), Keep)
  {
    var p := ([], UNKNOWN_STATUS);
    DecisionsOfOne(lib, UNSET_POLICY, 7, p);
    assert "UNSET" in UNSET_POLICY.codes;
    assert StatusListed(UNSET_POLICY.codes, FlattenedViews([p])[0].status);
    assert !StatusListed(UNSET_POLICY.codes, ViewSeq([p])[0].status);
  }

  const REPEATED_KEY := SpanWith(7, 0, [("retries", Int(1)), ("retries", Int(9))])
  const RETRIES_POLICY := NumericAttribute("retries", 5, 10, false)

  /** Of a repeated key the filters read the first entry and the stored span keeps the last. */
  lemma RepeatedKeyExample(lib: Lib)
    ensures var td := OneGroup([], [REPEATED_KEY]);
      && Decides(EvaluationOnPdata(lib, Alone(RETRIES_POLICY), 7, Restrict(td, 7)), Drop)
      && Decides(EvalStored(lib, Alone(RETRIES_POLICY), 7, SpansOf(lib, Flatten(td), 7)), Keep)
  {
    var p := ([], REPEATED_KEY);
    DecisionsOfOne(lib, RETRIES_POLICY, 7, p);
    assert FirstMap(REPEATED_KEY.attrs)["retries"] == Int(1);
    assert LastMap(REPEATED_KEY.attrs)["retries"] == Int(9);
    assert ViewHit(lib, RETRIES_POLICY, FlattenedViews([p])[0]);
    assert !ViewHit(lib, RETRIES_POLICY, ViewSeq([p])[0]);
  }

  lemma OneBatchDecision(lib: Lib, leaf: Leaf, id: TraceId, td: Traces, p: (Attrs, Span))
    requires (IsAttributeLeaf(leaf) || leaf.StatusCode?) && PairsOf(Flatten(td), id) == [p]
    ensures Decides(EvaluationOnPdata(lib, Alone(leaf), id, Restrict(td, id)),
                    if LeafOutcome(lib, leaf, id, ViewSeq([p])) == Some(true) then Keep else Drop)
  {
    RestrictFlattens(td, id);
    EvaluationScansViews(lib, Alone(leaf), id, Restrict(td, id));
    AloneIsTheLeaf(lib, leaf, id, ViewSeq([p]));
  }

  lemma DecisionsOfOne(lib: Lib, leaf: Leaf, id: TraceId, p: (Attrs, Span))
    requires (IsAttributeLeaf(leaf) || leaf.StatusCode?) && p.1.traceId == id
    ensures var td := OneGroup(p.0, [p.1]);
      && Decides(EvaluationOnPdata(lib, Alone(leaf), id, Restrict(td, id)),
                 if LeafOutcome(lib, leaf, id, ViewSeq([p])) == Some(true) then Keep else Drop)
      && Decides(EvalStored(lib, Alone(leaf), id, SpansOf(lib, Flatten(td), id)),
                 if LeafOutcome(lib, leaf, id, FlattenedViews([p])) == Some(true) then Keep else Drop)
  {
    var td := OneGroup(p.0, [p.1]);
    OneSpanPairs(id, p.0, p.1);
    OneBatchDecision(lib, leaf, id, td, p);
    StoredViewsOfBatches(lib, td, id);
    AloneIsTheLeaf(lib, leaf, id, FlattenedViews([p]));
  }

  const CANARY := BooleanAttribute("canary", true, false)

  /** A matching resource without spans decides for KEEP in the batch, and is lost by regrouping. */
  lemma EmptyGroupExample(lib: Lib, id: TraceId)
    ensures var td := OneGroup([("canary", Bool(true))], []);
      && Decides(EvaluationOnPdata(lib, Alone(CANARY), id, td), Keep)
      && Decides(EvaluationOnPdata(lib, Alone(CANARY), id, Regroup(td)), Drop)
  {
    var td := OneGroup([("canary", Bool(true))], []);
    assert ResourceTest(lib, CANARY)(td[0].resource);
    assert td[..0] == [] && td[0].scopes[..0] == [];
    assert ScopesSpans(td[0].scopes) == [];
    assert Flatten(td) == [];
    AloneOnPdata(lib, CANARY, id, td);
    AloneOnPdata(lib, CANARY, id, Regroup(td));
  }
}
