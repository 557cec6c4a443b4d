/** What each policy says of the stored spans themselves, and that the engine says just that. */
module PolicyMeaning {
  import opened Wrappers
  import opened Pdata
  import opened Policies
  import opened TraceTypes
  import opened Assembler
  import opened PolicyEngine
  import opened PolicyAlgebra
  import opened Fidelity
  import opened LatencyPolicy
  import opened ServerSpec

  // ---- what a stored span shows ----

  /** The span's resource has v under the key. */
  predicate OnResource(f: FlatSpan, key: string, v: Value) {
    "resource." + key in f.attributes && f.attributes["resource." + key] == v
  }

  predicate OnSpan(f: FlatSpan, key: string, v: Value) {
    "attributes." + key in f.attributes && f.attributes["attributes." + key] == v
  }

  predicate Carries(f: FlatSpan, key: string, v: Value) {
    OnResource(f, key, v) || OnSpan(f, key, v)
  }

  /** A number in the range; what is no integer counts as 0. */
  ghost predicate CarriesNumber(f: FlatSpan, key: string, min: int, max: int) {
    exists v :: Carries(f, key, v) && min <= (if v.Int? then v.i else 0) <= max
  }

  /** The truth value; what is no boolean counts as false. */
  ghost predicate CarriesTruth(f: FlatSpan, key: string, value: bool) {
    exists v :: Carries(f, key, v) && (v.Bool? && v.b) == value
  }

  /** One of the texts, and not an empty one. */
  ghost predicate CarriesText(f: FlatSpan, key: string, values: seq<string>) {
    exists s :: Carries(f, key, Str(s)) && s in values && s != ""
  }

  function TextOf(v: Value): string {
    if v.Str? then v.s else ""
  }

  /** A text that some pattern matches; on the span itself, unlike on its resource, no empty one. */
  ghost predicate CarriesPattern(lib: Lib, f: FlatSpan, key: string, patterns: seq<string>) {
    || (exists v, p :: OnResource(f, key, v) && p in patterns && lib.regexMatch(p, TextOf(v)))
    || (exists v, p :: OnSpan(f, key, v) && p in patterns && lib.regexMatch(p, TextOf(v)) && TextOf(v) != "")
  }

  predicate StatusNamed(k: StatusKind, names: seq<string>) {
    match k
    case StatusUnset => "UNSET" in names
    case StatusOK => "OK" in names
    case StatusError => "ERROR" in names
  }

  /**
   * Measured over some of the first spans, the trace takes longer than the one bound and, if there is
   * another, no longer than that.
   */
  ghost predicate TakesBetween(spans: seq<FlatSpan>, thresholdMs: int, upperThresholdMs: int) {
    exists n :: 1 <= n <= |spans| && var ms := Milliseconds(Measured(StoredViews(spans), n));
      ms > thresholdMs && (upperThresholdMs != 0 ==> ms <= upperThresholdMs)
  }

  /** The tracestate has a listed, non-empty value whose entry is not longer than 256 characters. */
  predicate EntryListed(lib: Lib, raw: string, key: string, values: seq<string>) {
    var got := lib.traceStateGet(raw, key);
    got.Some? && got.value != "" && got.value in values && |key + "=" + got.value| <= 256
  }

  // ---- what policies mean ----

  ghost predicate Matches(lib: Lib, leaf: Leaf, id: TraceId, spans: seq<FlatSpan>) {
    match leaf
    case AlwaysSample => true
    case Latency(thr, upper) => TakesBetween(spans, thr, upper)
    case StatusCode(codes) => exists i :: 0 <= i < |spans| && StatusNamed(spans[i].statusCode, codes)
    case NumericAttribute(key, min, max, invert) =>
      (exists i :: 0 <= i < |spans| && CarriesNumber(spans[i], key, min, max)) != invert
    case StringAttribute(key, values, regex, invert) =>
      (exists i :: 0 <= i < |spans| &&
          if regex then CarriesPattern(lib, spans[i], key, values) else CarriesText(spans[i], key, values)) != invert
    case BooleanAttribute(key, value, invert) =>
      (exists i :: 0 <= i < |spans| && CarriesTruth(spans[i], key, value)) != invert
    case SpanCount(lo, hi) => |spans| >= lo && (hi != 0 ==> |spans| <= hi)
    case TraceState(key, values) =>
      exists i :: 0 <= i < |spans| && EntryListed(lib, spans[i].traceStateRaw, key, values)
    case Probabilistic(salt, p) =>
      lib.hash(if salt == "" then "default-hash-seed" else salt, id) <= lib.threshold(p / 100.0)
    case OTTLCondition(c) => var r := lib.ottl(c, StoredViews(spans)); r.Some? && r.value
    case Unbuildable => false
  }

  predicate Fails(lib: Lib, leaf: Leaf, spans: seq<FlatSpan>) {
    leaf.Unbuildable? || (leaf.OTTLCondition? && lib.ottl(leaf.condition, StoredViews(spans)).None?)
  }

  ghost predicate SpecMatches(lib: Lib, spec: Spec, id: TraceId, spans: seq<FlatSpan>) {
    match spec
    case One(leaf) => Matches(lib, leaf, id, spans)
    case And(subs) => forall i :: 0 <= i < |subs| ==> Matches(lib, subs[i].leaf, id, spans)
  }

  /** A conjunction fails when a sub-policy does that all before it lead up to. */
  ghost predicate SpecFails(lib: Lib, spec: Spec, id: TraceId, spans: seq<FlatSpan>) {
    match spec
    case One(leaf) => Fails(lib, leaf, spans)
    case And(subs) =>
      exists j :: 0 <= j < |subs| && Fails(lib, subs[j].leaf, spans) &&
        forall i :: 0 <= i < j ==> Matches(lib, subs[i].leaf, id, spans)
  }

  /**
   * The result lists every policy in order with whether it matched, and is KEEP when one did; no
   * result when one fails.
   */
  ghost predicate Means(lib: Lib, cfg: Config, id: TraceId, spans: seq<FlatSpan>, r: Option<EvalResult>) {
    var ps := cfg.policies;
    && (r.None? <==> exists i :: 0 <= i < |ps| && SpecFails(lib, ps[i].spec, id, spans))
    && (r.Some? ==>
          && |r.value.policies| == |ps|
          && (forall i :: 0 <= i < |ps| ==>
                r.value.policies[i] == PolicyResult(ps[i].name, SpecMatches(lib, ps[i].spec, id, spans)))
          && (r.value.decision == Keep <==> exists i :: 0 <= i < |ps| && SpecMatches(lib, ps[i].spec, id, spans))
          && (r.value.decision == Drop <==> r.value.decision != Keep))
  }

  // ---- leaf by leaf ----

  lemma CarriedOnResource(f: FlatSpan, key: string, v: Value)
    ensures OnResource(f, key, v) <==> key in StoredView(f).resource && StoredView(f).resource[key] == v
  {
    UnprefixLookup(f.attributes, RESOURCE, key);
  }

  lemma CarriedOnSpan(f: FlatSpan, key: string, v: Value)
    ensures OnSpan(f, key, v) <==> key in StoredView(f).attrs && StoredView(f).attrs[key] == v
  {
    UnprefixLookup(f.attributes, ATTRIBUTES, key);
  }

  lemma HitOnResource(lib: Lib, leaf: Leaf, f: FlatSpan)
    requires IsAttributeLeaf(leaf)
    ensures var m := StoredView(f).resource;
      (leaf.key in m && ValueHit(lib, leaf, m[leaf.key])) <==>
        exists v :: OnResource(f, leaf.key, v) && ValueHit(lib, leaf, v)
  {
    UnprefixLookup(f.attributes, RESOURCE, leaf.key);
  }

  lemma HitOnSpan(lib: Lib, leaf: Leaf, f: FlatSpan)
    requires IsAttributeLeaf(leaf)
    ensures var m := StoredView(f).attrs;
      (leaf.key in m && SpanValueHit(lib, leaf, m[leaf.key])) <==>
        exists v :: OnSpan(f, leaf.key, v) && SpanValueHit(lib, leaf, v)
  {
    UnprefixLookup(f.attributes, ATTRIBUTES, leaf.key);
  }

  lemma NumberHit(lib: Lib, leaf: Leaf, f: FlatSpan)
    requires leaf.NumericAttribute?
    ensures ViewHit(lib, leaf, StoredView(f)) <==> CarriesNumber(f, leaf.key, leaf.min, leaf.max)
  {
    HitOnResource(lib, leaf, f);
    HitOnSpan(lib, leaf, f);
  }

  lemma TruthHit(lib: Lib, leaf: Leaf, f: FlatSpan)
    requires leaf.BooleanAttribute?
    ensures ViewHit(lib, leaf, StoredView(f)) <==> CarriesTruth(f, leaf.key, leaf.value)
  {
    HitOnResource(lib, leaf, f);
    HitOnSpan(lib, leaf, f);
  }

  lemma TextHit(lib: Lib, leaf: Leaf, f: FlatSpan)
    requires leaf.StringAttribute? && !leaf.regex
    ensures ViewHit(lib, leaf, StoredView(f)) <==> CarriesText(f, leaf.key, leaf.values)
  {
    HitOnResource(lib, leaf, f);
    HitOnSpan(lib, leaf, f);
    forall v ensures ValueHit(lib, leaf, v) <==> v.Str? && v.s in leaf.values && v.s != "" {
    }
    forall v: Value | v.Str? ensures v == Str(v.s) {
    }
  }

  lemma PatternHit(lib: Lib, leaf: Leaf, f: FlatSpan)
    requires leaf.StringAttribute? && leaf.regex
    ensures ViewHit(lib, leaf, StoredView(f)) <==> CarriesPattern(lib, f, leaf.key, leaf.values)
  {
    HitOnResource(lib, leaf, f);
    HitOnSpan(lib, leaf, f);
    assert forall v: Value :: v.AsStr() == TextOf(v);
  }

  ghost predicate Hits(lib: Lib, leaf: Leaf, f: FlatSpan)
    requires IsAttributeLeaf(leaf)
  {
    match leaf
    case NumericAttribute(key, min, max, _) => CarriesNumber(f, key, min, max)
    case BooleanAttribute(key, value, _) => CarriesTruth(f, key, value)
    case StringAttribute(key, values, regex, _) =>
      if regex then CarriesPattern(lib, f, key, values) else CarriesText(f, key, values)
  }

  lemma AttributeMeaning(lib: Lib, leaf: Leaf, spans: seq<FlatSpan>)
    requires IsAttributeLeaf(leaf)
    ensures AnyViewHit(lib, leaf, StoredViews(spans)) <==> exists i :: 0 <= i < |spans| && Hits(lib, leaf, spans[i])
  {
    forall i | 0 <= i < |spans| ensures ViewHit(lib, leaf, StoredViews(spans)[i]) <==> Hits(lib, leaf, spans[i]) {
      match leaf {
        case NumericAttribute(_, _, _, _) => NumberHit(lib, leaf, spans[i]);
        case BooleanAttribute(_, _, _) => TruthHit(lib, leaf, spans[i]);
        case StringAttribute(_, _, regex, _) =>
          if regex {
            PatternHit(lib, leaf, spans[i]);
          } else {
            TextHit(lib, leaf, spans[i]);
          }
      }
    }
  }

  lemma LatencyMeaning(thr: int, upper: int, spans: seq<FlatSpan>)
    ensures LatencyFold(thr, upper, StoredViews(spans)).Stopped? <==> TakesBetween(spans, thr, upper)
  {
    var views := StoredViews(spans);
    FoldIsSomePrefix(thr, upper, views);
    if n :| 1 <= n <= |views| && InWindow(thr, upper, Measured(views, n)) {
      assert Milliseconds(Measured(views, n)) > thr;
    }
    if n :| 1 <= n <= |spans| && var ms := Milliseconds(Measured(views, n)); ms > thr && (upper != 0 ==> ms <= upper) {
      assert InWindow(thr, upper, Measured(views, n));
    }
  }

  lemma StatusMeaning(codes: seq<string>, spans: seq<FlatSpan>)
    ensures (exists i :: 0 <= i < |spans| && StatusListed(codes, StoredViews(spans)[i].status)) <==>
      exists i :: 0 <= i < |spans| && StatusNamed(spans[i].statusCode, codes)
  {
    forall i | 0 <= i < |spans|
      ensures StatusListed(codes, StoredViews(spans)[i].status) <==> StatusNamed(spans[i].statusCode, codes)
    {
      StatusNames(codes, spans[i].statusCode);
    }
  }

  lemma StatusNames(codes: seq<string>, k: StatusKind)
    ensures StatusListed(codes, ToPtraceStatus(k)) <==> StatusNamed(k, codes)
  {
    var name := match k case StatusUnset => "UNSET" case StatusOK => "OK" case StatusError => "ERROR";
    assert forall c :: StatusCodeOf(c) == Some(ToPtraceStatus(k)) <==> c == name;
  }

  lemma LeafMeaning(lib: Lib, leaf: Leaf, id: TraceId, spans: seq<FlatSpan>)
    ensures LeafOutcome(lib, leaf, id, StoredViews(spans))
         == if Fails(lib, leaf, spans) then None else Some(Matches(lib, leaf, id, spans))
  {
    if IsAttributeLeaf(leaf) {
      AttributeMeaning(lib, leaf, spans);
    } else if leaf.Latency? {
      LatencyMeaning(leaf.thresholdMs, leaf.upperThresholdMs, spans);
    } else if leaf.StatusCode? {
      StatusMeaning(leaf.codes, spans);
    } else if leaf.TraceState? {
      EntryMeaning(lib, leaf.key, leaf.values, spans);
    } else if leaf.Probabilistic? {
      assert Salt(leaf.hashSalt) == if leaf.hashSalt == "" then "default-hash-seed" else leaf.hashSalt;
    }
  }

  lemma EntryMeaning(lib: Lib, key: string, values: seq<string>, spans: seq<FlatSpan>)
    ensures (exists i :: 0 <= i < |spans| && TraceStateHit(lib, key, values, StoredViews(spans)[i].traceState)) <==>
      exists i :: 0 <= i < |spans| && EntryListed(lib, spans[i].traceStateRaw, key, values)
  {
    forall i | 0 <= i < |spans|
      ensures TraceStateHit(lib, key, values, StoredViews(spans)[i].traceState) <==>
        EntryListed(lib, spans[i].traceStateRaw, key, values)
    {
    }
  }

  // ---- the whole configuration ----

  lemma {:induction false} AndMeaning(lib: Lib, subs: seq<SubPolicy>, id: TraceId, spans: seq<FlatSpan>)
    ensures AndOutcome(lib, subs, id, StoredViews(spans)) ==
      if SpecFails(lib, And(subs), id, spans) then None else Some(SpecMatches(lib, And(subs), id, spans))
  {
    if subs != [] {
      var rest := subs[1..];
      LeafMeaning(lib, subs[0].leaf, id, spans);
      AndMeaning(lib, rest, id, spans);
      AndFirst(lib, subs, id, spans);
    }
  }

  lemma AndFirst(lib: Lib, subs: seq<SubPolicy>, id: TraceId, spans: seq<FlatSpan>)
    requires subs != []
    ensures SpecMatches(lib, And(subs), id, spans) <==>
      Matches(lib, subs[0].leaf, id, spans) && SpecMatches(lib, And(subs[1..]), id, spans)
    ensures SpecFails(lib, And(subs), id, spans) <==>
      || Fails(lib, subs[0].leaf, spans)
      || (Matches(lib, subs[0].leaf, id, spans) && SpecFails(lib, And(subs[1..]), id, spans))
  {
    var rest := subs[1..];
    assert forall i :: 0 <= i < |rest| ==> rest[i] == subs[i + 1];
    assert forall i :: 1 <= i < |subs| ==> subs[i] == rest[i - 1];
    if SpecFails(lib, And(subs), id, spans) {
      var j :| 0 <= j < |subs| && Fails(lib, subs[j].leaf, spans) &&
        forall i :: 0 <= i < j ==> Matches(lib, subs[i].leaf, id, spans);
      if j > 0 {
        assert Fails(lib, rest[j - 1].leaf, spans);
      }
    }
    if Matches(lib, subs[0].leaf, id, spans) && SpecFails(lib, And(rest), id, spans) {
      var j :| 0 <= j < |rest| && Fails(lib, rest[j].leaf, spans) &&
        forall i :: 0 <= i < j ==> Matches(lib, rest[i].leaf, id, spans);
      assert Fails(lib, subs[j + 1].leaf, spans);
    }
  }

  lemma SpecMeaning(lib: Lib, spec: Spec, id: TraceId, spans: seq<FlatSpan>)
    ensures Outcome(lib, spec, id, StoredViews(spans))
         == if SpecFails(lib, spec, id, spans) then None else Some(SpecMatches(lib, spec, id, spans))
  {
    match spec {
      case One(leaf) => LeafMeaning(lib, leaf, id, spans);
      case And(subs) => AndMeaning(lib, subs, id, spans);
    }
  }

  lemma {:induction false} ErrorsOf(lib: Lib, policies: seq<PolicyCfg>, id: TraceId, views: seq<View>)
    ensures Results(lib, policies, id, views).None? <==>
      exists i :: 0 <= i < |policies| && Outcome(lib, policies[i].spec, id, views).None?
  {
    if policies != [] {
      ErrorsOf(lib, policies[..|policies| - 1], id, views);
    }
  }

  /** The engine's result is what the policies mean, for every configuration, library and list of spans. */
  lemma EvaluationMeans(lib: Lib, cfg: Config, id: TraceId, spans: seq<FlatSpan>)
    ensures Means(lib, cfg, id, spans, EvalStored(lib, cfg, id, spans))
  {
    var ps, views := cfg.policies, StoredViews(spans);
    ErrorsOf(lib, ps, id, views);
    ResultsLength(lib, ps, id, views);
    forall i | 0 <= i < |ps|
      ensures Outcome(lib, ps[i].spec, id, views) ==
        if SpecFails(lib, ps[i].spec, id, spans) then None else Some(SpecMatches(lib, ps[i].spec, id, spans))
    {
      SpecMeaning(lib, ps[i].spec, id, spans);
    }
  }

  /** Evaluator.Evaluate, by what its result means. */
  method Verdict(ev: Evaluator, id: TraceId, spans: seq<FlatSpan>) returns (r: Option<EvalResult>)
    requires ev.Valid()
    modifies ev.Matchers
    ensures ev.Valid() && Means(ev.lib, ev.cfg, id, spans, r)
  {
    r := ev.Evaluate(id, spans);
    EvaluationMeans(ev.lib, ev.cfg, id, spans);
  }

  // ---- three readings ----

  /**
   * An exact-match string policy keeps a trace exactly when some stored span, or its resource, has one
   * of the values under the key, the empty text aside; inverted, exactly when none has.
   */
  lemma ExactStringKeeps(lib: Lib, key: string, values: seq<string>, invert: bool, id: TraceId, spans: seq<FlatSpan>)
    ensures var r := EvalStored(lib, Alone(StringAttribute(key, values, false, invert)), id, spans);
      && r.Some?
      && (r.value.decision == Keep <==>
            (exists i, s :: 0 <= i < |spans| && Carries(spans[i], key, Str(s)) && s in values && s != "") != invert)
  {
    var cfg := Alone(StringAttribute(key, values, false, invert));
    EvaluationMeans(lib, cfg, id, spans);
    assert cfg.policies[0].spec == One(StringAttribute(key, values, false, invert));
    assert Matches(lib, cfg.policies[0].spec.leaf, id, spans) <==>
      (exists i :: 0 <= i < |spans| && CarriesText(spans[i], key, values)) != invert;
  }

  /** The policy a server without a configuration runs keeps exactly the traces that have an error. */
  lemma DefaultKeepsErrors(lib: Lib, id: TraceId, spans: seq<FlatSpan>)
    ensures var r := EvalStored(lib, DEFAULT_POLICY, id, spans);
      r.Some? && (r.value.decision == Keep <==> exists i :: 0 <= i < |spans| && spans[i].statusCode == StatusError)
  {
    EvaluationMeans(lib, DEFAULT_POLICY, id, spans);
    assert DEFAULT_POLICY.policies[0].spec == One(StatusCode(["ERROR"]));
    assert Matches(lib, StatusCode(["ERROR"]), id, spans) <==>
      exists i :: 0 <= i < |spans| && spans[i].statusCode == StatusError;
  }

  /** A status policy needs names, and known ones; patterns and conditions need to compile. */
  predicate Buildable(lib: Lib, leaf: Leaf) {
    && !leaf.Unbuildable?
    && (leaf.StatusCode? ==> leaf.codes != [] && forall c <- leaf.codes :: c in ["OK", "ERROR", "UNSET"])
    && (leaf.StringAttribute? && leaf.regex ==> forall p <- leaf.values :: lib.regexCompiles(p))
    && (leaf.OTTLCondition? ==> lib.ottlCompiles(leaf.condition))
  }

  /**
   * A configuration is accepted exactly when each policy, and each part of a conjunction of one or
   * more, is buildable.
   */
  lemma AcceptedExactly(lib: Lib, cfg: Config)
    ensures ConfigCompiles(lib, cfg) <==>
      forall i :: 0 <= i < |cfg.policies| ==>
        match cfg.policies[i].spec
        case One(leaf) => Buildable(lib, leaf)
        case And(subs) => |subs| > 0 && forall j :: 0 <= j < |subs| ==> Buildable(lib, subs[j].leaf)
  {
    forall leaf ensures LeafCompiles(lib, leaf) <==> Buildable(lib, leaf) {
      forall c: string ensures StatusCodeOf(c).Some? <==> c in ["OK", "ERROR", "UNSET"] {
      }
    }
  }
}
