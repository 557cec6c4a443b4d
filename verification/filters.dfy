/**
 * The vendored filters as they run: nested scans with early exit, callbacks that capture variables,
 * and a matcher with a cache. Each is proved against its meaning in Policies.
 */
module Filters {
  import opened Pdata
  import opened Policies

  /** Of samplingpolicy.Decision, the two values the filters of this repository return. */
  datatype SamplingDecision = Sampled | NotSampled

  function AsDecision(b: bool): SamplingDecision {
    if b then Sampled else NotSampled
  }

  // ---- util.go ----

  lemma {:induction false} ScopeSpanPlace(scopes: seq<ScopeSpans>, i: nat, j: nat) returns (k: nat)
    requires i < |scopes| && j < |scopes[i].spans|
    ensures k < |ScopesSpans(scopes)| && ScopesSpans(scopes)[k] == scopes[i].spans[j]
  {
    var n := |scopes| - 1;
    if i == n {
      k := |ScopesSpans(scopes[..n])| + j;
    } else {
      k := ScopeSpanPlace(scopes[..n], i, j);
    }
  }

  /** The first answer that differs from invert; invert itself when there is none. */
  method HasInstrumentationLibrarySpanWithCondition(scopes: seq<ScopeSpans>, check: Span -> bool, invert: bool)
    returns (r: bool)
    ensures r == if invert then AllSpans(ScopesSpans(scopes), check) else AnySpan(ScopesSpans(scopes), check)
  {
    for i := 0 to |scopes|
      invariant forall k :: 0 <= k < |ScopesSpans(scopes[..i])| ==> check(ScopesSpans(scopes[..i])[k]) == invert
    {
      var spans := scopes[i].spans;
      for j := 0 to |spans|
        invariant forall k :: 0 <= k < j ==> check(spans[k]) == invert
      {
        r := check(spans[j]);
        if r != invert {
          var k := ScopeSpanPlace(scopes, i, j);
          return r;
        }
      }
      assert scopes[..i + 1][..i] == scopes[..i];
    }
    assert scopes[..|scopes|] == scopes;
    return invert;
  }

  method HasResourceOrSpanWithCondition(td: Traces, resource: Attrs -> bool, span: Span -> bool)
    returns (d: SamplingDecision)
    ensures d == AsDecision(ScanAny(td, resource, span))
  {
    for i := 0 to |td|
      invariant forall k :: 0 <= k < i ==> !resource(td[k].resource) && !AnySpan(ScopesSpans(td[k].scopes), span)
    {
      if resource(td[i].resource) {
        return Sampled;
      }
      var hit := HasInstrumentationLibrarySpanWithCondition(td[i].scopes, span, false);
      if hit {
        return Sampled;
      }
    }
    return NotSampled;
  }

  method InvertHasResourceOrSpanWithCondition(td: Traces, resource: Attrs -> bool, span: Span -> bool)
    returns (d: SamplingDecision)
    ensures d == AsDecision(ScanAll(td, resource, span))
  {
    for i := 0 to |td|
      invariant forall k :: 0 <= k < i ==> resource(td[k].resource) && AllSpans(ScopesSpans(td[k].scopes), span)
    {
      if !resource(td[i].resource) {
        return NotSampled;
      }
      var pass := HasInstrumentationLibrarySpanWithCondition(td[i].scopes, span, true);
      if !pass {
        return NotSampled;
      }
    }
    return Sampled;
  }

  method HasSpanWithCondition(td: Traces, span: Span -> bool) returns (d: SamplingDecision)
    ensures d == AsDecision(exists k :: 0 <= k < |Flatten(td)| && span(Flatten(td)[k].1))
  {
    for i := 0 to |td|
      invariant forall k :: 0 <= k < i ==> !AnySpan(ScopesSpans(td[k].scopes), span)
    {
      var hit := HasInstrumentationLibrarySpanWithCondition(td[i].scopes, span, false);
      if hit {
        var j: nat :| j < |ScopesSpans(td[i].scopes)| && span(ScopesSpans(td[i].scopes)[j]);
        ghost var k := PlaceOf(td, i, j);
        return Sampled;
      }
    }
    forall k | 0 <= k < |Flatten(td)| ensures !span(Flatten(td)[k].1) {
      var i, j := SourceOf(td, k);
    }
    return NotSampled;
  }

  // ---- latency.go ----

  /** Once the callback has answered true, later spans cannot change the answer. */
  lemma {:induction false} StoppedForGood(thr: int, upper: int, s: seq<View>, t: seq<View>)
    requires LatencyFold(thr, upper, s).Stopped?
    ensures LatencyFold(thr, upper, s + t).Stopped?
  {
    if t == [] {
      assert s + t == s;
    } else {
      assert (s + t)[..|s + t| - 1] == s + t[..|t| - 1];
      StoppedForGood(thr, upper, s, t[..|t| - 1]);
    }
  }

  lemma StoppedEarly(thr: int, upper: int, before: seq<View>, all: seq<View>, n: nat)
    requires n <= |all| && LatencyFold(thr, upper, before + all[..n]).Stopped?
    ensures LatencyFold(thr, upper, before + all).Stopped?
  {
    assert before + all[..n] + all[n..] == before + all;
    StoppedForGood(thr, upper, before + all[..n], all[n..]);
  }

  lemma Rejoin(before: seq<View>, all: seq<View>, n: nat, m: nat)
    requires n <= m <= |all|
    ensures before + all[..n] + all[n..m] == before + all[..m]
  {
  }

  lemma LatencyFoldStep(thr: int, upper: int, s: seq<View>, v: View)
    ensures LatencyFold(thr, upper, s + [v]) ==
      match LatencyFold(thr, upper, s)
      case Stopped => Stopped
      case Running(mn, mx) => LatencyStep(thr, upper, mn, mx, v.start, v.end)
  {
    assert (s + [v])[..|s|] == s;
  }

  lemma ViewsDone(td: Traces, i: nat)
    requires i < |td|
    ensures Views(td[..i + 1]) == Views(td[..i]) + ViewSeq(WithResource(td[i].resource, ScopesSpans(td[i].scopes)))
    ensures Views(td) == Views(td[..i + 1]) + Views(td[i + 1..])
  {
    assert td[..i + 1][..i] == td[..i];
    assert td == td[..i + 1] + td[i + 1..];
    FlattenAppend(td[..i + 1], td[i + 1..]);
  }

  lemma {:induction false} ScopesSpansAppend(s: seq<ScopeSpans>, t: seq<ScopeSpans>)
    ensures ScopesSpans(s + t) == ScopesSpans(s) + ScopesSpans(t)
  {
    if t == [] {
      assert s + t == s;
    } else {
      assert (s + t)[..|s + t| - 1] == s + t[..|t| - 1];
      ScopesSpansAppend(s, t[..|t| - 1]);
    }
  }

  /** views are the views of spans, as far as the latency policy looks. */
  ghost predicate SameTimes(spans: seq<Span>, views: seq<View>) {
    |spans| == |views| && forall k :: 0 <= k < |spans| ==>
      views[k].start == spans[k].start && views[k].end == spans[k].end
  }

  ghost predicate At(thr: int, upper: int, views: seq<View>, stopped: bool, minTime: Timestamp, maxTime: Timestamp) {
    LatencyFold(thr, upper, views) == if stopped then Stopped else Running(minTime, maxTime)
  }

  /** The latency policy: hasSpanWithCondition with the callback's variables in hand. */
  method LatencyEvaluate(thresholdMs: int, upperThresholdMs: int, td: Traces) returns (d: SamplingDecision)
    ensures d == AsDecision(LatencyFold(thresholdMs, upperThresholdMs, Views(td)).Stopped?)
  {
    var minTime: Timestamp, maxTime: Timestamp := 0, 0;
    for i := 0 to |td|
      invariant At(thresholdMs, upperThresholdMs, Views(td[..i]), false, minTime, maxTime)
    {
      var stopped;
      stopped, minTime, maxTime := LatencyScanScopes(
        thresholdMs, upperThresholdMs, td[i].scopes, minTime, maxTime,
        Views(td[..i]), ViewSeq(WithResource(td[i].resource, ScopesSpans(td[i].scopes))));
      ViewsDone(td, i);
      if stopped {
        StoppedForGood(thresholdMs, upperThresholdMs, Views(td[..i + 1]), Views(td[i + 1..]));
        return Sampled;
      }
    }
    assert td[..|td|] == td;
    return NotSampled;
  }

  method LatencyScanScopes(thr: int, upper: int, scopes: seq<ScopeSpans>, min0: Timestamp, max0: Timestamp,
                           ghost before: seq<View>, ghost all: seq<View>)
    returns (stopped: bool, minTime: Timestamp, maxTime: Timestamp)
    requires SameTimes(ScopesSpans(scopes), all)
    requires At(thr, upper, before, false, min0, max0)
    ensures At(thr, upper, before + all, stopped, minTime, maxTime)
  {
    stopped, minTime, maxTime := false, min0, max0;
    ghost var n := 0;
    assert before + all[..0] == before;
    for i := 0 to |scopes|
      invariant n == |ScopesSpans(scopes[..i])| <= |all|
      invariant At(thr, upper, before + all[..n], false, minTime, maxTime)
    {
      ghost var m := n + |scopes[i].spans|;
      ScopeTimes(scopes, i, all);
      stopped, minTime, maxTime := LatencyScanSpans(thr, upper, scopes[i].spans, minTime, maxTime, before + all[..n],
          all[n..m]);
      Rejoin(before, all, n, m);
      if stopped {
        StoppedEarly(thr, upper, before, all, m);
        return;
      }
      n := m;
    }
    assert scopes[..|scopes|] == scopes && all[..n] == all;
  }

  lemma ScopeTimes(scopes: seq<ScopeSpans>, i: nat, all: seq<View>)
    requires i < |scopes| && SameTimes(ScopesSpans(scopes), all)
    ensures var n, m := |ScopesSpans(scopes[..i])|, |ScopesSpans(scopes[..i + 1])|;
      n <= m <= |all| && m == n + |scopes[i].spans| && SameTimes(scopes[i].spans, all[n..m])
  {
    assert scopes == scopes[..i + 1] + scopes[i + 1..];
    ScopesSpansAppend(scopes[..i + 1], scopes[i + 1..]);
    assert scopes[..i + 1][..i] == scopes[..i];
    assert ScopesSpans(scopes[..i + 1]) == ScopesSpans(scopes[..i]) + scopes[i].spans;
  }

  method LatencyScanSpans(thr: int, upper: int, spans: seq<Span>, min0: Timestamp, max0: Timestamp,
                          ghost before: seq<View>, ghost all: seq<View>)
    returns (stopped: bool, minTime: Timestamp, maxTime: Timestamp)
    requires SameTimes(spans, all)
    requires At(thr, upper, before, false, min0, max0)
    ensures At(thr, upper, before + all, stopped, minTime, maxTime)
  {
    stopped, minTime, maxTime := false, min0, max0;
    assert before + all[..0] == before;
    for j := 0 to |spans|
      invariant At(thr, upper, before + all[..j], false, minTime, maxTime)
    {
      LatencyFoldStep(thr, upper, before + all[..j], all[j]);
      Rejoin(before, all, j, j + 1);
      assert all[j..j + 1] == [all[j]];
      stopped, minTime, maxTime := LatencyCallback(thr, upper, minTime, maxTime, spans[j]);
      if stopped {
        StoppedEarly(thr, upper, before, all, j + 1);
        return;
      }
    }
    assert all[..|spans|] == all;
  }

  /** The closure: widen the captured interval, then test its length. */
  method LatencyCallback(thresholdMs: int, upperThresholdMs: int, min0: Timestamp, max0: Timestamp, span: Span)
    returns (sample: bool, minTime: Timestamp, maxTime: Timestamp)
    ensures LatencyStep(thresholdMs, upperThresholdMs, min0, max0, span.start, span.end)
         == if sample then Stopped else Running(minTime, maxTime)
  {
    minTime, maxTime := min0, max0;
    if minTime == 0 || span.start < minTime {
      minTime := span.start;
    }
    if maxTime == 0 || span.end > maxTime {
      maxTime := span.end;
    }
    var duration := Sub(AsTime(maxTime), AsTime(minTime));
    if upperThresholdMs == 0 {
      sample := Milliseconds(duration) > thresholdMs;
    } else {
      sample := thresholdMs < Milliseconds(duration) && Milliseconds(duration) <= upperThresholdMs;
    }
  }

  // ---- string_tag_filter.go ----

  /**
   * The matcher closure of a string filter. With regexes, answers are remembered
   * in a cache that may forget any of its entries at any time it is written.
   */
  class StringMatcher {
    const lib: Lib
    const values: seq<string>
    const regex: bool
    const valuesMap: set<string>
    var matchedAttrs: map<string, bool>

    /** The cache only repeats answers the filters give. */
    ghost predicate Valid()
      reads this
    {
      && valuesMap == (set v | v in values && v != "")
      && forall text :: text in matchedAttrs ==> matchedAttrs[text] == Accepts(lib, values, true, text)
    }

    constructor (lib: Lib, values: seq<string>, regex: bool)
      ensures Valid() && this.lib == lib && this.values == values && this.regex == regex
      ensures matchedAttrs == map[]
    {
      var m: set<string> := {};
      for i := 0 to |values|
        invariant m == set v | v in values[..i] && v != ""
      {
        if values[i] != "" {
          m := m + {values[i]};
        }
      }
      assert values[..|values|] == values;
      this.lib, this.values, this.regex, this.valuesMap := lib, values, regex, m;
      matchedAttrs := map[];
    }

    /** lru.Cache.Add with eviction left open: what is kept was there or is the new entry. */
    method Add(text: string, answer: bool)
      modifies this
      ensures forall t :: t in matchedAttrs ==>
        if t == text then matchedAttrs[t] == answer
        else t in old(matchedAttrs) && matchedAttrs[t] == old(matchedAttrs)[t]
    {
      var forgotten: set<string> := *;
      matchedAttrs := matchedAttrs[text := answer] - forgotten;
    }

    /** Whatever was asked before and whatever the cache kept, the answer is the uncached one. */
    method Match(text: string) returns (matched: bool)
      requires Valid()
      modifies this
      ensures Valid()
      ensures matched == Accepts(lib, values, regex, text)
    {
      if !regex {
        return text in valuesMap;
      }
      if text in matchedAttrs {
        return matchedAttrs[text];
      }
      for i := 0 to |values|
        invariant Valid()
        invariant forall k :: 0 <= k < i ==> !lib.regexMatch(values[k], text)
      {
        if lib.regexMatch(values[i], text) {
          assert values[i] in values;
          Add(text, true);
          return true;
        }
      }
      Add(text, false);
      return false;
    }
  }

  /** The resource callback: is the attribute there and matched? */
  method ResourceCallback(key: string, m: StringMatcher, ghost leaf: Leaf, a: Attrs) returns (hit: bool)
    requires IsStringLeaf(leaf, key, m) && m.Valid()
    modifies m
    ensures m.Valid()
    ensures hit == ResourceHit(m.lib, leaf, a)
  {
    var v := Get(a, key);
    if v.None? {
      return false;
    }
    hit := m.Match(v.value.AsStr());
  }

  method SpanCallback(key: string, m: StringMatcher, ghost leaf: Leaf, a: Attrs) returns (hit: bool)
    requires IsStringLeaf(leaf, key, m) && m.Valid()
    modifies m
    ensures m.Valid()
    ensures hit == SpanHit(m.lib, leaf, a)
  {
    var v := Get(a, key);
    if v.None? || v.value.AsStr() == "" {
      return false;
    }
    hit := m.Match(v.value.AsStr());
  }

  ghost predicate IsStringLeaf(leaf: Leaf, key: string, m: StringMatcher) {
    leaf.StringAttribute? && leaf.key == key && leaf.values == m.values && leaf.regex == m.regex
  }

  /** hasInstrumentationLibrarySpanWithCondition, with the string callback (negated when inverted). */
  method StringScanSpans(key: string, m: StringMatcher, ghost leaf: Leaf, scopes: seq<ScopeSpans>, invert: bool)
    returns (r: bool)
    requires IsStringLeaf(leaf, key, m) && m.Valid()
    modifies m
    ensures m.Valid()
    ensures r == (AnySpan(ScopesSpans(scopes), SpanTest(m.lib, leaf)) != invert)
  {
    for i := 0 to |scopes|
      invariant m.Valid()
      invariant forall k :: 0 <= k < |ScopesSpans(scopes[..i])| ==> !SpanTest(m.lib, leaf)(ScopesSpans(scopes[..i])[k])
    {
      var spans := scopes[i].spans;
      for j := 0 to |spans|
        invariant m.Valid()
        invariant forall k :: 0 <= k < j ==> !SpanTest(m.lib, leaf)(spans[k])
      {
        var hit := SpanCallback(key, m, leaf, spans[j].attrs);
        r := hit != invert;
        if r != invert {
          ghost var k := ScopeSpanPlace(scopes, i, j);
          return r;
        }
      }
      assert scopes[..i + 1][..i] == scopes[..i];
    }
    assert scopes[..|scopes|] == scopes;
    return invert;
  }

  method StringEvaluate(key: string, m: StringMatcher, ghost leaf: Leaf, td: Traces, invert: bool)
    returns (d: SamplingDecision)
    requires IsStringLeaf(leaf, key, m) && m.Valid()
    modifies m
    ensures m.Valid()
    ensures d == AsDecision(AttributeScan(m.lib, leaf, td) != invert)
  {
    for i := 0 to |td|
      invariant m.Valid()
      invariant forall k :: 0 <= k < i ==>
        !ResourceTest(m.lib, leaf)(td[k].resource) && !AnySpan(ScopesSpans(td[k].scopes), SpanTest(m.lib, leaf))
    {
      var hit := ResourceCallback(key, m, leaf, td[i].resource);
      if hit {
        return AsDecision(!invert);
      }
      var r := StringScanSpans(key, m, leaf, td[i].scopes, invert);
      if r != invert {
        return AsDecision(!invert);
      }
    }
    return AsDecision(invert);
  }
}
