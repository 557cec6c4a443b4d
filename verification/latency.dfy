/**
 * The latency policy's running minimum and maximum with early exit, against the
 * duration of the whole trace.
 */
module LatencyPolicy {
  import opened Wrappers
  import opened Pdata
  import opened Policies
  import opened TraceTypes
  import opened Assembler

  /** The captured minimum after s. A zero minimum counts as not set and gives way to the next start. */
  function CapturedMin(s: seq<View>): Timestamp {
    if s == [] then 0
    else
      var p, start := CapturedMin(s[..|s| - 1]), s[|s| - 1].start;
      if p == 0 || start < p then start else p
  }

  function CapturedMax(s: seq<View>): Timestamp {
    if s == [] then 0
    else
      var p, end := CapturedMax(s[..|s| - 1]), s[|s| - 1].end;
      if p == 0 || end > p then end else p
  }

  /** What the callback measures at the n-th span. */
  function Measured(s: seq<View>, n: nat): int
    requires n <= |s|
  {
    Sub(AsTime(CapturedMax(s[..n])), AsTime(CapturedMin(s[..n])))
  }

  ghost predicate SomePrefixInWindow(thr: int, upper: int, s: seq<View>) {
    exists n :: 1 <= n <= |s| && InWindow(thr, upper, Measured(s, n))
  }

  /** For every trace: sampled exactly when some arrival-order prefix measures inside the window. */
  lemma {:induction false} FoldIsSomePrefix(thr: int, upper: int, s: seq<View>)
    ensures LatencyFold(thr, upper, s).Stopped? <==> SomePrefixInWindow(thr, upper, s)
    ensures LatencyFold(thr, upper, s).Running? ==>
      LatencyFold(thr, upper, s) == Running(CapturedMin(s), CapturedMax(s))
  {
    if s != [] {
      var init := s[..|s| - 1];
      FoldIsSomePrefix(thr, upper, init);
      OneMorePrefix(thr, upper, s);
      assert s[..|s|] == s;
    }
  }

  lemma OneMorePrefix(thr: int, upper: int, s: seq<View>)
    requires s != []
    ensures SomePrefixInWindow(thr, upper, s)
        <==> SomePrefixInWindow(thr, upper, s[..|s| - 1]) || InWindow(thr, upper, Measured(s, |s|))
  {
    var init := s[..|s| - 1];
    forall n | 0 <= n <= |init| ensures Measured(init, n) == Measured(s, n) {
      assert init[..n] == s[..n];
    }
  }

  // ---- traces dated between 1970 and 2262 ----

  /** Timestamps below 2^63, so that nothing wraps. */
  ghost predicate Dated(s: seq<View>) {
    forall i :: 0 <= i < |s| ==> s[i].start < TWO_TO_63 && s[i].end < TWO_TO_63
  }

  function Earliest(s: seq<View>): nat
    requires s != []
  {
    var last := s[|s| - 1].start;
    if |s| == 1 then last else var m := Earliest(s[..|s| - 1]); if last < m then last else m
  }

  function Latest(s: seq<View>): nat
    requires s != []
  {
    var last := s[|s| - 1].end;
    if |s| == 1 then last else var m := Latest(s[..|s| - 1]); if last > m then last else m
  }

  function Whole(s: seq<View>): int
    requires s != []
  {
    Latest(s) - Earliest(s)
  }

  lemma {:induction false} CapturedMaxIsLatest(s: seq<View>)
    requires s != []
    ensures CapturedMax(s) == Latest(s)
    ensures Dated(s) ==> Latest(s) < TWO_TO_63
  {
    if |s| > 1 {
      CapturedMaxIsLatest(s[..|s| - 1]);
    } else {
      assert s[..0] == [];
    }
  }

  ghost predicate NoZeroStart(s: seq<View>) {
    forall i :: 0 <= i < |s| ==> s[i].start != 0
  }

  /** After a prefix that leaves no minimum, the captured minimum is the earliest start since. */
  lemma {:induction false} CapturedMinSince(p: seq<View>, s: seq<View>)
    requires CapturedMin(p) == 0 && s != [] && NoZeroStart(s)
    ensures CapturedMin(p + s) == Earliest(s) > 0
  {
    var init, last := s[..|s| - 1], s[|s| - 1];
    assert (p + s)[..|p + s| - 1] == p + init && (p + s)[|p + s| - 1] == last;
    assert last.start != 0;
    if init == [] {
      assert p + init == p;
    } else {
      CapturedMinSince(p, init);
    }
  }

  lemma {:induction false} EarliestOfDated(s: seq<View>)
    requires s != [] && Dated(s)
    ensures Earliest(s) < TWO_TO_63
    ensures forall i :: 0 <= i < |s| ==> Earliest(s) <= s[i].start
  {
    if |s| > 1 {
      var init := s[..|s| - 1];
      EarliestOfDated(init);
      forall i | 0 <= i < |s| ensures Earliest(s) <= s[i].start {
        if i < |init| {
          assert init[i] == s[i];
        }
      }
    }
  }

  lemma {:induction false} WholeGrows(s: seq<View>, n: nat)
    requires 1 <= n <= |s|
    ensures Latest(s[..n]) <= Latest(s) && Earliest(s) <= Earliest(s[..n])
  {
    if n == |s| {
      assert s[..n] == s;
    } else {
      assert s[..|s| - 1][..n] == s[..n];
      WholeGrows(s[..|s| - 1], n);
    }
  }

  lemma NothingWraps(a: Timestamp, b: Timestamp)
    requires a < TWO_TO_63 && b < TWO_TO_63
    ensures Sub(AsTime(a), AsTime(b)) == a - b
  {
  }

  /** Spans after a prefix that leaves no minimum: the measure runs from the earliest of them. */
  lemma CapturedInterval(p: seq<View>, s: seq<View>)
    requires CapturedMin(p) == 0 && s != [] && NoZeroStart(s) && Dated(p + s) && Dated(s)
    ensures Sub(AsTime(CapturedMax(p + s)), AsTime(CapturedMin(p + s))) == Latest(p + s) - Earliest(s)
  {
    CapturedMinSince(p, s);
    CapturedMaxIsLatest(p + s);
    EarliestOfDated(s);
    NothingWraps(CapturedMax(p + s), CapturedMin(p + s));
  }

  lemma MeasuredIsWhole(s: seq<View>, n: nat)
    requires 1 <= n <= |s| && Dated(s) && NoZeroStart(s)
    ensures Measured(s, n) == Whole(s[..n])
  {
    CapturedInterval([], s[..n]);
    assert [] + s[..n] == s[..n];
  }

  /** Without an upper threshold and without zero starts, the early exit answers for the whole trace. */
  lemma LatencyIsWholeDuration(thr: int, s: seq<View>)
    requires s != [] && Dated(s) && NoZeroStart(s)
    ensures LatencyFold(thr, 0, s).Stopped? <==> Milliseconds(Whole(s)) > thr
  {
    FoldIsSomePrefix(thr, 0, s);
    MeasuredIsWhole(s, |s|);
    assert s[..|s|] == s;
    assert InWindow(thr, 0, Measured(s, |s|)) <==> Milliseconds(Whole(s)) > thr;
    forall n | 1 <= n <= |s| && InWindow(thr, 0, Measured(s, n)) ensures Milliseconds(Whole(s)) > thr {
      MeasuredIsWhole(s, n);
      WholeGrows(s, n);
      MillisecondsMonotone(Whole(s[..n]), Whole(s));
    }
  }

  /** With an upper threshold, exactly when the duration of some prefix is in the window. */
  lemma LatencyWindowIsSomePrefix(thr: int, upper: int, s: seq<View>)
    requires Dated(s) && NoZeroStart(s)
    ensures LatencyFold(thr, upper, s).Stopped? <==> exists n :: 1 <= n <= |s| && InWindow(thr, upper, Whole(s[..n]))
  {
    FoldIsSomePrefix(thr, upper, s);
    forall n | 1 <= n <= |s| ensures Measured(s, n) == Whole(s[..n]) {
      MeasuredIsWhole(s, n);
    }
    if n :| 1 <= n <= |s| && InWindow(thr, upper, Whole(s[..n])) {
      assert InWindow(thr, upper, Measured(s, n));
    }
  }

  // ---- exactly when a zero start does no harm ----

  ghost predicate LastZeroStart(s: seq<View>, z: nat) {
    z < |s| && s[z].start == 0 && NoZeroStart(s[z + 1..])
  }

  /** The early exit answers for the whole trace, at every threshold. */
  ghost predicate AnswersForWhole(s: seq<View>)
    requires s != []
  {
    forall thr :: LatencyFold(thr, 0, s).Stopped? == (Milliseconds(Whole(s)) > thr)
  }

  /** Milliseconds measured up to the last zero start. */
  function UpToMs(s: seq<View>, z: nat): int
    requires z < |s|
  {
    Milliseconds(Latest(s[..z + 1]))
  }

  /** Milliseconds measured at the end of the trace, from the starts after the last zero start. */
  function SinceMs(s: seq<View>, z: nat): int
    requires z < |s|
  {
    if z + 1 < |s| then Milliseconds(Latest(s) - Earliest(s[z + 1..])) else UpToMs(s, z)
  }

  /**
   * With a zero start the trace begins at 1970, but the callback forgets that at the next span.
   * It still answers right exactly when the spans up to the last zero start, or the ones
   * after it, alone measure as many milliseconds as the whole.
   */
  lemma ZeroStartExactly(s: seq<View>, z: nat)
    requires Dated(s) && LastZeroStart(s, z)
    ensures AnswersForWhole(s) <==> UpToMs(s, z) == Milliseconds(Latest(s)) || SinceMs(s, z) == Milliseconds(Latest(s))
  {
    PartsBelowWhole(s, z);
    forall thr ensures LatencyFold(thr, 0, s).Stopped? == (UpToMs(s, z) > thr || SinceMs(s, z) > thr) {
      FoldAroundZero(thr, s, z);
    }
    ThresholdsTellApart(s, UpToMs(s, z), SinceMs(s, z), Milliseconds(Latest(s)));
  }

  lemma PartsBelowWhole(s: seq<View>, z: nat)
    requires Dated(s) && LastZeroStart(s, z)
    ensures Milliseconds(Latest(s)) == Milliseconds(Whole(s))
    ensures UpToMs(s, z) <= Milliseconds(Latest(s)) && SinceMs(s, z) <= Milliseconds(Latest(s))
  {
    WholeWithZero(s, z);
    MillisecondsMonotone(Latest(s[..z + 1]), Latest(s));
    if z + 1 < |s| {
      MillisecondsMonotone(Latest(s) - Earliest(s[z + 1..]), Latest(s));
    }
  }

  lemma ThresholdsTellApart(s: seq<View>, upTo: int, since: int, whole: int)
    requires s != [] && whole == Milliseconds(Whole(s)) && upTo <= whole && since <= whole
    requires forall thr :: LatencyFold(thr, 0, s).Stopped? == (upTo > thr || since > thr)
    ensures AnswersForWhole(s) <==> upTo == whole || since == whole
  {
    if AnswersForWhole(s) {
      assert LatencyFold(whole - 1, 0, s).Stopped? == (whole > whole - 1);
    }
  }

  lemma WholeWithZero(s: seq<View>, z: nat)
    requires Dated(s) && z < |s| && s[z].start == 0
    ensures Whole(s) == Latest(s) && Latest(s[..z + 1]) <= Latest(s)
  {
    EarliestOfDated(s);
    assert Earliest(s) <= s[z].start;
    WholeGrows(s, z + 1);
  }

  lemma FoldAroundZero(thr: int, s: seq<View>, z: nat)
    requires Dated(s) && LastZeroStart(s, z)
    ensures LatencyFold(thr, 0, s).Stopped? <==> UpToMs(s, z) > thr || SinceMs(s, z) > thr
  {
    FoldIsSomePrefix(thr, 0, s);
    MeasuredAtZero(s, z);
    assert InWindow(thr, 0, Measured(s, z + 1)) <==> UpToMs(s, z) > thr;
    if z + 1 < |s| {
      MeasuredAfterZero(s, z, |s|);
      assert s[..|s|] == s && s[z + 1..|s|] == s[z + 1..];
      assert InWindow(thr, 0, Measured(s, |s|)) <==> SinceMs(s, z) > thr;
    }
    if n :| 1 <= n <= |s| && InWindow(thr, 0, Measured(s, n)) {
      if n <= z + 1 {
        BestUpToZero(s, z, n);
        MillisecondsMonotone(Measured(s, n), Latest(s[..z + 1]));
      } else {
        BestSinceZero(s, z, n);
        MillisecondsMonotone(Measured(s, n), Latest(s) - Earliest(s[z + 1..]));
      }
    }
  }

  /** No prefix up to the last zero start measures more than the one that ends there. */
  lemma BestUpToZero(s: seq<View>, z: nat, n: nat)
    requires Dated(s) && z < |s| && 1 <= n <= z + 1
    ensures Measured(s, n) <= Latest(s[..z + 1])
  {
    MeasuredAtMostLatest(s, n);
    var p := s[..z + 1];
    assert p[..n] == s[..n];
    WholeGrows(p, n);
  }

  /** No later prefix measures more than the whole trace does. */
  lemma BestSinceZero(s: seq<View>, z: nat, n: nat)
    requires Dated(s) && LastZeroStart(s, z) && z + 1 < n <= |s|
    ensures Measured(s, n) <= Latest(s) - Earliest(s[z + 1..])
  {
    MeasuredAfterZero(s, z, n);
    WholeGrows(s, n);
    EarliestSince(s, z, n);
  }

  lemma EarliestSince(s: seq<View>, z: nat, n: nat)
    requires z + 1 < n <= |s|
    ensures Earliest(s[z + 1..]) <= Earliest(s[z + 1..n])
  {
    var t := s[z + 1..];
    assert t[..n - z - 1] == s[z + 1..n];
    WholeGrows(t, n - z - 1);
  }

  lemma MeasuredAtMostLatest(s: seq<View>, n: nat)
    requires 1 <= n <= |s| && Dated(s)
    ensures Measured(s, n) <= Latest(s[..n])
  {
    CapturedMaxIsLatest(s[..n]);
    CapturedMinDated(s[..n]);
    NothingWraps(CapturedMax(s[..n]), CapturedMin(s[..n]));
  }

  lemma {:induction false} CapturedMinDated(s: seq<View>)
    requires Dated(s)
    ensures CapturedMin(s) < TWO_TO_63
  {
    if s != [] {
      CapturedMinDated(s[..|s| - 1]);
    }
  }

  lemma MeasuredAtZero(s: seq<View>, z: nat)
    requires Dated(s) && z < |s| && s[z].start == 0
    ensures Measured(s, z + 1) == Latest(s[..z + 1]) && CapturedMin(s[..z + 1]) == 0
  {
    CapturedMaxIsLatest(s[..z + 1]);
    assert s[..z + 1][..z] == s[..z];
    NothingWraps(CapturedMax(s[..z + 1]), 0);
  }

  lemma MeasuredAfterZero(s: seq<View>, z: nat, n: nat)
    requires Dated(s) && LastZeroStart(s, z) && z + 1 < n <= |s|
    ensures Measured(s, n) == Latest(s[..n]) - Earliest(s[z + 1..n])
  {
    MeasuredAtZero(s, z);
    assert s[z + 1..n] == s[z + 1..][..n - z - 1];
    assert s[..z + 1] + s[z + 1..n] == s[..n];
    CapturedInterval(s[..z + 1], s[z + 1..n]);
  }

  // ---- stored traces ----

  /** Start after 1970, end not before it, both before 2262. */
  ghost predicate Plausible(spans: seq<FlatSpan>) {
    forall i :: 0 <= i < |spans| ==> 0 < spans[i].startTime < TWO_TO_63 && 0 <= spans[i].endTime < TWO_TO_63
  }

  lemma StoredTime(f: FlatSpan)
    requires 0 <= f.startTime < TWO_TO_63 && 0 <= f.endTime < TWO_TO_63
    ensures StoredView(f).start == f.startTime && StoredView(f).end == f.endTime
  {
    assert f.startTime % TWO_TO_64 == f.startTime && f.endTime % TWO_TO_64 == f.endTime;
  }

  lemma {:induction false} SameExtremes(spans: seq<FlatSpan>, views: seq<View>)
    requires |spans| == |views| > 0
    requires forall i :: 0 <= i < |spans| ==> views[i].start == spans[i].startTime && views[i].end == spans[i].endTime
    ensures Earliest(views) == MinStart(spans) && Latest(views) == MaxEnd(spans)
  {
    if |spans| > 1 {
      SameExtremes(spans[..|spans| - 1], views[..|spans| - 1]);
    }
  }

  lemma StoredTimes(spans: seq<FlatSpan>)
    requires spans != [] && Plausible(spans)
    ensures Dated(StoredViews(spans)) && NoZeroStart(StoredViews(spans))
    ensures TraceDuration(spans) == Whole(StoredViews(spans))
  {
    var views := StoredViews(spans);
    forall i | 0 <= i < |spans| ensures views[i].start == spans[i].startTime && views[i].end == spans[i].endTime {
      StoredTime(spans[i]);
    }
    SameExtremes(spans, views);
    EarliestOfDated(views);
    CapturedMaxIsLatest(views);
  }

  /** The latency policy agrees with the duration shown in Live Tail. */
  lemma LatencyMatchesShownDuration(lib: Lib, thr: int, id: TraceId, spans: seq<FlatSpan>)
    requires spans != [] && Plausible(spans)
    ensures LeafOutcome(lib, Latency(thr, 0), id, StoredViews(spans)) == Some(Milliseconds(TraceDuration(spans)) > thr)
  {
    StoredTimes(spans);
    LatencyIsWholeDuration(thr, StoredViews(spans));
  }

  function TimedSpan(start: int, end: int): FlatSpan {
    FlatSpan(1, 1, 0, "", 0, start, end, StatusUnset, "", "", map[], "", 0, 0)
  }

  /**
   * A span without a start time, then one that takes 5 ms: the trace shows 1005 ms, and a threshold of
   * 50 ms does not sample it.
   */
  lemma ZeroStartExample(lib: Lib, id: TraceId)
    ensures var spans := [TimedSpan(0, 10_000_000), TimedSpan(1_000_000_000, 1_005_000_000)];
      && Milliseconds(TraceDuration(spans)) == 1005
      && LeafOutcome(lib, Latency(50, 0), id, StoredViews(spans)) == Some(false)
  {
    var a, b := TimedSpan(0, 10_000_000), TimedSpan(1_000_000_000, 1_005_000_000);
    var views := StoredViews([a, b]);
    StoredTime(a);
    StoredTime(b);
    assert [a, b][..1] == [a];
    assert views[..1][..0] == [];
    assert LatencyFold(50, 0, views[..1]) == Running(0, 10_000_000);
    assert LatencyFold(50, 0, views) == Running(1_000_000_000, 1_005_000_000);
  }

  /** A trace that grew past the window is still sampled for having been inside it. */
  lemma OutgrownWindowExample()
    ensures var a := View(map[], map[], 0, 1_000_000, 11_000_000, "");
      var b := View(map[], map[], 0, 1_000_000, 101_000_000, "");
      && LatencyFold(5, 50, [a, b]).Stopped? && LatencyFold(5, 50, [b, a]).Running?
      && !InWindow(5, 50, Whole([a, b]))
  {
    var a := View(map[], map[], 0, 1_000_000, 11_000_000, "");
    var b := View(map[], map[], 0, 1_000_000, 101_000_000, "");
    assert [a, b][..1] == [a] && [a][..0] == [];
    assert [b, a][..1] == [b] && [b][..0] == [];
    assert LatencyFold(5, 50, [a]) == Stopped;
    assert LatencyFold(5, 50, [b]) == Running(1_000_000, 101_000_000);
  }
}
