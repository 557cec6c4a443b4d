# A verified model of the tail sampling preview

The preview shows what a tail sampling policy would do with live traffic. Collectors run an
exporter that ships a copy of every batch to a preview server. The server flattens the spans,
collects them by trace in a bounded store, evaluates the policy when a trace's decision_wait has
passed, keeps statistics and tells its browsers. Everything on display is a claim about what the
production sampler would decide, so this project proves how far the claim holds.

The model has one module per component.

- `pdata`, `policies`, `filters`, `evaluator`: OTLP data, what each policy means, the vendored
  filters as nested scans with callbacks and captured variables, and the engine that runs them.
- `trace_types`, `assembler`, `fidelity`, `grouping`, `latency`, `policy_algebra`, `meaning`: the
  flattened form, what flattening, regrouping and early exits do to a decision, and what every
  policy says of the stored spans themselves.
- `trace_list`, `store_spec`, `store`, `confluence`, `walk_order`, `lifecycle`, `conservation`,
  `eviction`, `deadlines`: the trace store on values and as live records shared by an index and a
  recency list; eviction, accounts, states.
- `statistics`, `server_spec`, `server`, `decision_runs`, `end_to_end`, `engine_judge`: the
  server's steps, the methods that perform them, and what every serialised run keeps.
- `compare`, `compare_runs`: Policy Compare. `messages`, `browsers`, `replica`, `replica_steps`:
  broadcasts and the browser's copy, serialised and then message by message. `live_tail`: the Live
  Tail filter on both sides, `queries` what a query lists. `display`: from batches to rows.
- `scenarios`: short runs of the real engine that show some of the failures below.
- `interleaving`, `last_writer`, `interleaved_stats`, `races`: the same steps lock by lock.
  `exporter`: the bounded queue, operation by operation. `session`, `control`, `pause`,
  `pause_steps`: the session and the pause protocol, first serialised and then message by message.

Objects the source updates in place are classes whose methods are tied to functions on values;
the properties are proved of the functions. Loops over Go maps take keys in an arbitrary order.
Library calls the source makes (regular expressions, hashing, the big.Float threshold, W3C
tracestate, OTTL, AsString, marshalling, number parsing) are arbitrary functions, quantified over.

Where the code does not do what it or its documents say, the code is modelled as it is:

- The comment at internal/sampling/evaluator.go:257-262 (grouping never changes a decision) is
  false for ResourceSpans without spans; `Grouping.RegroupingDecidesExactly` has the condition.
- Unknown status codes and repeated attribute keys break fidelity; `Fidelity.FidelityExactly`.
- A span whose start time is zero makes the latency policy forget part of the trace;
  `LatencyPolicy.ZeroStartExactly`.
- The design document (section 22) says no KEEP or DROP is asserted before decision_wait. SetPolicy
  writes one into every retained trace at once; `Lifecycle.NewPolicyEarlyVerdictExactly`, and
  `Lifecycle.RunNoEarlyVerdict` for when the promise holds again. The browser labels such a verdict
  provisional until the trace is DECIDED.
- A trace that fails to evaluate stays READY and is not decided again; browsers keep showing it
  as RECEIVING; `Replica.TickLeavesBehindExactly`.
- Two policies with one name share a counter; `Statistics.CountsWithinKeptExactly`.
- A trace that gets spans in two frames of the same instant is counted twice in tracesReceived;
  `Conservation.TracesConservedExactly`.
- When eviction reaches the traces a frame touched, the walk order of a Go map can decide which
  of them stay; `WalkOrder.WalkIndependentExactly`.
- Between the locks, a decision can be that of an older policy, of fewer spans, or of an evicted
  predecessor; `LastWriter.LastWriterDecides`, with schedules in `Races`. Two policy changes at once
  can count every trace twice; `InterleavedStatistics.TwoWalks`.
- Announcements are made after the lock is released, so a late one can overwrite a newer one: a
  session transition (`PauseSteps`), or a trace.updated after a trace.decided (`ReplicaSteps`).
- Until its join message arrives an exporter forwards whatever the session's state; in
  `PauseProtocol` a connection that has not joined is never paused.

## Model

| member | source | states |
|---|---|---|
| EndToEnd.DecidedAsTheProcessorWould | internal/sampling/evaluator.go:78-114 | after any run of frames, ticks and policy changes from an empty server with the real engine, each DECIDED trace (no OTTL in the active policy) holds exactly the spans received under its id from the batch that created its record on, from the very first if nothing was evicted, and shows the decision and matched names the filters give on those batches themselves |
| EndToEnd.RunSinceCreation | internal/trace/store.go:63-103 | in every run each retained trace holds, in order, exactly the spans received under its id since the batch that found no record of it |
| EndToEnd.RunProvenance | internal/trace/store.go:63-103 | while nothing was ever evicted every span received is in the record of its id |
| Fidelity.PreviewFidelity | internal/sampling/evaluator.go:250-293 | assemble, store and one-ResourceSpans-per-span rebuilding give the same result as the filters on the original batches restricted to the trace, for every configuration without OTTL, when keys are unique and statuses known |
| Fidelity.FidelityExactly | internal/sampling/evaluator.go:250-293 | fidelity for all policies and libraries holds if and only if the last entry under each key and the three known statuses show what the first entries and raw statuses showed, a condition on the batches alone |
| Fidelity.ObservationsDecide | internal/sampling/evaluator.go:85-114 | two traces with the same times and tracestates get the same results from all OTTL-free policies exactly when they agree on every attribute and status observation the filters can make |
| Grouping.RegroupingDecidesExactly | internal/sampling/evaluator.go:257-262 | regrouping to one span per ResourceSpans changes no OTTL-free evaluation, over all libraries and policies, if and only if every integer, boolean and string that the resource of an empty ResourceSpans shows under a key is also shown by the spans; the comment claims it never does |
| Grouping.RegroupingExactly | internal/upstreamtsp/sampling/util.go:20-40 | over every conceivable test of resources and spans, regrouping keeps what a scan finds if and only if each resource on a ResourceSpans without spans also occurs on one with spans |
| Grouping.UnknownStatusExample | internal/trace/assembler.go:71-80 | an undefined status code is stored as UNSET and turns a DROP into a KEEP |
| Grouping.RepeatedKeyExample | internal/trace/assembler.go:38-47 | of a repeated key the filters read the first entry, the stored span keeps the last: DROP becomes KEEP |
| Grouping.EmptyGroupExample | internal/sampling/evaluator.go:257-262 | a matching resource without spans decides KEEP in the batch and DROP after regrouping |
| Assembler.Assemble | internal/trace/assembler.go:11-31 | the map has exactly the trace ids of the batch, each with its flattened spans in scan order |
| Assembler.AppendSpans | internal/trace/assembler.go:21-27 | the innermost loop adds one scope's spans to the groups, each at the end of its trace's list |
| Assembler.ToSpan | internal/trace/assembler.go:33-69 | the flattened span: prefixed resource and span keys, the well-known keys, times, status, parent and tracestate |
| Assembler.FlatAttributesSplit | internal/trace/assembler.go:33-69 | stripping the prefixes of a flattened span gives back the resource's and the span's attributes, last entry of each key |
| Assembler.FlattenedView | internal/sampling/evaluator.go:263-293 | the exact effect of flattening and rebuilding one span on everything the filters read |
| Pdata.TimestampRoundTrip | internal/sampling/evaluator.go:275-276 | a timestamp survives AsTime and NewTimestampFromTime |
| Pdata.SubIsNearest | internal/trace/types.go:53-55 | a difference of times is exact where 64 bits hold it and otherwise the nearest they hold |
| Pdata.MillisecondsTruncate | internal/server/convert.go:17 | whole milliseconds, cut off towards zero |
| PolicyEngine.Unpack | internal/sampling/evaluator.go:282-289 | walking the flat attribute map in any order splits it into span and resource attributes by prefix |
| PolicyEngine.Rehydrate | internal/sampling/evaluator.go:263-293 | one non-empty ResourceSpans per stored span, whose views are the stored ones, and the span count |
| Policies.EvaluationScansViews | internal/sampling/evaluator.go:257-262 | without empty ResourceSpans, nested scans over groups give the same result as a flat scan of span views, for every configuration |
| Policies.ScanIsViewScan | internal/upstreamtsp/sampling/util.go:20-40 | a resource-or-span scan of an attribute policy is a test of each span with its resource |
| Filters.HasResourceOrSpanWithCondition | internal/upstreamtsp/sampling/util.go:20-40 | sampled exactly when some resource or some span satisfies its test |
| Filters.InvertHasResourceOrSpanWithCondition | internal/upstreamtsp/sampling/util.go:42-61 | inverted form: sampled exactly when every resource and every span satisfies its (negated) test |
| Filters.HasSpanWithCondition | internal/upstreamtsp/sampling/util.go:64-73 | sampled exactly when some span of the flat list satisfies the test |
| Filters.HasInstrumentationLibrarySpanWithCondition | internal/upstreamtsp/sampling/util.go:75-88 | some span, or with invert all spans, of the scopes satisfy the test |
| PolicyEngine.InvertedScanIsComplement | internal/upstreamtsp/sampling/util.go:42-61 | a negated callback makes the inverted scan the exact complement for every trace, the empty one included |
| PolicyEngine.NumericEvaluate | internal/upstreamtsp/sampling/numeric_tag_filter.go:46-103 | the range scan, complemented exactly under invert_match |
| PolicyEngine.BooleanEvaluate | internal/upstreamtsp/sampling/boolean_tag_filter.go:38-77 | the equality scan, complemented exactly under invert_match |
| Filters.StringEvaluate | internal/upstreamtsp/sampling/string_tag_filter.go:100-152 | the string scan with the caching matcher decides as the uncached scan, complemented exactly under invert_match |
| Filters.StringMatcher.Match | internal/upstreamtsp/sampling/string_tag_filter.go:50-96 | whatever was asked before and whatever the cache kept, the answer is the uncached one |
| Filters.StringMatcher.Add | internal/upstreamtsp/sampling/string_tag_filter.go:62-70 | any eviction: the cache keeps only earlier entries and the new one |
| PolicyEngine.StatusEvaluate | internal/upstreamtsp/sampling/status_code.go:56-64 | sampled exactly when some span's status is listed |
| PolicyEngine.NewStatusCodeFilter | internal/upstreamtsp/sampling/status_code.go:29-53 | compiles exactly for a non-empty list of known names, to their codes |
| PolicyEngine.TraceStateEvaluate | internal/upstreamtsp/sampling/trace_state_filter.go:28-61 | sampled exactly when some span's tracestate has a listed value short enough to be kept |
| Filters.LatencyEvaluate | internal/upstreamtsp/sampling/latency.go:35-61 | the callback's captured variables across the nested scan with early exit are a fold over the flat list of spans |
| Filters.LatencyCallback | internal/upstreamtsp/sampling/latency.go:40-58 | one call of the closure: widened interval, then the window test |
| PolicyEngine.RunConjunction | internal/upstreamtsp/sampling/and.go:42-56 | sub-policies in order, the first error or non-match ends it: the outcome of the conjunction on the batch |
| PolicyEngine.BuildFilter | internal/sampling/evaluator.go:116-205 | a filter is built exactly for configurations that compile, and stands for that policy |
| PolicyEngine.Build | internal/sampling/evaluator.go:183-202 | a policy or conjunction is built exactly when each part compiles |
| PolicyEngine.NewEvaluator | internal/sampling/evaluator.go:63-73 | an evaluator results exactly when every policy compiles |
| PolicyEngine.Evaluator.Evaluate | internal/sampling/evaluator.go:85-114 | the loop over compiled policies on rebuilt pdata returns the reference result on the stored spans; an error in any policy is the evaluation's error |
| PolicyEngine.CollectMatchedNames | internal/sampling/decision.go:20-28 | names of matched policies in configuration order |
| PolicyMeaning.Verdict | internal/sampling/evaluator.go:85-114 | Evaluate by what its result means, with every policy type written out over the stored spans: a result exactly when no policy fails, listing each policy in order with whether it matches, KEEP exactly when one does; the filters' helper predicates are not used |
| PolicyMeaning.EvaluationMeans | internal/sampling/evaluator.go:85-114 | the engine's result means that for every configuration, library and list of spans: latency over some first spans, statuses by name, numbers, truth values, texts and patterns carried by a span or its resource, tracestate entries of at most 256 characters, hash against threshold, conjunctions with the first failure that is reached |
| PolicyMeaning.ExactStringKeeps | internal/upstreamtsp/sampling/string_tag_filter.go:79-104 | an exact-match string policy keeps a trace if and only if some stored span or its resource carries one of the values under the key, the empty text aside; inverted, if and only if none does |
| PolicyMeaning.DefaultKeepsErrors | internal/server/server.go:51-66 | the policy of a server without a configured wait keeps exactly the traces that have an error |
| PolicyMeaning.AcceptedExactly | internal/sampling/evaluator.go:116-205 | a configuration is accepted if and only if each policy and each part of a non-empty conjunction is of a known type, names known statuses, at least one, and has patterns and conditions that compile |
| PolicyAlgebra.NamesOfMatched | internal/sampling/decision.go:20-28 | the matched names are those of the policies that matched, one for each and in configuration order |
| LatencyPolicy.FoldIsSomePrefix | internal/upstreamtsp/sampling/latency.go:35-57 | for every trace: sampled exactly when some arrival-order prefix measures inside the window |
| LatencyPolicy.LatencyIsWholeDuration | internal/upstreamtsp/sampling/latency.go:35-57 | no upper threshold, no zero starts: sampled exactly when the whole trace's duration in milliseconds exceeds the threshold |
| LatencyPolicy.LatencyWindowIsSomePrefix | internal/upstreamtsp/sampling/latency.go:35-57 | with an upper threshold: exactly when the duration of some prefix is in the window |
| LatencyPolicy.ZeroStartExactly | internal/upstreamtsp/sampling/latency.go:40-46 | with zero starts the early exit answers for the whole trace exactly when the spans up to the last zero start, or those after it, alone measure as many milliseconds |
| LatencyPolicy.ZeroStartExample | internal/upstreamtsp/sampling/latency.go:40-46 | two stored spans that show 1005 ms and are not sampled by a threshold of 50 ms |
| LatencyPolicy.LatencyMatchesShownDuration | internal/trace/types.go:186-201 | the latency policy on the stored spans agrees with the duration Live Tail shows |
| LatencyPolicy.OutgrownWindowExample | internal/upstreamtsp/sampling/latency.go:35-57 | a trace that grew past the window is still sampled, and in the other order is not |
| PolicyAlgebra.AddingAPolicy | internal/sampling/evaluator.go:85-114 | inserting a top-level policy anywhere never turns KEEP into DROP and leaves the other results alone |
| PolicyAlgebra.AndMatchesAll | internal/upstreamtsp/sampling/and.go:42-56 | a conjunction matches exactly when each sub-policy does |
| PolicyAlgebra.AddingASubPolicy | internal/upstreamtsp/sampling/and.go:42-56 | inserting a sub-policy never makes a conjunction newly match |
| PolicyAlgebra.RaisingPercentages | internal/upstreamtsp/sampling/probabilistic.go:56-87 | raising percentages, alone or inside conjunctions, never turns KEEP into DROP, for a threshold that grows with the ratio |
| PolicyAlgebra.KeepMeansMatched | internal/sampling/evaluator.go:94-113 | KEEP exactly when some name is reported as matched |
| PolicyAlgebra.CompiledWithoutOTTLAnswers | internal/sampling/evaluator.go:85-114 | policies that compile and hold no OTTL condition never fail to evaluate |
| TraceTypes.ApproxSizeBytes | internal/trace/types.go:62-86 | overhead, texts and attribute entries summed, the same in any walk of the map |
| TraceTypes.AttributeBytesAnyOrder | internal/trace/types.go:68-73 | the attribute sum does not depend on the order of the walk |
| TraceTypes.SizeOfAttribute | internal/trace/types.go:57-86 | 128 bytes and the texts for a span without attributes; one more attribute adds its key and its text, 8 bytes for a number or truth value, 16 for the rest |
| TraceTypes.RootSpan | internal/trace/types.go:153-170 | the first parentless span, else the earliest and of equals the first; none exactly for no spans |
| TraceTypes.RootIsUnique | internal/trace/types.go:153-170 | no second span qualifies as root |
| TraceTypes.Duration | internal/trace/types.go:186-201 | latest end minus earliest start |
| TraceTypes.HasError | internal/trace/types.go:205-212 | exactly when some span has an error status |
| TraceStore.Store.Ingest | internal/trace/store.go:63-103 | for some walk of the incoming map: live records and list change exactly as specified, returned copies are the touched traces before eviction, index and list keep agreeing |
| TraceStore.Store.IngestExisting | internal/trace/store.go:75-85 | a known trace takes the spans, is re-opened if decided, moves to the back |
| TraceStore.Store.IngestNew | internal/trace/store.go:86-96 | an unknown id gets a fresh record at the back and in the index |
| TraceStore.Store.EvictLocked | internal/trace/store.go:218-234 | the loop computes the eviction of the specification and terminates on list length |
| TraceStore.Store.RemoveLocked | internal/trace/store.go:236-242 | the front leaves list, index and byte account, which cannot underflow |
| TraceStore.Store.DueForDecision | internal/trace/store.go:110-126 | exactly the RECEIVING traces of age decision_wait become READY and are returned as copies, front first |
| TraceStore.Store.ApplyDecision | internal/trace/store.go:131-143 | the live record becomes DECIDED with the result, or nothing changes when the id is gone |
| TraceStore.Store.SetRecord | internal/trace/store.go:149-155 | a callback's write to one live record changes that record alone |
| TraceStore.Store.All | internal/trace/store.go:159-168 | copies of every retained trace, oldest first |
| TraceStore.Store.Get | internal/trace/store.go:171-179 | the copy under the id, if it is retained |
| TraceStore.LiveTrace.Merge | internal/trace/store.go:75-84 | late spans are appended and re-open a decided trace |
| StoreSpec.EvictIsShortestPrefix | internal/trace/store.go:218-234 | eviction removes precisely the shortest prefix of the recency order after which all three bounds hold |
| Eviction.EvictsFewest | internal/trace/store.go:218-234 | in a consistent store it takes the fewest traces from the front after which at most max_traces are left, their bytes are at most max_memory, and the front one, if there is one, was last seen at most max_age ago |
| Eviction.OnlyTheOldAreEvicted | internal/trace/store.go:218-234 | in every run whose clock does not go back, a frame that leaves room by count and memory evicts exactly those untouched traces that were last seen more than max_age ago; the bounds are the configured ones or 10000 traces, 5 minutes, 512 MiB |
| StoreSpec.IngestConsistent | internal/trace/store.go:63-103 | every ingest keeps ids distinct, SizeBytes the sum of span sizes and totalBytes the sum of SizeBytes, and leaves the bounds holding |
| StoreSpec.IngestAllIs | internal/trace/store.go:68-99 | the merging loop leaves untouched traces in place and puts the touched ones behind them in walk order |
| StoreSpec.EveryRetainedIsYoung | internal/trace/store.go:213-234 | with a clock that does not go back every retained trace, not only the front, is within MaxAge |
| StoreSpec.SameTracesConsistent | internal/trace/store.go:131-155 | deciding and re-evaluating disturb neither order nor accounts |
| StoreSpec.ApplyAt | internal/trace/store.go:131-143 | applying a result under an id changes the one trace with that id |
| Confluence.IngestConfluence | internal/trace/store.go:68-102 | for any two walks of the incoming map the same untouched traces survive; if any does, or if all touched traces fit, every touched trace survives and both stores hold the same traces, bytes and eviction count |
| Confluence.UntouchedSuffice | internal/trace/store.go:218-234 | eviction stops before the touched traces if and only if they fit together |
| WalkOrder.WalkIndependentExactly | internal/trace/store.go:68-102 | all walks of the map leave the same traces if and only if the touched traces fit together within MaxTraces and MaxMemory, or none of them fits even alone |
| WalkOrder.WalkOrderMattersExample | internal/trace/store.go:68-102 | a store and a frame for which the walk decides which of two traces stays |
| Lifecycle.RunBounded | internal/trace/store.go:218-234 | in every run with a clock that does not go back, a frame leaves count, memory and every trace's age within bounds |
| Conservation.RunConserves | internal/server/collector_ws.go:165-181 | in every run spansReceived = spans retained + spans in evicted traces, and tracesReceived = Len + Evicted + traces counted a second time |
| Conservation.TracesConservedExactly | internal/server/collector_ws.go:173-181 | tracesReceived = Len + Evicted if and only if no frame brings spans for a retained trace first seen at the time of that frame |
| Conservation.TracesConserved | internal/server/collector_ws.go:173-181 | so with frames at distinct times, whenever ticks come |
| Scenarios.RecountedExample | internal/server/collector_ws.go:173-181 | two frames at one time: one trace, counted twice |
| Lifecycle.OncePerOpening | internal/trace/store.go:110-143 | between two returns of an id by DueForDecision, whatever the waits of the two calls, without eviction, lie an ApplyDecision and then an Ingest of it |
| Lifecycle.ReadyUntilReopened | internal/trace/store.go:110-143 | a READY trace becomes DECIDED only by ApplyDecision and RECEIVING only by spans after that |
| Lifecycle.StateMoves | internal/trace/store.go:74-143 | each operation moves a trace's state only along the lifecycle |
| Lifecycle.DueOfIs | internal/trace/store.go:114-125 | a call returns exactly the traces that are due |
| Deadlines.DecidedOnTime | internal/trace/store.go:109-126 | in every run a RECEIVING trace leaves that state at a tick if and only if decision_wait (30 s by default) has passed since its first span, whenever the last came, and is DECIDED if and only if it evaluates; so no retained trace is RECEIVING after a tick that long after its first span |
| Deadlines.AllOldAreDecided | internal/server/server.go:108-134 | with policies that evaluate every trace, after a tick each retained trace older than decision_wait is DECIDED |
| Deadlines.LateSpansReopen | internal/trace/store.go:75-99 | late spans are put behind the earlier ones; first sighting and verdict stay, a DECIDED trace is RECEIVING again, and an id without a record starts with the frame's own spans, PENDING |
| Lifecycle.RunNoEarlyVerdict | internal/server/server.go:106-134 | in every run no trace younger than decision_wait shows KEEP or DROP once that wait has passed since the policy was last replaced, nor in any run without a replacement |
| Lifecycle.TimedStepEarly | internal/server/server.go:106-134 | frames and ticks never show KEEP or DROP on a trace too young for it |
| Lifecycle.NewPolicyEarlyVerdictExactly | internal/server/server.go:150-161 | SetPolicy does; it shows none if and only if each trace younger than the new wait is undecided and fails to evaluate |
| Lifecycle.NewPolicyEarlyWhenYoung | internal/server/server.go:150-161 | for a policy that evaluates every trace: it shows none if and only if no retained trace is younger than the new decision_wait |
| Scenarios.EarlyVerdictExample | internal/server/server.go:150-161 | KEEP on a trace of age zero |
| PreviewServer.Server.HandleTraceFrame | internal/server/collector_ws.go:165-181 | the frame step on store, counters and broadcasts: every browser gets the touched traces in walk order |
| PreviewServer.CountSpans | internal/server/collector_ws.go:166-171 | the number of spans in the map |
| PreviewServer.AnyWalkCounts | internal/server/collector_ws.go:166-171 | every walk of the map counts the same spans |
| PreviewServer.Server.AnnounceTraces | internal/server/collector_ws.go:174-181 | one update per touched trace, and tracesReceived counts those first seen now |
| PreviewServer.Server.DecideDue | internal/server/server.go:108-134 | the tick step: every due copy evaluated, applied, counted and announced, then the statistics; nothing is sent when nothing is due |
| PreviewServer.Server.DecideTrace | internal/server/server.go:119-132 | one due copy: an error leaves it READY; a vanished trace is neither counted nor announced |
| PreviewServer.Server.SetPolicy | internal/server/server.go:139-167 | the policy step: nothing on a configuration that does not compile, else new evaluator, reset, every trace re-evaluated, DECIDED ones counted, three broadcasts |
| Deadlines.NewPolicyOnEach | internal/server/server.go:139-161 | a policy that compiles gives every retained trace that evaluates its own verdict, whatever the state, and leaves the rest of each record alone; one that does not compile changes nothing |
| PreviewServer.Server.ReevaluateTrace | internal/server/server.go:150-161 | one live trace re-evaluated and counted if DECIDED; an error leaves it alone |
| PreviewServer.Server.ComparePolicy | internal/server/compare.go:39-94 | the comparison of the store with a candidate, which changes nothing; an error exactly when the candidate does not compile |
| PreviewServer.Server.TakeSnapshot | internal/server/browser_ws.go:108-122 | summaries of all traces, the policy and the statistics |
| PreviewServer.Server.constructor | internal/server/server.go:71-82 | an empty server with the given evaluator, and no browsers |
| PreviewServer.New | internal/server/server.go:53-83 | an initial policy without a decision wait gives way to the default; a server results exactly when that compiles, empty and under it |
| ServerSpec.DecideDueIs | internal/server/server.go:108-134 | the loop over copies decides each due trace once and no other, and records one result per trace that evaluates |
| ServerSpec.ReevaluatedAtEnd | internal/server/server.go:150-161 | the walk over live traces re-evaluates each of them once |
| DecisionRuns.RunKeeps | internal/server/server.go:108-167 | decision consistency: after every serialised run each retained DECIDED trace carries what the current policy gives on its current spans, and the statistics are the totals of a log covering every such trace |
| DecisionRuns.StepKeeps | internal/server/server.go:108-167 | each step keeps that invariant, evaluation errors included |
| DecisionRuns.PolicyEstablishes | internal/server/server.go:139-161 | replacing the policy establishes it from any consistent store, with one observation per DECIDED trace that evaluates |
| DecisionRuns.StatisticsAgree | internal/statistics/statistics.go:51-75 | keep + drop = observed, observed covers every counted trace, keep is at most the sum of match counts, and each count is at most keep when names are distinct |
| Statistics.CountsWithinKeptExactly | internal/statistics/statistics.go:51-67 | over all logs, every count is at most keep if and only if policy names are distinct |
| Scenarios.SharedNameExample | internal/statistics/statistics.go:62-66 | a run of the real engine that keeps one trace and counts the name of two policies twice |
| EndToEnd.ObservedCoversDecided | internal/statistics/statistics.go:51-75 | observed never falls below the number of retained DECIDED traces, and equals it after SetPolicy |
| Statistics.Engine.Record | internal/statistics/statistics.go:51-67 | the counters after one result |
| Statistics.RecordAllIs | internal/statistics/statistics.go:51-67 | from zero, the counters are the totals of the recorded log |
| Statistics.MatchesAtMostKept | internal/statistics/statistics.go:51-67 | with distinct names no policy's count exceeds keep |
| Statistics.KeptAtMostMatches | internal/statistics/statistics.go:51-67 | keep is at most the sum of the match counts |
| Compare.CompareTraces | internal/server/compare.go:45-94 | the five counters are the sizes of the populations they name, among the DECIDED traces |
| Compare.TallyTrace | internal/server/compare.go:46-88 | what one trace adds to the counters |
| CompareRuns.CompareArithmetic | internal/server/compare.go:39-94 | each side is keep + drop; error_traces_newly_dropped at most newly_dropped at most current keep; newly_kept at most current drop |
| CompareRuns.ChangesAccountExactly | internal/server/compare.go:71-88 | candidate keep - current keep = newly_kept - newly_dropped if and only if the candidate evaluates every kept trace without error |
| CompareRuns.SelfCompare | internal/server/compare.go:29-38 | after any run, comparing the active policy with itself reports no change |
| CompareRuns.CompareForecasts | internal/server/compare.go:29-38 | adopting the candidate puts exactly the candidate side's numbers into the statistics |
| CompareRuns.ChangesExactly | internal/server/compare.go:61-88 | a change counter is zero if and only if no DECIDED trace changes that way, and every newly dropped trace counts as an error trace if and only if each has an error span |
| CompareRuns.RatesAreShares | internal/server/compare.go:90-94 | each rate times the observed is the kept |
| Messages.ToSummary | internal/server/convert.go:11-26 | the summary of a trace |
| Display.StoredAsReceived | internal/trace/assembler.go:33-69 | the stored spans of an id are the raw ones, one for one and in order: ids, parents, name, kind, times, status, tracestate, counts and service; one is another's parent exactly when it was sent as that; and the well-known keys say the same |
| Display.ShownAsReceived | internal/server/convert.go:11-26 | after every run a row shows the raw spans received since the record was created: how many, the name and service of the first without a parent or else of the earliest, the time from first start to last end, whether one has an error; and the times of the frame that created it and of the last |
| Messages.ApplyServerMsg | web/src/state.tsx:77-141 | the reducer, message by message |
| Browsers.Hub.Broadcast | internal/server/browser_ws.go:124-140 | each connected browser gets the message, so each holds its snapshot and everything broadcast since |
| Browsers.Hub.Join | internal/server/browser_ws.go:36-52 | a browser starts with a snapshot |
| Browsers.Hub.Leave | internal/server/browser_ws.go:70-74 | a browser that is gone gets nothing more, and the others lose nothing |
| Replica.ReplicaFollows | web/src/state.tsx:77-141 | a browser joining at any consistent state and receiving everything in order shows every retained trace, the active policy and the statistics; a READY trace it may show as RECEIVING |
| Replica.ReplicaIsExact | internal/server/browser_ws.go:108-172 | without evaluation errors its summary of each retained trace is exactly toSummary of it |
| Replica.TickLeavesBehindExactly | internal/server/server.go:119-124 | a tick leaves a browser behind on a trace if and only if that trace was due and failed to evaluate |
| Scenarios.LeftBehindExample | internal/server/server.go:119-124 | a failing condition: READY on the server, RECEIVING in the browser |
| EndToEnd.EngineAnswers | internal/sampling/evaluator.go:85-114 | OTTL-free policies that compile meet the error-freeness ReplicaIsExact asks for |
| Replica.FrameInStep | internal/server/collector_ws.go:173-181 | updates sent from copies taken before eviction leave the browser in step |
| Replica.TickInStep | internal/server/server.go:108-134 | so do the verdicts and statistics of a tick |
| ReplicaSteps.AtRestExactly | internal/server/collector_ws.go:173-181 | copies, decisions and snapshots made under the lock and sent in any order after it: with nothing under way, a browser's row of a retained trace is right if and only if the last message that told the whole row shows the record's facts, and the verdict told after it, or else its own, is the record's |
| ReplicaSteps.InOrderIsRight | internal/server/collector_ws.go:173-181 | sent in the order of the record's changes, they leave the row right, whatever frames, decisions, policies, evictions and joins there were |
| ReplicaSteps.StepKeeps | internal/server/server.go:108-167 | each step keeps that every frame and decision since the browser registered has been told or is about to be, and that a snapshot from after the last policy is, unless one is still to be built |
| ReplicaSteps.RowIsReduced | web/src/state.tsx:77-141 | the row machine does to one row what the reducer does with trace.updated, trace.decided and snapshot |
| ReplicaSteps.LateUpdateExample | internal/server/collector_ws.go:173-181 | a trace.updated sent after a later trace.decided leaves a DECIDED KEEP shown as PENDING |
| Interleaving.DecisionsJustified | internal/server/server.go:108-167 | with frames and SetPolicy between the separately locked steps of decideDue, every KEEP or DROP is what some installed policy gives on some prefix of the trace's spans, unless the record took the result of a copy made before it was born |
| Interleaving.MistakenOnlyByOldCopy | internal/trace/store.go:131-143 | such a record was created after the copy whose result it took |
| Interleaving.PerformKeeps | internal/server/server.go:108-167 | each locked step keeps the invariant: copies in hand are prefixes of the records they were made of |
| Interleaving.UninterruptedTick | internal/server/server.go:108-134 | the locked steps of a tick without interruption are the serialised tick |
| Interleaving.UninterruptedPolicy | internal/server/server.go:139-161 | so are those of SetPolicy |
| InterleavedStatistics.AtRestCovers | internal/server/server.go:125-161 | resets, walks and recordings interleaved as well, with only policies installed that evaluate every trace: once all results are recorded and no reset waits for its walk, observed is keep + drop and at least the number of retained DECIDED traces |
| InterleavedStatistics.EngineAtRestCovers | internal/server/server.go:125-161 | so it is for this engine as long as no OTTL condition is installed |
| InterleavedStatistics.StepCovers | internal/server/server.go:125-161 | each step keeps that, counting what is applied and not yet recorded |
| InterleavedStatistics.WalkCountsExactly | internal/server/server.go:148-161 | after a walk over the store, observed with what is still to be recorded is the number of DECIDED traces if and only if it was zero before |
| InterleavedStatistics.OneWalk | internal/server/server.go:139-161 | a SetPolicy call that nothing interrupts ends with observed equal to the number of DECIDED traces |
| InterleavedStatistics.TwoWalks | internal/server/server.go:139-161 | two calls whose resets both come before their walks end with twice that number |
| EndToEnd.EngineIsRegular | internal/sampling/evaluator.go:78-114 | a result of this engine lists the policies in order, is KEEP exactly when one matched, and depends on the policies and the spans alone |
| LastWriter.AppliesAgreesExactly | internal/server/server.go:119-132 | over all regular engines, applying a copy's result leaves its record in agreement with the policy in force if and only if the evaluator in hand has the same policies and, unless there are none, the copy has all the record's spans; another decision_wait makes no difference |
| LastWriter.RunWritten | internal/server/server.go:108-167 | after every interleaving each record shows the verdict of its last writer, a policy and the spans it saw; without a writer it is undecided |
| LastWriter.RunAlike | internal/server/server.go:108-167 | engines that compile and fail alike go through the same schedule with the same writers |
| LastWriter.LastWriterDecides | internal/server/server.go:108-167 | over all regular engines that fail alike, a DECIDED record agrees with the policy in force if and only if its last writer had the same policies and, unless there are none, all its present spans, or the policy in force fails on them |
| LastWriter.LastWriterJustifies | internal/server/server.go:108-167 | and its verdict is an installed policy's on a prefix of its spans if and only if the spans its last writer saw are such a prefix, as they are unless it took the result of an earlier record's copy, or the writer had no policies at all and an evaluation of none succeeds on a prefix |
| Races.LateSpanExample | internal/server/server.go:119-132 | a span arriving between DueForDecision and ApplyDecision: DECIDED, but not as the policy says of the present spans |
| Races.OvertakenPolicyExample | internal/server/server.go:108-148 | an evaluator read before SetPolicy overwrites the new policy's KEEP with its own DROP |
| Races.BornAgainExample | internal/trace/store.go:131-143 | an id evicted and re-created meanwhile takes a verdict no installed policy gives on any prefix of its spans |
| Exporter.TailExporter.ConsumeTraces | exporter/tailpreviewexporter/exporter.go:104-124 | one call: refused when paused, unserialisable or full, else queued |
| Exporter.TailExporter.WriteNext | exporter/tailpreviewexporter/exporter.go:84-98 | one round of the writer |
| Exporter.TailExporter.constructor | exporter/tailpreviewexporter/exporter.go:48-60 | an empty queue of the configured capacity |
| Exporter.ExporterAccounts | exporter/tailpreviewexporter/exporter.go:84-124 | in every interleaving of any number of producers and the writer: calls started = sent + dropped + queue + in flight + held; queue within capacity; frames written a subsequence of frames accepted; each counter equal to the truth but for the operations not yet counted, so queueSize is negative exactly when more enqueues are uncounted than payloads are queued or just taken |
| Exporter.FillsUp | exporter/tailpreviewexporter/exporter.go:47-58 | an exporter nobody reads from takes exactly the configured number of payloads, 1000 by default, and drops the rest |
| Exporter.AtRestExact | exporter/tailpreviewexporter/exporter.go:84-124 | at rest the counters are exact |
| Exporter.PerformKeeps | exporter/tailpreviewexporter/exporter.go:84-124 | each channel or counter operation keeps the accounts |
| Exporter.EveryOperationIsProgress | exporter/tailpreviewexporter/exporter.go:84-124 | without new calls every operation brings the exporter nearer to rest |
| Exporter.SomethingIsPossible | exporter/tailpreviewexporter/exporter.go:84-124 | until the writer is stopped some operation is possible, except at rest with an empty queue: no producer ever waits |
| Exporter.NegativeQueueSizeExample | exporter/tailpreviewexporter/exporter.go:88-121 | queueSize can be -1 while a producer has not counted a payload already taken |
| Exporter.ConsumedIsASchedule | exporter/tailpreviewexporter/exporter.go:104-124 | an uninterrupted call is a schedule of the operations |
| Exporter.WrittenIsASchedule | exporter/tailpreviewexporter/exporter.go:84-98 | an uninterrupted round is one too |
| Session.Manager.Start | internal/session/session.go:74-87 | from IDLE only: STREAMING under a fresh id and start time, announced once |
| Session.Manager.Pause | internal/session/session.go:91-102 | from STREAMING only, to PAUSED; id and start time stay |
| Session.Manager.Resume | internal/session/session.go:105-116 | from PAUSED only, to STREAMING; id and start time stay |
| Session.Manager.Stop | internal/session/session.go:120-134 | from STREAMING or PAUSED; the announcement names the session that ended |
| Session.SessionKeepsItsStart | internal/session/session.go:74-134 | while a session lives its id and start time are those of its Start, and an idle manager has no id |
| Session.ResumeUndoesPause | internal/session/session.go:91-116 | pausing a streaming session stops the stream, and resuming then gives back the very session |
| Session.StopEndsTheSession | internal/session/session.go:120-134 | stopping a live session leaves the manager idle and without an id |
| Session.RefusedChangesNothing | internal/session/session.go:74-134 | a command in a state that does not take it changes nothing |
| Controls.ConnectionManager.HandleControlMessage | exporter/tailpreviewexporter/connection.go:183-202 | pause and stop set the flag, resume and start clear it, nothing else touches it |
| Controls.ConnectionManager.Open | exporter/tailpreviewexporter/connection.go:116-124 | a new connection starts unpaused |
| Controls.ConnectionManager.Close | exporter/tailpreviewexporter/connection.go:126-132 | a closed connection leaves the flag as it was |
| Controls.ConnectionManager.ReadAll | exporter/tailpreviewexporter/connection.go:170-181 | reading messages in order folds them over the flag |
| PauseProtocol.SerialPauseIsRight | internal/server/server.go:173-202 | transitions and joins as single steps: a joined exporter with a drained channel is paused exactly when the session is not STREAMING |
| PauseProtocol.CommandsReach | internal/server/server.go:173-202 | after an allowed Start or Resume each joined exporter that has read everything forwards, after Pause or Stop none does |
| PauseProtocol.SerialKeeps | internal/server/server.go:173-202 | at every moment, folding what is under way over the flag gives just that |
| PauseProtocol.ReadsOn | exporter/tailpreviewexporter/connection.go:170-181 | a connection manager that reads on through what is under way ends with the right flag |
| PauseSteps.NothingMissed | internal/session/session.go:84-86 | message by message: at rest no exporter has missed the current state |
| PauseSteps.FlagOfLastTold | internal/server/server.go:173-191 | its flag is that of the state the last step sending to it told it of |
| PauseSteps.AtRestExactly | internal/server/server.go:173-191 | so the flag is right if and only if that state is as good as the current one |
| PauseSteps.InOrderIsRight | internal/server/server.go:173-191 | told in the order of the transitions, the flag is right |
| PauseSteps.PerformKeeps | internal/server/server.go:173-191 | each step keeps: every transition since registration has been told or is owed |
| PauseSteps.OvertakingExample | internal/session/session.go:147-154 | Start and Pause announced the other way round leave an exporter forwarding in a paused session |
| PauseSteps.JoinRaceExample | internal/server/collector_ws.go:86-93 | a session state read before and sent after a transition leaves an exporter paused in a streaming session |
| LiveTail.Parse | internal/query/filter.go:28-35 | the terms of the query's words |
| LiveTail.ParseTerm | internal/query/filter.go:37-55 | key, operator and text of one word |
| LiveTail.Match | internal/query/filter.go:60-67 | every term has to match |
| LiveTail.MatchTerm | internal/query/filter.go:69-85 | one term, by its key |
| LiveTail.MatchAttribute | internal/query/filter.go:119-133 | some span displays the text under the key |
| LiveTail.BrowserParseTerm | web/src/filter.ts:32-47 | the browser's parser of one word, with its own loop over the operators |
| LiveTail.SameTerms | web/src/filter.ts:25-47 | the browser reads every query as the server does |
| LiveTail.SameWords | web/src/filter.ts:25-30 | the browser's split and filter cut a query into the same words as strings.Fields |
| LiveTail.FilterSandwich | web/src/filter.ts:10-18 | on status, service and free text a browser match implies a server match; on status, service and attributes a server match implies a browser match; on status and service they coincide |
| LiveTail.TermSandwich | web/src/filter.ts:53-69 | the same term by term |
| Queries.WordsOf | internal/query/filter.go:28-35 | the words of a query are not empty, hold no white space, and nothing but white space is lost |
| Queries.ComparisonsRead | internal/query/filter.go:37-55 | >= and <= are read whole, before > and < |
| Queries.AttributeQuery | internal/query/filter.go:119-133 | key:text lists exactly the traces with a span that shows the text under the key, in upper or lower case; so a text copied from an attribute finds its trace |
| Queries.StatusQuery | internal/query/filter.go:75-77 | status:error lists exactly the traces with an error, any other word the rest |
| Queries.ServiceQuery | internal/query/filter.go:80-81 | service:text lists exactly the traces whose service has the text in it |
| Queries.TextQuery | internal/query/filter.go:87-97 | a plain word lists exactly the traces whose service or one of whose spans has it in the name |
| Queries.DurationTerms | internal/query/filter.go:99-117 | the five comparisons of the duration in nanoseconds; a text that is no duration lists nothing |
| Queries.DurationLaws | internal/query/filter.go:99-117 | > and <= are complements, as are >= and <; a longer duration lists no more |
| Queries.DurationSandwich | web/src/filter.ts:81-114 | on durations the browser, in whole milliseconds, shows no row under > and >= that the server does not list, and under < and <= every row it lists; for whole milliseconds >= and < agree |

## Left out

- OTTL conditions: an arbitrary function of the spans that may fail. Fidelity and error-freeness are claimed for configurations without them; all other run theorems include them.
- rate_limiting: its token bucket is outside the repository and its state is not a function of the trace; configurations with it are not modelled.
- Interleaving.UninterruptedTick: states the store's share; the statistics of a tick are in ServerSpec.DecideDueIs, and interleaved in InterleavedStatistics.
- Interleaving.UninterruptedPolicy: likewise without the statistics.
- InterleavedStatistics.AtRestCovers: bounds observed from below only, for policies that evaluate every trace; InterleavedStatistics.TwoWalks shows a count above the number of traces.
- PolicyAlgebra.RaisingPercentages: assumes that the threshold grows with the ratio; big.Float rounding is not modelled.
- LiveTail.FilterSandwich: covers ASCII text; duration terms are in Queries.DurationSandwich, for texts that both parsers read alike (the browser's grammar is smaller) and durations that are not negative.
- PauseSteps.AtRestExactly: a send that fails closes its connection; heartbeats are in PauseProtocol only, since they do not touch the flag.
- Exporter.ExporterAccounts: whether a frame whose write failed arrived all the same is not modelled; a write that succeeds counts as sent.
- PolicyEngine.Rehydrate: the marshalled size that rehydrateTraceData also returns is not modelled; no policy here reads it.
- PolicyEngine.BuildFilter: rate_limiting is not among the types, and whether an OTTL condition compiles is an arbitrary predicate.
- TraceTypes.ApproxSizeBytes: the length of a string stands for its length in bytes.
- Assembler.ToSpan: for a resource without service.name the code reads AsString of a zero value; the model has asString(Empty), the result of an arbitrary function.
- Browsers.Hub.Join: registering a browser and sending its snapshot are one step, so no broadcast comes between; ReplicaSteps takes them apart.
- Controls.ConnectionManager.Open: the hello that follows the reset is not modelled.
- TraceStore.Store.SetRecord: ForEachMutate hands a live pointer to a callback; the model has the one callback of SetPolicy, which writes decision and matched policies.
- TraceStore.LiveTrace.Merge: a record is one value in one mutable cell, so a copy is the value; slices shared between a record and its clone do not arise.
- Filters.StringMatcher.Add: groupcache's least-recently-used order is left open; any entries may be dropped.
- Time in the store is an unbounded integer; saturation of time.Time.Sub is modelled where spans' own timestamps are subtracted, not for ages of records.
- Byte, span and exporter counters are unbounded; wrap-around of uint64 and int64 counters is not modelled.
- Attribute values of byte, slice and map kind are one opaque kind, and AsRaw and FromRaw are inverse on all kinds.
- The sampling rate of the statistics panel is not part of the model; that of Policy Compare is a real quotient.
- WebSocket, HTTP, JSON, YAML and protobuf plumbing, the frame header, reconnection and back-off, ping and pong timing.
- The collector list, session panel and notices of the browser are updated in the reducer but nothing is claimed of them.
- Trace details, React components, charts, the policy assistant, the CLI and the collector build.
- WriteEffectiveThreshold and the attribute helpers of util.go, which nothing here calls.
