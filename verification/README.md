# Traffic control, breakers, rule advice and search, verified

A Dafny model of the parts of the repository that keep state or search:

- the global router's two per-IP rate limiters, the settings they are made from, its
  circuit breaker with the middleware that drives it, and its metrics
  (`deploy/global-router`);
- the anomaly detector of the Go SDK (`sdks/go`);
- the dashboard's rule conflict detector, fuzzy search and recent items
  (`dashboard/src/components`), with the walk over the rules by which the server
  (`server/internal/eval`) picks the one that serves a user.

`dafny verify dfyconfig.toml` checks everything.

## How it is built

Each stateful component comes in three layers. The first is a specification: state as a
value, one step as a function or relation, and a run as a sequence of steps. The second
is a class or a method in the source's own form, with fields overwritten in place and
loops over maps and lists, whose contracts tie it to the steps. The third is a set of
theorems about every run.

| files | subject |
|---|---|
| `Common`, `Timeline`, `Traffic`, `Crowds` | time, sorted histories, and runs of any per-IP limiter |
| `SlidingWindow`, `SlidingRuns`, `SlidingGuarantees`, `SlidingMemory`, `SlidingContents`, `SlidingShadow`, `SlidingCleanup`, `SlidingTicks`, `RateLimiter` | the sliding-window limiter |
| `LeakyBucket`, `LeakyRuns`, `LeakyGuarantees`, `LeakyDenials`, `LeakyBucketLimiter` | the leaky-bucket limiter |
| `RateSettings` | reading "100/min", and the limiters made from it |
| `CircuitBreaker`, `BreakerGuarantees`, `BreakerPhases`, `CircuitMetrics`, `CircuitBreakerHandler` | the breaker, its middleware and its gauges |
| `MetricsKeys`, `RequestMetrics`, `MetricsRecorder` | metric keys, counters and histograms |
| `TargetingRules`, `OperatorMeaning`, `RuleConflicts`, `ConflictCounts`, `ConflictAdvice`, `AdviceSafety`, `AdviceServing` | conflict reports, and what the advice to delete shadowed rules does to the rules that match and serve |
| `AnomalyDetector`, `AnomalyGuarantees`, `AnomalyCounts`, `AnomalyRecorder` | anomaly windows and suppressed warnings |
| `FuzzySearch`, `FuzzyStreaks`, `RecentItems` | command palette scoring and recent items |

Time is a parameter of every step and does not go back; each critical section reads the
clock once. A locked method body is one atomic step. Observing a request has two
critical sections, so it is two steps, and a circuit-broken request is an arrival and a
later report. Go maps are iterated in an arbitrary order, so eviction is a relation: any
entry with the earliest time may go.

## Where the code differs from its documentation

The model follows the code; where a difference shows in its behaviour, a lemma states it.

- A half-open breaker admits one request more than `HalfOpenMaxRequests`, because the one
  that leaves the open state is not counted (`circuit.go:38-39` against `:121-130`):
  `ProbeBoundTight`. Any report settles it, not only a probe's: `LateReportCloses`,
  `PhaseSettledByProbesIff`. Why any phase ends, and what follows: `PhaseEndsIff`.
- A reader would expect a denial to leave no trace. In the leaky bucket it refreshes the
  bucket and can so decide who is evicted: `DenialsErasableIff`. In the sliding window it
  changes nothing: `DenialChangesNothing`.
- Eviction forgets admissions. Each limiter's bound holds in all runs of given callers
  exactly when they have room: `WindowBoundIff`, `TrafficBoundIff`.
- The leaky bucket's cleanup is meant to remove dry, idle buckets (`security.go:443`) but
  never removes any: `CleanupRemovesNothing`, `DryBucketKept`.
- Both maps are meant to be bounded by `maxIPs`. An entry of the empty string, which IP
  extraction can return, is never evicted and shields the others while it is the oldest:
  `PeakIff`, `LimitKeptIff`. It is also the one way in which the sliding window's cleanup
  can change a verdict: `CleanupIsLossless`,
  `CleanupCanMatter`, `TicksCanMoveIff`.
- The open gauge is kept by target, not by domain: it is right about all breakers exactly
  when targets are distinct (`GaugeFaithfulIffDistinct`).
- Metric keys are joined by pipes and not escaped: `AccountedIff`, and `LabelsExact` for
  requests and for transitions.
- Anomaly settings that are zero or negative are not replaced by defaults
  (`anomaly.go:52-53` against `:131-137`), a threshold is reached by "at least", not "more
  than" (`:93-98` against `:167` and `:195`), and the drift window is never used:
  `AlwaysWarnsIff`, `NeverWarnsIff`, `DriftWindowUnused`.
- A condition without values is reported as one that may never match, yet the dashboard's
  own `evaluateCondition` says it always does if its operator is negative:
  `ImpossibleIffNotNegative`, `NeverMatchesIff`. The server's operators are others: there
  such a "neq" never holds (`rules.go:69-71`).
- Deleting shadowed rules by identifier keeps the first matching rule only of the sample
  users (`AdviceIsAboutTheSample`), and of them if identifiers do not clash:
  `AdviceSafeIff`, `SharedIdLosesFirstMatch`.
- A shadowed rule is said to have all its users caught by the one before it
  (`rule-conflict-detector.tsx:188`), but the server goes on past a rule whose rollout
  does not reach the user's bucket (`engine.go:118-140`). The advice can so take the rule
  that serves a sample user: `PartialRolloutLoses`. When it does not is stated by
  `ServiceKeptIff`, `DistinctServiceKeptIff` and `ServiceSafeIff`.
- A scattered match can outscore a substring from six characters on and an exact match
  from seven on: `SubstringsFirstIffShort`, `ExactFirstIffShort`.
- Without a slash the two rate parsers fall back to slightly different rates:
  `SameRateIff`.

## Model

| member | source | states |
|---|---|---|
| `SlidingWindow.RefinesNaive` | deploy/global-router/security.go:245-304 | Over every run of calls and cleanups, each verdict (admitted, remaining, reset, retry time) is the one a limiter gives that keeps all of the IP's admissions since its last eviction and counts those in the closed window ending now |
| `SlidingWindow.RunInvariant` | deploy/global-router/security.go:245-332 | After every run each stored list is sorted, spans at most one window and holds exactly the admissions its next pruning needs |
| `SlidingWindow.RunPruned` | deploy/global-router/security.go:259-268 | Pruning an IP's stored list at any later time gives exactly its admissions in that time's window |
| `SlidingWindow.SweepKeeps` | deploy/global-router/security.go:315-326 | Deleting the lists whose front is over two windows old keeps the invariant with the full history: all they held had expired |
| `SlidingWindow.CallOutcome` | deploy/global-router/security.go:257-279 | One call in terms of the pruned list: the verdict, and the new list of the caller unless it is evicted |
| `SlidingGuarantees.WindowBound` | deploy/global-router/security.go:270-278 | As long as an IP is not evicted, every closed interval of one window holds at most limit of its admissions |
| `SlidingGuarantees.WindowBoundIff` | deploy/global-router/security.go:270-301 | In every run of given callers every window of every IP holds at most limit admissions, exactly when the map has no limit or there are no more callers than maxIPs |
| `SlidingGuarantees.WindowBoundForAllIff` | deploy/global-router/security.go:281-301 | Whoever calls, the bound holds in every run exactly when maxIPs is not positive |
| `SlidingGuarantees.RoomyWindows` | deploy/global-router/security.go:281-301 | A run with no more callers than maxIPs keeps the bound |
| `SlidingGuarantees.EvictionForgets` | deploy/global-router/security.go:281-301 | For every configuration and every set of more callers than maxIPs, some run of them breaks the bound |
| `SlidingRuns.CrowdedRun` | deploy/global-router/security.go:281-301 | With more callers than maxIPs one of them can be admitted at one instant any number of times, evicted each time in favour of entries as old as its own |
| `SlidingGuarantees.RetryExact` | deploy/global-router/security.go:270-275 | After a denial and without an eviction of that IP the retry time lies between 0 and the window, every call up to and including it is denied, and the first later one is admitted |
| `SlidingGuarantees.FullWindow` | deploy/global-router/security.go:270-275 | At a denial the window ending now holds exactly limit admissions of that IP |
| `SlidingGuarantees.RemainingExact` | deploy/global-router/security.go:277-279 | After an admission and after a denial, remaining is exactly the number of further calls that would be admitted at the same moment |
| `SlidingGuarantees.ResetExact` | deploy/global-router/security.go:251 | After every verdict the reset time is the one from which on, and no sooner, the window is empty whatever was admitted before, if nothing more is; after an admission it is not empty up to then |
| `SlidingGuarantees.AnswersExact` | deploy/global-router/security.go:245-279 | Every call of every run: admitted exactly when fewer than limit admissions of its IP since its last eviction are in the closed window; remaining, reset and, if admitted, retryAfter are what they say |
| `SlidingContents.StoredIsLastWindow` | deploy/global-router/security.go:253-279 | In every run a stored list is exactly what was in the window when its IP last called, of the admissions no eviction has forgotten |
| `SlidingContents.CleanupDropsIff` | deploy/global-router/security.go:315-326 | A cleanup drops exactly the IPs whose oldest admission in their last call's window is more than two windows old, and leaves the other lists as they were |
| `SlidingGuarantees.IpsAreIsolated` | deploy/global-router/security.go:245-332 | Two runs that agree on one IP's call times and evictions give it the same verdicts, whatever other IPs do and wherever cleanups run |
| `SlidingCleanup.CleanupIsLossless` | deploy/global-router/security.go:307-332 | For every run of given callers some run without cleanups makes the same calls with the same verdicts, exactly when the map has no limit, the empty string does not call, or the callers are at most maxIPs + 1 |
| `SlidingTicks.TicksCanBeAddedIff` | deploy/global-router/security.go:307-332 | For every run of given callers without cleanups and any times for ticks, some run with those ticks makes the same calls with the same verdicts, for exactly the same callers |
| `SlidingTicks.TicksCanMoveIff` | deploy/global-router/security.go:307-332 | For exactly the same callers, the ticks of any run can be moved, added and left out at will with every verdict kept |
| `SlidingTicks.TickedRun` | deploy/global-router/security.go:281-332 | The run with ticks is built step by step: its lists are those of the uncleaned map that start after some time, so an eviction there takes a list that this map has dropped, or the two maps are equal and evict the same |
| `SlidingTicks.TickCanMatter` | deploy/global-router/security.go:298-326 | For all other callers some run has calls that, with one tick put in after the first, no run answers in the same way |
| `SlidingCleanup.UncleanedRun` | deploy/global-router/security.go:281-332 | The run without cleanups is built step by step: its map has the lists of the cleaned one and others that are wholly expired and start before all of them |
| `SlidingShadow.EvictionShadow` | deploy/global-router/security.go:283-300 | When an eviction is due, the uncleaned map loses one of those dropped lists as long as it has one, and otherwise the same entry |
| `SlidingShadow.OldListExpired` | deploy/global-router/security.go:315-326 | A stored list that starts more than two windows ago holds expired timestamps only |
| `SlidingCleanup.CleanupCanMatter` | deploy/global-router/security.go:298-326 | Otherwise some run with a cleanup gives a verdict no run without it gives: the empty string's old entry, had it stayed, would have kept everyone else from being evicted |
| `SlidingMemory.RunPopulated` | deploy/global-router/security.go:253-279 | No reachable map holds an empty list |
| `SlidingMemory.BoundedMemory` | deploy/global-router/security.go:281-301 | As long as no caller is the empty string the map never holds more than maxIPs entries, in every run |
| `SlidingMemory.NewcomerAdmitted` | deploy/global-router/security.go:253-278 | An IP without an entry is always admitted, so the early return of a denial never skips an eviction that is due |
| `SlidingMemory.EvictsOldest` | deploy/global-router/security.go:281-301 | An admission that takes the map over its limit drops exactly one entry, none before it having an earlier front, unless the empty string's entry is such a one; nothing else is ever evicted |
| `SlidingMemory.PeakIff` | deploy/global-router/security.go:281-301 | The map keeps to n entries in every run of given callers exactly when n is at least their number, or at least maxIPs if that is positive and the empty string does not call |
| `SlidingMemory.LimitKeptIff` | deploy/global-router/security.go:298-300 | The map keeps to maxIPs entries in every run of given callers exactly when the empty string is not among them or there are no more of them than maxIPs |
| `RateLimiters.RateLimiter.constructor` | deploy/global-router/security.go:234-241 | A new limiter has the given settings, an empty map and no history |
| `SlidingMemory.EmptyCallerUnbounded` | deploy/global-router/security.go:298-300 | Callers that include the empty string can all be in the map at once, however many they are |
| `SlidingMemory.DenialChangesNothing` | deploy/global-router/security.go:259-275 | A denial leaves the map exactly as it was, so the denied call can be dropped from any run with every other verdict kept |
| `RateLimiters.RateLimiter.RemoveExpired` | deploy/global-router/security.go:259-268 | The loop leaves exactly the entries from the window start on, and touches no other list |
| `RateLimiters.RateLimiter.EvictOldest` | deploy/global-router/security.go:281-301 | The loop over the map removes the entry with the earliest front and every empty list, nothing else |
| `RateLimiters.RateLimiter.Admit` | deploy/global-router/security.go:253-301 | The call performs one step of the specification, whose answers are settled by AnswersExact and whose map by StoredIsLastWindow and EvictsOldest |
| `RateLimiters.RateLimiter.Allow` | deploy/global-router/security.go:245-304 | The call extends the recorded run; it is admitted exactly when its window holds fewer than limit of the caller's admissions since its last eviction, resets one window from now, and answers remaining 0 at a denial and no retry time at an admission |
| `RateLimiters.RateLimiter.Cleanup` | deploy/global-router/security.go:312-327 | A tick removes exactly the lists that are empty or whose front is over two windows old, and extends the recorded run |
| `Traffic.ReplayAgrees` | deploy/global-router/security.go:243-304 | What an IP sees of a shared limiter that follows a policy is what the policy does for it alone |
| `Traffic.Isolation` | deploy/global-router/security.go:243-332 | For any policy: equal call times and evictions of one IP give it equal verdicts |
| `Traffic.DenialLeavesNoTrace` | deploy/global-router/security.go:270-275 | For a policy run alone on one IP's requests and evictions: a denied request can be deleted without changing any other verdict |
| `Traffic.DenialsAreTransparent` | deploy/global-router/security.go:270-275 | Two runs whose inputs for one IP, evictions included, differ by a denied request differ in its verdicts by that denial and nothing else |
| `Timeline.ExpireIsInSpan` | deploy/global-router/security.go:259-268 | Removing the front of a sorted list selects exactly the entries in the window |
| `LeakyBucket.RefinesLevel` | deploy/global-router/security.go:380-432 | Over every run the lazily leaked, evicted map decides every call by the level of the caller's own admissions, a quantity that falls at a constant rate and knows neither denials nor cleanups |
| `LeakyBucket.RunInvariant` | deploy/global-router/security.go:392-412 | After every run each stored water is that level at its last leak, at least 1 and below capacity + 1 |
| `LeakyBucket.DrainTwice` | deploy/global-router/security.go:392-396 | Leaking over two consecutive spans is leaking once over their sum |
| `LeakyBucket.LevelClosedForm` | deploy/global-router/security.go:392-409 | The level is the largest load of any suffix of the admissions, or zero |
| `LeakyBucket.LevelLeaks` | deploy/global-router/security.go:392-396 | Between admissions the level at a later time is the earlier level drained over the span |
| `LeakyRuns.RoomyRunsIff` | deploy/global-router/security.go:380-432 | With no more callers than maxIPs the runs of the limiter are exactly the sequences of calls and ticks, in order and without evictions, that follow the level policy |
| `LeakyGuarantees.TrafficBound` | deploy/global-router/security.go:398-412 | As long as an IP is not evicted, any span of length T holds fewer than capacity + 1 + rate * T of its admissions |
| `LeakyGuarantees.TrafficBoundIff` | deploy/global-router/security.go:398-429 | In every run of given callers every span of every IP keeps that bound, exactly when there are no more callers than maxIPs |
| `LeakyGuarantees.EvictionForgets` | deploy/global-router/security.go:414-429 | For every configuration and every set of more callers than maxIPs, some run of them breaks the bound |
| `LeakyGuarantees.RemainingAlmostExact` | deploy/global-router/security.go:409-411 | After an admission and after a denial, remaining is never negative and that many further calls are admitted at once; one more is admitted exactly when the room left is not a whole number, and two more never are |
| `LeakyGuarantees.AnswersExact` | deploy/global-router/security.go:380-412 | Every call of every run: admitted exactly when, for each admission of its IP since its last eviction, those since it less what leaks from then on stay below the capacity; the bucket is empty exactly from the reset time on; an admitted caller has no retry time |
| `LeakyGuarantees.ResetExact` | deploy/global-router/security.go:404-412 | With no further admission the bucket is empty exactly from the reset time on, after admissions and after denials |
| `LeakyGuarantees.LevelAfterDenial` | deploy/global-router/security.go:399-406 | The level at a denial falls below capacity exactly once the retry time, less the time one unit takes to leak, has passed |
| `LeakyGuarantees.RetrySufficient` | deploy/global-router/security.go:399-406 | With nothing admitted after a denial, every call later than the retry time less one unit's time is admitted and none before it; one made exactly at the retry time finds the level at capacity - 1 |
| `LeakyGuarantees.IpsAreIsolated` | deploy/global-router/security.go:380-454 | One IP's verdicts depend on nothing but its own call times and evictions |
| `LeakyGuarantees.DenialsChangeNothing` | deploy/global-router/security.go:392-406 | Two runs whose inputs for one IP, evictions included, differ by a denied call differ in its verdicts by that denial and nothing else |
| `LeakyDenials.DenialsErasableIff` | deploy/global-router/security.go:392-406 | Every denied call can be dropped from every run of given callers with every other verdict kept, exactly when there are no more callers than maxIPs |
| `LeakyDenials.DenialIsErasable` | deploy/global-router/security.go:392-406 | With room for all, dropping a denied call from a run leaves a run |
| `LeakyDenials.DenialCanMatter` | deploy/global-router/security.go:396-428 | With more callers than maxIPs some run cannot do without a denied call: it refreshed the caller's bucket, which would otherwise have been evicted |
| `LeakyGuarantees.LevelMonotone` | deploy/global-router/security.go:408-409 | More admissions never lower the level |
| `LeakyGuarantees.CleanupRemovesNothing` | deploy/global-router/security.go:443-448 | In every run a cleanup removes no bucket at all |
| `LeakyGuarantees.DryBucketKept` | deploy/global-router/security.go:443-448 | There is a run after which a bucket that has run dry and idled over ten minutes survives a cleanup |
| `LeakyGuarantees.BoundedMemory` | deploy/global-router/security.go:414-429 | As long as no caller is the empty string, eviction alone keeps the map at maxIPs buckets or fewer |
| `LeakyGuarantees.EvictsLongestIdle` | deploy/global-router/security.go:414-429 | An admission that takes the map over its limit drops exactly one bucket, of an IP whose last call, admitted or denied, is no later than that of any other IP in the map, unless the empty string is such a one; nothing else is ever evicted |
| `LeakyGuarantees.PeakIff` | deploy/global-router/security.go:414-429 | The map keeps to n buckets in every run of given callers exactly when n is at least their number, or at least maxIPs if the empty string does not call |
| `LeakyGuarantees.LimitKeptIff` | deploy/global-router/security.go:426-428 | The map keeps to maxIPs buckets in every run of given callers exactly when the empty string is not among them or there are no more of them than maxIPs |
| `LeakyGuarantees.EmptyCallerUnbounded` | deploy/global-router/security.go:426-428 | Callers that include the empty string can all have a bucket at once, however many they are |
| `LeakyBucketLimiters.LeakyBucketLimiter.constructor` | deploy/global-router/security.go:360-376 | Settings that are not positive are replaced by the defaults; the new limiter is valid and empty |
| `LeakyBucketLimiters.LeakyBucketLimiter.CellFor` | deploy/global-router/security.go:386-390 | Finds the caller's bucket, or makes a dry one |
| `LeakyBucketLimiters.LeakyBucketLimiter.Leak` | deploy/global-router/security.go:392-396 | Overwrites the caller's bucket by what is left of it now, and no other |
| `LeakyBucketLimiters.LeakyBucketLimiter.Accept` | deploy/global-router/security.go:408-431 | Pours one unit, answers, and evicts if there are now too many buckets |
| `LeakyBucketLimiters.LeakyBucketLimiter.EvictOldest` | deploy/global-router/security.go:414-429 | The loop over the map removes a bucket with the earliest last leak, nothing else, and nothing if that IP is the empty string |
| `LeakyBucketLimiters.LeakyBucketLimiter.Allow` | deploy/global-router/security.go:380-432 | The call extends the recorded run, and its answer is the level policy's on the caller's own history |
| `LeakyBucketLimiters.LeakyBucketLimiter.Sweep` | deploy/global-router/security.go:443-448 | Removes exactly the buckets seen as dry and idle |
| `LeakyBucketLimiters.LeakyBucketLimiter.Cleanup` | deploy/global-router/security.go:440-449 | A tick leaves every bucket where it was |
| `RateSettings.Atoi` | deploy/global-router/router.go:148-161 | Returns the number the string's leading digits stand for, or 100 where that is zero or missing; so never less than 1 |
| `RateSettings.LeadingOfDigits` | deploy/global-router/router.go:148-161 | Reading the decimal digits of a positive number, whatever follows them, gives the number back |
| `RateSettings.ParseRateLimit` | deploy/global-router/router.go:133-146 | Every setting gives a limit of at least 1 and a window of one second or one minute |
| `RateSettings.ParseLeakyRate` | deploy/global-router/security.go:459-484 | Every setting gives a positive leak rate and a capacity of at least 1 |
| `RateSettings.SettingMeans` | deploy/global-router/router.go:133-161 | "n/unit" is read as n per second for "sec" and "s" and as n per minute otherwise, the leak rate is n per the same time, and the burst is n or half of n, at least 1 |
| `RateSettings.Fallbacks` | deploy/global-router/router.go:133-161 | Without a slash the settings are 100 per minute, and 1.67 per second with a burst of 50; a number counts as 100 exactly when it has no digit but zeros at its start, and else as what its digits say |
| `RateSettings.LeadingZeros` | deploy/global-router/router.go:148-161 | Leading zeros do not change a number |
| `RateSettings.SameRateIff` | deploy/global-router/security.go:459-478 | Both parsers read the same long-run rate from a setting exactly when it contains a slash; the fallbacks differ |
| `RateSettings.DefaultLimiter` | deploy/global-router/router.go:40-73 | Whatever the configuration, the default limiter is valid, of the kind asked for, and has the parsed settings and a positive maxIPs |
| `RateSettings.ConfiguredLimit` | deploy/global-router/router.go:66-73 | With "n/unit" no closed window of that unit holds more than n admissions of an IP that is not evicted |
| `RateSettings.ConfiguredBurst` | deploy/global-router/router.go:66-70 | With "n/unit" and the leaky bucket, one unit of time holds at most n plus the burst of such admissions |
| `CircuitBreaker.Normalized` | deploy/global-router/circuit.go:89-108 | Each setting that is not positive is replaced by a default, each positive one is kept |
| `CircuitBreaker.RunInvariant` | deploy/global-router/circuit.go:112-211 | After every interleaving of arrivals and late reports the counters, the phase and the requests in flight agree |
| `CircuitBreaker.ArriveKeeps` | deploy/global-router/circuit.go:112-137 | An arrival, admitted or not, keeps that invariant |
| `CircuitBreaker.FinishKeeps` | deploy/global-router/circuit.go:141-185 | A report of any request in flight keeps it, however late it comes |
| `BreakerGuarantees.HalfOpenAccounting` | deploy/global-router/circuit.go:120-137 | While half-open exactly halfOpenRequests + 1 requests were admitted in this phase and all are still in flight; no half-open phase admits more than HalfOpenMaxRequests + 1, and no open phase admits any |
| `BreakerGuarantees.ProbeBoundTight` | deploy/global-router/circuit.go:121-130 | For every configuration some run lets HalfOpenMaxRequests + 1 probes pass, one more than documented |
| `BreakerGuarantees.NeverStuck` | deploy/global-router/circuit.go:112-185 | In every reachable state the breaker admits now, or still cools down, or waits for a probe that is in flight, and the report of any request in flight settles it |
| `BreakerGuarantees.LateReportCloses` | deploy/global-router/circuit.go:148-149 | For every configuration a request admitted before the breaker opened can close it while no probe has reported |
| `BreakerGuarantees.SettledByProbesIff` | deploy/global-router/circuit.go:141-185 | In a half-open state every event that ends it is a probe's report exactly when only probes are in flight |
| `BreakerGuarantees.PhaseSettledByProbesIff` | deploy/global-router/circuit.go:141-185 | However a half-open phase goes on, what ends it is a probe's report, exactly when only probes were in flight to begin with |
| `BreakerGuarantees.CountersMatchReports` | deploy/global-router/circuit.go:141-200 | In every state of every run the failure counter is the number of failures since the last success or closing, and the success counter that of successes since the last failure |
| `BreakerGuarantees.OpensExactly` | deploy/global-router/circuit.go:168-171 | From closed an event opens the breaker exactly when it is a report and the last FailureThreshold reports since it last closed, this one included, are all failures |
| `BreakerGuarantees.StaysOpen` | deploy/global-router/circuit.go:120-125 | Once opened it stays open and admits nothing before the cooldown is over, whatever is reported |
| `BreakerGuarantees.CooldownHolds` | deploy/global-router/circuit.go:120-125 | The same for any run with a clock that does not go back, from the event that opened it on |
| `BreakerPhases.PhaseEndsIff` | deploy/global-router/circuit.go:112-185 | In every reachable state an event changes the state exactly when it is: from closed, the report of the last of FailureThreshold failures in a row; from open, a new request after the cooldown; from half-open, any report, which opens the breaker if it is a failure and closes it if not, however many probes there were |
| `BreakerPhases.OpenedAtExact` | deploy/global-router/circuit.go:189-200 | In every state openedAt is the time of the event that last opened the breaker |
| `BreakerPhases.AdmittedIff` | deploy/global-router/circuit.go:112-137 | A new request is let through exactly when the breaker is closed, or open for at least the cooldown since the event that opened it, or half-open with at most HalfOpenMaxRequests probes so far |
| `BreakerPhases.PhaseFollowed` | deploy/global-router/circuit.go:141-211 | In every run each past phase was ended by such an event, and followed by the state it calls for |
| `BreakerPhases.HalfOpenOutcome` | deploy/global-router/circuit.go:157-185 | In every run what follows a half-open phase is open exactly when the one report that ended it was a failure |
| `BreakerGuarantees.LawfulCounts` | deploy/global-router/circuit.go:189-211 | Along the four lawful transitions, openings exceed half-openings by one exactly while open |
| `BreakerGuarantees.TransitionConservation` | deploy/global-router/circuit.go:189-211 | Every run takes only the four lawful transitions and so conserves these counts |
| `CircuitMetrics.KeyInjective` | deploy/global-router/metrics.go:132-138 | A transition counter's key determines its target and its state |
| `CircuitMetrics.LabelsExact` | deploy/global-router/metrics.go:263-271 | Every transition counter is exported under two labels that join to its key; they are the target and the state exactly when the target has no pipe |
| `CircuitMetrics.FleetIsSystems` | deploy/global-router/router.go:122-126 | Breakers that share the metrics do not influence one another |
| `CircuitMetrics.MetricsTrackBreakers` | deploy/global-router/router.go:122-126 | When no two domains share a target, in every run the gauge is 1 exactly while the breaker is open and each counter is the number of entries into that state |
| `CircuitMetrics.CountersByName` | deploy/global-router/circuit.go:18-30 | With distinct targets, the counter under a target and "open", "half_open" or "closed" is how often its breaker entered that state |
| `CircuitMetrics.SharedTargetMisleads` | deploy/global-router/metrics.go:122-129 | Whenever two domains share a target, some run leaves the gauge wrong about one of them |
| `CircuitMetrics.GaugeFaithfulIffDistinct` | deploy/global-router/router.go:122-126 | The gauge is right about every breaker in every run exactly when no two domains share a target |
| `CircuitBreakerHandler.CircuitBreaker.constructor` | deploy/global-router/circuit.go:89-108 | A new breaker is closed, with normalized settings |
| `CircuitBreakerHandler.CircuitBreaker.TransitionTo` | deploy/global-router/circuit.go:189-211 | The fields follow the specification, and the metrics note the new state once |
| `CircuitBreakerHandler.CircuitBreaker.Allow` | deploy/global-router/circuit.go:112-137 | The fields and the answer follow the specification, of which AdmittedIff gives the answers and PhaseEndsIff the states over every run |
| `CircuitBreakerHandler.CircuitBreaker.RecordSuccess` | deploy/global-router/circuit.go:141-155 | A half-open breaker closes and no other changes state; the counters follow the specification, and count as CountersMatchReports says |
| `CircuitBreakerHandler.CircuitBreaker.RecordFailure` | deploy/global-router/circuit.go:160-185 | A half-open breaker opens, a closed one exactly when this failure reaches the threshold, an open one stays open; the counters follow the specification and the time of the last failure is kept |
| `CircuitBreakerHandler.Handler.Begin` | deploy/global-router/circuit.go:273-281 | An arrival at the middleware performs one step of the system of breaker and requests in flight |
| `CircuitBreakerHandler.Handler.End` | deploy/global-router/circuit.go:283-288 | A finished request makes exactly one report, a failure from status 500 on |
| `CircuitBreakerHandler.CircuitGauges.SetCircuitOpen` | deploy/global-router/metrics.go:122-129 | Sets one target's gauge to 1 or 0 |
| `CircuitBreakerHandler.CircuitGauges.IncCircuitTransition` | deploy/global-router/metrics.go:132-138 | Adds one to one counter |
| `MetricsKeys.SplitMetricsKey` | deploy/global-router/metrics.go:274-289 | For every key and number the scanning loop returns the fields of the key: a cut at each pipe until one field is left for the rest |
| `MetricsKeys.RoundTripIff` | deploy/global-router/metrics.go:274-289 | Splitting the join of n parts into n gives the parts back exactly when none but the last contains a pipe |
| `MetricsKeys.JoinFields` | deploy/global-router/metrics.go:274-289 | Joining the fields gives the key back, for every key and number of fields |
| `MetricsKeys.FieldCount` | deploy/global-router/metrics.go:274-289 | A key with p pipes has min(p + 1, n) fields |
| `RequestMetrics.HistogramsExact` | deploy/global-router/metrics.go:86-104 | After any interleaving of observations each bucket holds exactly the number of durations at most its bound, sum and count are exact, and requestDurationSum agrees |
| `RequestMetrics.BucketsByBound` | deploy/global-router/metrics.go:86-104 | The eleven buckets by their bounds, from 5 ms to 10 s |
| `RequestMetrics.ItoaReads` | deploy/global-router/metrics.go:72-75 | A status label reads back as the status |
| `RequestMetrics.BucketsCumulative` | deploy/global-router/metrics.go:97-104 | No bucket exceeds a later one or the count |
| `RequestMetrics.RequestsConserved` | deploy/global-router/metrics.go:72-105 | The requests counted under a joined key, over all statuses, are those in its histogram plus those between their two critical sections |
| `RequestMetrics.AccountedIff` | deploy/global-router/metrics.go:72-105 | In every run the counters and the histogram of a method and host account for exactly that pair's observations, if and only if neither contains a pipe |
| `RequestMetrics.StatusCountedIff` | deploy/global-router/metrics.go:72-80 | In every run the counter of a method, host and status is the number of observations of just these three, if and only if method and host contain no pipe |
| `RequestMetrics.LabelsExact` | deploy/global-router/metrics.go:171-195 | Every request counter is exported: its key splits into three labels that join to it again; they are the observed ones exactly when neither method nor host has a pipe |
| `MetricsRecorder.HistogramBuckets.Observe` | deploy/global-router/metrics.go:97-104 | The loop adds one to exactly the buckets whose bound the duration does not exceed |
| `MetricsRecorder.Metrics.CountRequest` | deploy/global-router/metrics.go:73-79 | The first critical section adds one to one counter |
| `MetricsRecorder.Metrics.HistogramFor` | deploy/global-router/metrics.go:87-94 | Finds the histogram of a key or makes an empty one that no other key shares |
| `MetricsRecorder.Metrics.RecordDuration` | deploy/global-router/metrics.go:81-104 | The second critical section adds the duration to one histogram and one sum, and to no other |
| `TargetingRules.ImpossibleIffNotNegative` | dashboard/src/components/rule-conflict-detector.tsx:155-169 | By the evaluator the detector itself uses, the warning that a condition without values may never match is right exactly when the operator is not negative |
| `TargetingRules.NeverMatchesIff` | dashboard/src/components/rule-conflict-detector.tsx:155-169 | By the same evaluator, for a rule with conditions without values the warning that it may never match is right exactly when one of them spoils an "all" rule, or the other conditions match nobody and none of these holds for an "any" rule |
| `TargetingRules.WarnedRuleMatches` | dashboard/src/components/rule-conflict-detector.tsx:112-123 | What a rule with conditions without values matches in the dashboard, in terms of its other conditions |
| `TargetingRules.OneMoreValue` | dashboard/src/components/rule-conflict-detector.tsx:49-98 | With the meaning of single values (OperatorMeaning) this settles every condition: one more value widens it by exactly what that value alone matches; a negative operator narrows likewise; after a pattern that does not compile a further one adds nothing |
| `OperatorMeaning.LessIsOrder` | dashboard/src/components/rule-conflict-detector.tsx:73-88 | Numbers are in order, the infinities at the ends and NaN out of it |
| `OperatorMeaning.OrdersMean` | dashboard/src/components/rule-conflict-detector.tsx:73-88 | For one value: "gt" asks for a larger number, "lt" for a smaller one, "gte" and "lte" for one that is not smaller or not larger; what is not a number fails all four |
| `OperatorMeaning.FiniteOrders` | dashboard/src/components/rule-conflict-detector.tsx:73-88 | Between finite numbers the four operators are >, <, >= and <= |
| `OperatorMeaning.OrdersMonotone` | dashboard/src/components/rule-conflict-detector.tsx:73-88 | With any values, a user with a larger number keeps "gt" and "gte", one with a smaller number "lt" and "lte" |
| `OperatorMeaning.TextsMean` | dashboard/src/components/rule-conflict-detector.tsx:50-59 | For one value: equal or not, the value followed by some rest, some front followed by it, or it between the two |
| `OperatorMeaning.SplitExact` | dashboard/src/components/rule-conflict-detector.tsx:60-72 | A value is cut at commas into the one sequence of parts without commas that gives it back when joined |
| `OperatorMeaning.ListsMean` | dashboard/src/components/rule-conflict-detector.tsx:60-72 | "in" asks for the text among the trimmed parts of the value; "notIn" and "not_in" deny just that |
| `OperatorMeaning.PatternsMean` | dashboard/src/components/rule-conflict-detector.tsx:89-95 | "regex" asks for a pattern that compiles and is found in the text |
| `OperatorMeaning.ExistsMeans` | dashboard/src/components/rule-conflict-detector.tsx:96-97 | "exists" asks for any value of the attribute but the empty string |
| `OperatorMeaning.UnknownOperator` | dashboard/src/components/rule-conflict-detector.tsx:98-100 | Any other operator never holds |
| `OperatorMeaning.OnlyItsAttribute` | dashboard/src/components/rule-conflict-detector.tsx:46-47 | A condition looks at its own attribute only, and a missing one is like an empty string |
| `OperatorMeaning.ValuelessIff` | dashboard/src/components/rule-conflict-detector.tsx:155-159 | The conditions taken to be impossible are exactly those without values that answer alike for all users |
| `OperatorMeaning.ConditionsCombine` | dashboard/src/components/rule-conflict-detector.tsx:108-124 | A rule without conditions matches if its percentage is positive; a single condition decides alone; two lists put together ask for both, or with "any" for either |
| `RuleConflicts.SortOrders` | dashboard/src/components/rule-conflict-detector.tsx:137 | Sorting orders the rules by priority, keeps exactly those there were, and rules of equal priority in their order |
| `RuleConflicts.SortKeep` | dashboard/src/components/rule-conflict-detector.tsx:137 | Deleting rules and sorting can be done in either order |
| `RuleConflicts.DetectConflicts` | dashboard/src/components/rule-conflict-detector.tsx:132-216 | The nested loops return the list of reports for the sorted rules, of which ReportsInOrder gives the order and PairReportExact, DeadCount and ImpossibleCount the content |
| `RuleConflicts.PairReportExact` | dashboard/src/components/rule-conflict-detector.tsx:171-212 | A pair of live rules is reported shadowed exactly when the lower rule's sample users are some and all among the higher's, overlapping, with the true counts, exactly when they share some but not all, and otherwise not at all |
| `RuleConflicts.ReportedExactly` | dashboard/src/components/rule-conflict-detector.tsx:139-213 | A conflict is reported exactly when it is some rule's own or that of a rule and one sorted before it |
| `RuleConflicts.PairReportedExactly` | dashboard/src/components/rule-conflict-detector.tsx:172-212 | A pairwise conflict is reported exactly when some pair of sorted positions calls for it |
| `ConflictCounts.ReportCount` | dashboard/src/components/rule-conflict-detector.tsx:139-213 | A conflict occurs in the list once for each rule it is about by itself and once for each pair of rules it is about |
| `ConflictCounts.DeadCount` | dashboard/src/components/rule-conflict-detector.tsx:142-153 | A dead-rule conflict occurs exactly as often as there are 0% rules with its identifier |
| `ConflictCounts.DeadReportedOnce` | dashboard/src/components/rule-conflict-detector.tsx:142-175 | With distinct identifiers a 0% rule is reported dead exactly once in the whole list, and no other conflict in it names the rule |
| `ConflictCounts.ImpossibleCount` | dashboard/src/components/rule-conflict-detector.tsx:155-169 | An impossible-rule conflict occurs exactly as often as there are rules above 0% with its identifier and a condition without values |
| `ConflictCounts.ImpossibleReportedOnce` | dashboard/src/components/rule-conflict-detector.tsx:155-169 | With distinct identifiers a rule above 0% with such a condition is reported impossible exactly once, and no other rule is |
| `ConflictCounts.SingleReports` | dashboard/src/components/rule-conflict-detector.tsx:139-213 | A conflict that names one rule is one of these two and about a rule that calls for it; all others name two |
| `ConflictCounts.ReportsInOrder` | dashboard/src/components/rule-conflict-detector.tsx:139-213 | The list goes rule by rule in order of priority; for each rule first what is said of it alone, then of it and each rule before it, in order |
| `ConflictCounts.PairReportedOnce` | dashboard/src/components/rule-conflict-detector.tsx:172-212 | With distinct identifiers each pair of rules has the conflict it calls for exactly once in the whole list, and no other |
| `ConflictAdvice.ShadowedIdsAre` | dashboard/src/components/rule-conflict-detector.tsx:185-194 | The identifiers reported as shadowed are those of the rules that are shadowed |
| `ConflictAdvice.FirstMatchKeptIff` | dashboard/src/components/rule-conflict-detector.tsx:185-194 | Deleting any rules leaves a user's first matching rule alone exactly when that rule stays |
| `ConflictAdvice.AdviceKeepsFirstMatch` | dashboard/src/components/rule-conflict-detector.tsx:132-216 | Deleting by identifier all rules reported as shadowed, at once, leaves the first matching rule of every sample user, unless a shadowed rule shares its identifier with one that is not |
| `AdviceSafety.AdviceSafeIff` | dashboard/src/components/rule-conflict-detector.tsx:132-216 | For given identifiers, priorities and percentages the advice keeps every sample user's first match, whatever the rules' conditions and whoever is in the sample, exactly when every rule that shares its identifier is dead or has no live rule before it |
| `AdviceSafety.FirstMatchSurvivesIff` | dashboard/src/components/rule-conflict-detector.tsx:185-194 | For one sample the advice keeps the first match of any user, in the sample or not, and by any notion of matching, exactly when no shadowed rule has its identifier |
| `AdviceSafety.Realized` | dashboard/src/components/rule-conflict-detector.tsx:137 | Whatever conditions the sorted rules are to have can be given to the unsorted ones |
| `AdviceServing.ServingRule` | server/internal/eval/engine.go:118-140 | The loop over the sorted rules returns the first rule that matches and whose rollout reaches the user's bucket, and otherwise none |
| `AdviceServing.ServiceKeptIff` | server/internal/eval/engine.go:118-140 | For a given user, sample and notion of matching, the advice leaves the serving rule for every bucket exactly when no rule that serves the user in some bucket shares its identifier with a shadowed one; such rules are those that reach further than every match before them |
| `AdviceServing.DistinctServiceKeptIff` | server/internal/eval/engine.go:118-140 | With distinct identifiers the serving rule stays for every bucket exactly when each shadowed rule the user matches has a match before it that reaches as far |
| `AdviceServing.PartialRolloutLoses` | dashboard/src/components/rule-conflict-detector.tsx:176-194 | A catch-all at 50% is said to shadow a catch-all at 100%, and deleting the latter leaves a sample user outside the first rollout without a serving rule |
| `AdviceServing.ServiceSafeIff` | dashboard/src/components/rule-conflict-detector.tsx:171-194 | For given identifiers, priorities and percentages the advice leaves the serving rule of every sample user in every bucket, whatever the rules' conditions and whoever is in the sample, exactly when no live rule reaches further than a live one before it, and a live rule after a live one shares its identifier only with rules that serve nobody |
| `ConflictAdvice.DistinctIdsDoNotClash` | dashboard/src/components/rule-conflict-detector.tsx:185-194 | Rules with distinct identifiers meet that condition |
| `ConflictAdvice.OneRoundSuffices` | dashboard/src/components/rule-conflict-detector.tsx:132-216 | Once the advice has been followed nothing is reported as shadowed any more |
| `ConflictAdvice.SharedIdLosesFirstMatch` | dashboard/src/components/visual-rule-builder.tsx:348-351 | With one shared identifier the deletion loses a user's first matching rule |
| `ConflictAdvice.AdviceIsAboutTheSample` | dashboard/src/components/rule-conflict-detector.tsx:176-183 | The advice says nothing beyond the sample: someone outside it can lose the only rule that matches |
| `AnomalyDetector.RateTracks` | sdks/go/anomaly.go:164-166 | After every run each rate bucket stands for that flag's evaluations since the last reset |
| `AnomalyDetector.ContextTracks` | sdks/go/anomaly.go:193-194 | After every run each context bucket stands for the evaluations under its joined key |
| `AnomalyDetector.FlagsCollideIff` | sdks/go/anomaly.go:191 | Evaluations of two different flags can fall into one context bucket exactly when one flag continues the other after a NUL |
| `AnomalyDetector.SuppressionTracks` | sdks/go/anomaly.go:261-271 | The suppression map holds the last delivery of each code and flag |
| `AnomalyGuarantees.BucketsExact` | sdks/go/anomaly.go:164-194 | The bucket an event leaves behind is exactly that key's evaluations in the window ending now |
| `AnomalyGuarantees.DeliveredExactly` | sdks/go/anomaly.go:155-271 | An event delivers exactly the warning that the history calls for, unless no handler is set or the same code and flag was delivered less than 30 s before |
| `AnomalyCounts.RateWarnsIff` | sdks/go/anomaly.go:155-181 | An evaluation calls for a rate warning exactly when those of its flag since the last reset and in the last window, counted by position and itself included, are at least the threshold; the warning gives their number |
| `AnomalyCounts.ContextWarnsIff` | sdks/go/anomaly.go:186-210 | The same for a flag in a context, unless some other flag collides with it |
| `AnomalyCounts.DriftWarnsIff` | sdks/go/anomaly.go:214-233 | A miss calls for a warning exactly when the flag was evaluated and neither missed nor reset since |
| `AnomalyCounts.SuppressionByName` | sdks/go/anomaly.go:261-271 | The last delivery of a code for a flag is kept under the code's name, a NUL and the flag |
| `AnomalyGuarantees.WarningsSpaced` | sdks/go/anomaly.go:265-269 | Two deliveries of one code and flag with no reset in between are at least 30 s apart |
| `AnomalyGuarantees.WarningsCovered` | sdks/go/anomaly.go:261-271 | Every event that calls for a warning while a handler is set delivers it, or follows a delivered one of the same code and flag by less than 30 s |
| `AnomalyGuarantees.DriftWarnsOncePerLoss` | sdks/go/anomaly.go:218-232 | Between two misses of a flag that call for a warning it was evaluated again |
| `AnomalyGuarantees.DriftWindowUnused` | sdks/go/anomaly.go:72-74 | No run depends on the drift window |
| `AnomalyGuarantees.AlwaysWarnsIff` | sdks/go/anomaly.go:136-167 | Every evaluation calls for a warning exactly when the threshold is at most 0, or is 1 and the window not negative; for the rate and for contexts |
| `AnomalyGuarantees.NeverWarnsIff` | sdks/go/anomaly.go:136-167 | No evaluation ever calls for a warning exactly when the window is negative and the threshold positive; for the rate and for contexts |
| `AnomalyRecorder.AnomalyDetector.RecordEvaluation` | sdks/go/anomaly.go:155-181 | The call performs one step of the specification on the fields and delivers the specified warning |
| `AnomalyRecorder.AnomalyDetector.RecordEvaluationWithContext` | sdks/go/anomaly.go:186-210 | The same, for an evaluation in a context |
| `AnomalyRecorder.AnomalyDetector.RecordMissing` | sdks/go/anomaly.go:214-233 | The same, for a miss |
| `AnomalyRecorder.AnomalyDetector.EmitLocked` | sdks/go/anomaly.go:261-271 | Delivers unless there is no handler or the interval has not passed |
| `AnomalyRecorder.AnomalyDetector.SetHandler` | sdks/go/anomaly.go:147-151 | The same, for a change of handler |
| `AnomalyRecorder.AnomalyDetector.Reset` | sdks/go/anomaly.go:236-243 | The same, for a reset |
| `FuzzySearch.FuzzyScore` | dashboard/src/components/command-palette.tsx:45-78 | Returns the score that RanksByKindIffShort orders by kind and ScatteredScore computes for scattered matches; it is positive exactly when neither string is empty and the lowered query is a subsequence of the lowered target |
| `FuzzySearch.Scan` | dashboard/src/components/command-palette.tsx:55-73 | The scanning loop returns how many query characters the leftmost match takes and the points of its positions, which PointsAddUp and ScatteredScore settle |
| `FuzzySearch.GreedyLeftmost` | dashboard/src/components/command-palette.tsx:61-73 | Any way to spell a prefix of the query in the target is matched by the scan, and no later |
| `FuzzySearch.SubsequenceIffGreedy` | dashboard/src/components/command-palette.tsx:61-76 | The scan takes the whole query exactly when it is a subsequence |
| `FuzzySearch.PositiveIffSubsequence` | dashboard/src/components/command-palette.tsx:45-78 | The score is positive exactly when neither string is empty and the lowered query is a subsequence of the lowered target |
| `FuzzySearch.ScatteredBounds` | dashboard/src/components/command-palette.tsx:55-77 | A scattered match of m characters has m >= 2 and scores from 2m to 5m(m - 1)/2 - 1 |
| `FuzzySearch.BoundIsMet` | dashboard/src/components/command-palette.tsx:61-73 | For every length from 2 on the upper bound is attained |
| `FuzzyStreaks.PointsAddUp` | dashboard/src/components/command-palette.tsx:58-72 | What is matched before a gap and what is matched after it score on their own |
| `FuzzyStreaks.PointsAreWorth` | dashboard/src/components/command-palette.tsx:58-72 | Matched positions score what their streaks are worth |
| `FuzzyStreaks.ScatteredScore` | dashboard/src/components/command-palette.tsx:50-77 | A query that is matched but not contained scores the sum, over the streaks of its leftmost match, of (5k(k + 1) - 6) / 2 for a streak of k characters |
| `FuzzyStreaks.LeftmostExists` | dashboard/src/components/command-palette.tsx:58-72 | Every subsequence has such a match: streaks with gaps between them, each character as early as in any other way to spell the query |
| `FuzzySearch.SubstringsFirstIffShort` | dashboard/src/components/command-palette.tsx:50-77 | Scattered matches always rank below substring matches exactly for queries of at most five characters |
| `FuzzySearch.RanksByKindIffShort` | dashboard/src/components/command-palette.tsx:50-77 | Scores always rank targets by kind of match (equal, prefix, substring, scattered, none) exactly for queries of at most five characters |
| `FuzzySearch.ExactFirstIffShort` | dashboard/src/components/command-palette.tsx:50-77 | Scattered matches always rank below the exact match exactly for queries of at most six characters |
| `RecentItems.StoredAreMostRecent` | dashboard/src/components/command-palette.tsx:109-125 | After any uses the stored items are the five latest used ones, latest first, each with the text and link of its last use and the category "recent"; an id is missing only if five others were used later |
| `RecentItems.CuttingLosesNothing` | dashboard/src/components/command-palette.tsx:117-121 | Cutting the list at every step gives what cutting the uncut list once gives |
| `RecentItems.UnboundedRanks` | dashboard/src/components/command-palette.tsx:112-116 | Uncut, the list ranks every id by its latest use |
| `RecentItems.RecentStore.AddRecentItem` | dashboard/src/components/command-palette.tsx:109-125 | After every call the store holds the five most recently used items of all calls so far |

## Left out

- Floating point and `time.Duration` rounding: levels, rates, times and histogram sums are
  exact reals.
- The width of Go's integers: counters, limits and parsed numbers are unbounded, and rule
  priorities are whole numbers.
- HTTP, TLS, configuration files, reverse proxying, logging, tickers and goroutines; a
  tick of a cleanup loop is a step of the model.
- The web application firewall, operations authentication, IP extraction and the
  connection limiter.
- Breakers across a configuration reload, where a removed and re-added domain gets a fresh
  breaker while the old gauge value stays: the model covers one breaker lifetime.
- The breaker's round-tripper variant, which the router does not install, and handlers
  that panic, which would skip their report.
- Per-domain limiters: they are made as the default one is, from their own settings.
- The circuit gauges and the request metrics are two classes here, although one mutex
  guards both in the source.
- The Prometheus text itself; only the splitting and rejoining of its keys is modelled.
- Regular expressions, number parsing, trimming and lower-casing: parameters of the rule
  evaluator and the search, about which nothing is assumed beyond what a lemma says.
- What makes a rule match on the server, with segments and operators that look at one
  value only: the theorems on serving for one list take it as a parameter, and
  `ServiceSafeIff` takes it to be the dashboard's evaluation. The computation of the
  bucket, and what the server returns when no rule serves.
- The server's sort by priority need not keep the order of equals; the model's does, as
  the dashboard's.
- Message texts and identifiers of conflict reports, and the list of a rule's conflicts.
- The texts and levels of anomaly warnings; a warning is its code, flag, time and count.
- The "did you mean" suggestion, and the storage of recent items as JSON, which can fail
  silently and drops the `action` of an item.
- `deploy/global-router/dns.go` and the SDK's client, evaluation and OpenFeature files.
