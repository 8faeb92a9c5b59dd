# Verified model of IronGate's transport chain

IronGate is an API gateway. This project models, in Dafny, the state it keeps between and
during requests, and proves what that state machine promises over every run.

| file | what it models |
|---|---|
| `Targets.dfy`, `Routes.dfy` | target addresses, exclusion, the contract every balancer strategy owes its caller, and routes |
| `Weighted.dfy` | smooth weighted round robin |
| `RoundRobin.dfy`, `RoundRobinWrap.dfy`, `RoundRobinFairness.dfy`, `Residues.dfy` | the lock-free round robin under any schedule, what the wrap of its cursor does, and its fairness |
| `LeastConn.dfy`, `LeastConnRace.dfy` | least connections: the balancer object, and its unlocked scan under any schedule |
| `BreakerCore.dfy`, `Breaker.dfy`, `BreakerRuns.dfy` | the circuit breaker: each call as a function on values, the object with its in-place failure list proved against it, and the theorems over runs |
| `WindowChange.dfy` | which changes of the failure window and threshold a reload can be told by |
| `Registry.dfy`, `Reload.dfy` | the breaker registry, its incrementally kept gauge, and configuration reload |
| `Backoff.dfy`, `Retry.dfy`, `RetryTransport.dfy` | the retry and failover loop over the balancer and the breaker |
| `Lifecycle.dfy`, `Interleaving.dfy`, `Accounting.dfy` | the log of one request, the response body wrappers, many requests at once, and the account of whole families of round trips |
| `SlidingWindow.dfy` | the Redis sliding-window script against a plain history of admissions |
| `RetryAfter.dfy`, `Float64.dfy` | the Retry-After header, and the float64 rounding in it |
| `ScenarioSlot.dfy`, `EventLines.dfy` | the observatory's single-run slot and its streaming line splitter |

`dafny verify dfyconfig.toml` checks everything.

How the pieces fit. `RetryTransport.RoundTrip` is the loop of the source. It does not know what the
balancer, the breakers, the upstream, the caller's context or the random source will answer, so
they are an arbitrary environment, whose answers its log is proved to follow; all it asks of the balancer is that a pick is a configured,
untried target. What needs the balancer also to find such a target whenever there is one is stated
under that condition, which the three `Select` operations are proved to meet (the round robin
exactly as described below). Its log is summarised by a ledger, and
`Retry.Finished` says what holds of that ledger for every outcome. The log is also legal in the
protocol of `Lifecycle`; `Interleaving` and `Accounting` turn that into statements about the shared
counters for every interleaving of round trips and uses of their bodies.

A breaker call is one critical section, so a run is a sequence of calls with the clock reading
each takes. Registry methods are atomic.

## What was found

These statements about the code are false as one would first write them. Each has a proved input
or failing family, and the exact condition under which it does hold.

- The round robin cursor is a `uint64`. A scan that crosses its wrap looks at the indices given in
  closed form by `Reached`, and can miss an eligible target and report `ErrNoTargets`
  (`HiddenIsMissed`; `MissIsReached` from the cursor 0 of a new balancer, which takes about 2^64
  selects). A select misses none, whatever is excluded, if and only if every address of the route
  stands at a reached index (`SelectIsCompleteIff`); without repeated addresses, if and only if its
  scan does not cross the wrap or the number of targets divides 2^64 (`DistinctIsCompleteIff`).
- The rotation is fair across the wrap when the number of targets divides 2^64
  (`FairUnderAnySchedule`), and for every other number it is not (`UnfairAcrossWrap`).
- `halfOpenInFlight` is the number of outstanding probes only until a request admitted before the
  episode completes inside it while `halfOpenInFlight` is positive (`StaleCompletionBreaksCount`,
  if and only if); then more than `HalfOpenMaxRequests` probes can be in the air
  (`StaleCompletionAdmitsExtraProbe`, `StaleCompletionIsReachable`).
- A reload clones breakers that still carry the old registry's callback, so the registry left
  behind agrees with its own gauge if and only if it holds no closed breaker whose surviving
  failures reach the new threshold and no half-open one with enough successes and nothing in flight
  (`Registry.CloneWithConfig`); `LeftBehindDisagrees` is a run in which it does not. The registry of
  the new snapshot always agrees with its gauge.
- A reload cannot bring back failures that were already pruned (`WiderWindowForgets`). Some run
  makes a clone decide otherwise than the full history if and only if the new window W is wider than
  the old one w and the new threshold is at most (old threshold - 1) * (W / (w + 1) + 1)
  (`NoticedIff`).
- `nextDelay` panics if and only if full jitter meets a delay ceiling of the largest `int64`
  (`NextDelay`); `LongestDelayPanics` is such a policy.
- The limiter counts sorted-set members. An admitted request takes a place if and only if its
  member is not still in the window (`TakesPlaceIffNewMember`), and the script's count is that of
  the admissions in the window if and only if their members are distinct (`CountIsExactIff`). Under
  any limit of two or more, requests with one member at one instant are all let through
  (`RepeatedMemberAlwaysPasses`, `ThreePassAtLimitTwo`), so the script is exact for every choice of
  members if and only if the limit is at most one (`ExactForAllMembersIff`). The gateway never sends
  such requests: it replaces the client's request ID with a fresh UUID and uses that as the member
  (internal/middleware/tracing.go:41-44, internal/middleware/ratelimit.go:99). Only another caller
  of `RedisStore.Allow` could.
- Waiting Retry-After seconds reaches reset_at if and only if the float64 sum does not swallow the
  fraction of a second (`RetryAfterReachesResetIff`). With 2^j the greatest power of two not above
  the whole seconds, it does exactly for a rest of r nanoseconds with 2 * r * 2^(52 - j) < 10^9
  (`FractionIsLostIff`): never below 2^24 seconds, and from there on at least for one nanosecond
  (`WholeSecondsLoseIff`); so only a window longer than 2^24 seconds, about 194 days, can produce
  such a wait (`WindowCanLoseIff`).
- A scenario that is stopped during its start and started again can be marked idle by the late
  completion of its first run while the second is active (`LateOverwriteIsReachable`); exactly
  such a completion does it (`OnlyLateOverwriteHidesRun`), and it never happens when no scenario
  is begun while an earlier run of it is still finishing (`BegunAloneIsShownBusy`).

## Model

| member | source | states |
|---|---|---|
| `Targets.UniqueTargetCount` | internal/transport/retry.go:446-452 | The count is the cardinality of the set of addresses, so duplicates count once. |
| `Targets.StrictExclusionAlwaysSelects` | internal/transport/resilient.go:115-121 | While the exclusions are a strict subset of the route's addresses, a balancer meeting its contract never returns ErrNoTargets, and picks an address outside them. |
| `Weighted.EffectiveWeight` | internal/transport/loadbalancer/weighted.go:66-71 | Always at least 1; a positive weight is kept and any other becomes 1. |
| `Weighted.Weighted.constructor` | internal/transport/loadbalancer/weighted.go:20-30 | Every entry starts fresh, in configured order, with its effective weight. |
| `Weighted.Weighted.Select` | internal/transport/loadbalancer/weighted.go:32-64 | Picks the first eligible entry of greatest raised weight; eligible entries gain their weight, the pick pays the eligible total, excluded ones are untouched; None exactly when all are excluded, and then nothing changes. |
| `Weighted.RunConserves` | internal/transport/loadbalancer/weighted.go:42-59 | Over every chain of selects with arbitrary exclusion sets the current weights keep their sum, and entries excluded at a select are unchanged by it. |
| `Weighted.CurrentUnderExclusions` | internal/transport/loadbalancer/weighted.go:42-59 | Whatever is excluded at each select, current_i = start_i + w_i · (selects at which i was eligible) − the eligible totals of the selects that picked i. |
| `Weighted.CurrentWeightLaw` | internal/transport/loadbalancer/weighted.go:42-59 | After any n exclusion-free selects from fresh state, current_i = n·w_i − T·count_i and current_i ≥ 1 − T. |
| `Weighted.FullCyclesAreExact` | internal/transport/loadbalancer/weighted.go:32-71 | After m·T selects each target was picked exactly m·w_i times and the balancer is back in its fresh state. |
| `Weighted.EqualWeightsRotate` | internal/transport/loadbalancer/weighted.go:42-59 | Equally weighted targets are picked in configured order, round after round. |
| `RoundRobin.ScanLoop` | internal/transport/loadbalancer/round_robin.go:23-36 | Returns the least eligible offset from the loaded cursor and its index, or -1 for both when no offset is eligible. |
| `RoundRobin.SelectPicksLeastOffset` | internal/transport/loadbalancer/round_robin.go:18-49 | An undisturbed select fails exactly when no offset of its scan is eligible, and otherwise picks the index at the least eligible offset and leaves the cursor just past it. |
| `RoundRobin.Linearizable` | internal/transport/loadbalancer/round_robin.go:23-49 | Under every schedule of any number of callers, the picks and the cursor are those of a sequential run in compare-and-swap order (wrap included); each caller returns its own swap's pick; a failing caller fits between two of these selects; every place lies within the caller's own call. |
| `RoundRobin.RealTimeOrder` | internal/transport/loadbalancer/round_robin.go:23-49 | A call that returned before another began comes no later in that order, and strictly earlier when it picked a target. |
| `RoundRobin.UndisturbedCallReturns` | internal/transport/loadbalancer/round_robin.go:23-49 | A call not disturbed between its load and its swap ends there, as one undisturbed select from the cursor it finds. |
| `RoundRobin.FailedSwapMeansProgress` | internal/transport/loadbalancer/round_robin.go:41-43 | A compare-and-swap fails only if another caller's has succeeded since this caller's load. |
| `RoundRobinWrap.SeenIffReached` | internal/transport/loadbalancer/round_robin.go:27-36 | The indices a scan looks at, in closed form: all, or across the wrap the first n − d and the d that cyclically end before 2^64 mod n. |
| `RoundRobinWrap.SelectIsCompleteIff` | internal/transport/loadbalancer/round_robin.go:27-40 | A select misses no eligible target under any exclusions if and only if every address of the route, repeated or not, stands at a reached index. |
| `RoundRobinWrap.AllReachedUnlessWrapped` | internal/transport/loadbalancer/round_robin.go:27-40 | For any route that is so when the scan does not cross the wrap or n divides 2^64. |
| `RoundRobinWrap.DistinctIsCompleteIff` | internal/transport/loadbalancer/round_robin.go:27-40 | For a route without repeated addresses, only then. |
| `RoundRobinWrap.HiddenIsMissed` | internal/transport/loadbalancer/round_robin.go:27-40 | The failing family: every target whose address stands at no reached index is missed, and ErrNoTargets returned, when everything else is excluded. |
| `RoundRobinWrap.PlainRun` | internal/transport/loadbalancer/round_robin.go:18-49 | Without exclusions the k-th select from cursor c picks ((c + k) mod 2^64) mod n. |
| `RoundRobinWrap.MissIsReached` | internal/transport/loadbalancer/round_robin.go:14-49 | The miss occurs in a run from the cursor 0 of a new balancer. |
| `RoundRobinFairness.SelectMovesToNextEligible` | internal/transport/loadbalancer/round_robin.go:18-49 | A select whose pick lies below the wrap, or with a number of targets that divides 2^64, picks the least eligible position from the cursor on and moves just past it. |
| `RoundRobinFairness.SequentialWalksRotation` | internal/transport/loadbalancer/round_robin.go:18-49 | Successful selects with one exclusion set walk the eligible positions in order, skipping none, in every run that ends at or below the wrap, and in any when the number of targets divides 2^64. |
| `RoundRobinFairness.EachOtherIndexOnceBetween` | internal/transport/loadbalancer/round_robin.go:18-49 | In such a walk, between two successive picks of an index every other eligible index occurs exactly once. |
| `RoundRobinFairness.FairUnderAnySchedule` | internal/transport/loadbalancer/round_robin.go:18-49 | The same of the picks, in compare-and-swap order, of any interleaving of callers that share one exclusion set: for any number of targets as long as the run does not pass the wrap, and across it when that number divides 2^64. |
| `RoundRobinFairness.UnfairAcrossWrap` | internal/transport/loadbalancer/round_robin.go:18-49 | For every other number of targets a run across the wrap picks index (2^64 mod n) − 1 twice and n − 1 not once in between. |
| `LeastConn.LeastConn.constructor` | internal/transport/loadbalancer/least_conn.go:19-26 | All counters start at zero, with no selection outstanding. |
| `LeastConn.LeastConn.Select` | internal/transport/loadbalancer/least_conn.go:28-62 | Run by itself, picks the first eligible target with the fewest outstanding selections; afterwards every counter is again its number of outstanding selections. |
| `LeastConn.FirstWhenEqual` | internal/transport/loadbalancer/least_conn.go:35-45 | Among equal counters the pick is the first eligible target. |
| `LeastConnRace.PickIsNearlyLeast` | internal/transport/loadbalancer/least_conn.go:33-51 | Under every schedule of counter reads, raises and Dones, the picked counter exceeds no eligible one by more than the other selects that raised it and the Dones that lowered the other during the call; undisturbed it is the least. |
| `LeastConnRace.CountersAreHeld` | internal/transport/loadbalancer/least_conn.go:51-60 | Under every such schedule each counter is the number of selections whose Done has not taken effect. |
| `LeastConn.LeastConn.Done` | internal/transport/loadbalancer/least_conn.go:56-60 | The first call of a selection's Done settles it, later calls change no counter; counters stay equal to outstanding selections. |
| `BreakerCore.Normalize` | internal/transport/circuitbreaker/breaker.go:246-263 | Every positive setting is kept and every other one takes its default: 5 failures, 3 successes, 30 s, 60 s, 3 probes. |
| `Breaker.CompactInPlace` | internal/transport/circuitbreaker/breaker.go:205-219 | Compacting within the same array leaves exactly the instants not before the cutoff, in order. |
| `Breaker.Breaker.constructor` | internal/transport/circuitbreaker/breaker.go:43-53 | A new breaker is closed and empty under the normalized configuration. |
| `Breaker.Breaker.Allow` | internal/transport/circuitbreaker/breaker.go:55-83 | The new state, the answer and the reported transition are those of the specification step. |
| `Breaker.Breaker.RecordSuccess` | internal/transport/circuitbreaker/breaker.go:85-101 | The new state and the reported transition are those of the specification step, the failure list included. |
| `Breaker.Breaker.RecordFailure` | internal/transport/circuitbreaker/breaker.go:103-121 | The new state and the reported transition are those of the specification step, the failure list included. |
| `Breaker.Breaker.RecordIgnored` | internal/transport/circuitbreaker/breaker.go:123-133 | The new state and the reported transition are those of the specification step. |
| `Breaker.Breaker.ForceClose` | internal/transport/circuitbreaker/breaker.go:191-203 | The breaker is fresh again, and closed is always reported. |
| `Breaker.Breaker.CurrentState` | internal/transport/circuitbreaker/breaker.go:135-145 | Reports half-open for an open breaker whose time is up, without changing anything. |
| `Breaker.Breaker.CloneWithConfig` | internal/transport/circuitbreaker/breaker.go:147-167 | The clone owns a new failure array and holds the reconciled state; the original is unchanged; a transition is reported exactly when the state differs. |
| `Breaker.Breaker.Reconcile` | internal/transport/circuitbreaker/breaker.go:221-244 | The state afterwards is the specification's clone under the new configuration. |
| `BreakerRuns.RunKeepsValid` | internal/transport/circuitbreaker/breaker.go:55-133 | Over every run: in-flight within the limit; closed never rests with enough failures to trip; half-open never rests with enough successes and nothing in flight; open holds no failures or counts. |
| `BreakerRuns.PruningIsInvisible` | internal/transport/circuitbreaker/breaker.go:85-121 | Over every run with a nondecreasing clock, the breaker and one that never prunes agree on state, openUntil and counters, and on every answer of Allow and State. |
| `BreakerRuns.OpensAtFirstTrip` | internal/transport/circuitbreaker/breaker.go:103-121 | From fresh, the breaker is open exactly when the calls end with the first RecordFailure that completes FailureThreshold failures in [now − WindowSize, now]; openUntil is that instant plus Timeout. |
| `BreakerRuns.OpensAtFirstTripSinceClose` | internal/transport/circuitbreaker/breaker.go:103-121 | The same at any point of any run, counting only failures since the call that last closed it. |
| `BreakerRuns.OpenEpisode` | internal/transport/circuitbreaker/breaker.go:55-145 | After opening at t nothing but a forced close changes the breaker before t + Timeout, and every Allow is refused; the first Allow from then on is admitted as the first probe. |
| `BreakerRuns.StateReportsWhatAllowSees` | internal/transport/circuitbreaker/breaker.go:135-145 | State() is the state an Allow at that instant acts on, and agrees with its answer. |
| `BreakerRuns.EpisodesHold` | internal/transport/circuitbreaker/breaker.go:55-133 | In every half-open episode of every run: successes recorded equal successes counted, no failure occurred, in-flight ≤ outstanding probes ≤ admitted ≤ in-flight + completions. |
| `BreakerRuns.HalfOpenBounds` | internal/transport/circuitbreaker/breaker.go:70-133 | In-flight stays in 0..HalfOpenMaxRequests; admissions never exceed HalfOpenMaxRequests plus completions; outstanding probes never exceed HalfOpenMaxRequests plus the stale completions that lowered in-flight, and equal in-flight when there were none. |
| `BreakerRuns.ClosesOnlyAfterSuccesses` | internal/transport/circuitbreaker/breaker.go:85-133 | Absent a forced close, it closes only by a success or an ignored completion, after at least SuccessThreshold successes and no failure in the episode. |
| `BreakerRuns.CompletionDecides` | internal/transport/circuitbreaker/breaker.go:85-133 | Over every run, a completion in a half-open episode opens the breaker if and only if it is a failure, and closes it if and only if it is not and leaves at least SuccessThreshold successes and nothing in flight; without stale completions that is after the last outstanding probe. |
| `BreakerRuns.ProbeIsAdmittedIff` | internal/transport/circuitbreaker/breaker.go:70-80 | A half-open breaker admits whenever fewer than HalfOpenMaxRequests probes are outstanding, and without stale completions only then. |
| `BreakerRuns.OnlyThese` | internal/transport/circuitbreaker/breaker.go:55-133 | Over every run only a failure opens a breaker, only an Allow after its time turns it half-open, an open one changes in no other way but a forced close, and Allow and RecordIgnored leave a closed one alone. |
| `BreakerRuns.StaleCompletionBreaksCount` | internal/transport/circuitbreaker/breaker.go:85-133 | From an exact count, a completion that leaves the episode open keeps it exact if and only if it is not stale with in-flight positive. |
| `BreakerRuns.StaleCompletionAdmitsExtraProbe` | internal/transport/circuitbreaker/breaker.go:70-133 | With all places taken, any stale ignored completion lets HalfOpenMaxRequests + 1 probes be outstanding. |
| `BreakerRuns.StaleCompletionIsReachable` | internal/transport/circuitbreaker/breaker.go:55-133 | A concrete run of four calls from a new breaker to such a state. |
| `BreakerRuns.CloneKeepsMeaning` | internal/transport/circuitbreaker/breaker.go:147-167 | The clone satisfies the whole invariant under the new configuration; open stays open with the same opening instant; closed trips iff surviving failures reach the new threshold; half-open closes iff it has enough successes and nothing in flight, and otherwise keeps its successes and the smaller of in-flight and the new limit. |
| `BreakerRuns.CloneRemembers` | internal/transport/circuitbreaker/breaker.go:147-167 | Through any later calls a closed clone opens at precisely the first failure that completes the new threshold in the new window, counting the failures the old breaker still held. |
| `BreakerRuns.CloneRemembersHistory` | internal/transport/circuitbreaker/breaker.go:147-167 | With a window that is not wider it counts every failure since the breaker last closed, as if there had been no reload. |
| `BreakerRuns.CloneThereAndBack` | internal/transport/circuitbreaker/breaker.go:221-244 | Reloading A→B→A restores an open breaker exactly, openUntil included. |
| `BreakerRuns.NarrowerWindowKeepsHistory` | internal/transport/circuitbreaker/breaker.go:221-244 | With a window that is not wider, whether the clone trips is decided as by the full failure history. |
| `BreakerRuns.WiderWindowForgets` | internal/transport/circuitbreaker/breaker.go:205-244 | For every pair of a narrower and a wider window a run in which the full history would trip the clone and the pruned one does not. |
| `WindowChange.SparseIsBounded` | internal/transport/circuitbreaker/breaker.go:103-121 | Failures that never trip a breaker number at most (threshold − 1) per block of window + 1 instants. |
| `WindowChange.NoticedIff` | internal/transport/circuitbreaker/breaker.go:221-244 | Some run leaves a clone that decides otherwise than the full history if and only if the new window is wider and the new threshold is at most (old threshold − 1) × (W / (w + 1) + 1). |
| `Registry.OtherServicesUnaffected` | internal/transport/circuitbreaker/registry.go:243-271 | A change to one target's record leaves existence and aggregate of every service it belongs to neither before nor after. |
| `Registry.SeriesReads` | internal/transport/circuitbreaker/registry.go:308-317 | An agreeing series reads 1 exactly when some target of the service is open, 2 exactly when none is but some is half-open, 0 exactly when all are closed. |
| `Registry.Registry.AggregateServiceState` | internal/transport/circuitbreaker/registry.go:243-261 | Open if some target of the service is open, else half-open if some is, else closed. |
| `Registry.Registry.ServiceHasTargets` | internal/transport/circuitbreaker/registry.go:263-271 | True exactly when some target maps to the service. |
| `Registry.Registry.SetGauge` | internal/transport/circuitbreaker/registry.go:166-200 | Given agreement of gauge and records before, agreement after recording one target under a possibly new service. |
| `Registry.Registry.RemoveTarget` | internal/transport/circuitbreaker/registry.go:273-298 | Agreement is kept when a target's record is removed; its series goes exactly when no target is left. |
| `Registry.Registry.AttachBreaker` | internal/transport/circuitbreaker/registry.go:155-164 | The breaker's callback and record name the given service and its stored state; agreement is kept. |
| `Registry.Registry.EnsureBreakerService` | internal/transport/circuitbreaker/registry.go:217-229 | Afterwards the breaker reports under the wanted service; its state is unchanged. |
| `Registry.Registry.BreakerForService` | internal/transport/circuitbreaker/registry.go:57-77 | The target has a breaker afterwards, its old one or a fresh one, reporting under the service; agreement is kept. |
| `Registry.Registry.CallBreaker` | internal/transport/circuitbreaker/breaker.go:55-133 | Every breaker call with its transition callback keeps gauge, records and stored states in agreement and changes only that breaker. |
| `Registry.Registry.Reset` | internal/transport/circuitbreaker/registry.go:119-132 | Every breaker is fresh and keeps its service; the count is their number; agreement is kept. |
| `Registry.Registry.ReconcileTargetServices` | internal/transport/circuitbreaker/registry.go:97-117 | Only configured targets remain, with their states, each reporting under its configured service; agreement is kept. |
| `Registry.Registry.CloneWithConfig` | internal/transport/circuitbreaker/registry.go:79-95 | The new registry holds the reconciled clone of every breaker and agrees with its gauge; the old one still agrees with its own if and only if no closed breaker has enough surviving failures for the new threshold and no half-open one enough successes with nothing in flight. |
| `Registry.Registry.TargetStateOf` | internal/transport/circuitbreaker/registry.go:142-153 | Answers the state that an Allow at that instant would leave, and differs from what the gauge was told only when that is open and its time is up; unknown targets are closed, and none is created. |
| `Reload.CircuitBreakerTargetServices` | internal/runtime/manager.go:323-332 | Exactly the listed addresses, each with the service of the last route that lists it. |
| `Reload.NextCircuitBreakerRegistry` | internal/runtime/manager.go:297-321 | The next registry agrees with its gauge, holds exactly the previous breakers that are still configured, each under its configured service; unchanged settings keep states, changed ones reconcile them. |
| `Reload.AllValidAfterReload` | internal/runtime/manager.go:297-321 | Every breaker that survives a reload satisfies the state invariant of the new settings. |
| `Registry.Registry.LateCall` | internal/transport/resilient.go:270-309 | A completion that reaches a breaker of a registry left behind moves that breaker and keeps that registry's gauge showing its records. |
| `Registry.Registry.LateLookup` | internal/transport/circuitbreaker/registry.go:57-77 | So does a lookup there by a request of an old snapshot; no breaker changes state. |
| `Reload.Drive` | internal/runtime/manager.go:133-156 | Over every sequence of lookups, breaker calls, resets and reloads, and of lookups and completions that reach registries left behind, the current registry agrees with its gauge and every breaker satisfies the invariant of the current settings. |
| `Reload.LeftBehindDisagrees` | internal/transport/circuitbreaker/breaker.go:158 | A run from a new registry after which the registry left behind by a clone disagrees with its gauge, and the new one agrees. |
| `Backoff.NormalizeRetryPolicy` | internal/transport/retry.go:254-282 | More than one attempt only for a retryable method; missing delays and jitter take their defaults (100 ms, 2 s, full); maxDelay is the maximum of baseDelay and the given or default delay; a normal policy of a retryable method is unchanged. |
| `Backoff.Double` | internal/transport/retry.go:417-432 | The doubling loop yields min(baseDelay·2^k, maxDelay) for every k, without int64 overflow. |
| `Backoff.NextDelay` | internal/transport/retry.go:417-444 | The delay lies between 0 and that ceiling (equal to it without full jitter); it panics if and only if full jitter meets the largest int64. |
| `Backoff.LongestDelayPanics` | internal/transport/retry.go:443 | A policy that panics at its first retry. |
| `Lifecycle.WrappedBody.Read` | internal/transport/resilient.go:594-601 | Together with the breaker wrapper: each read settles and releases at most once, as the specification of the two wrappers says. |
| `Lifecycle.WrappedBody.Close` | internal/transport/resilient.go:634-647 | Closing settles what is still owed to the breaker and then to the balancer, once. |
| `Lifecycle.BodySettlesExactlyOnce` | internal/transport/resilient.go:588-647 | For every sequence of reads and closes the log stays legal; once closed, both the record and the release have happened exactly once. |
| `Lifecycle.DeciderIsFirst` | internal/transport/resilient.go:618-632 | The event that decides is the first that is more than data, if there is one. |
| `Lifecycle.BreakerHearsFirst` | internal/transport/resilient.go:618-647 | For every sequence of reads and closes the breaker hears a success if and only if the first event that is more than data is the end of the body, a failure if and only if it is an error not the caller's own, ignored if and only if it is one that is or a close without error; nothing else is recorded. |
| `Lifecycle.ReleasedAtFirst` | internal/transport/resilient.go:594-607 | At any moment the selection has been released if and only if the body has been closed or read to its plain end. |
| `Retry.CaptureRequestBody` | internal/transport/retry.go:353-388 | A buffer is the complete body; nothing is buffered exactly when not asked for or without a body; rejected for size exactly when readable and beyond the replay limit, and as unreadable exactly when it is. |
| `Retry.AdmittedBooks` | internal/transport/resilient.go:211-311 | An admitted attempt follows the environment, makes one upstream call and leaves breaker and balancer settled, or owed by the returned body. |
| `Retry.RefusedBooks` | internal/transport/resilient.go:183-209 | A refused attempt calls nothing, marks its target spent and releases the selection. |
| `Retry.DiscardBooks` | internal/transport/retry.go:209-211 | Closing a discarded response settles what it still owed. |
| `Retry.BreakersHearReplies` | internal/transport/resilient.go:219-267 | Right after each upstream call of a round trip its breaker hears: failed for no response, a status of 500 or more and any error but the caller's own cancellation or deadline; ignored for that; succeeded for a status below 500 without a body. With a body the call ends the log and the body is returned, the record still owed. |
| `Retry.RepliesFollow` | internal/transport/resilient.go:213 | The k-th upstream call of a log that follows its environment got the environment's k-th reply. |
| `Retry.FailoverStep` | internal/transport/retry.go:155-179 | Past an open circuit the tried set grows by one and stays a strict subset, or every target is spent and the loop ends. |
| `Retry.AnswerStep` | internal/transport/retry.go:181-183 | An answer that is not retried ends the round trip in a state meeting every limit. |
| `Retry.RetryStep` | internal/transport/retry.go:202-231 | A retried answer leads back to the loop head with one attempt more and the tried set extended or cleared. |
| `Retry.RetryAbandoned` | internal/transport/retry.go:213-227 | Giving up during the backoff, or the jitter panic, leaves everything settled and within limits. |
| `RetryTransport.RoundTrip` | internal/transport/retry.go:86-233 | Terminates for every environment, and the log follows it: picks, admissions, replies and backoffs are the environment's, and a done context, a refusal or a failed capture is reported only if it happened (a failed capture exactly then). At most maxAttempts upstream calls and maxAttempts × distinct targets passes, each to a target untried since the last clear; call k carries retry count k and the complete body; the outcome is the last answer with its body and X-Retry-Count the number of earlier calls, or ErrNoHealthyTargets only with every target spent since the last clear; ErrCircuitOpen never escapes. With a balancer that finds a target when there is one: ErrNoTargets only for a route without targets, and ErrNoHealthyTargets on the first attempt always when no breaker admits. |
| `RetryTransport.PatientCallerIsAnswered` | internal/transport/retry.go:116-232 | With such a balancer and a caller that does not give up, if the replies before the j-th are worth repeating (502, 503, 504, a deadline or another transient error) and the j-th is not or is the last for which there is an attempt, the outcome is that reply after exactly j + 1 calls; or else a refusal left every target spent before that. When every breaker admits it is that reply. |
| `RetryTransport.Loop` | internal/transport/retry.go:116-232 | From any loop head on: if no breaker admits any more and nobody gives up, the outcome is ErrNoHealthyTargets with the attempt reached. |
| `RetryTransport.AtMostOnceUnlessIdempotent` | internal/transport/retry.go:298-305 | A non-retryable method reaches upstream at most once across all failovers; more than one call only for the idempotent methods of section 9.2.2 of RFC 9110. |
| `RetryTransport.TotalBackoffBounded` | internal/transport/retry.go:213-231 | All backoff of a request is at most (maxAttempts − 1)·maxDelay. |
| `RetryTransport.SettledOnceClosed` | internal/transport/resilient.go:115-164 | Across retries, discarded responses and any use of the returned body, each admission is recorded and each selection released exactly once by the time the body is closed. |
| `Interleaving.CountersAreExact` | internal/transport/loadbalancer/least_conn.go:51-60 | In every interleaving of requests a target's counter is the number of requests holding a selection of it, and its unanswered admissions are the requests between Allow and Record; both are zero when all are idle. |
| `Accounting.RoundTripsSettle` | internal/transport/resilient.go:115-164 | The same of any family of round trips at any moment of any interleaving, with the legality of each log derived from the round trip; both counts are zero once all bodies are closed. |
| `Accounting.LeastConnCountersAreHolders` | internal/transport/loadbalancer/least_conn.go:51-60 | At any moment of any interleaving of round trips the balancer's own counters at an address add up to the requests holding a selection of it, and to zero once all bodies are closed. |
| `SlidingWindow.Store.Eval` | internal/ratelimit/store.go:20-51 | The script, command by command: new set, decision, remaining count, and reset_at as the oldest member's score plus the window. |
| `SlidingWindow.CountIsExactIff` | internal/ratelimit/store.go:20-51 | Over every run with nondecreasing times, whatever its members, the script never counts more than the admissions in (now − W, now], counts none only when there are none, and counts exactly these if and only if their members are distinct; expiry of the key changes nothing. |
| `SlidingWindow.SlidingWindowIsExact` | internal/ratelimit/store.go:20-51 | If no request repeats a member still in the window, or the limit is at most one, a request is admitted if and only if fewer than limit earlier admissions lie in (now − W, now]. |
| `SlidingWindow.RemainingIsExact` | internal/ratelimit/store.go:39-40 | The reported remainder is the limit less the admissions in the window, this one included. |
| `SlidingWindow.NoWindowExceedsLimit` | internal/ratelimit/store.go:28-40 | Under the same condition no interval of length W, wherever it lies, holds more than limit requests that the script let through. |
| `SlidingWindow.TakesPlaceIffNewMember` | internal/ratelimit/store.go:32-33 | An admitted request takes a new place if and only if its member is not still in the window; if it is, the next request is admitted as well. |
| `SlidingWindow.RepeatedMemberAlwaysPasses` | internal/ratelimit/store.go:28-40 | Under any limit of two or more, any number of requests with one member at one instant are all let through. |
| `SlidingWindow.ThreePassAtLimitTwo` | internal/ratelimit/store.go:28-40 | One of these runs: three requests in one window of ten at a limit of two. |
| `SlidingWindow.ExactForAllMembersIff` | internal/ratelimit/store.go:20-51 | The script admits as specified on every ordered run, whatever its members, if and only if the limit is at most one. |
| `SlidingWindow.RejectionIsTight` | internal/ratelimit/store.go:43-50 | After a rejection, every request before reset_at is rejected and the next one is admitted if and only if it comes at or after reset_at. |
| `SlidingWindow.WindowMillis` | internal/ratelimit/store.go:130-133 | The least whole number of milliseconds that is not shorter than the window. |
| `Float64.RelativeError` | internal/middleware/ratelimit.go:315 | Rounding to float64, half to even, has a relative error of at most 2^-53. |
| `Float64.SnapLoses` | internal/middleware/ratelimit.go:315 | A fraction added to a whole number of units in the last place is lost if and only if it is below half a unit. |
| `RetryAfter.SecondsApproximate` | internal/middleware/ratelimit.go:315 | For every duration the float64 seconds lie between the whole seconds of the wait and the next, and are exact when nothing is left over. |
| `RetryAfter.FractionIsLostIff` | internal/middleware/ratelimit.go:315 | The fraction of a second is gone from them if and only if 2 · rest · 2^(52 − j) < 10^9, with j the exponent of the whole seconds. |
| `RetryAfter.AnnouncedSeconds` | internal/middleware/ratelimit.go:314-321 | The announced seconds in integers: the ceiling of the wait, at least one, except that a lost fraction is not rounded up. |
| `RetryAfter.RetryAfterReachesResetIff` | internal/middleware/ratelimit.go:314-321 | For every wait, waiting Retry-After seconds (section 10.2.3 of RFC 9110) reaches reset_at if and only if the wait is not one that loses its fraction; it overshoots by less than a second above the floor of one. |
| `RetryAfter.WholeSecondsLoseIff` | internal/middleware/ratelimit.go:315 | A number of whole seconds has a rest that is lost if and only if it is at least 2^24. |
| `RetryAfter.WindowCanLoseIff` | internal/middleware/ratelimit.go:314-321 | A window can produce such a wait if and only if it is longer than 2^24 seconds. |
| `RetryAfter.NanosecondIsLost` | internal/middleware/ratelimit.go:315 | From 2^24 seconds on, a rest of one nanosecond is always lost. |
| `RetryAfter.WaitingIsRewarded` | internal/middleware/ratelimit.go:177 | A rejected client that comes back after Retry-After seconds is admitted when its wait is not one that loses its fraction and the key's other requests in between came before reset_at. |
| `ScenarioSlot.Slot.BeginScenario` | cmd/observatory/app.go:462-472 | A run enters the slot only when it is empty; the new state is the protocol step's and the slot invariant is kept. |
| `ScenarioSlot.Slot.FinishStart` | cmd/observatory/app.go:474-496 | The launching run leaves the starting place for an error, idle after a stop, late completion when it was cancelled, or active; the slot invariant is kept. |
| `ScenarioSlot.Slot.MarkStopping` | cmd/observatory/app.go:530-546 | Exactly the occupant, and only under its own name when one is given, is marked stopping; the reset's cancelActiveScenario is the nameless case. |
| `ScenarioSlot.Slot.CompleteScenario` | cmd/observatory/app.go:548-571 | The first completion of a run vacates its own place only and sets its status; later ones change nothing. |
| `ScenarioSlot.OneRunAtATime` | cmd/observatory/app.go:456-571 | In every interleaving at most one of starting and active is set and they match the runs' places; with no run in the slot or still finishing, every status is idle or error. |
| `ScenarioSlot.StatusIsOwn` | cmd/observatory/app.go:456-571 | Over every run a scenario's status changes only by its own begin, the end of one of its own runs, or a stop or reset while it occupies the slot; a stop under another name changes nothing. |
| `ScenarioSlot.StatusShown` | cmd/observatory/app.go:456-571 | What each step shows: a begin is refused exactly while the slot is occupied; a failed completion shows error and any other idle; a failed start shows idle exactly when cancelled after a stop; a start that succeeds becomes active unless cancelled. |
| `ScenarioSlot.CompletionEvictsOnlyItself` | cmd/observatory/app.go:548-571 | A completion, late ones included, never evicts another run. |
| `ScenarioSlot.OnlyLateOverwriteHidesRun` | cmd/observatory/app.go:489-494 | A step hides the occupying run's busy status if and only if it is the late completion of an earlier run of the same scenario. |
| `ScenarioSlot.LateOverwriteIsReachable` | cmd/observatory/app.go:489-494 | A concrete interleaving of seven steps in which it happens, for any scenario name. |
| `ScenarioSlot.BegunAloneIsShownBusy` | cmd/observatory/app.go:462-472 | If no scenario is begun while an earlier run of it is finishing late, the run in the slot is always shown as running or stopping. |
| `EventLines.SplitJoins` | cmd/observatory/events.go:291-309 | Joining the split parts with newlines gives back the stream, and no part holds a newline. |
| `EventLines.SplitIsUnique` | cmd/observatory/events.go:291-309 | There is only one such split. |
| `EventLines.LinesAre` | cmd/observatory/events.go:298-300 | The lines are exactly the trimmed parts that are not empty, the unterminated one included. |
| `EventLines.HandledIs` | cmd/observatory/events.go:300-304 | What is handled is a start of the lines; all but its last were accepted, and it stops short only at a refused line. |
| `EventLines.EventLineWriter.Write` | cmd/observatory/events.go:291-312 | Hands over the complete lines of buffer plus chunk up to the first refused one, keeps what follows the last newline, and reports the whole chunk or zero bytes written. |
| `EventLines.EventLineWriter.Flush` | cmd/observatory/events.go:314-326 | Hands over the unterminated rest, unless it trims to nothing, and empties the buffer. |
| `EventLines.ParseEvents` | cmd/observatory/events.go:263-284 | For every way of cutting the stream into writes, the handler gets exactly the trimmed, non-empty lines of the whole stream, in order, up to and including the first it refuses; an error exactly when it refuses one. If reading fails, the same of the complete lines, and the unterminated rest is lost. |

## Left out

- Tracing, logging, metrics other than the circuit state gauge, and the Prometheus client; the gauge is a map from service to value.
- Error classification by system and network error types; each upstream error carries a flag for whether it is transient, and whether the caller's own context ended.
- Host and port: a target is identified by its address, which is never empty because it contains a colon.
- RetryTransport.RoundTrip: response metadata is taken to survive the base transport, as the contract of `http.RoundTripper` has it; GetBody and Body are taken to yield the same content.
- The registry holds breakers as values: a completion that reaches a registry left behind is modelled, one that reaches a retired breaker changes nothing because its callback is gone. A method is one atomic step, so the moment between attaching a callback and setting the gauge is not visible. Order of iteration over the concurrent map is arbitrary.
- LeastConn.LeastConn.Select: one step here; selects and Dones that overlap its scan are the subject of `LeastConnRace`.
- Weighted and LeastConn counters are unbounded integers.
- Float64 beyond the numbers that occur: `Float64.Round` rounds magnitudes from 2^-30 up to 2^34 and leaves others alone.
- Redis itself, wire decoding, key sanitising, argument checks of the store and the middleware's fail-open branch; one clock serves the script and the key's time to live.
- EventLines.ParseEvents: trimming is any function that maps the empty line to itself, and the handler any predicate; demultiplexing of the Docker stream is not modelled.
- The scenario runner, chaos steps, HTTP handlers, server-sent events, file watching, routing, authentication, the per-address limiter and configuration validation.
