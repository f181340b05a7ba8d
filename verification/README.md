# Wintergate: verified models of its in-memory state machines

Wintergate is an HTTP gateway. Between the HTTP code sit state machines that decide where a request goes and over which
connection pool: the configuration snapshot and its route index, health checking, round robin, per-service traffic
counting, the choice of a pool tier, and the cache of pooled clients. This project models them in Dafny and proves what
they promise, over all inputs, all runs and all interleavings of their atomic steps.

`dafny verify dfyconfig.toml` checks everything. There is one module per file:

| part | modules |
|---|---|
| configuration | `ConfigModel`, `ConfigNormalize`, `ConfigIndex` (the index as values), `ConfigRuns` (all reachable snapshots), `ConfigBuilder` and `ConfigManager` (the same on the heap, with backing arrays shared and written in place) |
| routing | `RouteRouter`, `RouteLoadBalancer`, `GatewayRouting` (snapshots, health and round robin together) |
| health | `HealthModel`, `HealthBackoff`, `HealthChecker`, `HealthStore`, `HealthTargets`, `HealthReconcile`, `HealthProtocol` (all interleavings, any targets), `HealthRouting` (targets with health keys of their own), `HealthSessions` (one reconciliation from lock to unlock), `HealthKeySharing` (targets that share one) |
| traffic | `TrafficRing` (ring against complete log), `TrafficRecord` and `TrafficRecorder` (the objects), `TrafficCounters` and `TrafficBucketSteps` (interleavings of single atomic loads, stores and additions) |
| pool tiers | `PolicyTiers`, `PolicyHistory` (state as a function of history), `PolicyStore` |
| pooled clients | `PoolCache` (one function per locked section), `PoolProtocol` (all interleavings), `PoolCoordinator` (the objects) |
| keys | `JwksExponent` |
| helpers | `Wrappers`, `Remainders` |

Objects whose fields the program updates are classes; what their methods do is tied to functions on values, and the
properties are proved of those functions. Where goroutines interleave, a system is a value, a step is one locked section
or one atomic operation, and a run is any sequence of steps; a step that is not possible leaves the system alone.

Some promises hold only under a condition. Each of the following is stated as an equivalence with that condition, with
a concrete input or run on the failing side:

* Routing follows every running target's own checks, in every interleaving, exactly when in each reconciliation health
  keys tell the targets apart (`HealthKeySharing.RoutingFollowsIff`); for a reachable snapshot, exactly when no two of
  its checked services share a health key (`GatewayRouting.ReachableRoutingFollowsIff`). Keys join names and hosts with
  `|`, so they can be shared: service `a` on host `b|http|h` and service `a|http|b` on host `h` are two acceptable
  registrations after which an unhealthy instance can stay routable (`GatewayRouting.SharedHealthKeyHidesFailure`).
  Which services can share a key at all is `ConfigNormalize.HealthKeysCollideIff`; with bar-free names none do. What
  routing follows in general is the generation announced last under the key
  (`HealthProtocol.RoutingFollowsLastAnnounced`). The comment at `internal/health/config.go:22` speaks of one loop per
  service instance, which the target key ensures; the status record, however, is found by the health key alone.
* The load balancer reports "no healthy instance" exactly when there is none, if and only if its scan does not pass the
  end of the 64-bit cursor or the list length divides 2^64 (`RouteLoadBalancer.ErrorIffNoneReadyIff`). Under the same
  condition on all its scans, and only then, a round of calls is fair (`FairShareIff`).
* Index lookup and a scan of all endpoints agree about a request exactly when it has a method and a path
  (`RouteRouter.ScanAgreesIff`); without one of them a catch-all endpoint matches and is not found.
* The traffic ring is exact unless a request of the window was pushed out by a later one of the same residue
  (`TrafficRing.RingIsExactIff`). A reader whose clock is behind undercounts (`LateReaderUndercounts`).
* A bucket under concurrent calls: its count and the additions lost in its last zeroing are together the additions made
  for its second and the strays meant for another, so the count is exact iff strays and lost additions balance and too
  high iff there are more strays (`TrafficBucketSteps.CountIsExactIff`). Both errors happen (`OvercountHappens`,
  `UndercountHappens`), the latter because the new second is stored before the count is zeroed; runs without such
  overlaps count exactly (`CleanRunsCountExactly`).
* The doubling guard jumps to the maximum one nanosecond early when doubling lands just below it
  (`HealthBackoff.BackoffIsSaturatedIff`), and adding jitter wraps exactly when the sum leaves 64 bits (`JitterFitsIff`).
* A failed client creation leaves the client cache alone, unless a service leaves its dedicated client while there is no
  shared client (`PoolCache.FailureKeepsCacheIff`). No run gets there (`PoolProtocol.FailureKeepsCache`).

The route validator accepts every snapshot the builder makes, but not only those (`RouteRouter.ValidIsNotIndexed`).

## Model

| member | source | states |
|---|---|---|
| `HealthProtocol.RoutingFollowsLastAnnounced` | internal/health/manager.go:66-120 | in every interleaving of the sub-steps of reconciling, checks, publications and late publications, for any targets: a health key is unroutable iff the generation last announced under it, with no target of the key retired since, has published checks that amount to Unhealthy |
| `HealthProtocol.StepKeepsInv` | internal/health/store.go:64-96 | every atomic step keeps each record equal to what the loop of its generation last published |
| `HealthProtocol.VisitAndDeleteRetire` | internal/health/manager.go:85-89 | the two sub-steps of the first loop together retire one target |
| `HealthProtocol.LaunchAndAnnounceStart` | internal/health/manager.go:95-108 | the two sub-steps of the second loop together start one target |
| `HealthRouting.RoutingFollowsVerdicts` | internal/health/manager.go:66-120 | where demands have distinct health keys: with the lock free, the running targets are those of the last snapshot reconciled, and a health key is unroutable iff it has a running target whose own generation's published checks amount to Unhealthy |
| `HealthRouting.RoutingFollowsVerdictsMidway` | internal/health/manager.go:72-113 | the same, at every sub-step of a reconciliation, for the targets whose records are out at that moment |
| `HealthRouting.LatePublicationIsIgnored` | internal/health/store.go:76-93 | a publication of a generation that no live target has changes no record |
| `HealthRouting.OwnPublicationCounts` | internal/health/checker.go:115-126 | a publication of a live target's own loop brings exactly its record up to date with all its outcomes |
| `HealthRouting.StepKeepsRouting` | internal/health/manager.go:66-120 | every atomic step keeps targets, loops and records matched one to one |
| `HealthProtocol.LoopSeesItsChecks` | internal/health/checker.go:29-50 | in every run a loop has seen exactly the outcomes of its own checks, in order, and published all of them or all but the last |
| `HealthSessions.ReconciliationIsWhole` | internal/health/manager.go:66-120 | in every interleaving, from a lock to the next free lock: exactly the desired targets run, with the desired settings; those that ran with them before are the same, the others are new generations; exactly the other loops are told to stop |
| `HealthSessions.UnchangedTargetsStay` | internal/health/manager.go:78-83 | at every moment in between, a target with unchanged settings keeps its generation, and its loop is neither told to stop nor stopped |
| `HealthSessions.UnchangedTargetsKeepRecords` | internal/health/manager.go:78-83 | with distinct health keys its record stays as it was until its own loop publishes, and is what that loop last published |
| `HealthSessions.EveryTargetIsServed` | internal/health/manager.go:95-108 | with the lock free every running target has a loop of its own, with its settings, that was not told to stop |
| `HealthSessions.ReconciliationCanEnd` | internal/health/manager.go:76-113 | at every moment of a reconciliation further steps of the reconciler alone end it |
| `HealthKeySharing.RoutingFollowsIff` | internal/health/manager.go:66-120 | for any set of demands: routing follows the verdicts in every run that asks for them iff in each of them health keys tell the targets apart |
| `HealthKeySharing.FailureIsHidden` | internal/health/store.go:38-50 | whenever a demand has two targets with one health key, some run leaves one of them judged Unhealthy and routable |
| `GatewayRouting.ReachableRoutingFollowsIff` | internal/health/config.go:17-56 | for the targets of any reachable snapshot: routing follows the verdicts in every run iff no two checked services share a health key |
| `GatewayRouting.DesiredKeysAreDistinctIff` | internal/health/config.go:161-178 | the targets of a reachable snapshot have distinct health keys iff no two checked services share one |
| `GatewayRouting.BarFreeKeysApart` | internal/config/normalize.go:76-78 | services with bar-free names share no health key |
| `GatewayRouting.SharedHealthKeyHidesFailure` | internal/config/normalize.go:64-78 | two registrations the normalisation accepts, and a run over their snapshot after which a target judged Unhealthy is routable |
| `GatewayRouting.ReadyIffNotDown` | internal/route/config/load_balancer.go:77-79 | for the last reconciled snapshot, if services share no health key, an instance is routable iff its own running target is not judged Unhealthy |
| `GatewayRouting.NeverRoutedToDown` | internal/route/config/load_balancer.go:66-74 | the load balancer never answers an instance judged Unhealthy, and where its scan is regular it fails only when all are |
| `HealthReconcile.Manager.Reconcile` | internal/health/manager.go:66-120 | afterwards exactly the desired targets run, with the desired settings; those that ran with them before keep generation, jitter and record; the others are new, Unknown, with distinct higher generations; all other loops are cancelled |
| `HealthReconcile.Manager.RetireOutdated` | internal/health/manager.go:76-90 | the first loop removes exactly the targets that are not wanted or have other settings, with their records |
| `HealthReconcile.Manager.StartMissing` | internal/health/manager.go:92-109 | the second loop starts exactly the missing targets, each with a fresh generation and an Unknown record |
| `HealthReconcile.VisitStep` | internal/health/manager.go:76-90 | one iteration of the first loop carries its progress one target further |
| `HealthReconcile.StartAllIsStarted` | internal/health/manager.go:92-109 | starting the missing targets in any order gives distinct generations, the old targets untouched |
| `HealthReconcile.SecondReconcileIsIdle` | internal/health/manager.go:76-83 | reconciling the same targets again changes neither targets, generations, cancellations nor records |
| `HealthChecker.Run` | internal/health/checker.go:13-55 | after any outcomes the published record is the verdict and the trailing runs of all of them, and the interval is that of the current run of failures |
| `HealthChecker.TickIsVerdict` | internal/health/checker.go:31-47 | the counters are the lengths of the trailing runs and the status is the verdict, after each check |
| `HealthChecker.VerdictIsLatestRun` | internal/health/checker.go:36-46 | Unhealthy (Healthy) iff some full threshold run of failures (successes) is followed by no full run of the opposite |
| `HealthStore.Store.UpdateStatus` | internal/health/store.go:64-96 | a result is stored iff the record exists with the same generation; answers the previous record |
| `HealthStore.Store.SetUnknown` | internal/health/store.go:39-50 | sets one record to Unknown with the generation, nothing for an empty key |
| `HealthStore.Store.Delete` | internal/health/store.go:53-61 | removes one record, nothing for an empty key |
| `HealthStore.Store.CopyRecords` | internal/health/store.go:116-122 | the copy loop yields the same records |
| `HealthStore.Store.IsRoutableKey` | internal/health/store.go:25-36 | routable unless the key has an Unhealthy record |
| `HealthTargets.DesiredTargets` | internal/health/config.go:17-56 | the targets are exactly the keys of instances of services with checks enabled, each with its service's settings and its own jitter |
| `HealthTargets.DesiredSettingsAreServices` | internal/health/config.go:24-52 | a loop runs on its service's own health settings, and its jitter is the hash of its key modulo their bound |
| `HealthTargets.BlanksRunOnDefaults` | internal/health/config.go:59-110 | what stands for each value left blank |
| `HealthTargets.DesiredSettingsAreSound` | internal/health/config.go:59-110 | every loop gets a positive interval not above its maximum, positive thresholds and jitter within its bound |
| `HealthBackoff.NextInterval` | internal/health/config.go:128-146 | below the threshold the interval, capped; from the threshold on the interval times 2^(failures-threshold+1), capped as the guard does, for any failure count; never overflows while doubling and iterates at most 63 times; only the final addition can wrap |
| `HealthBackoff.BackoffIsSaturatedIff` | internal/health/config.go:130-143 | equals min(max, interval*2^k) unless doubling lands at max-1, then one more; always equal for an even max |
| `HealthBackoff.BackoffIsMonotone` | internal/health/config.go:128-143 | more failures never shorten the interval, which stays between interval and max |
| `HealthBackoff.JitterFitsIff` | internal/health/config.go:145-145 | interval plus jitter is at least the interval iff the sum fits 64 bits, and negative otherwise |
| `HealthBackoff.BackoffOvershoots` | internal/health/config.go:133-136 | an interval of 3 with maximum 7 doubles to 7 |
| `HealthBackoff.JitterFor` | internal/health/config.go:149-158 | jitter is below its maximum, and 0 without one |
| `HealthBackoff.JitterIsResidue` | internal/health/config.go:154-157 | it is the residue of the hash |
| `PoolProtocol.RetiredIsNeverLeased` | internal/pool/client.go:92-106 | drain safety: in every interleaving a retired client gets no new lease, its lease count only falls, and after its waiter closed the connections for good no lease on it is left or comes back |
| `PoolProtocol.RetiredThenDrained` | internal/pool/client.go:97-106 | a run in which a held client is retired, not drained while it is held, and drained once it is given back |
| `PoolProtocol.WakeDrainsIff` | internal/pool/client.go:102-105 | a waiter gets through iff no request holds the client |
| `PoolProtocol.BeginStarts` | internal/pool/coordinate.go:61-72 | a request is taken up unless it asks for a dedicated client without naming a service |
| `PoolProtocol.ReadServesIff` | internal/pool/coordinate.go:79-87 | under the read lock a request is served iff the cache holds what it was assigned, with that client; otherwise nothing changes |
| `PoolProtocol.WriteServesIff` | internal/pool/coordinate.go:132-171 | under the write lock a request is served iff a client can be made or is there; otherwise it fails and the cache is as before |
| `PoolProtocol.WorkingCreationServes` | internal/pool/coordinate.go:143-171 | when creation works the request holds its service's client; if there was none of the wanted tier, one of that tier that no earlier state knew, and the one it replaces is retired |
| `PoolProtocol.FinishReturnsLease` | internal/pool/client.go:88-90 | finishing ends the request and gives back exactly one lease |
| `PoolProtocol.EveryClientHasOnePlace` | internal/pool/coordinate.go:75-172 | in every run each client is shared, dedicated to exactly one service, or retired, and retired at most once; a drained client has no lease |
| `PoolProtocol.LeasesAreHeld` | internal/pool/client.go:80-90 | the lease count is the number of requests holding the client; each request holds the single shared client or one of its tier |
| `PoolProtocol.ReleaseNeverPanics` | internal/pool/client.go:88-90 | whenever a request is about to finish its lease the count is positive, so the wait group never goes below zero |
| `PoolProtocol.CacheAgreesWhenServed` | internal/pool/coordinate.go:61-172 | at the step that serves a request the cache entry agrees with its assignment |
| `PoolProtocol.RunIsAtomic` | internal/pool/coordinate.go:78-144 | the double-checked locking refines one atomic lookup-or-replace per request, in every interleaving |
| `PoolProtocol.StepIsAtomic` | internal/pool/coordinate.go:78-144 | each step is at most one atomic operation; a missed read is none |
| `PoolProtocol.DedicatedIsNeverSharedTier` | internal/pool/policy/store.go:210-211 | with assignments that are dedicated iff their tier is not shared, no cached dedicated client has the shared tier |
| `PoolProtocol.FailureKeepsCache` | internal/pool/coordinate.go:143-147 | in every reachable state a failed creation changes nothing in the cache |
| `PoolProtocol.StepKeepsInv` | internal/pool/coordinate.go:75-172 | every step keeps clients in place, leases counted and the shared client the same |
| `PoolCache.FastPathIsLookup` | internal/pool/coordinate.go:78-87 | a hit under the read lock does what the write-locked section would do |
| `PoolCache.ServeIsLookupOrReplace` | internal/pool/coordinate.go:89-171 | serving: the cache agrees, other services keep their clients, the served client has one lease more, exactly the displaced client is retired |
| `PoolCache.WriteKeepsPlaced` | internal/pool/coordinate.go:89-171 | the write-locked sections keep every client in exactly one place |
| `PoolCache.FailureKeepsCacheIff` | internal/pool/coordinate.go:93-108 | a failed creation leaves the cache alone iff no dedicated client was to be left without a shared one |
| `PoolCache.FailureCanDropClient` | internal/pool/coordinate.go:93-108 | a cache in which the failure retires the dedicated client |
| `PoolCoordinator.Coordinator.Acquire` | internal/pool/coordinate.go:49-73 | error cases change nothing; otherwise one lookup-or-replace, after which every client is in its place |
| `PoolCoordinator.Coordinator.ReadShared` | internal/pool/coordinate.go:79-87 | the read-locked section for shared assignments |
| `PoolCoordinator.Coordinator.WriteShared` | internal/pool/coordinate.go:90-113 | the write-locked section: retires the service's own client, makes a shared one if there is none, leases it |
| `PoolCoordinator.Coordinator.ReadDedicated` | internal/pool/coordinate.go:123-130 | the read-locked section for dedicated assignments |
| `PoolCoordinator.Coordinator.WriteDedicated` | internal/pool/coordinate.go:133-171 | the write-locked section: checks again, else replaces and retires the old client |
| `PoolCoordinator.Coordinator.constructor` | internal/pool/coordinate.go:36-46 | one shared client and nothing else |
| `PolicyHistory.StateIsDeclared` | internal/pool/policy/store.go:216-258 | after any run of evaluations and deletions the stored state is a declarative function of the fresh history since the last deletion, within its maximal suffix of equal policy |
| `PolicyHistory.AnswerIsDeclared` | internal/pool/policy/store.go:225-257 | every answer is that function's: the last dedicated tier, unless a below-threshold evaluation came 30s after the one that started the timer, the first one following it whose clock is set |
| `PolicyHistory.NoInterference` | internal/pool/policy/store.go:225-231 | stale-revision evaluations and other services' events leave no trace in later answers |
| `PolicyHistory.SuffixIsMaximal` | internal/pool/policy/store.go:233-234 | the run that counts has one policy and cannot be extended to the left |
| `PolicyHistory.FreshEndsWithNewest` | internal/pool/policy/store.go:225-231 | fresh evaluations end with the newest revision seen |
| `PolicyStore.Store.AssignmentFor` | internal/pool/policy/store.go:192-214 | the tier is the one the whole history calls for; dedicated iff not shared; nothing recorded without service name or snapshot |
| `PolicyStore.Store.DelaySharedReturn` | internal/pool/policy/store.go:216-258 | for any clock, the answer is the declared one and the evaluation is recorded |
| `PolicyStore.TierIsByRegisteredLimits` | internal/pool/policy/store.go:271-294 | the evaluated tier is at least Super, Hot or Normal iff the status meets a positive limit, rate or in-flight, registered for that tier or a higher one; without thresholds it is Shared |
| `PolicyStore.PolicyIsRegisteredThresholds` | internal/pool/policy/store.go:159-189 | two evaluations of a service are of the same policy iff the same thresholds were registered |
| `PolicyHistory.ReturnsAfterThirtySeconds` | internal/pool/policy/store.go:239-252 | after any history: a service is back in the shared pool iff the evaluations below every threshold are at least thirty seconds apart |
| `PolicyHistory.TakesEffectAtOnce` | internal/pool/policy/store.go:233-238 | a deletion, a changed policy or a dedicated tier takes effect at once |
| `PolicyHistory.StaleAnswersCurrentTier` | internal/pool/policy/store.go:226-231 | an evaluation on an older snapshot changes nothing and answers its own tier, or the current one when below every threshold of the current policy |
| `PolicyStore.Store.Delete` | internal/pool/policy/store.go:149-157 | forgets the service's evaluations |
| `PolicyStore.DedicatedWasEarned` | internal/pool/policy/store.go:225-257 | a dedicated tier is only given to a service that reached that very tier in its history |
| `PolicyTiers.DecideTierIsHighest` | internal/pool/policy/store.go:271-294 | the decision is the highest tier whose threshold is reached |
| `PolicyTiers.DecideTierIsMonotone` | internal/pool/policy/store.go:271-294 | more traffic never lowers the tier |
| `TrafficRing.RingIsExactIff` | internal/pool/traffic/record.go:202-244 | the ring never overcounts the window and is exact iff no request of the window was overwritten |
| `TrafficRing.WindowCountIsRecent` | internal/pool/traffic/record.go:237-240 | the count compared with is the number of logged requests whose second lies in (now-W, now] |
| `TrafficRing.RingIsExactWhenTimely` | internal/pool/traffic/record.go:227-244 | with the clock at or past every request and none a whole window late, the ring equals the log |
| `TrafficRing.HeldIsCountIff` | internal/pool/traffic/record.go:217-224 | a bucket never overcounts its second and is exact iff nothing displaced it |
| `TrafficRing.LateReaderUndercounts` | internal/pool/traffic/record.go:237-239 | a reader with an earlier clock can miss a request |
| `TrafficRing.BucketIndex` | internal/pool/traffic/record.go:257-264 | the index is the mathematical residue, for negative seconds too |
| `TrafficRecord.ConfigRecord.BucketAdd` | internal/pool/traffic/record.go:202-225 | the ring stays the summary of the log with the request added |
| `TrafficRecord.ConfigRecord.Start` | internal/pool/traffic/record.go:77-93 | counts one request in flight, started and in the ring |
| `TrafficRecord.ConfigRecord.Finish` | internal/pool/traffic/record.go:151-162 | moves one request from in flight to finished and adds its latency, never negative |
| `TrafficRecord.ConfigRecord.RequestsInWindow` | internal/pool/traffic/record.go:227-244 | the summing loop: at most the log's count, and equal to it iff nothing was overwritten |
| `TrafficRecord.ConfigRecord.StatusFor` | internal/pool/traffic/record.go:113-130 | in flight is started minus finished; rate, window, mean latency and last-seen instant are those of the log and counters, rounded as the code does |
| `TrafficRecord.Completion.Call` | internal/pool/traffic/record.go:86-92 | only the first call of done counts |
| `TrafficRecord.EffectiveWindow` | internal/pool/traffic/record.go:133-149 | the window used is a whole positive number of seconds: one minute if none is given, at least a second, otherwise rounded down |
| `TrafficRecord.BucketCount` | internal/pool/traffic/record.go:246-255 | at least one bucket; one per second of the window |
| `TrafficRecorder.Recorder.constructor` | internal/pool/traffic/record.go:133-149 | no records, the effective window |
| `TrafficRecorder.Recorder.RecordFor` | internal/pool/traffic/record.go:164-187 | the service's own record, made fresh and empty when it has none; no two services share one |
| `TrafficRecorder.Recorder.Start` | internal/pool/traffic/record.go:66-93 | the request enters its service's log and no other; nothing happens without a service name |
| `TrafficRecorder.Recorder.StatusFor` | internal/pool/traffic/record.go:96-131 | the two errors exactly when the name is missing or unknown; otherwise counters, rate, mean latency and last-seen instant of the service's own record, and the requests of its own log |
| `TrafficCounters.CountersAgree` | internal/pool/traffic/record.go:80-92 | in every interleaving in-flight is not negative, done counts once, and at quiescence started = finished + in flight |
| `TrafficCounters.RequestIsCounted` | internal/pool/traffic/record.go:80-92 | after any run, one request is counted in flight and started, its first done moves it to finished, further ones change nothing |
| `TrafficCounters.ReportsWereLoaded` | internal/pool/traffic/record.go:114-121 | what a status reports were the counters' values, loaded in this order |
| `TrafficCounters.StatusIsConsistent` | internal/pool/traffic/record.go:113-121 | a status never reports more finished than started requests, whatever runs between its loads |
| `TrafficBucketSteps.CountIsExactIff` | internal/pool/traffic/record.go:202-225 | in every interleaving, unless a rotation is half way: count plus lost additions equals additions made for the second plus strays; exact iff strays equal lost, above iff strays exceed lost |
| `TrafficBucketSteps.LoneCallAddsOne` | internal/pool/traffic/record.go:202-225 | after any run, a call that runs alone adds one request to its second and leaves the lock free |
| `TrafficBucketSteps.CleanRunsCountExactly` | internal/pool/traffic/record.go:202-225 | a run without unlocked additions pending at a rotation or made during one, and without return to an old second, counts the calls exactly |
| `TrafficBucketSteps.OvercountIsStrays` | internal/pool/traffic/record.go:227-239 | what a reader sees under the lock is at most the calls begun for the second plus the strays |
| `TrafficBucketSteps.DisciplinedNeverOvercounts` | internal/pool/traffic/record.go:202-225 | without an unlocked addition pending at a rotation the count never exceeds the calls begun for its second |
| `TrafficBucketSteps.OvercountHappens` | internal/pool/traffic/record.go:207-211 | a run in which one call is counted as two |
| `TrafficBucketSteps.UndercountHappens` | internal/pool/traffic/record.go:218-221 | a run in which one of two calls is lost |
| `ConfigRuns.ReachableIsIndexed` | internal/config/snapshot.go:33-141 | in every reachable snapshot `Routes` is exactly the disjoint union of all services' endpoints and `WildcardRoutes` lists each wildcard once; the revision counts the commits |
| `ConfigRuns.CommittedIffAccepted` | internal/config/manager.go:117-133 | a candidate that was built is committed iff every entry of the list is a validator that accepts it |
| `ConfigRuns.VerdictIsFirstRefusal` | internal/config/manager.go:119-127 | otherwise the error is that of the first entry that is missing or refuses |
| `ConfigRuns.ActiveWasAccepted` | internal/config/manager.go:117-137 | every snapshot committed in a run was accepted by all validators |
| `ConfigRuns.RunStep` | internal/config/manager.go:71-86 | a command that fails leaves the active snapshot, one that succeeds makes its candidate active |
| `ConfigRuns.RegisteredService` | internal/config/snapshot.go:49-71 | the service has the registered global, threshold and endpoint settings and the normalised health settings; its instance takes the place of the one at its host and port or goes to the end |
| `ConfigRuns.DeregisteredService` | internal/config/snapshot.go:73-97 | succeeds iff the service has an instance at the host and port; that one goes, the list closes up, and nothing else changes but the revision |
| `ConfigRuns.RegisterTouchesOneService` | internal/config/snapshot.go:99-141 | other services' records and wildcard order stay, the service's own wildcards come last |
| `ConfigRuns.RegisterThenDeregister` | internal/config/snapshot.go:73-97 | registering an instance at a new address, of a known service or a new one, and deregistering it restores the instance list in order |
| `ConfigRuns.RegisterCommits` | internal/config/manager.go:63-86 | a well-formed registration that takes no other service's route is committed when no validator refuses |
| `ConfigIndex.CandidateIsIndexed` | internal/config/snapshot.go:33-71 | registering keeps the index the union of all endpoints and addresses unique, one revision up |
| `ConfigIndex.DeregisteredIsIndexed` | internal/config/snapshot.go:73-97 | so does deregistering |
| `ConfigIndex.FirstConflictIsFirst` | internal/config/snapshot.go:121-132 | the conflict reported is that of the first new entry another service owns |
| `ConfigIndex.WildcardsOfParts` | internal/config/snapshot.go:135-137 | wildcard entries keep the order of the endpoints |
| `ConfigIndex.WithoutRemovesOne` | internal/config/snapshot.go:79-88 | of unique addresses the one given goes and the list closes up |
| `ConfigIndex.OwnerIsUnique` | internal/config/snapshot.go:120-132 | no two services own one method and path |
| `ConfigIndex.UpsertThenWithout` | internal/config/snapshot.go:185-194 | on lists: appending a new address and removing it restores the list |
| `ConfigIndex.UpsertKeepsInstances` | internal/config/snapshot.go:185-194 | addresses stay unique; exactly the new address is added |
| `ConfigIndex.UpsertMembers` | internal/config/snapshot.go:185-194 | the list holds the new instance and otherwise only old ones |
| `ConfigIndex.WithoutMembers` | internal/config/snapshot.go:79-88 | removal keeps exactly the instances at other addresses |
| `ConfigIndex.WithoutKeepsUnique` | internal/config/snapshot.go:79-88 | removal keeps addresses unique |
| `ConfigBuilder.BuildCandidateSnapshot` | internal/config/snapshot.go:5-12 | the heap builder yields the specified candidate, fresh, writing to nothing that existed |
| `ConfigBuilder.BuildDeregisterSnapshot` | internal/config/snapshot.go:14-21 | likewise for removing an instance |
| `ConfigBuilder.CompactWildcards` | internal/config/snapshot.go:106-117 | in-place compaction leaves the other services' entries in order |
| `ConfigBuilder.AppendEntry` | internal/config/snapshot.go:135-137 | append, in place or into a larger array, extends the slice by one entry |
| `ConfigBuilder.UpsertInstance` | internal/config/snapshot.go:185-194 | replaces the first instance at the address or appends |
| `ConfigBuilder.RemainingInstances` | internal/config/snapshot.go:79-91 | the remaining instances in order, or nothing when the address is unknown |
| `ConfigBuilder.StoreService` | internal/config/snapshot.go:49-71 | the service record with the instance upserted into a copy of the shared list |
| `ConfigBuilder.SnapshotBuilder.constructor` | internal/config/snapshot.go:149-172 | copies maps and wildcard list so that none of them is shared with the current snapshot |
| `ConfigBuilder.SnapshotBuilder.RemoveServiceRoutes` | internal/config/snapshot.go:99-104 | removes exactly the service's routes |
| `ConfigBuilder.SnapshotBuilder.AddServiceRoutes` | internal/config/snapshot.go:120-141 | stores all entries, or stops at the first key another service owns |
| `ConfigBuilder.ViewSurvives` | internal/config/snapshot.go:149-172 | a snapshot none of whose objects is written to keeps its value |
| `ConfigManager.Manager.Register` | internal/config/manager.go:63-86 | on failure nothing changes, on success the candidate, accepted by every validator, is active; the snapshot published before keeps its value |
| `ConfigManager.Manager.DeregisterInstance` | internal/config/manager.go:89-115 | likewise |
| `ConfigManager.Manager.CommitCandidate` | internal/config/manager.go:117-137 | the first missing or refusing validator decides; the candidate becomes active iff every entry is a validator that accepts it |
| `ConfigManager.Manager.AddValidator` | internal/config/manager.go:47-52 | appends to the list |
| `ConfigNormalize.RouteEntriesFrom` | internal/config/normalize.go:186-227 | succeeds iff every endpoint is complete and no method and path repeats; the first fault is reported |
| `ConfigNormalize.NoFaultIffWellFormed` | internal/config/normalize.go:191-211 | a fault is found iff some endpoint is incomplete or repeats |
| `ConfigNormalize.FirstFaultIsFirst` | internal/config/normalize.go:191-211 | the fault reported is that of the first endpoint with one, in the order path, method, role, duplicate |
| `ConfigNormalize.NormalizeInstanceKeepsAddress` | internal/config/normalize.go:52-78 | accepted iff service, scheme, host and port are; these survive and the health key is made anew from them |
| `ConfigNormalize.ValidPortIff` | internal/config/normalize.go:63-66 | a port in decimal notation is accepted from 1 to 65535 only, other text not |
| `ConfigNormalize.NormalizeHealthKeepsGiven` | internal/config/normalize.go:80-139 | every value given survives, every blank gets its default, and refusal happens exactly for values out of range |
| `ConfigNormalize.NormalizeSettingsKeepsRest` | internal/config/normalize.go:21-50 | accepted iff everything required is there and acceptable; all but instance and health settings stay as given |
| `ConfigNormalize.HealthKeysCollideIff` | internal/config/normalize.go:76-78 | two services can share a health key iff one key head absorbs the other |
| `ConfigNormalize.BarFreeNamesNeverCollide` | internal/config/normalize.go:76-78 | with bar-free service names the health key determines service and instance |
| `ConfigNormalize.NormalHealthIsFixed` | internal/config/normalize.go:80-139 | normalisation accepts into, and leaves alone, exactly the normal settings |
| `ConfigNormalize.NormalSettingsAreFixed` | internal/config/normalize.go:21-74 | normalised settings are accepted again unchanged |
| `RouteRouter.RouteForIsScan` | internal/route/config/router.go:19-58 | on every reachable snapshot, for any request: a route is found iff method and path are given and some endpoint of some service matches, and what is found is one |
| `RouteRouter.ScanAgreesIff` | internal/route/config/router.go:28-30 | lookup and scan agree about a request, whatever has been registered, iff it has a method and a path |
| `RouteRouter.EmptyRequestIsUnrouted` | internal/route/config/router.go:28-42 | after one registration of a catch-all every request matches, yet those without method or path are not routed |
| `RouteRouter.MatchIsTextual` | internal/route/config/router.go:47-58 | a match is the method or ALL, and the same path or the text before the wildcard as its beginning |
| `RouteRouter.WildcardRoutesItsPaths` | internal/route/config/router.go:38-58 | a wildcard endpoint routes every path that begins with its text, for its method, and no request of another method |
| `RouteRouter.RoutePrecedence` | internal/route/config/router.go:32-42 | when a route is found, every other matching endpoint comes after it: exact method, then exact ALL, then wildcards in list order |
| `RouteRouter.FirstMatchIsFirst` | internal/route/config/router.go:38-42 | the wildcard search answers the first match |
| `RouteRouter.ReachableCandidatesAreValid` | internal/route/config/validator.go:19-55 | the validator accepts every candidate built from a reachable snapshot |
| `RouteRouter.RefusedIff` | internal/route/config/validator.go:25-52 | exactly what the validator refuses |
| `RouteRouter.ValidRoutesReachServices` | internal/route/config/validator.go:35-52 | with an accepted snapshot every routed request goes to a service it has |
| `RouteRouter.ValidIsNotIndexed` | internal/route/config/validator.go:19-55 | it also accepts a snapshot whose index misses an endpoint |
| `RouteLoadBalancer.LoadBalancer.NextInstance` | internal/route/config/load_balancer.go:35-75 | error cases leave the cursors alone; otherwise the service's stored cursor, 0 at first, advances by one, wrapping, other cursors stay, and the first routable position of the cyclic scan from it is answered; no answer is Unhealthy in the provider's records |
| `RouteLoadBalancer.LoadBalancer.Repeat` | internal/route/config/load_balancer.go:58-74 | calls in a row answer for consecutive cursor values, and leave the service's cursor that much further |
| `RouteLoadBalancer.LoadBalancer.Round` | internal/route/config/load_balancer.go:58-74 | a round of calls answers each instance its share of times, under the exact condition of `FairShareIff` |
| `RouteLoadBalancer.PlainRoundRobin` | internal/route/config/load_balancer.go:77-79 | without a health provider the answer is the instance at the cursor |
| `RouteLoadBalancer.FailureMeansAllUnhealthy` | internal/route/config/load_balancer.go:66-74 | a regular scan fails iff every instance is Unhealthy in the records |
| `RouteLoadBalancer.ErrorIffNoneReadyIff` | internal/route/config/load_balancer.go:66-74 | an error means no routable instance, for every health state, iff the scan does not wrap or the length divides 2^64 |
| `RouteLoadBalancer.ScanCoversIff` | internal/route/config/load_balancer.go:67-68 | the scan looks at every position under exactly that condition |
| `RouteLoadBalancer.FairShareIff` | internal/route/config/load_balancer.go:64-72 | n consecutive calls are fair for every health state iff none of their scans passes the end of 64 bits or n divides 2^64 |
| `RouteLoadBalancer.FairShare` | internal/route/config/load_balancer.go:64-72 | fair means: a routable instance is picked once plus once for each unroutable one directly before it, an unroutable one never |
| `RouteLoadBalancer.PickedIff` | internal/route/config/load_balancer.go:67-72 | a regular call picks a position iff it is routable and the cursor lies in the unroutable gap before it |
| `JwksExponent.DecodeExponent` | internal/auth/config/jwks.go:111-126 | the big-endian value when it is between 1 and the largest int; the two errors exactly otherwise, for any length (section 6.3.1.2 of RFC 7518) |
| `JwksExponent.EncodeRoundTrip` | internal/auth/config/jwks.go:111-126 | decoding inverts the shortest encoding |
| `JwksExponent.CanonicalIffNoLeadingZero` | internal/auth/config/jwks.go:111-126 | encoding inverts decoding iff there is no leading zero octet |
| `JwksExponent.LeadingZeros` | internal/auth/config/jwks.go:113-119 | leading zero octets never change the value |

## Left out

- HTTP forwarding, reverse proxy, transports, gin handlers, Prometheus recorders, logging, YAML loading: library and network behaviour.
- JWT parsing, base64, JSON and the loop of `publicKeys` over a key set: foreign calls and short branches around `decodeExponent`.
- Trimming, case folding, duration and port parsing: names, methods and paths are taken as already trimmed and folded, durations as parsed nanoseconds; host and port validity is modelled on characters, with ASCII white space only.
- Order of snapshot notifications: listeners are told after the manager's lock is released, so two registrations may be reconciled out of order. Health claims are therefore about the last snapshot reconciled.
- HealthRouting.RoutingFollowsVerdicts: assumes that each reconciliation asks for targets with distinct health keys, which `HealthKeySharing.RoutingFollowsIff` shows to be the exact condition; the law without it is `HealthProtocol.RoutingFollowsLastAnnounced`.
- HealthProtocol.StepKeepsInv: setting a record to Unknown and starting its loop are one step. A loop counts as told to stop from the moment its target leaves the map, earlier than in the code, and may go on for any number of checks.
- HealthReconcile.Manager.Reconcile: the replaced HTTP client is reduced to its number of idle connections, and calling a cancel function to adding the generation to a set.
- HealthStore.Store.UpdateStatus: `checkedAt` and the error text are not modelled.
- HealthStore.Store.CopyRecords: maps are values here, so that the copy shares nothing with the map readers hold needs no statement.
- HealthBackoff.JitterFor: the FNV hash of the health key is a parameter.
- PolicyStore.Store.AssignmentFor: the clock is an argument; the threshold checks of policy validation are left out as single branches.
- PoolProtocol.RetiredIsNeverLeased: each lease is finished once, as the forwarder does with its deferred call.
- PoolCoordinator.Coordinator.Acquire: nothing happens between its two sections here; interleaving is the subject of `PoolProtocol`. Whether the pool settings are loaded and whether a transport can be made are arguments. Log output is left out.
- TrafficRecord.ConfigRecord.Start: `bucketAdd` is one step here; its single atomic operations are the subject of `TrafficBucketSteps`. Counters and instants are unbounded integers, rates real numbers.
- TrafficRecorder.Recorder.RecordFor: one step; that a second look under the write lock finds a record made meanwhile is not modelled.
- TrafficCounters.CountersAgree: latency totals and last-seen instants are left out of the interleaving.
- ConfigManager.Manager.Register: revisions are unbounded; validators are arbitrary functions of the candidate's value. `Clone` of settings is the identity on values.
- PoolCoordinator.ManagedClient.Retire: closing idle connections and starting a waiter are counted only.
- RouteRouter.ReachableCandidatesAreValid: which error the validator reports is not modelled, only whether it accepts.
- Liveness and scheduling: no claim that a loop ever runs or a waiter ever wakes.
