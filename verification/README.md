# go-health, verified

A Dafny model of the engine of `go-health`: registration of checks, the
concurrent probe runner behind `/livez`, `/readyz` and `/healthz`, the reduction
to one status and HTTP code, and the Redis Cluster fan-out that feeds it.
`dafny verify dfyconfig.toml` checks the whole project.

## How it is built

| file | contents |
|---|---|
| `Types.dfy`, `HttpStatus.dfy` | checks, observations, responses, statuses and their codes |
| `Conversion.dfy` | what one check contributes, with suppression on pass |
| `Grouping.dfy` | the grouping loop and what the resulting map holds |
| `Aggregation.dfy` | the early-exit fold over an unordered map |
| `Sequential.dfy` | one probe, specified sequentially |
| `ForkJoin.dfy` | spawner, goroutines, WaitGroup counter and shared slots as a transition system |
| `TimedForkJoin.dfy` | the same under a discrete clock with deadlines |
| `Registration.dfy` | the three slices as a state machine, and properties across endpoints |
| `Serving.dfy` | any number of probes interleaved over one engine and one heap |
| `Engine.dfy` | the engine as a class, with arrays and loops |
| `RedisCluster.dfy`, `ClusterInEngine.dfy` | the mutex-guarded fan-out, and its composition with the engine |
| `EndToEnd.dfy` | from the Register calls to the status code on the wire |

The two concurrent protocols are transition systems over labelled steps. A
schedule is any sequence of steps; `Exec` says where it leads and is `None` when
a step was not enabled. Theorems quantify over all schedules, for any number of
checks, nodes and probes. `Engine.ForkAndJoin` and `ClusterRun` drive the same
step functions with a freely chosen next step.

What a check's `Run` returns is an input of each invocation (`Probe.outcomes`),
so results that hold for all outcomes hold for stateful and randomised checks.
Clock readings are inputs too; "up to timestamps" means after `Untimed`.

## Conventions and findings

- `Status` has a constructor for the strings other than `pass`, `warn` and
  `fail`; nil and empty slices are the same value; a panic of a Register method
  is the outcome `Panicked`, with the slices unchanged.
- `adapters/http/handlers.go:42-44` says that livez writes status 200. The code
  derives the status code from the response on all three endpoints
  (`adapters/http/handlers.go:102`), and the model follows the code.
- The WaitGroup counter can be zero while later goroutines have not been
  launched (`CounterZeroMidLaunch`); the join is sound because the spawner waits
  only after its loop (`WaitMeansAllDone`).
- The comment at `core/engine.go:205-206` bounds the wall time by the slowest
  check. That holds as written: the join happens exactly when the last check
  returns (`JoinAtLastReturn`). A bound known beforehand exists exactly when
  every check has a deadline, from a positive timeout or from the caller's
  context (`CappedIffDeadlines`), and all of them are known, in terms of the
  timeouts (`CapsIffTimeoutsFit`).
- The lock in the cluster check is needed exactly when there are at least two
  nodes (`LockNeededIffTwoNodes`).
- Assumed of the environment: a `Run` returns by its context's deadline and does
  not panic (`core/check.go:137-139`), and `forEach` returns only after its
  callbacks have (the guard of `EndForEach`).

## Model

| member | source | states |
|---|---|---|
| HttpStatus.HTTPStatusCode | core/status.go:83-90 | 503 for fail and only for fail, 200 for every other status, known or not |
| HttpStatus.WrittenCode | adapters/http/handlers.go:95-102 | the code written: 500 exactly when encoding fails, else 503 exactly for fail and 200 exactly otherwise |
| HealthEngine.Engine.RunOne | core/engine.go:258-294 | one entry per observation returned, in order, each reporting it field by field with the check's type and the clock reading; a nil Run gives one failing entry that says so; diagnostics are gone on pass |
| HealthEngine.Engine.Aggregate | core/engine.go:307-320 | ranging in any order, with early return and overwriting, yields fail if any entry fails, else warn if any warns, else pass |
| HealthEngine.Engine.ForkAndJoin | core/engine.go:219-228 | under any scheduling the shared array ends up holding, slot by slot, each check's own entries |
| HealthEngine.Engine.RunChecks | core/engine.go:211-237 | the concurrent runner returns the sequential map for the clock readings it took, the heartbeat first under its key and alone there when no check uses the reserved name |
| HealthEngine.Engine.RegisterHealthCheck | core/engine.go:90-95 | appends to healthz alone, or panics and changes nothing when the name is reserved |
| HealthEngine.Engine.RegisterReadinessCheck | core/engine.go:108-114 | appends to healthz and readyz, or panics and changes nothing |
| HealthEngine.Engine.RegisterLivenessCheck | core/engine.go:137-144 | appends to all three slices, or panics and changes nothing |
| HealthEngine.Engine.constructor | core/engine.go:55-65 | a new engine carries its identity and no checks |
| HealthEngine.Engine.RunLivez | core/engine.go:163-173 | the response is the sequential one for the livez slice, with the aggregated status |
| HealthEngine.Engine.RunReadyz | core/engine.go:341-351 | the response is the sequential one for the readyz slice, with the aggregated status |
| HealthEngine.Engine.RunHealthz | core/engine.go:364-374 | the response is the sequential one for the healthz slice, with the aggregated status |
| HealthEngine.AnswersFollowTheLog | core/engine.go:163-174 | what a registered engine answers is the probe of its registration log, with the status its scope decides and one heartbeat, stamped with the reading taken |
| ForkJoin.ReachableInv | core/engine.go:219-236 | every schedule keeps the invariant tying counter, spawner position, goroutine phases, slots and output map |
| ForkJoin.CounterMeaning | core/engine.go:220-228 | the counter is never negative, and is zero exactly when no launch is under way and all launched goroutines are done |
| ForkJoin.CounterZeroMidLaunch | core/engine.go:221-227 | for every k there is a schedule with a zero counter after exactly k launches, the remaining checks not launched yet |
| ForkJoin.WaitMeansAllDone | core/engine.go:228 | at the wait a zero counter is the same as every goroutine being finished |
| ForkJoin.JoinIsSafe | core/engine.go:219-230 | once Wait has returned, slot i has been written exactly once, by goroutine i, with runOne of check i, and nothing can write any more |
| ForkJoin.JoinedSlotIsFaithful | core/engine.go:225 | once Wait has returned, slot i holds, in order and field by field, exactly what check i returned |
| ForkJoin.HeartbeatReadFirst | core/engine.go:213 | the heartbeat's time is the reading taken by the very first step |
| ForkJoin.ReadWhenWritten | core/engine.go:273 | a check's time is the reading taken when it had returned |
| ForkJoin.RefinesSequential | core/engine.go:211-237 | every complete schedule returns exactly the sequential map |
| ForkJoin.ReturnsExactlySequential | core/engine.go:211-237 | the maps the runner can return are exactly the sequential ones, for all ways the clock may read |
| ForkJoin.SchedulesAgree | core/engine.go:201-206 | any two complete schedules return equal maps up to timestamps |
| ForkJoin.Progress | core/engine.go:219-228 | no schedule gets stuck before the runner has returned |
| ForkJoin.WorkConserved | core/engine.go:219-236 | steps taken plus work left is constant, so schedules are bounded and all complete ones have the same length |
| ForkJoin.Completes | core/engine.go:205-206 | every partial schedule is a prefix of one that returns |
| TimedForkJoin.TimedIsUntimed | core/engine.go:259-271 | a timed schedule without its ticks is a schedule of the runner |
| TimedForkJoin.NoTimelock | core/check.go:137-139 | from every point, time can advance after finitely many steps, each of them due when it is taken |
| TimedForkJoin.JoinAtLastReturn | core/engine.go:205-206 | the join happens exactly when the last check returns, with or without deadlines: a maximum, never a sum |
| TimedForkJoin.JoinWithinSlowestRun | core/engine.go:205-206 | once all checks have started, the join is at most the longest running time away, however many checks there are |
| TimedForkJoin.JoinWithinLatestBound | core/engine.go:205-210 | when every check has a deadline, the join is no later than the maximum over the checks of start or deadline, whichever is later |
| TimedForkJoin.JoinWithinSlowest | core/engine.go:259-264 | once all checks have started, the join is at most the largest timeout away, however many checks there are |
| TimedForkJoin.JoinWithinParentDeadline | core/engine.go:208-210 | a deadline on the caller's context caps the whole probe |
| TimedForkJoin.WaitsForever | core/engine.go:259-271 | a check with neither a timeout nor a caller's deadline can keep the spawner waiting until any given time, all other checks having started at zero and returned |
| TimedForkJoin.CappedIffDeadlines | core/engine.go:205-210 | a cap on the join of all schedules that start their checks by a given time exists exactly when the caller has a deadline or every check a positive timeout |
| TimedForkJoin.LeastCap | core/engine.go:205-210 | the least such cap is the latest bound of checks that all start at that time: no schedule exceeds it and one meets it |
| TimedForkJoin.CapsIffTimeoutsFit | core/engine.go:259-264 | for any checks and any caller: a time caps the join of checks started by `last` exactly when it is no earlier than `last` and leaves every check its timeout, or until the caller's deadline |
| TimedForkJoin.StampsAreOrdered | core/engine.go:213-273 | in every timed schedule the heartbeat is stamped before any check starts, and each check's entries after it did |
| Grouping.GroupedMeaning | core/engine.go:230-235 | a key is present exactly for the heartbeat or a check of that name with entries, and holds their registration-order concatenation |
| Grouping.GroupingConserves | core/engine.go:212-236 | the bag of entries is the heartbeat and the slots' entries; its size is one plus their lengths |
| Grouping.HeartbeatAlone | core/engine.go:213-234 | the reserved key holds the heartbeat alone exactly when no check of that name reported anything |
| Grouping.GroupedSame | core/engine.go:230-235 | reordering entries within slots reorders them within keys and moves none to another key |
| Aggregation.AggregationOrderFree | core/engine.go:307-320 | the early-exit fold over every iteration order equals the order-free rule |
| Aggregation.AggregationJoins | core/engine.go:296-320 | aggregating a split map is taking the worse of the parts |
| Aggregation.OverallIgnoresKeys | core/engine.go:307-320 | the status depends only on the bag of entries |
| Sequential.StatusesAreObserved | core/engine.go:230-235 | a non-pass status is in the response exactly when some check observed it |
| Sequential.SuppressionHolds | core/engine.go:275-292 | every entry is suppressed on pass, and is the heartbeat, first under its key, or the entry of an observation of a check of its key, field by field |
| Sequential.EntryInPlace | core/engine.go:230-235 | observation j of check i is under its name, right behind the heartbeat if that is there, what earlier checks of the name returned, and the observations before it |
| Sequential.SuppressionKeepsStatus | core/engine.go:287-290 | leaving the diagnostics in would give the same status |
| Sequential.LeakyKeepsDiagnostics | core/engine.go:275-286 | the unsuppressed entries compared with do carry the diagnostics that were returned |
| Sequential.NamingIsIrrelevant | core/engine.go:230-235 | renaming the checks, even merging keys, keeps the bag of entries and the status |
| Registration.Cascade | core/engine.go:90-144 | after any calls each slice is the log filtered by scope, in order, with duplicates, without the reserved name |
| Registration.ProbeRunsTheSlice | core/engine.go:163-164 | the probe of an endpoint runs exactly the slice registration built for it |
| Registration.ProbeHolds | core/engine.go:90-144 | each admitted call's check is in the probe behind those admitted before it, with its own outcome |
| Registration.OnlyScopeMatters | core/engine.go:90-144 | outcomes outside an endpoint's scope do not reach its probe |
| Registration.Containment | core/engine.go:108-144 | under each key, a narrower endpoint's entries are an order-preserving subsequence of a wider one's |
| Registration.SeverityGrowsOutward | core/engine.go:307-320 | the status of livez is no worse than that of readyz, nor that of readyz than that of healthz |
| Registration.StatusFromLog | core/engine.go:296-320 | an endpoint's status is the strict rule over what the registered checks in its scope observed |
| Registration.WorseNeverHelps | core/engine.go:307-320 | making observations more severe never improves an endpoint |
| Registration.MoreNeverHelps | core/engine.go:90-144 | further registrations never improve an endpoint |
| Registration.KeysFromLog | core/engine.go:230-235 | the keys of an endpoint's response are the heartbeat's and the names of the checks in its scope that reported something |
| Registration.ProbeOfRenamed | core/engine.go:90-144 | registering under other names gives the renamed probe |
| Serving.ServedInv | core/engine.go:17-22 | every interleaving keeps the invocations' cells apart and each invocation where its own steps put it |
| Serving.Isolation | core/engine.go:17-22 | under any interleaving each invocation is exactly where its own steps alone would have brought it, heap cells included |
| Serving.InvocationsAreTheCalls | core/engine.go:163-164 | there is one invocation per accepted call, in order, with that call's endpoint and outcomes |
| Serving.ResponsesAreSequential | core/engine.go:163-174 | under every interleaving, schedule and iteration order the k-th accepted call is answered with the sequential response for its endpoint's slice and the outcomes it brought, the engine's identity included |
| Serving.ReadingsAreOwn | core/engine.go:213-273 | the times in an answer were read by that invocation's own steps |
| Serving.CanAlwaysAccept | core/engine.go:17-22 | a call on any endpoint can be accepted at any point of any interleaving |
| Serving.CanAlwaysAnswer | core/engine.go:201-206 | from any point of any interleaving an invocation can be driven to its answer by its own steps alone |
| Serving.ServingTerminates | core/engine.go:201-206 | no interleaving is longer than the work it has accepted, and it is that long exactly when every accepted invocation has answered |
| Serving.MaximalAnswersAll | core/engine.go:201-206 | only new calls can move the server exactly when every accepted invocation has answered |
| RedisCluster.PingNode | checks/redischeck/redischeck.go:246-255 | the result carries the node's address; it fails with the error's text when the ping erred, and passes with no text when it did not; all else is empty |
| RedisCluster.ReachableInv | checks/redischeck/redischeck.go:221-230 | every schedule keeps exclusion, fresh reads and the bag of stored results |
| RedisCluster.MutualExclusion | checks/redischeck/redischeck.go:227-229 | at most one callback is between Lock and Unlock |
| RedisCluster.NothingLost | checks/redischeck/redischeck.go:225-230 | when forEach has returned, the slice is, as a bag, the ping result of every yielded node, and is so node by node for some order of the nodes |
| RedisCluster.ReturnsWhatIsOwed | checks/redischeck/redischeck.go:231-237 | the check returns one result per node, or the cluster failure when it has an error and no node |
| RedisCluster.ReturnsOnePerNode | checks/redischeck/redischeck.go:225-237 | for some order of the nodes, result j carries node j's address, verdict and error text; with an error and no node the one result is a failure with the error's text |
| RedisCluster.AnyOrderOccurs | checks/redischeck/redischeck.go:225-230 | and every order of the nodes is that of some schedule |
| RedisCluster.Progress | checks/redischeck/redischeck.go:225-230 | no schedule of the callbacks deadlocks |
| RedisCluster.StepSpendsWork | checks/redischeck/redischeck.go:225-237 | every step uses up a unit of bounded work |
| RedisCluster.WorkConserved | checks/redischeck/redischeck.go:225-237 | steps taken plus work left is five per node and two more, along every schedule |
| RedisCluster.ReportedIffWorkDone | checks/redischeck/redischeck.go:225-237 | no schedule exceeds that bound, and those that reach it are exactly the ones that have reported |
| RedisCluster.Completes | checks/redischeck/redischeck.go:225-238 | every partial schedule of the callbacks is a prefix of one that reports |
| RedisCluster.ClusterRun | checks/redischeck/redischeck.go:220-238 | under any scheduling the check's Run returns one result per node, field by field and in some order, or the one failure with the iteration's error |
| RedisCluster.LostUpdateWithoutLock | checks/redischeck/redischeck.go:227-229 | without the lock, any cluster of two or more nodes can be reported with one node missing |
| RedisCluster.LockNeededIffTwoNodes | checks/redischeck/redischeck.go:227-229 | without the lock wrong results are possible exactly when there are at least two nodes |
| ClusterInEngine.OrderIsInvisible | core/engine.go:230-235 | the order in which checks list observations shows only in the order of entries under a key, and never in the status |
| ClusterInEngine.ClusterFailsTheResponse | checks/redischeck/redischeck.go:225-237 | a registered cluster check fails a served response exactly when a yielded node's ping failed, or there was an error and no node |
| ClusterInEngine.ClusterKeyPresence | core/engine.go:230-234 | it contributes no key to a served response exactly when there is no node and no error |
| ClusterInEngine.NodeInResponse | checks/redischeck/redischeck.go:225-255 | every yielded node has an entry in every served response in its check's scope, with its address, its verdict and its error text |
| ClusterInEngine.ClusterScheduleIsInvisible | checks/redischeck/redischeck.go:211-237 | for any number of cluster checks, served responses that differ only in their callbacks' schedules, or in errors after at least one node, have the same keys, the same entries under each key up to order, and the same status |
| EndToEnd.EveryResponseIsAnAnswer | core/engine.go:163-174 | every response of a served engine is covered by the theorems below |
| EndToEnd.AnswerIsSequential | core/engine.go:163-174 | a served response is the sequential one for the registration log and the outcomes |
| EndToEnd.StatusIsTheWorstInScope | core/engine.go:307-320 | the status is fail exactly when a check in scope failed or has no Run, warn exactly when none did and one warned, else pass |
| EndToEnd.CodeIs503IffScopeFailed | adapters/http/handlers.go:95-102 | when the response encodes, the code is 503 exactly when a check in the endpoint's scope failed or had no Run, else 200 |
| EndToEnd.CodeIs503IffCallFails | adapters/http/handlers.go:95-102 | the same for any engine, in terms of the slice and of the outcomes the accepted call brought |
| EndToEnd.No503IsUndone | core/engine.go:90-144 | worse observations and further registrations never turn a 503 into a 200 |
| EndToEnd.NonInterference | core/engine.go:163-174 | responses of runs that agree on the endpoint's scope are equal up to timestamps, whatever names collide |
| EndToEnd.EndpointsNest | core/engine.go:108-144 | served responses of narrower endpoints are contained in wider ones and no worse |
| EndToEnd.HeartbeatInEveryResponse | core/engine.go:181-187 | in every response `system:time` holds exactly one entry: passing, of type `system`, stamped with the reading of that invocation's first step, empty otherwise |
| EndToEnd.SuppressionInEveryResponse | core/engine.go:275-292 | every entry of every response is suppressed on pass and is the heartbeat or the entry of an observation of its key; suppression leaves the status alone |
| EndToEnd.ResponseByKey | core/engine.go:230-235 | which keys a response has, and how many entries under each, counted over what the checks returned |
| EndToEnd.NothingLostInResponse | core/engine.go:212-236 | a response has one entry per observation returned, one per check without a Run, and the heartbeat |
| EndToEnd.EveryObservationIsReported | core/engine.go:230-292 | every observation of every check of the endpoint has its entry at its place under the check's name, field by field, stamped when the check had returned; with the lengths this is the whole response |
| EndToEnd.RegisteredObservationIsReported | core/engine.go:90-144 | what the Run of a registered check returned to an endpoint in its scope is in that endpoint's answer, under the name registered |
| EndToEnd.NamingIsInvisible | core/engine.go:230-235 | registering the same checks under other names, even merging keys, keeps the status and the bag of entries of every served response |

## Left out

- Concurrent registration: Register calls racing with each other or with probes are documented as unsupported; the slices are fixed while probes are served.
- A `Run` that panics or never returns: excluded by its contract.
- Allocation order in `runChecks`: slots and counter exist from the moment an invocation starts, rather than from after the heartbeat entry is made; nothing reads them before.
- `runOne` as several steps: in the transition systems a goroutine enters `runOne`, and later writes its slot with the converted entries; the loop in between works on local data and is `Engine.RunOne`.
- Cancellation of the caller's context other than by its deadline: it would only end a `Run` earlier.
- The go-redis client: the nodes yielded, their ping outcomes and the iteration's error are inputs. `New` for a single node is one call of `PingNode`, and the default name, type and timeout of a cluster check can all be overridden, so no theorem mentions them.
- `ObservedValue` is an optional string instead of any JSON value; it is only ever copied.
- Logging and options: they have no effect on results.
- JSON encoding, headers and routing: encoding is a boolean in `WrittenCode`.
- `dbcheck`, `s3check`, `tcpcheck`, `httpcheck`: one foreign call and one branch each; they are covered as arbitrary `Run` outcomes.
