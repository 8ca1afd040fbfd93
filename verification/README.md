# Aviator: verified model

Aviator is a Kubernetes controller that sends a Service's traffic to its fastest pods. Agents in the kernel measure
round-trip times, a collector keeps a window of them per destination, and the controller merges the agents' reports,
ranks the pods by P99 latency, ejects bad ones with a per-pod circuit breaker, selects the fastest, damps flapping and
publishes an EndpointSlice it owns, under the protection of a finalizer. This project models that pipeline in Dafny and
proves what it achieves.

| file | what it models |
|---|---|
| `TcpLatency.dfy` | the kernel hooks: matching of sends and receives, ring buffer, per-destination aggregates |
| `EventCodec.dfy` | decoding of ring-buffer records, names of destinations |
| `Collector.dfy`, `Interpolation.dfy` | the agent's sample windows and its interpolating percentile |
| `ProbeSource.dfy`, `EbpfSource.dfy` | the two latency sources: insertion sort and percentile, merge of the agents' reports |
| `Aggregator.dfy`, `Dampening.dfy` | ranking, selection, fleet statistics, suppression of updates |
| `CircuitBreaker.dfy`, `BreakerHistory.dfy` | the breaker, and what its fields mean in terms of its history |
| `Decision.dfy`, `TieBreaking.dfy` | one evaluation, from latencies to selected pods; when its choice is free of races |
| `Cluster.dfy`, `ApiClient.dfy`, `EndpointSlice.dfy` | the API server as the controller uses it, the slice manager |
| `Controller.dfy` | the reconciler class, proved equal to a function of the old state and what it meets |
| `EvaluationOutcome.dfy`, `ReconcileOutcome.dfy` | what one reconcile leaves of each entry, endpoint and status field, on every way out, in terms of its inputs |
| `ControllerProperties.dfy` | what one reconcile achieves |
| `ControllerRuns.dfy` | runs of the controller: reconciles of any policies, users' writes, garbage collection, restarts |
| `DampenedRuns.dfy`, `EjectionRuns.dfy` | what dampening and ejection make of the published slice over such runs |
| `OpenPodExample.dfy`, `ReadmissionExample.dfy` | a run that publishes an Open pod, an evaluation that admits one without evidence |
| `FinalizerProtocol.dfy` | the finalizer protocol, one API call at a time, interleaved with everyone else |
| `Order.dfy`, `Arithmetic.dfy`, `GoInt.dfy`, `Options.dfy` | sorting and ranks, sums and quotients, Go's integers, optional values |

## How to read the model

- Classes whose methods update fields (`Breaker`, `DampeningState`, `Collector`, `Programs`, `Client`, `Manager`,
  `Reconciler`) are classes here. Each method is proved to compute a function of the old state; the laws are proved
  about those functions. `Breaker`, `Collector` and `Programs` also carry a ghost log of their calls, and their `Valid()`
  says that the fields are what the whole log makes of an empty object, so every theorem about logs holds of every object.
- Times and durations are integers. A method that holds a mutex is one atomic step and reads the clock once; a reconcile
  reads it once per breaker call (`clock(0)` for `CheckRecovery`, `clock(i + 1)` for the i-th reading).
- `sort.Slice` is known by its contract only, some sorted permutation; map iterations take any order; a channel delivers in
  any order.
- API calls are linearizable. Each may be refused, or be applied although the caller is told that it failed. Policies have
  resource versions, and a stale write is refused. Every policy has a uid of its own; a slice carries the uid of the policy
  that created it, and is garbage-collected once no policy has that uid.
- Latency reports, pod lists and Service reads are arbitrary inputs.

## Where the code differs from its promise

For each of these there is a lemma with the exact condition under which the promise holds, and a lemma with inputs on which
it fails.

- A pod can leave Open without evidence: exactly when its recovery interval runs out between `CheckRecovery` and its own
  `RecordLatency` in the same reconcile; it then ends HalfOpen and takes part in the selection (`Decision.Readmission`; such
  an evaluation, from a state that readings bring a new breaker to, is `ReadmissionExample.AdmittedWithoutEvidence`).
- A policy that is published and then pointed at another Service leaves its old slice behind. Such a change of target is
  safe, now and whatever follows, exactly when no slice carries the policy's label and no reconcile of it is on its way to
  write one (`FinalizerProtocol.RetargetIsSafeIff`); with no reconcile under way the label alone decides
  (`FinalizerProtocol.RetargetAtRestIsSafeIff`). The old slice stays, untouched by any reconcile, for as long as the policy
  lives, and is collected only once the policy is gone (`FinalizerProtocol.UnnamedOutlives`,
  `FinalizerProtocol.UnnamedUntouched`; a run from the very beginning is `FinalizerProtocol.RetargetLeavesSlice`).
- The parser reads packed records, but the kernel's struct is not declared packed. From a naturally aligned record it reads
  the round-trip time right exactly when both halves of the time equal the padding (`EventCodec.ParseAlignedTime`), so never
  a positive one below 2^32 nanoseconds (`EventCodec.ShortTimesMisread`).
- The kept minimum round-trip time is right exactly when no time was zero or the last one was (`TcpLatency.Conservation`; a
  run on which it is wrong is `TcpLatency.ZeroIsForgotten`).
- The average latency is right exactly when the sum of the latencies fits an int64 (`Aggregator.AverageExactIff`; two
  latencies with a negative average are in `Aggregator.AverageOverflows`).
- Forgetting a pod can bring its ejections closer than the recovery interval. It is safe exactly when the pod was never
  ejected or the interval since it last was is over (`BreakerHistory.ForgettingIsSafeIff`; two ejections at one instant are
  in `BreakerHistory.RemovalBreaksSpacing`).
- Reports that tie for the largest sample count are decided by arrival order. What is kept for an IP is free of the race
  exactly when the largest count belongs to one report only (`EbpfSource.OrderFreeIff`, `EbpfSource.TiesDependOnOrder`).
- An ejected pod stays published while dampening holds the slice back, because only additions count. An evaluation leaves an
  Open pod in the slice, next to a measured one that is not Open, exactly when the slice holds one already and the evaluation
  does not rewrite it (`DampenedRuns.OpenStaysPublishedIff`); exactly when it rewrites it is `DampenedRuns.RewriteRule`. A run
  from the very beginning that ends so is `OpenPodExample.OpenPodStaysPublished`.

## Where the code differs from its documents

The model follows the code.

- The schema describes the dampening threshold as a change of latency; the code counts addresses that are new
  (`Dampening.ExactTrigger`).
- The documents describe recovery as one evaluation to become HalfOpen and another to close; the code does both within one
  reconcile (`Decision.ReadmissionNeedsEvidence`).
- TotalPods is documented as the number of pods behind the Service; the code reports the number that took part in the
  selection. That is all measured pods exactly when none of them, or all, are ejected (`Decision.AllTakePartIff`).

## Model

| member | source | states |
|---|---|---|
| `ControllerProperties.PublishedSliceIsOptimal` | internal/controller/aviatorpolicy_controller.go:159-229 | whenever a reconcile publishes, even the content that was there already, in any selection mode: every published address is that of a candidate (measured, and not Open unless all measured pods are), no candidate left out is faster than one published, and the slice is empty only if nothing was measured |
| `ControllerProperties.ReconcilePublishesSelection` | internal/controller/aviatorpolicy_controller.go:195-234 | exactly when a reconcile publishes: the slice of its own Service then carries its label and exactly the selected addresses in order, and keeps the owner it had; every other slice, and otherwise every slice, is as before |
| `ControllerProperties.EvaluationIsOptimal` | internal/controller/aviatorpolicy_controller.go:174-203 | breaker filter, all-ejected fallback and selection together yield an optimal choice among the candidates, with the breaker on or off |
| `EvaluationOutcome.RankedOutcome` | internal/controller/aviatorpolicy_controller.go:177-181 | the breaker entry of every ranked pod after an evaluation, from the entry before, the instant of the recovery check and the pod's own reading: every state, the count and all three times |
| `EvaluationOutcome.UnrankedOutcome` | internal/controller/aviatorpolicy_controller.go:177-181 | a pod without a reading changes only from due Open to HalfOpen, and no pod becomes known without one |
| `EvaluationOutcome.BreakersFrame` | internal/controller/aviatorpolicy_controller.go:335-350 | limits are those of the spec at creation and stay, other policies' breakers and, with the breaker off, all are untouched |
| `EvaluationOutcome.TakingPart` | internal/controller/aviatorpolicy_controller.go:182-192 | in ranking order, those not Open after the evaluation, or everyone if there are none; everyone with the breaker off |
| `EvaluationOutcome.SelectedPrefix` | internal/controller/aviatorpolicy_controller.go:295-326 | the exact prefix of them that each mode selects, defaults 3 and 50 percent included |
| `EvaluationOutcome.PublishVerdict` | internal/controller/aviatorpolicy_controller.go:198-214 | exactly when an evaluation is to be published, and what the dampener keeps, from the stored addresses and the share of new ones; always with dampening off |
| `ReconcileOutcome.EvaluatesMeaning` | internal/controller/aviatorpolicy_controller.go:94-158 | what a reconcile must find to evaluate at all |
| `ReconcileOutcome.EvaluationRuns` | internal/controller/aviatorpolicy_controller.go:174-208 | then its entries are those of the evaluation of the stored spec |
| `ReconcileOutcome.TableMeaning` | internal/controller/aviatorpolicy_controller.go:141-148 | a known address stands for the last ready pod that has it |
| `ReconcileOutcome.RankingMeaning` | internal/controller/aviatorpolicy_controller.go:159-172 | the ranking lists exactly the measured addresses that stand for a pod, once, with that pod's name and the latencies measured, fastest first |
| `ReconcileOutcome.PublishedEndpoints` | internal/controller/aviatorpolicy_controller.go:216-229 | under the name of its Service, a publishing reconcile leaves one ready endpoint for each selected pod, in order, with the address, name and node of the pod that the address stands for |
| `ReconcileOutcome.StatusOutcome` | internal/controller/aviatorpolicy_controller.go:361-400 | exactly when the status is rewritten, and then every field of it: pod counts, average, P99, ejected pods, the first ten pods with names, latencies and marks |
| `ReconcileOutcome.NotEvaluated` | internal/controller/aviatorpolicy_controller.go:113-158 | every early return of a live policy leaves slices, entries, spec, status and other policies alone and at most adds the finalizer |
| `ReconcileOutcome.DeletionOutcome` | internal/controller/aviatorpolicy_controller.go:254-275 | what a reconcile of a deleted policy removes, call by call, for every outcome of each |
| `ReconcileOutcome.NothingToDo` | internal/controller/aviatorpolicy_controller.go:94-97 | without a policy nothing happens |
| `Decision.SelectionIsOptimal` | internal/controller/aviatorpolicy_controller.go:182-196 | optimality of the selection from any ranking the unstable sort may produce |
| `Decision.SelectionIsPrefix` | internal/controller/aviatorpolicy_controller.go:295-326 | every mode selects a prefix of the ranking, of the mode's size; for the threshold mode that size is the rank of the threshold |
| `Decision.AdmittedOnes` | internal/controller/aviatorpolicy_controller.go:182-192 | the pods handed to the selection are exactly the candidates, still ranked, and none only if none was measured |
| `Decision.HealthyOnes` | internal/controller/aviatorpolicy_controller.go:183-188 | the breaker filter keeps exactly the pods that are not Open, in ranking order |
| `Decision.DecisionIsRaceFree` | internal/controller/aviatorpolicy_controller.go:159-196 | at one clock value, map iteration order, tie-breaking by the sort and the order of the readings affect neither the breaker's final state nor the latencies of the selected pods; without equal latencies not the pods either |
| `TieBreaking.SelectionOrderFreeIff` | internal/controller/aviatorpolicy_controller.go:159-196 | the selected pods themselves are the same for every order the sort may choose exactly when the cut does not fall between two equally fast pods that take part |
| `Decision.RecordAllEntry` | internal/controller/aviatorpolicy_controller.go:179-181 | recording readings for distinct pods acts on each pod's entry alone |
| `Decision.Readmission` | internal/controller/aviatorpolicy_controller.go:177-193 | with an advancing clock: exactly when a ranked pod leaves Open, closes, or ends HalfOpen in one evaluation |
| `Decision.ReadmissionNeedsEvidence` | internal/controller/aviatorpolicy_controller.go:177-193 | with one clock value: a pod leaves Open iff the recovery interval has elapsed and its reading is within the threshold, then Closed with count 0, and no ranked pod ends HalfOpen |
| `ReadmissionExample.AdmittedWithoutEvidence` | internal/controller/aviatorpolicy_controller.go:177-196 | from the state after as many violations as eject a pod, an evaluation that admits and selects that pod although it still violates, because the interval ends between the recovery check and its reading |
| `Decision.AllTakePartIff` | internal/controller/aviatorpolicy_controller.go:364-366 | the reported total is that of all measured pods exactly when none of them, or all, are ejected |
| `Decision.PodTableIsLast` | internal/controller/aviatorpolicy_controller.go:141-148 | an address stands for the last pod that has it, and empty addresses for none |
| `Decision.ReadyPodsMembers` | internal/controller/aviatorpolicy_controller.go:285-291 | the pods considered are the Running ones not being deleted |
| `ControllerProperties.StatusIsConsistent` | internal/controller/aviatorpolicy_controller.go:361-400 | the status lists the first ten pods that took part, marks none or all as broken and agrees with the list of broken pods, and has no more active pods than pods in all |
| `ControllerProperties.StatusAverage` | internal/controller/aviatorpolicy_controller.go:371-374 | the reported average lies between the smallest and the largest latency when the sum fits |
| `ControllerProperties.StatusP99` | internal/controller/aviatorpolicy_controller.go:371-374 | the reported fleet P99 is the nearest-rank percentile of those that took part, with up to 100 pods the slowest |
| `ControllerProperties.ReconcileReportsConsistently` | internal/controller/aviatorpolicy_controller.go:236-241 | a reconcile that publishes and whose status write takes effect, reported or not, leaves on the stored policy the status of the pods its own breaker admitted |
| `DampenedRuns.SliceTracksDampener` | internal/controller/aviatorpolicy_controller.go:198-234 | over every calm run of reconciles of any policies, users' writes, garbage collection and restarts (the policy stays and keeps dampening, its own slice writes take effect, no other policy that names its Service is reconciled): the slice holds exactly what the dampener stores, whenever it stores something |
| `DampenedRuns.EventKeepsSync` | internal/controller/aviatorpolicy_controller.go:198-234 | the same for one event; outside the policy's own evaluations its slice does not change |
| `DampenedRuns.OtherReconcile` | internal/controller/aviatorpolicy_controller.go:91-251 | a reconcile of another policy, whatever it meets, touches neither the policy, nor its breaker and dampener, nor any slice but its own |
| `DampenedRuns.DampenerIsHistory` | internal/controller/aviatorpolicy_controller.go:198-208 | over such runs the dampener is a function of the selections the policy's evaluations made since the last restart |
| `DampenedRuns.RewriteRule` | internal/controller/aviatorpolicy_controller.go:205-234 | with dampening settings that do not change, exactly when an evaluation rewrites the slice: the first since a restart, or with an empty slice, or when the last k selections in a row, all since the slice was rewritten, are each new to at least the threshold against its addresses |
| `DampenedRuns.OpenStaysPublishedIff` | internal/controller/aviatorpolicy_controller.go:174-234 | an evaluation leaves an Open pod in the slice while a measured pod is not Open exactly when it does not rewrite the slice and the slice holds an Open pod |
| `DampenedRuns.DropsLeaveSlice` | internal/controller/aviatorpolicy_controller.go:205-214 | without a restart, as long as nothing is selected that is not published the slice stays as it is |
| `DampenedRuns.NeverEmptied` | internal/controller/aviatorpolicy_controller.go:205-214 | and a slice that is not empty never becomes empty |
| `OpenPodExample.OpenPodStaysPublished` | internal/controller/aviatorpolicy_controller.go:198-214 | a run from the start after which the slice holds an Open pod although another pod is not |
| `EjectionRuns.EjectedStaysOut` | internal/controller/aviatorpolicy_controller.go:174-234 | a pod ejected at t is in no slice its policy publishes with the breaker on and clock readings before t plus the recovery interval, whatever events but a restart or the policy's deletion come between, unless every pod measured then is ejected |
| `EjectionRuns.EjectionBars` | internal/controller/aviatorpolicy_controller.go:177-181 | an evaluation that ejects a pod records the instant of that pod's own reading |
| `ControllerRuns.ReconcileSimulated` | internal/controller/aviatorpolicy_controller.go:91-251 | a whole reconcile, whatever fails in it, is a run of the finalizer protocol from rest to rest |
| `ControllerRuns.SystemSafety` | internal/controller/aviatorpolicy_controller.go:100-111 | over all runs of reconciles, users' writes, changes of target that no published policy sees, garbage collection and restarts, with any failures: every slice is the current one of a policy that carries the finalizer, and of a policy without it neither slice nor breaker nor dampener is left |
| `ControllerRuns.DeletionFinishes` | internal/controller/aviatorpolicy_controller.go:254-275 | a reconcile of a deleted policy whose calls work removes the finalizer, all the policy's slices and all its entries, and the policy itself exactly when nobody else's finalizer holds it |
| `FinalizerProtocol.Safety` | internal/controller/aviatorpolicy_controller.go:100-111 | the same at every single API call, with users' writes, deletes, other policies' reconciles and restarts in between, also when policies share a Service, and with changes of target as long as none meets a published policy |
| `FinalizerProtocol.EndedForGood` | internal/controller/aviatorpolicy_controller.go:254-275 | once a policy is gone, or is being deleted without the finalizer, no later reconcile brings anything of it back until it is created anew |
| `FinalizerProtocol.StepKeepsIff` | internal/controller/aviatorpolicy_controller.go:94-111 | a step of the protocol keeps the invariant that ties slices, entries, finalizers and the copies reconciles work on exactly when it does not change the target of a policy with a slice out or a reconcile on its way to write one |
| `FinalizerProtocol.RetargetIsSafeIff` | internal/controller/aviatorpolicy_controller.go:218-234 | in every state of the invariant in which a write under way is based on a read that is not out of date: what the safety theorem promises holds after a change of target and after everything that may follow exactly when no slice carries the policy's label and no reconcile of it may still write one |
| `FinalizerProtocol.RetargetAtRestIsSafeIff` | internal/controller/aviatorpolicy_controller.go:218-234 | the same between reconciles, where the label alone decides |
| `FinalizerProtocol.ProceedKeeps` | internal/controller/aviatorpolicy_controller.go:257-267 | adding the finalizer and cleaning up keep that invariant under stale copies and ambiguous failures |
| `FinalizerProtocol.CleanupExact` | internal/endpointslice/manager.go:99-114 | cleanup leaves nothing of the policy exactly when all its slices belong to the Service its copy names |
| `FinalizerProtocol.UnnamedOutlives` | internal/endpointslice/manager.go:82-97 | over any run in which no policy comes to name its Service, a slice whose Service no policy names stays exactly as it is while its owner exists |
| `FinalizerProtocol.UnnamedUntouched` | internal/endpointslice/manager.go:169-176 | one step removes such a slice exactly when it is its garbage collection and its owner is gone, and otherwise leaves it as it is |
| `FinalizerProtocol.RetargetedSliceStays` | internal/controller/aviatorpolicy_controller.go:260-262 | after a published policy is pointed at another Service, no run of its own or other reconciles touches its old slice while it exists |
| `FinalizerProtocol.RetargetLeavesSlice` | internal/controller/aviatorpolicy_controller.go:218-234 | such a run from the empty cluster: the policy is alive with its finalizer, names another Service, and its old slice is still there |
| `Controller.Reconciler.Reconcile` | internal/controller/aviatorpolicy_controller.go:91-251 | the method computes the reconcile function of the old store and entries, for some ranking of the measured pods |
| `Controller.Reconciler.ReconcileActive` | internal/controller/aviatorpolicy_controller.go:113-251 | the part after the finalizer, with its early returns |
| `Controller.Reconciler.HandleDeletion` | internal/controller/aviatorpolicy_controller.go:254-275 | cleanup, removal of the entries and of the finalizer, stopping at the first failure |
| `Controller.Reconciler.GetOrCreateBreaker` | internal/controller/aviatorpolicy_controller.go:335-350 | an existing breaker keeps its configuration; other policies' breakers are not touched |
| `Controller.Reconciler.GetOrCreateDampener` | internal/controller/aviatorpolicy_controller.go:352-359 | the same for dampeners |
| `Controller.JudgePods` | internal/controller/aviatorpolicy_controller.go:177-192 | recovery check, readings in ranking order, filter and fallback |
| `Controller.RankMeasured` | internal/controller/aviatorpolicy_controller.go:159-172 | the result is a ranking: exactly the measured pods, each once, sorted by P99 |
| `Controller.MakeStatus` | internal/controller/aviatorpolicy_controller.go:361-400 | the status the lemmas above speak about |
| `EndpointSlice.Manager.Reconcile` | internal/endpointslice/manager.go:64-97 | the slice ends up with the desired content, under the owner it had if it existed, exactly when both calls take effect, and is unchanged otherwise; success is reported exactly when both report it |
| `EndpointSlice.Manager.Cleanup` | internal/endpointslice/manager.go:99-114 | deletes the slice; the API's answer that it is not there is turned into success, any other failure is passed on |
| `EndpointSlice.Manager.BuildEndpointSlice` | internal/endpointslice/manager.go:116-183 | one endpoint per selected pod, in order, with a node name only if there is one, under the policy's label and owner reference |
| `EndpointSlice.SliceKeyInjective` | internal/endpointslice/manager.go:70 | distinct Services of a namespace have distinct slices |
| `BreakerHistory.BreakerRefinesHistory` | internal/circuitbreaker/circuitbreaker.go:76-116 | over every run, a Closed pod's count is the number of violations ending its current Closed stretch and is short of the limit, any other pod's count is the limit; the int32 never overflows |
| `BreakerHistory.CountRefinesHistory` | internal/circuitbreaker/circuitbreaker.go:86-115 | the same for one pod's own history |
| `BreakerHistory.ClosedSinceMeaning` | internal/circuitbreaker/circuitbreaker.go:86-115 | the Closed stretch is the longest suffix of the history in which the pod is Closed throughout |
| `BreakerHistory.EjectionRule` | internal/circuitbreaker/circuitbreaker.go:87-97 | a reading ejects a Closed pod exactly when it completes the required number of consecutive violations in its Closed stretch, also for configured counts below one |
| `BreakerHistory.Locality` | internal/circuitbreaker/circuitbreaker.go:76-84 | an entry depends only on its own pod's readings and the recovery checks since it was last removed |
| `BreakerHistory.EjectionSpacing` | internal/circuitbreaker/circuitbreaker.go:88-115 | with a clock that never goes back and no removal, successive ejections of a pod are at least the recovery interval apart |
| `BreakerHistory.EjectionRate` | internal/circuitbreaker/circuitbreaker.go:88-115 | so in a window of length T there are at most 1 + T / interval of them |
| `BreakerHistory.EjectionInvariant` | internal/circuitbreaker/circuitbreaker.go:88-115 | the spacing so far is kept by every continuation with a clock that never goes back and without removals |
| `BreakerHistory.ForgettingIsSafeIff` | internal/circuitbreaker/circuitbreaker.go:173-184 | forgetting a pod keeps its ejections apart under everything that may follow exactly when it was never ejected or the recovery interval since it last was is over |
| `BreakerHistory.RemovalBreaksSpacing` | internal/circuitbreaker/circuitbreaker.go:173-177 | for every configuration with a positive interval, a run with a removal that ejects a pod twice at one instant |
| `CircuitBreaker.Breaker.RecordLatency` | internal/circuitbreaker/circuitbreaker.go:76-116 | one reading: the new entry, everything else unchanged, appended to the history |
| `CircuitBreaker.Breaker.CheckRecovery` | internal/circuitbreaker/circuitbreaker.go:157-170 | in any iteration order, exactly the due Open pods become HalfOpen, and they are the ones returned |
| `CircuitBreaker.Breaker.GetEjectedPods` | internal/circuitbreaker/circuitbreaker.go:131-142 | each Open pod exactly once |
| `CircuitBreaker.Breaker.IsEjected` | internal/circuitbreaker/circuitbreaker.go:119-128 | whether the pod is Open; unknown pods are not |
| `CircuitBreaker.Breaker.GetState` | internal/circuitbreaker/circuitbreaker.go:145-154 | a copy of the entry, or that there is none |
| `CircuitBreaker.Breaker.RemovePod` | internal/circuitbreaker/circuitbreaker.go:173-177 | forgets one pod |
| `CircuitBreaker.Breaker.Reset` | internal/circuitbreaker/circuitbreaker.go:180-184 | forgets all |
| `Dampening.ExactTrigger` | internal/latency/aggregator.go:113-134 | after the first call, an update happens exactly when the set stored at the previous update is empty, or the last k calls, all since then, changed at least the threshold relative to it |
| `Dampening.ChurnBound` | internal/latency/aggregator.go:113-134 | from a first selection that is not empty on, at most 1 + (n - 1) / k updates in n calls |
| `Dampening.ChurnBoundIsTight` | internal/latency/aggregator.go:113-134 | for every number of updates a run reaches that bound |
| `Dampening.StateOfRun` | internal/latency/aggregator.go:113-134 | the two fields hold the selection of the latest update and the streak of significant changes since; an empty one is kept for one call only |
| `Dampening.DropsAreSuppressed` | internal/latency/aggregator.go:146-158 | selections that only drop members never update |
| `Dampening.StaysNonEmpty` | internal/latency/aggregator.go:113-134 | a stored set never becomes empty |
| `Dampening.LeadingEmpties` | internal/latency/aggregator.go:114-118 | empty selections before the first non-empty one all update and leave no trace |
| `Dampening.DampeningState.ShouldUpdate` | internal/latency/aggregator.go:113-134 | one call: new state and verdict |
| `Dampening.DampeningState.ComputeChangePercent` | internal/latency/aggregator.go:136-159 | the percentage reaches a threshold exactly when 100 times the number of new addresses reaches threshold times the larger of the two lengths, and never exceeds 100 |
| `Dampening.ChangeMeaning` | internal/latency/aggregator.go:136-159 | the same of the comparison itself |
| `Dampening.VerdictMeaning` | internal/latency/aggregator.go:113-134 | verdict, stored set and count of one call in those terms |
| `Aggregator.RankPods` | internal/latency/aggregator.go:26-31 | some sorted permutation |
| `Aggregator.SelectByThreshold` | internal/latency/aggregator.go:58-69 | the pods within the threshold, or the first |
| `Aggregator.WithinIsPrefix` | internal/latency/aggregator.go:58-64 | on a ranking the pods within the threshold are the prefix cut at the threshold's rank |
| `Aggregator.SelectTopPercent` | internal/latency/aggregator.go:42-54 | a prefix, empty only if there are no pods, whose size brackets the percentage of the pods |
| `Aggregator.ComputeFleetP99` | internal/latency/aggregator.go:72-86 | the nearest-rank 99th percentile |
| `Aggregator.FleetP99OrderFree` | internal/latency/aggregator.go:72-86 | independent of the order of the pods, and of up to 100 pods the slowest |
| `Aggregator.ComputeFleetAverage` | internal/latency/aggregator.go:89-98 | the int64 sum divided with truncation, through any partial overflow |
| `Aggregator.AverageWithinBounds` | internal/latency/aggregator.go:89-98 | between the smallest and the largest when the sum fits |
| `Aggregator.AverageExactIff` | internal/latency/aggregator.go:89-98 | the true average exactly when the sum fits |
| `Aggregator.AverageOverflows` | internal/latency/aggregator.go:93-97 | two latencies of 2^62 nanoseconds or more have a negative average |
| `Order.NearestRank` | internal/latency/aggregator.go:81-85 | the index arithmetic points at a value with more than pct percent of the elements at or below it and at most pct percent below |
| `Order.CountMeaning` | internal/latency/aggregator.go:81-85 | the count in that property is the number of elements at or below a value |
| `Order.PercentileUnique` | internal/latency/aggregator.go:81-85 | that property fixes the value |
| `Order.SortedKeysUnique` | internal/latency/aggregator.go:26-31 | two sorted permutations agree on the keys, whatever they do with ties |
| `ProbeSource.SortDurations` | internal/latency/probe_source.go:134-140 | in place: a sorted permutation, with as many exchanges as the input has inversions |
| `ProbeSource.PercentileRank` | internal/latency/probe_source.go:142-151 | the nearest-rank percentile of the samples, from 100 percent up the maximum |
| `ProbeSource.ProbePod` | internal/latency/probe_source.go:89-132 | median and maximum of a round of three, a failed probe counting as 9.999 seconds; one failed probe puts the P99 there or above |
| `EbpfSource.GetLatencies` | internal/latency/ebpf_source.go:74-120 | an IP is in the merge exactly when some agent that answered reported it, with the report of the first agent, in arrival order, among those with the most samples; an error exactly when nobody reported anything and some fetch failed, and then the last failure |
| `EbpfSource.BestIsFirstLargest` | internal/latency/ebpf_source.go:107-112 | the same of what is kept for one IP |
| `EbpfSource.BestIsLargest` | internal/latency/ebpf_source.go:107-112 | an IP is kept exactly when reported, with a report of the largest sample count |
| `EbpfSource.MergeConfluence` | internal/latency/ebpf_source.go:97-119 | in any order the same IPs, counts and failure; without ties for the largest count the same reports |
| `EbpfSource.EmptyMerge` | internal/latency/ebpf_source.go:115-117 | the merge is empty exactly when no agent that answered reported anything |
| `EbpfSource.OrderFreeIff` | internal/latency/ebpf_source.go:97-119 | the report kept for an IP is the same in every order of arrival exactly when the largest sample count belongs to one report only |
| `EbpfSource.AnyLargestCanWin` | internal/latency/ebpf_source.go:107-112 | each report that ties for the largest count is kept in some order |
| `EbpfSource.TiesDependOnOrder` | internal/latency/ebpf_source.go:108-111 | of two tied reports the first to arrive is kept |
| `EbpfSource.Filtered` | internal/latency/ebpf_source.go:149-166 | the requested pods, or all when none are named: median and P99 each a thousand times the agent's, or what that wraps to in an int64, the agent's sample count, the time of the fetch |
| `Collector.Collector.RecordEvent` | internal/ebpf/collector.go:61-74 | appends to the destination's buffer, keeps its last 10000 times and touches no other; so every buffer is the window of its own destination's history |
| `Collector.Collector.EvictStale` | internal/ebpf/collector.go:126-135 | keeps exactly the buffers of active destinations, unchanged |
| `Collector.Collector.Reset` | internal/ebpf/collector.go:118-122 | empties everything |
| `Collector.Collector.GetStats` | internal/ebpf/collector.go:77-99 | the statistics of exactly those destinations with samples since their last eviction, over their windows |
| `Collector.Collector.GetStatsForIPs` | internal/ebpf/collector.go:102-115 | the same for the requested ones, or all when none are named |
| `Collector.WindowPush` | internal/ebpf/collector.go:67-73 | appending and trimming yields the window of the longer history |
| `Collector.StatsLaws` | internal/ebpf/collector.go:87-96 | the interpolated median and 99th percentile of the samples in any order, in microseconds, the first at most the second; the number of samples and the time |
| `Interpolation.PercentileIsBlend` | internal/ebpf/collector.go:143-155 | the formula is the mean of the two elements around its position, weighted by the distances, rounded down |
| `Interpolation.PercentileBracket` | internal/ebpf/collector.go:143-155 | it lies between the two bracketing elements |
| `Interpolation.PercentileMonotone` | internal/ebpf/collector.go:143-155 | it is monotone in the percentage, across elements |
| `Interpolation.PercentilePointwise` | internal/ebpf/collector.go:143-155 | it is monotone in the samples |
| `EventCodec.ParsePack` | internal/ebpf/collector.go:158-170 | parsing undoes packing |
| `EventCodec.PackParse` | internal/ebpf/collector.go:158-170 | packing undoes parsing, on the first 28 bytes |
| `EventCodec.ParseLatencyEvent` | internal/ebpf/collector.go:158-161 | refuses exactly the records shorter than 28 bytes |
| `EventCodec.ParseAlignedFlow` | internal/ebpf/bpf/tcp_latency.c:29-36 | from an aligned struct the addresses and ports are read right |
| `EventCodec.ParseAlignedTime` | internal/ebpf/bpf/tcp_latency.c:29-36 | and the time exactly when both its halves equal the padding |
| `EventCodec.ShortTimesMisread` | internal/ebpf/bpf/tcp_latency.c:29-36 | so no positive time below 2^32 nanoseconds is read right |
| `EventCodec.UInt32ToIPInjective` | internal/ebpf/collector.go:137-141 | distinct destinations have distinct names |
| `EventCodec.NameReads` | internal/ebpf/collector.go:137-141 | a name is four decimal numbers between dots, without padding, which are the bytes of the address, the lowest first |
| `EventCodec.RecordName` | internal/ebpf/collector.go:137-170 | for a record, they are its bytes 4 to 7 in that order |
| `EventCodec.FieldsByByte` | internal/ebpf/collector.go:158-170 | the value of every parsed field in the bytes of the record |
| `TcpLatency.Programs.TcpSendmsg` | internal/ebpf/bpf/tcp_latency.c:77-86 | stores the stamp, unless the flow is new and the map full |
| `TcpLatency.Programs.TcpRcvEstablished` | internal/ebpf/bpf/tcp_latency.c:89-144 | consumes the stamp and updates events and aggregates as the whole history demands |
| `TcpLatency.StampIsLatestSend` | internal/ebpf/bpf/tcp_latency.c:78-104 | a flow has a stamp exactly when its latest call is a send that was not dropped, and then that send's |
| `TcpLatency.SampleRule` | internal/ebpf/bpf/tcp_latency.c:94-109 | a receive makes a sample exactly when its flow's latest call is a stored send at most 30 seconds ago, and the sample is the time since |
| `TcpLatency.StampUsedOnce` | internal/ebpf/bpf/tcp_latency.c:103-104 | no two samples come from the same send |
| `TcpLatency.EventRule` | internal/ebpf/bpf/tcp_latency.c:111-122 | a call submits an event exactly when it answers a stored send at most 30 seconds old and a reservation succeeds, with the flow's addresses and ports, the time since that send and the time of receipt |
| `TcpLatency.AcceptedRule` | internal/ebpf/bpf/tcp_latency.c:99-141 | and adds that time to the accepted times of its destination, and of no other |
| `TcpLatency.AggregateCoversRtts` | internal/ebpf/bpf/tcp_latency.c:124-141 | an aggregate covers all accepted times of its destination; one is missing only if the map was full |
| `TcpLatency.Conservation` | internal/ebpf/bpf/tcp_latency.c:124-141 | count and total modulo 2^64, the exact maximum, and the minimum exactly when no time was zero or the last one was |
| `TcpLatency.ZeroIsForgotten` | internal/ebpf/bpf/tcp_latency.c:131-132 | two round trips after which the kept minimum is the longer one |
| `TcpLatency.RingFeedsWindows` | internal/ebpf/bpf/tcp_latency.c:111-122 | events for a destination never exceed its accepted times, and a collector fed with them keeps exactly those times when no reservation failed |

## Left out

- HTTP fetching and probing, JSON, contexts, logging, flags, BPF loading, manifests: input and output without a law of their own.
- Floating point: the change percentage and the interpolating percentile are computed in exact arithmetic. At an exact
  boundary the program's rounding can differ, as for 29 additions of 100 against a threshold of 29.
- Mutexes and concurrent BPF programs: each method or hook is atomic.
- Informer caches: the controller's reads are of the current store. A stale cached read after a deletion is not modelled.
- Conditions, the time of the last evaluation, ports and the order of circuitBrokenPods: they would only add easy members; the list
  of broken pods is kept as a set.
- FinalizerProtocol.Safety: assumes that nobody but the controller adds or removes its finalizer or writes slices of that
  name. What a change of target does to a published policy is stated by lemmas of its own.
- DampenedRuns.SliceTracksDampener: the policy's own slice writes take effect, because the dampener commits before the
  write, and no other policy that names the same Service is reconciled, because it would overwrite the slice.
- ControllerRuns.SystemSafety: others act between whole reconciles there; FinalizerProtocol.Safety covers what happens inside
  one.
- DampenedRuns.RewriteRule: in this module and in EjectionRuns too, others act only between whole reconciles, and reconciles
  of different policies do not overlap.
- Dampening.ExactTrigger: for thresholds and counts of at least one, the schema's bounds.
- Aggregator.SelectTopN: its contract says only that the result is a prefix; Decision.SelectionIsPrefix gives its size.
- Requeue intervals and the errors a reconcile returns to its queue: the queue is not part of the model, and reconciles may
  come at any time and in any order.
- Age-based expiry of samples: the age is stored but not used by the program.
- Draining of the ring buffer by userspace: the model keeps all events ever submitted.
- The two sources' selection at start-up, and the probe source's map of results, which adds one entry per pod.
