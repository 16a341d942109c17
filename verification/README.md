# Verified model of the CronHPA controller

The CronHPA controller scales workloads at cron times. Every few seconds it takes each cached
CronHPA object, works out which crons have missed starts since the last firing, picks the
largest target among them, applies that size to a workload or to the HorizontalPodAutoscaler in
front of it, and only then records the firing in the object's status. This project models that
loop and proves what it keeps, step by step and over whole runs.

The main results speak through definitions such as "due", "window" or "stored firing". Lemmas named
`…InFull`, `…Exactly` and `PlanByTheClock` say what these come to in terms of the objects' own fields,
the clock, the ticks and the API's replies alone.

## Files

| file | content |
|---|---|
| `Types.dfy` | the CronHPA resource, autoscalers, scales, the API server's contents, and what the environment decides |
| `Schedules.dfy` | schedules as opaque functions, the missed-tick enumerator, and its reference, a second-by-second scan |
| `CapBound.dfy` | how large a deadline may be before the cap of a hundred missed starts can strike |
| `Conditions.dfy` | the status conditions read as a map |
| `Batch.dfy` | exclusion, the batch loop, what "due" means, the choice of the largest cron |
| `Scaling.dfy` | applying a size: the mapping search, scaling a workload, adjusting an autoscaler |
| `Autoscaler.dfy` | the autoscaler as a state machine: runs, closed form, retries |
| `Objects.dfy` | CronHPA objects on the heap and their deep copies |
| `Reconciling.dfy` | one reconcile as a function of the cached object, the environment and the open choices |
| `Controller.dfy` | the API server and the controller as classes, each method proved against its function |
| `Pass.dfy` | a pass over all objects and its non-interference |
| `Runs.dfy` | runs of any length for one object: run-once, progress, tiling and service, the cap |

## Assumptions about the environment

- A schedule is a function `next` from a time to the next tick. It is *lawful* from one time to
  another when `next(t) > t` and `next(u) == next(t)` for `t <= u < next(t)` in between;
  `CapBound.PeriodicIsLawful` gives an instance for every period. It *gives up* at `t` when it
  answers the zero time and the first 101 candidates from there on lie in the past. That is what
  the cron library does when no tick comes within five calendar years, for a while or for ever:
  each candidate from year 1 on is again within five calendar years of the last, or the zero time.
  A *moving* schedule satisfies the first law except where it gives up, which includes schedules
  that count from where they start (`@every`); a *behaved* one also satisfies the second.
- These are asked only of the schedules a result is about, and only over the windows, from where
  an enumeration starts to the clock, of the reconciles concerned. Run-once, `CapIsForever`,
  retries and `UnrecordedStaysDue` ask nothing. Progress, tiling and the gap ask that the crons
  recorded as fired be moving, and `StampedTicksAreGone` and `SeenIffInWindow` that the schedule
  they are about be moving too. What is said of a cron's ticks asks that its schedule and the
  object's exclude schedules be behaved. `EnumeratorRefinesScan` and `CapIsTight` speak of lawful
  schedules, for which the only reason to fail is the number of ticks.
- Time is in whole seconds. Ticks fall on whole seconds, and a stored last firing is stored in
  whole seconds, so rounding the clock down changes none of the comparisons.
- The API server refuses an update whose version is not current, and every stored write of an
  object raises its version. Caches may hold any earlier version of the object.
- Each update may be accepted, refused, or stored with the answer lost (`Reply`). One reconcile is
  one step: nothing else happens between a Get and the Update that follows it (had anything, the
  version check would refuse the update, which is one of the three replies), nor between the
  update of an autoscaler, the scaling of its workload and the update of the status. So what a
  lemma says of the world after a firing assumes that nobody moves the workload or the autoscaler
  between those requests of the same reconcile; the results about the object itself, its versions,
  its log and its conditions, do not depend on it.
- The status of an autoscaler may lag behind its workload. `EveryApplicationHonoured` covers
  lagging states with the exact condition, and so does `RetryConvergesIff` for retries; only the
  second half of the former, the corollary `RetryConverges` and `ClosedForm` start from a status
  that agrees with the workload.
- An object is not deleted during a run. Run-once safety assumes that nobody else takes a success
  out of the conditions; the progress and tiling results assume that nobody else moves the last
  firing or the creation time. Each lemma names the one it needs.
- The order in which Go iterates over a map and the order in which its sort leaves equal elements
  are a `Choice` constrained only by `Admissible`; the results hold for every admissible choice.
- `CurrentReplicas` of an autoscaler is not negative where a lemma asks for it, which the API
  server guarantees. With a negative count and a target at or below it, the code would scale the
  workload to zero, because the unset new target, zero, is then larger than the count.

## Results that go against expectation

- A run-once cron can have its size applied more than once: while its status update is refused
  (`RunOnceCanScaleAgain`), and even after the firing has been recorded, by a reconcile of a copy
  cached before it (`StaleCacheScalesAgain`). What holds instead is exact. The stored object skips
  the cron after a reconcile that chose it if and only if scaling succeeded, the copy was current
  and the status update was stored (`SkippedIffRecorded`). From then on, the copies that skip it
  are those newer than the one the firing was planned from, and no others (`SkippedIffNewer`). It
  is recorded at most once in any case (`RunOnceSafety`).
- Exclusion looks only at the latest tick of each exclude schedule, so a cron can fire at a tick
  that an exclude schedule also has (`ExclusionMissesEarlierTicks`). Exclusion is right if and
  only if an exclude schedule that ticks at the cron's latest tick, if there is one, can be found
  that does not tick again before the reconcile (`ExclusionRightIff`); it always is when all ticks
  of the exclude schedules are ticks of the cron (`ExclusionExact`).
- A lagging autoscaler status can make the controller shrink the workload, or report success with
  too few replicas (`LagCanShrinkOrUnderserve`). It can also make the outcome depend on a failure:
  a retry after a refused update can leave another range and another size than a clean attempt
  (`RetryCanDiverge`). Retries converge if and only if the target exceeds the reported count
  exactly when it exceeds the workload, or exceeds the count and is just the size of the workload
  and no larger than the minimum (`RetryConvergesIff`).
- A tick between the two clock readings of a firing can be lost (`GapTickIsLost`). Exactly: some
  recorded firing enumerates a tick if and only if the firing responsible for its time enumerates
  the schedule and has the tick in its window (`SeenIffInWindow`). No version of the object after
  that firing enumerates a tick of the gap; a copy cached earlier still can, but nothing planned
  from such a copy is recorded (`StampedTicksAreGone`). A healthy reconcile of the current object
  in time, before any firing is stamped at or after the tick, is enough to have it served
  (`TimelyReconcileServes`).
- Without a deadline, an object whose cron has missed more than a hundred starts never recovers by
  itself (`CapIsForever`). The comment on the enumerator speaks of returning an empty slice; the
  code returns an error as well, and the whole reconcile fails with it.

## Model

| member | source | states |
|---|---|---|
| Types.ZeroTimeIsYearOne | pkg/controller/util.go:30-30 | The zero time is the first second of year 1 |
| Schedules.CollectStarts | pkg/controller/util.go:49-76 | The loop collects the candidates up to the first one in the future, or gives up at the 101st; it terminates for every `next` |
| Schedules.GetRecentUnmetScheduleTimes | pkg/controller/util.go:28-77 | The missed starts of the window, or an error for an unparseable schedule or more than a hundred starts |
| Schedules.WalkIsBounded | pkg/controller/util.go:49-76 | For any `next` whatever: the loop fails exactly when the first 101 candidates are all in the past, and otherwise returns the candidates before the first future one |
| Schedules.StuckScheduleNeverFires | pkg/controller/util.go:45-76 | A date that never comes is reported as too many missed starts, never as a due tick |
| Schedules.EnumeratorRefinesScan | pkg/controller/util.go:28-77 | For a lawful schedule the result is the list of all ticks of the window found by looking at every second, and an error exactly when there are more than a hundred |
| Schedules.TickSeqIsExact | pkg/controller/util.go:24-27 | The reference scan is strictly increasing and contains exactly the ticks of the interval |
| Schedules.PrefixMonotone | pkg/controller/util.go:45-77 | For any `next` and without a deadline, an earlier enumeration is a prefix of a later one, and an error persists |
| Schedules.UnmetInWindow | pkg/controller/util.go:36-76 | The missed starts of a moving schedule, when it does not give up first, lie in the window |
| Schedules.GivingUpFails | pkg/controller/util.go:49-76 | Once the schedule answers the zero time for want of a tick, the loop ends in the error |
| Schedules.StuckIsBehaved | pkg/controller/util.go:45-76 | A date that never comes satisfies what the results on ticks ask of a schedule |
| Schedules.CountingMoves | pkg/controller/util.go:49-49 | A schedule that counts from where it starts is moving, though it is not lawful |
| Schedules.UnmetIsScan | pkg/controller/util.go:28-77 | Whatever a behaved schedule does elsewhere, an enumeration that succeeds returns exactly the ticks of the window |
| Schedules.LastUnmetIsLatest | pkg/controller/util.go:49-93 | For a behaved schedule an enumeration that succeeds is empty exactly when the window has no tick, and otherwise ends with the window's latest tick |
| Schedules.TickSeqCounts | pkg/controller/util.go:70-70 | The length of the scan is the number of ticks |
| CapBound.PeriodicIsLawful | pkg/controller/util.go:49-49 | Every period gives a schedule satisfying the laws over any time, with that spacing |
| CapBound.CapIsTight | pkg/controller/util.go:36-73 | With lawful ticks at least g apart, a deadline rules the cap out for every schedule, clock and last firing if and only if it is negative or between 1 and 100*g |
| Conditions.ConvertConditionsToMap | pkg/controller/util.go:125-131 | The loop builds the last-wins map of the list |
| Conditions.LastWinsIsLast | pkg/controller/util.go:125-131 | A name is in that map exactly when it is in the list, and maps to its last entry |
| Conditions.HaveRunAlready | pkg/controller/util.go:134-144 | True exactly when the last entry under the cron's name is a success |
| Conditions.HasRunExactly | pkg/controller/util.go:134-144 | A name has run exactly when its last entry says "Succeed": another last status, an overwritten success or no entry does not count |
| Conditions.UpdateConditions | pkg/controller/util.go:146-155 | For every map iteration order the result has no duplicate names and its map view is the old one with the new condition stored |
| Conditions.UpdateExactly | pkg/controller/util.go:146-155 | The new list has the new condition, the last entry of every other name and nothing else, and no name twice |
| Conditions.UpdateRecordsRun | pkg/controller/util.go:134-155 | After storing a success, exactly that name and the names that had run have run |
| Batch.GetExcludeTimes | pkg/controller/util.go:79-99 | The loop returns the exclude times as keys of a map, or the first failing schedule's error |
| Batch.UnmetExactly | pkg/controller/util.go:28-119 | A successful enumeration of a behaved schedule is, in order, its ticks after the last firing, or after the creation when there was none, up to the clock and less than the deadline ago if there is one |
| Batch.UnmetFailsExactly | pkg/controller/util.go:28-119 | Enumeration of a lawful schedule fails exactly when it does not parse or there are more than a hundred such ticks |
| Batch.ExcludeTimesExact | pkg/controller/util.go:79-99 | It fails exactly when some exclude schedule cannot be enumerated, and otherwise contains exactly the last missed ticks |
| Batch.CheckCron | pkg/controller/cronhpa_controller.go:157-186 | One cron's share of the loop: skipped by run-once, failing, not ready, excluded or joining the batch |
| Batch.BuildBatch | pkg/controller/cronhpa_controller.go:146-187 | The loop collects the joining crons in order and stops at the first duplicate name or failure |
| Batch.PlanExact | pkg/controller/cronhpa_controller.go:135-187 | Planning fails exactly when an exclude schedule fails, two names coincide or a cron not skipped by run-once fails; otherwise the batch is exactly the due crons |
| Batch.PlanInFull | pkg/controller/cronhpa_controller.go:135-187 | The same in terms of the conditions list and the last missed starts: only a run-once cron whose last entry is a success is passed over |
| Batch.RecurringIgnoresConditions | pkg/controller/cronhpa_controller.go:157-160 | A recurring cron joins the batch of a plan that succeeds whatever the conditions say |
| Batch.PlanByTheClock | pkg/controller/cronhpa_controller.go:132-187 | In terms of the fields, the clock and the ticks alone: a cron is planned exactly when it has a run left and its last missed tick is no exclude schedule's last missed tick |
| Batch.PlanFailsFirst | pkg/controller/cronhpa_controller.go:139-167 | A failing plan reports the first exclude schedule that fails or, when none does, the first cron that repeats a name or has a run left and cannot be enumerated |
| Batch.PlanInOrder | pkg/controller/cronhpa_controller.go:187-187 | The batch keeps the order of the spec and lists no cron twice |
| Batch.DueMeansLatestTick | pkg/controller/cronhpa_controller.go:157-179 | A cron, when its schedule and the exclude schedules are behaved, is due exactly when it is not a used-up run-once and its window has a latest tick that is no exclude schedule's latest tick |
| Batch.DueUnlessExcludedLast | pkg/controller/cronhpa_controller.go:174-179 | A cron with its run left is due exactly when no exclude schedule ticks at its latest tick for the last time before the reconcile |
| Batch.ExclusionRightIff | pkg/controller/util.go:79-111 | Being due agrees with the latest tick's being no exclude tick if and only if an exclude tick there is, for some exclude schedule, its last before the reconcile |
| Batch.ExclusionExact | pkg/controller/util.go:79-111 | Corollary: when the exclude schedules' ticks in the window are ticks of the cron, it is due exactly when its latest tick is no exclude tick |
| Batch.ListedScheduleNeverDue | pkg/controller/util.go:79-111 | A cron whose own schedule is excluded is never due |
| Batch.ExclusionMissesEarlierTicks | pkg/controller/util.go:93-95 | Concrete case in which the condition fails: a cron due at a tick of an exclude schedule |
| Batch.SortBatch | pkg/controller/cronhpa_controller.go:190-191 | The result is a permutation of the batch, largest size first |
| Batch.SortedHeadIsTop | pkg/controller/cronhpa_controller.go:190-196 | Whatever the sort does with ties, the first element is a largest cron of the batch |
| Batch.OrderIndependent | pkg/controller/cronhpa_controller.go:140-196 | Permuting crons or exclude dates changes neither whether planning fails, nor whether anything is due, nor the chosen size |
| Scaling.SearchFindsFirst | pkg/controller/cronhpa_controller.go:334-356 | The first mapping whose Get succeeds wins; if none does, the error is the first mapping's, or "unrecognized resource" for an empty list |
| Scaling.TryToScaleExact | pkg/controller/cronhpa_controller.go:289-332 | At most the resolved scale is written; success leaves it at the requested size; nothing is written when nothing resolves |
| Scaling.ResolveInFull | pkg/controller/cronhpa_controller.go:292-356 | The scale read is that of the first mapping that answers, under the reference's namespace and name; otherwise the mapper's error, the first mapping's or "unrecognized resource" |
| Scaling.WorkloadInFull | pkg/controller/cronhpa_controller.go:289-332 | A workload that has the size is sent no update, so none can fail; any other is sent one, with each of the three replies' outcome |
| Scaling.SettledAutoscalerLeftAlone | pkg/controller/cronhpa_controller.go:243-286 | An autoscaler whose range holds the size and which reports that many replicas is sent no update and its workload is not looked up: success, whatever those would have met |
| Scaling.AutoscalerInFull | pkg/controller/cronhpa_controller.go:232-286 | Any other autoscaler is sent one update of its range alone; a failure ends there; the workload is scaled only when the size exceeds the reported count |
| Scaling.HealthyScales | pkg/controller/cronhpa_controller.go:221-332 | Scaling succeeds if and only if no request that is sent fails and everything looked up exists, an update being sent only to what does not hold the size already |
| Scaling.SuccessMeansApplied | pkg/controller/cronhpa_controller.go:221-286 | Success means a plain workload has the size, or the autoscaler's range holds it and its status reports at least that many replicas or its workload has just been given them; CronHPA objects are never touched |
| Autoscaler.AttemptIsUpdateHPAIfNeed | pkg/controller/cronhpa_controller.go:232-286 | On the API server's contents, applying a size to an autoscaler changes exactly the autoscaler and its workload, as the state machine says, for all failures |
| Autoscaler.EveryApplicationHonoured | pkg/controller/cronhpa_controller.go:243-283 | In every run with failures, outside moves and lagging status, a completed application of t ends with min <= t <= replicas <= max and replicas the larger of t and the old count exactly when `Honourable` held before; always when status and workload agree |
| Autoscaler.HonouredExactly | pkg/controller/cronhpa_controller.go:243-283 | For any status and workload: exactly when the workload does not exceed a target above the reported count, or has at least the target and at most the range otherwise |
| Autoscaler.LagCanShrinkOrUnderserve | pkg/controller/cronhpa_controller.go:253-283 | Concrete cases: with a lagging status the workload is cut from 10 to 5, or left at 3 for a target of 5 with success reported |
| Autoscaler.MaxFromIsMax | pkg/controller/cronhpa_controller.go:248-251 | The running maximum is an upper bound that is attained |
| Autoscaler.MinFromIsMin | pkg/controller/cronhpa_controller.go:243-246 | The running minimum is a lower bound that is attained |
| Autoscaler.ClosedForm | pkg/controller/cronhpa_controller.go:243-283 | For any sequence of targets, the status catching up in between: maximum and replicas are running maxima, and the minimum is the least target since the last record, or of all when there was none |
| Autoscaler.LastRecordExists | pkg/controller/cronhpa_controller.go:253-257 | One of the two cases for the minimum always applies |
| Autoscaler.RetryConvergesIff | pkg/controller/cronhpa_controller.go:195-283 | For any status and workload: every success after any failed attempts, the status lagging or catching up in between, leaves what one clean attempt leaves if and only if `RetrySafe` held at the start |
| Autoscaler.RetryConverges | pkg/controller/cronhpa_controller.go:195-283 | Corollary: it does when the status agrees with the workload at the first attempt, lagging afterwards or not |
| Autoscaler.RetryCanDiverge | pkg/controller/cronhpa_controller.go:195-283 | Concrete case: status 2, workload 10, target 5; after a refused update and a status that catches up, the retry leaves ten replicas where the clean attempt leaves five |
| Objects.TimeCell.DeepCopy | pkg/api/cronhpa/v1/zz_generated.deepcopy.go:135-138 | A fresh cell with the same time |
| Objects.CopyConditions | pkg/api/cronhpa/v1/zz_generated.deepcopy.go:139-145 | A fresh array with the same conditions, copied one by one |
| Objects.CronHPAObject.SpecDeepCopyInto | pkg/api/cronhpa/v1/zz_generated.deepcopy.go:106-120 | Equal spec, nil in the same places, arrays fresh |
| Objects.CronHPAObject.StatusDeepCopyInto | pkg/api/cronhpa/v1/zz_generated.deepcopy.go:133-147 | Equal status, nil in the same places, time cell and array fresh |
| Objects.CronHPAObject.DeepCopyInto | pkg/api/cronhpa/v1/zz_generated.deepcopy.go:28-35 | Equal value, and everything reachable from the copy is fresh |
| Objects.CronHPAObject.DeepCopy | pkg/api/cronhpa/v1/zz_generated.deepcopy.go:38-45 | A fresh object of equal value sharing nothing with the original |
| Objects.CronHPAObject.ValueInFull | pkg/api/cronhpa/v1/type.go:21-41 | The value the results speak of has the object's own fields, a nil slice being the empty list and a nil time none |
| Reconciling.ReconcileExact | pkg/controller/cronhpa_controller.go:132-219 | Planning failures and empty batches touch nothing; otherwise the objects change only by storing this firing, for a largest due cron, over the version read, after its size has been applied; success means stored |
| Reconciling.StoredInFull | pkg/controller/cronhpa_controller.go:201-210 | The stored firing keeps key, spec and creation; its status has the second clock reading, one success under the chosen name, and the last entry of every other name |
| Reconciling.ReconcileInFull | pkg/controller/cronhpa_controller.go:132-219 | Result and world for every outcome: planning error, nothing due, scaling error, missing object, version conflict, and the three replies to the status update |
| Reconciling.ReconcileIgnoresOrder | pkg/controller/cronhpa_controller.go:140-199 | Permuting crons or exclude dates changes neither what is scaled nor whether the reconcile succeeds |
| Reconciling.HealthyReconcileFires | pkg/controller/cronhpa_controller.go:132-219 | For the stored object and a due cron: the reconcile succeeds if and only if scaling is healthy and the status update acknowledged, and the firing is stored even when only that answer is lost |
| Reconciling.RunOnceCanScaleAgain | pkg/controller/cronhpa_controller.go:195-215 | Concrete case: with the status update refused, every reconcile of the minute that finds the workload at one replica scales it to the run-once cron's three again |
| Reconciling.StaleCacheScalesAgain | pkg/controller/cronhpa_controller.go:132-215 | Concrete case: with the firing recorded, a reconcile of the copy cached before it scales again and ends in a conflict |
| Reconciling.GapTickIsLost | pkg/controller/cronhpa_controller.go:125-202 | Concrete case: a tick at 120, between clock readings 119 and 120, is not due at that reconcile, and the stored object enumerates nothing for that cron at any clock from 120 to 239 |
| Controller.ApiServer.UpdateCronHPA | pkg/controller/cronhpa_controller.go:210-210 | Environment: an update over a version that is not current is refused |
| Controller.CronHPAController.ScaleForResourceMappings | pkg/controller/cronhpa_controller.go:334-356 | The loop returns the scale the search specification finds, or its error |
| Controller.CronHPAController.TryToScale | pkg/controller/cronhpa_controller.go:289-332 | Result and new contents of the API server are those of the scaling function |
| Controller.CronHPAController.UpdateHPAIfNeed | pkg/controller/cronhpa_controller.go:232-286 | The field-by-field changes to the fetched autoscaler, the update and the scaling have the specified result and effect |
| Controller.CronHPAController.UpdateScaleTargetRef | pkg/controller/cronhpa_controller.go:221-229 | An autoscaler target is adjusted, any other target is scaled |
| Controller.CronHPAController.PlanBatch | pkg/controller/cronhpa_controller.go:135-187 | The first half of a reconcile computes the plan |
| Controller.CronHPAController.Fire | pkg/controller/cronhpa_controller.go:189-216 | The second half scales first, then stamps the copy, then stores it; the new conditions are admissible |
| Controller.CronHPAController.FireLargest | pkg/controller/cronhpa_controller.go:189-216 | The batch is sorted and one of its largest crons fired |
| Controller.CronHPAController.ReconcileCronHPA | pkg/controller/cronhpa_controller.go:132-219 | Result and effect are those of the reconcile function for an admissible choice, and on every path the cached object and all it reaches are unchanged |
| Controller.CronHPAController.ReconcileCronHPAs | pkg/controller/cronhpa_controller.go:116-130 | A pass is the reconciles one after the other, whichever fail; a failed listing does nothing |
| Runs.EveryEventIsAStep | pkg/controller/cronhpa_controller.go:116-130 | Runs rule nothing out: a reconcile of any version the object has had, with any clock readings, API outcomes and open choices, is a step, and so is any outside change that raises the version |
| Runs.RunOnceSafety | pkg/controller/cronhpa_controller.go:132-219 | In every run, with stale caches and failing or half-failing updates, no run-once cron is recorded when its name was recorded before |
| Runs.SkippedIffNewer | pkg/controller/cronhpa_controller.go:157-216 | In every run, the cached copies that skip a recorded run-once cron, edited since or not, are exactly those of a version newer than the one the firing was planned from |
| Runs.ChosenAgainOnlyFromStale | pkg/controller/cronhpa_controller.go:157-191 | In every run, a reconcile that chooses a run-once cron whose name has been recorded works on a copy no newer than the one that firing was planned from |
| Runs.RecordedIff | pkg/controller/cronhpa_controller.go:189-216 | A reconcile is recorded exactly when something is due, scaling succeeds, the copy is current and the status update is stored, acknowledged or not |
| Runs.SkippedIffRecorded | pkg/controller/cronhpa_controller.go:157-216 | After a reconcile that chose a run-once cron not yet run, the stored object skips it exactly under those four conditions |
| Runs.UnrecordedStaysDue | pkg/controller/cronhpa_controller.go:163-186 | Without deadline and exclude dates, and for any schedule, a due cron stays due at every later time planning succeeds |
| Runs.UnrecordedDueUnlessExcluded | pkg/controller/cronhpa_controller.go:163-186 | With exclude dates it then has a latest tick, and is due exactly when no exclude schedule ticks there for the last time |
| Runs.EveryFiringIsGood | pkg/controller/cronhpa_controller.go:189-216 | Every recorded firing in every run was of a largest due cron and left its size applied |
| Runs.RecordedFiringHonoured | pkg/controller/cronhpa_controller.go:195-283 | In every run, a recorded firing on an autoscaler whose workload is found is one honoured application exactly when it was honourable |
| Runs.ReconcileKeepsSpec | pkg/controller/cronhpa_controller.go:201-210 | No reconcile in any run changes the object's spec or creation time |
| Runs.SpecIsUsers | pkg/controller/cronhpa_controller.go:201-210 | In every run in which nobody else edits it the spec stays what it was, however many firings are recorded |
| Runs.ListedScheduleNeverFires | pkg/controller/util.go:79-111 | In every run, a cron whose own schedule is excluded is never recorded |
| Runs.ProgressIsStrict | pkg/controller/cronhpa_controller.go:135-202 | In every run whose recorded crons are moving, each recorded firing opens where the previous one was stamped and is stamped strictly later, even if the clock jumps back between reconciles |
| Runs.StampsIncrease | pkg/controller/cronhpa_controller.go:135-202 | What such a chain is, firing by firing: it opens at the previous stamp, the clock had passed that, and the stamps increase strictly |
| Runs.ChainCovers | pkg/controller/cronhpa_controller.go:135-202 | The firings tile the time up to the last firing: every time has one, and no time has two |
| Runs.EveryTickAccountedFor | pkg/controller/cronhpa_controller.go:125-208 | Every time up to the last firing has exactly one responsible firing, for which it is older than the deadline, between the two clock readings, or in the window, where every behaved cron ticking then is served at least its size unless used up or excluded |
| Runs.TickServedInFull | pkg/controller/cronhpa_controller.go:132-216 | The service part without the vocabulary: after a recorded firing a tick in its window had at least its cron's size on the workload, or in the autoscaler's range with the replicas reported or given, when the cron had a run left and was not excluded at its last missed tick |
| Runs.PlansIffEnumerable | pkg/controller/cronhpa_controller.go:135-187 | Apart from repeated names, a plan succeeds exactly when every exclude schedule and every schedule of a cron with a run left can be enumerated |
| Runs.SeenIffInWindow | pkg/controller/cronhpa_controller.go:125-208 | In every run, some recorded firing enumerates a tick if and only if the firing responsible for its time enumerates the schedule and has the tick in its window |
| Runs.LogGrows | pkg/controller/cronhpa_controller.go:201-216 | Recorded firings stay recorded |
| Runs.WindowTickIsDue | pkg/controller/cronhpa_controller.go:162-186 | A cron ticking in the window of a reconcile that can plan is due unless used up or excluded |
| Runs.TimelyReconcileServes | pkg/controller/cronhpa_controller.go:125-216 | In every run, a healthy reconcile of the current object at or after a tick, less than the deadline after it, with no firing stamped at or after it yet, leaves for ever a recorded firing with the tick in its window and the cron's size given, unless used up or excluded |
| Runs.CappedExactly | pkg/controller/util.go:49-73 | Without a deadline a lawful schedule that must be enumerated is capped exactly when it has ticked more than a hundred times since the last firing or the creation |
| Runs.CappedReconcileFails | pkg/controller/util.go:70-73 | For any schedule, a reconcile of a capped object fails and touches nothing at that or any later time |
| Runs.StampedTicksAreGone | pkg/controller/cronhpa_controller.go:125-210 | In every run, no version after a firing enumerates a tick up to its stamp, gap ticks included, and nothing planned from older copies is recorded |
| Runs.CapIsForever | pkg/controller/cronhpa_controller.go:163-167 | Once the cap strikes without a deadline, nothing is ever recorded again, whatever stale caches do, while the clock does not go back behind that point and nobody else changes the object |
| Pass.ReconcileIsLocal | pkg/controller/cronhpa_controller.go:132-219 | A reconcile's result and effect depend only on its footprint, and it has no effect on anything disjoint from it |
| Pass.PassIsNonInterfering | pkg/controller/cronhpa_controller.go:116-130 | When no two objects share anything, each ends a pass as if reconciled alone, whichever others fail |
| Pass.PassIgnoresCompany | pkg/controller/cronhpa_controller.go:116-130 | Nor do the other objects or the order of the list matter |
| Pass.DisjointWhenApart | pkg/controller/cronhpa_controller.go:116-130 | Different objects that target neither the same autoscaler nor workloads of the same namespace and name share nothing |
| Pass.EndsAsIfAlone | pkg/controller/cronhpa_controller.go:116-130 | Spelled out for such objects: the stored object, its autoscaler and its scales end a pass as after its reconcile alone |
| Pass.PassIsWork | pkg/controller/cronhpa_controller.go:123-129 | A pass is a sequence of reconciles, one for each listed object, with the same results |
| Pass.WorkInTurn | pkg/controller/cronhpa_controller.go:111-111 | Passes one after the other are the concatenated sequence, and their results are concatenated |
| Pass.PassesAreNonInterfering | pkg/controller/cronhpa_controller.go:111-130 | Over any number of passes, while objects keep to disjoint regions, each region ends as if only its own object had ever been reconciled, and each of its reconciles returns what it would then have returned |

## Left out

- Parsing cron strings and calendar arithmetic: the parser is an oracle, and `next` a function with the laws above.
- Schedules counting from their starting point (`@every`) break the second law, so nothing is said of the ticks of a cron that uses one, or of any cron of an object that excludes one; the other results cover them.
- A nil `MinReplicas`, which the API server defaults; the code dereferences it without a check.
- 32-bit integers: sizes are only compared and copied, and a 32-bit number of seconds does not overflow a duration, so unbounded integers behave the same.
- `ParseGroupVersion` and `RESTMappings` are one oracle giving an error or a list of mappings.
- Events, logs and error texts: no state depends on them.
- The list, event and informer plumbing, leader election, flags, CRD creation and the generated clients.
- `DeepCopy` of the single value types and of `CronHPAList`, and metadata beyond key, version and creation time: they would only add easy members.
- Library code inside the loop: `sort.Slice` is any sort, and the slice it sorts in place is reassigned instead.
