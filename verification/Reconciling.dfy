/** One reconcile (`reconcileCronHPA`) as a function of the cached object, the environment's
    round and the choices Go leaves open. */
module Reconciling {
  import opened Types
  import opened Schedules
  import opened Conditions
  import opened Batch
  import opened Scaling

  /** What Go leaves open: which of several equally large crons the sort puts first, and the
      order in which the map iteration lists the conditions. */
  datatype Choice = Choice(chosen: Cron, conditions: seq<Condition>)

  function SuccessOf(cron: Cron): Condition {
    Condition(cron.name, "", cron.runOnce, "", SUCCEED, ZERO_TIME, "")
  }

  ghost predicate Admissible(parse: Parser, o: CronHPA, now: Time, choice: Choice) {
    var plan := Plan(parse, o, now);
    plan.Ok? && plan.value != [] ==>
      && IsTop(plan.value, choice.chosen)
      && IsUpdateOf(choice.conditions, o.status.conditions, SuccessOf(choice.chosen))
  }

  /** The object with the firing in its status. */
  function Recorded(o: CronHPA, stamped: Time, choice: Choice): CronHPA {
    o.(status := Status(Some(stamped), choice.conditions))
  }

  /** The API server stores an object only over the version it was read at. */
  function StoreObject(w: World, o: CronHPA, reply: Reply): (World, Result<()>) {
    if o.key !in w.objects then (w, Err(NotFound))
    else if w.objects[o.key].version != o.version then (w, Err(Conflict))
    else (if reply.Stored() then w.(objects := w.objects[o.key := o.(version := o.version + 1)]) else w, reply.Seen())
  }

  /** Scale first; only after that, record. */
  function FireStep(o: CronHPA, round: Round, choice: Choice, w: World): (World, Result<()>) {
    var (w1, scaled) :=
      UpdateScaleTargetRef(w, o.key.namespace, o.spec.scaleTargetRef, choice.chosen.targetSize, round.api);
    if scaled.Err? then (w1, scaled)
    else StoreObject(w1, Recorded(o, round.stamped, choice), round.api.statusUpdate)
  }

  function Reconcile(parse: Parser, o: CronHPA, round: Round, choice: Choice, w: World): (World, Result<()>) {
    match Plan(parse, o, round.now)
    case Err(e) => (w, Err(e))
    case Ok(batch) => if batch == [] then (w, Ok(())) else FireStep(o, round, choice, w)
  }

  /** The firing this reconcile stores when the status update gets through. */
  function Stored(o: CronHPA, stamped: Time, choice: Choice): CronHPA {
    Recorded(o, stamped, choice).(version := o.version + 1)
  }

  /** `cron` is the largest of the due crons. */
  ghost predicate LargestDue(parse: Parser, o: CronHPA, now: Time, cron: Cron) {
    && cron in o.spec.crons && Due(parse, o, now, cron)
    && forall c :: c in o.spec.crons && Due(parse, o, now, c) ==> c.targetSize <= cron.targetSize
  }

  lemma AppliedIgnoresObjects(w: World, w': World, namespace: string, ref: ScaleTargetRef, size: int, api: Api)
    requires w'.hpas == w.hpas && w'.scales == w.scales
    ensures Applied(w', namespace, ref, size, api) <==> Applied(w, namespace, ref, size, api)
  {
    ResolveIgnoresSizes(w, w', namespace, ref, api);
    if Key(namespace, ref.name) in w.hpas {
      ResolveIgnoresSizes(w, w', namespace, w.hpas[Key(namespace, ref.name)].target, api);
    }
  }

  /** The firing was stored over the version it had read, after scaling that succeeded and left
      the applied size in place. */
  ghost predicate FireStored(o: CronHPA, round: Round, choice: Choice, w: World, w': World) {
    && w'.objects == w.objects[o.key := Stored(o, round.stamped, choice)]
    && o.key in w.objects && w.objects[o.key].version == o.version
    && var (scaled, result) :=
         UpdateScaleTargetRef(w, o.key.namespace, o.spec.scaleTargetRef, choice.chosen.targetSize, round.api);
    && result.Ok? && w'.hpas == scaled.hpas && w'.scales == scaled.scales
    && Applied(w', o.key.namespace, o.spec.scaleTargetRef, choice.chosen.targetSize, round.api)
  }

  /** The reconcile stored this firing, of a largest due cron. */
  ghost predicate Fires(parse: Parser, o: CronHPA, round: Round, choice: Choice, w: World, w': World) {
    && CanPlan(parse, o, round.now) && LargestDue(parse, o, round.now, choice.chosen)
    && IsUpdateOf(choice.conditions, o.status.conditions, SuccessOf(choice.chosen))
    && FireStored(o, round, choice, w, w')
  }

  lemma PlanIsLargestDue(parse: Parser, o: CronHPA, now: Time, choice: Choice)
    requires Admissible(parse, o, now, choice)
    ensures var plan := Plan(parse, o, now);
            && (plan.Ok? <==> CanPlan(parse, o, now))
            && (plan.Ok? ==> (plan.value == [] <==> forall c :: c in o.spec.crons ==> !Due(parse, o, now, c)))
            && (plan.Ok? && plan.value != [] ==> LargestDue(parse, o, now, choice.chosen))
  {
    PlanExact(parse, o, now);
    var plan := Plan(parse, o, now);
    assert plan.Ok? && plan.value != [] ==> plan.value[0] in plan.value;
  }

  /** Scaling and recording change the stored objects by exactly this firing or not at all, and
      success means they have changed. */
  lemma FireStepExact(o: CronHPA, round: Round, choice: Choice, w: World)
    ensures var (w', r) := FireStep(o, round, choice, w);
            && (w'.objects == w.objects || FireStored(o, round, choice, w, w'))
            && (r.Ok? ==> FireStored(o, round, choice, w, w'))
  {
    var namespace, ref, size := o.key.namespace, o.spec.scaleTargetRef, choice.chosen.targetSize;
    SuccessMeansApplied(w, namespace, ref, size, round.api);
    var w1 := UpdateScaleTargetRef(w, namespace, ref, size, round.api).0;
    AppliedIgnoresObjects(w1, StoreObject(w1, Recorded(o, round.stamped, choice), round.api.statusUpdate).0,
                          namespace, ref, size, round.api);
  }

  /** A reconcile in terms of due crons, whatever the choices and the API's failures. If
      planning fails, nothing is touched and the caller sees an error. If no cron is due,
      nothing is touched. Otherwise the stored objects stay as they are, or change by exactly
      this firing; and success means the firing is stored. */
  lemma ReconcileExact(parse: Parser, o: CronHPA, round: Round, choice: Choice, w: World)
    requires Admissible(parse, o, round.now, choice)
    ensures var (w', r) := Reconcile(parse, o, round, choice, w);
            if !CanPlan(parse, o, round.now) then w' == w && r.Err?
            else if forall c :: c in o.spec.crons ==> !Due(parse, o, round.now, c) then w' == w && r.Ok?
            else
              && (w'.objects == w.objects || Fires(parse, o, round, choice, w, w'))
              && (r.Ok? ==> Fires(parse, o, round, choice, w, w'))
  {
    PlanIsLargestDue(parse, o, round.now, choice);
    FireStepExact(o, round, choice, w);
  }

  /** And nothing else stands in the way. For the stored object and when a cron is due, the
      reconcile succeeds exactly when no request it sends fails and everything it looks up exists;
      and the firing is stored even if only the answer to the status update is lost. */
  lemma HealthyReconcileFires(parse: Parser, o: CronHPA, round: Round, choice: Choice, w: World)
    requires Admissible(parse, o, round.now, choice) && CanPlan(parse, o, round.now)
    requires exists c :: c in o.spec.crons && Due(parse, o, round.now, c)
    requires o.key in w.objects && w.objects[o.key] == o
    ensures var (w', r) := Reconcile(parse, o, round, choice, w);
            var healthy := Healthy(w, o.key.namespace, o.spec.scaleTargetRef, choice.chosen.targetSize, round.api);
            && (r.Ok? <==> healthy && round.api.statusUpdate.Acked?)
            && (healthy && !round.api.statusUpdate.Rejected? ==> Fires(parse, o, round, choice, w, w'))
  {
    PlanIsLargestDue(parse, o, round.now, choice);
    HealthyScales(w, o.key.namespace, o.spec.scaleTargetRef, choice.chosen.targetSize, round.api);
    SuccessMeansApplied(w, o.key.namespace, o.spec.scaleTargetRef, choice.chosen.targetSize, round.api);
    FireStepExact(o, round, choice, w);
  }

  // ---------- every outcome ----------

  /** The stored firing differs from the object it was planned from in its version and its status
      alone: the time of the firing, and a success under the chosen cron's name, in place of that
      name's entries; every other name keeps its last entry. */
  lemma StoredInFull(o: CronHPA, stamped: Time, choice: Choice, c: Condition)
    requires IsUpdateOf(choice.conditions, o.status.conditions, SuccessOf(choice.chosen))
    ensures var o', chosen := Stored(o, stamped, choice), choice.chosen;
            && o'.key == o.key && o'.creation == o.creation && o'.spec == o.spec && o'.version == o.version + 1
            && o'.status.lastScheduleTime == Some(stamped)
            && (c.name == chosen.name ==>
                  (c in o'.status.conditions <==>
                     c == Condition(chosen.name, "", chosen.runOnce, "", "Succeed", ZERO_TIME, "")))
            && (c.name != chosen.name ==>
                  (c in o'.status.conditions <==> LastUnderItsName(o.status.conditions, c)))
            && (forall name :: LastSucceeded(o'.status.conditions, name) <==>
                  name == chosen.name || LastSucceeded(o.status.conditions, name))
  {
    UpdateExactly(choice.conditions, o.status.conditions, SuccessOf(choice.chosen), c);
    forall name
      ensures LastSucceeded(choice.conditions, name) <==>
              name == choice.chosen.name || LastSucceeded(o.status.conditions, name)
    {
      UpdateRecordsRun(choice.conditions, o.status.conditions, SuccessOf(choice.chosen), name);
      HasRunExactly(choice.conditions, name);
      HasRunExactly(o.status.conditions, name);
    }
  }

  /** Every outcome of a reconcile. A plan that fails or is empty leaves the world alone, the first
      as an error. Otherwise one of the largest crons of the plan is applied first; if that fails its
      error ends the reconcile, and whatever scaling changed stays changed. Only then is the
      firing sent to be stored: over the version read, or not at all. */
  lemma ReconcileInFull(parse: Parser, o: CronHPA, round: Round, choice: Choice, w: World)
    requires Admissible(parse, o, round.now, choice)
    ensures var done := Reconcile(parse, o, round, choice, w);
            match Plan(parse, o, round.now)
            case Err(e) => done == (w, Err(e))
            case Ok(batch) =>
              if batch == [] then done == (w, Ok(()))
              else
                var cron := choice.chosen;
                var (w1, scaled) :=
                  UpdateScaleTargetRef(w, o.key.namespace, o.spec.scaleTargetRef, cron.targetSize, round.api);
                && cron in batch && (forall c :: c in batch ==> c.targetSize <= cron.targetSize)
                && w1.objects == w.objects
                && if scaled.Err? then done == (w1, scaled)
                   else if o.key !in w.objects then done == (w1, Err(NotFound))
                   else if w.objects[o.key].version != o.version then done == (w1, Err(Conflict))
                   else
                     var stored := w1.(objects := w.objects[o.key := Stored(o, round.stamped, choice)]);
                     match round.api.statusUpdate
                     case Acked => done == (stored, Ok(()))
                     case Rejected(e) => done == (w1, Err(e))
                     case LostAck(e) => done == (stored, Err(e))
  {
    SuccessMeansApplied(w, o.key.namespace, o.spec.scaleTargetRef, choice.chosen.targetSize, round.api);
  }

  // ---------- run-once is about recording, not about applying ----------

  /** A run-once cron ticking every minute, created at second 0, asking a deployment for three
      replicas. */
  ghost predicate Minutely(parse: Parser, o: CronHPA, cron: Cron) {
    && cron.runOnce && cron.targetSize == 3 && parse(cron.schedule) == Some((t: Time) => t - t % 60 + 60)
    && o.spec == Spec(ScaleTargetRef("apps/v1", "Deployment", "web"), [cron], [], 0)
    && o.creation == 0 && o.status == Status(None, [])
  }

  /** The deployment is found, at one replica, and scaling it works. */
  ghost predicate WebAtOne(o: CronHPA, gr: GroupResource, w: World, api: Api) {
    && w.scales == map[ScaleKey(o.key.namespace, gr, "web") := 1]
    && api.mappings(o.spec.scaleTargetRef) == Ok([gr]) && api.scaleGet(0) == None && api.scaleUpdate == Acked
  }

  lemma MinutelyPlan(parse: Parser, o: CronHPA, cron: Cron, now: Time)
    requires Minutely(parse, o, cron) && 60 <= now < 120
    ensures Plan(parse, o, now) == Ok([cron])
    ensures Admissible(parse, o, now, Choice(cron, [SuccessOf(cron)]))
  {
    var minutes := parse(cron.schedule).value;
    assert [60] + [] == [60] && [] + [cron] == [cron] && [cron][..0] == [];
    assert Walk(minutes, minutes(60), now, 99) == Some([]);
    assert Walk(minutes, minutes(0), now, 100) == Some([60]);
    assert ExcludeTimes(parse, o, now, []) == Ok({});
    assert Joins(parse, o, now, {}, cron) == Ok(true);
    assert BatchOf(parse, o, now, {}, [cron]) == Extend(parse, o, now, {}, [], [], cron);
    OneSuccess(cron);
  }

  lemma OneSuccess(cron: Cron)
    ensures LastWins([SuccessOf(cron)]) == map[cron.name := SuccessOf(cron)]
    ensures HasRun([SuccessOf(cron)], cron.name)
  {
    assert [SuccessOf(cron)][..0] == [];
    assert LastWins([SuccessOf(cron)]) == LastWins([])[cron.name := SuccessOf(cron)];
  }

  lemma WebScalesToThree(o: CronHPA, gr: GroupResource, w: World, api: Api)
    requires o.spec.scaleTargetRef == ScaleTargetRef("apps/v1", "Deployment", "web") && WebAtOne(o, gr, w, api)
    ensures UpdateScaleTargetRef(w, o.key.namespace, o.spec.scaleTargetRef, 3, api) ==
            (w.(scales := map[ScaleKey(o.key.namespace, gr, "web") := 3]), Ok(()))
  {
    var key := ScaleKey(o.key.namespace, gr, "web");
    assert HPA_KIND[0] != "Deployment"[0];
    assert Resolve(w, o.key.namespace, o.spec.scaleTargetRef, api) == Ok(key);
    assert w.scales[key := 3] == map[key := 3];
  }

  /** Being recorded at most once does not mean being applied at most once. While its status
      update is refused, every reconcile from second 60 to second 119 that finds the deployment
      at one replica scales it to three, and records nothing. */
  lemma RunOnceCanScaleAgain(parse: Parser, o: CronHPA, cron: Cron, gr: GroupResource, refusal: Error, round: Round,
                             w: World)
    requires Minutely(parse, o, cron) && WebAtOne(o, gr, w, round.api)
    requires w.objects == map[o.key := o] && round.api.statusUpdate == Rejected(refusal)
    requires 60 <= round.now < 120
    ensures var choice := Choice(cron, [SuccessOf(cron)]);
            && Admissible(parse, o, round.now, choice)
            && Reconcile(parse, o, round, choice, w) ==
               (w.(scales := map[ScaleKey(o.key.namespace, gr, "web") := 3]), Err(refusal))
  {
    MinutelyPlan(parse, o, cron, round.now);
    WebScalesToThree(o, gr, w, round.api);
  }

  /** Nor does a recorded firing end it. The firing is stored and the stored object skips the
      cron; but a reconcile from the copy cached before the firing scales to three once more,
      and only then meets the conflict. */
  lemma StaleCacheScalesAgain(parse: Parser, o: CronHPA, cron: Cron, gr: GroupResource, round: Round, w: World)
    requires Minutely(parse, o, cron) && WebAtOne(o, gr, w, round.api)
    requires w.objects == map[o.key := Stored(o, 61, Choice(cron, [SuccessOf(cron)]))]
    requires 60 <= round.now < 120
    ensures var choice := Choice(cron, [SuccessOf(cron)]);
            && Skipped(w.objects[o.key], cron)
            && Admissible(parse, o, round.now, choice)
            && Reconcile(parse, o, round, choice, w) ==
               (w.(scales := map[ScaleKey(o.key.namespace, gr, "web") := 3]), Err(Conflict))
  {
    MinutelyPlan(parse, o, cron, round.now);
    WebScalesToThree(o, gr, w, round.api);
    OneSuccess(cron);
  }

  // ---------- the gap between the clock readings ----------

  lemma GapEnumerations(parse: Parser, o: CronHPA, later: CronHPA, minutes: string, twos: string, now: Time)
    requires parse(minutes) == Some((t: Time) => t - t % 60 + 60) && parse(twos) == Some((t: Time) => t - t % 120 + 120)
    requires LatestScheduledTime(o) == 0 && LatestScheduledTime(later) == 120
    requires o.spec.startingDeadlineSeconds == 0 == later.spec.startingDeadlineSeconds && 120 <= now < 240
    ensures Unmet(parse, o, 119, minutes) == Ok([60])
    ensures Unmet(parse, o, 119, twos) == Ok([])
    ensures Unmet(parse, later, now, twos) == Ok([])
  {
    var m, t := parse(minutes).value, parse(twos).value;
    assert [60] + [] == [60];
    assert Walk(m, m(60), 119, 99) == Some([]);
    assert Walk(m, m(0), 119, 100) == Some([60]);
    assert Walk(t, t(0), 119, 100) == Some([]);
    assert Walk(t, t(120), now, 100) == Some([]);
  }

  lemma TwoCronBatch(parse: Parser, o: CronHPA, now: Time, first: Cron, second: Cron)
    requires first.name != second.name
    requires Joins(parse, o, now, {}, first) == Ok(true) && Joins(parse, o, now, {}, second) == Ok(false)
    ensures BatchOf(parse, o, now, {}, [first, second]) == Ok([first])
  {
    assert [first, second][..1] == [first] && [first][..0] == [] && [] + [first] == [first];
    assert BatchOf(parse, o, now, {}, [first]) == Extend(parse, o, now, {}, [], [], first);
    assert BatchOf(parse, o, now, {}, [first, second]) == Extend(parse, o, now, {}, [first], [first], second);
  }

  /** A tick can fall between the two clock readings and be lost. The first cron ticks every
      minute and the second every two. A reconcile at 119 sees only the tick at 60, fires the
      first cron and is stamped at 120. The second cron's tick at 120 was not due then, and the
      stored object enumerates nothing for it until the next tick at 240. */
  lemma GapTickIsLost(parse: Parser, o: CronHPA, first: Cron, second: Cron, choice: Choice, now: Time)
    requires parse(first.schedule) == Some((t: Time) => t - t % 60 + 60)
    requires parse(second.schedule) == Some((t: Time) => t - t % 120 + 120)
    requires first.name != second.name && !first.runOnce && !second.runOnce
    requires o.spec.crons == [first, second] && o.spec.excludeDates == [] && o.spec.startingDeadlineSeconds == 0
    requires o.creation == 0 && o.status == Status(None, [])
    requires 120 <= now < 240
    ensures TicksAt(parse, second.schedule, 120)
    ensures Plan(parse, o, 119) == Ok([first])
    ensures Unmet(parse, Stored(o, 120, choice), now, second.schedule) == Ok([])
  {
    GapEnumerations(parse, o, Stored(o, 120, choice), first.schedule, second.schedule, now);
    TwoCronBatch(parse, o, 119, first, second);
    assert ExcludeTimes(parse, o, 119, []) == Ok({});
  }

  /** Permuting the crons or the exclude dates leaves the size a reconcile applies, and
      whether it applies one at all, as they were. */
  lemma ReconcileIgnoresOrder(parse: Parser, o: CronHPA, crons: seq<Cron>, dates: seq<string>, round: Round,
                              choice: Choice, choice': Choice, w: World)
    requires multiset(crons) == multiset(o.spec.crons) && multiset(dates) == multiset(o.spec.excludeDates)
    requires var o' := o.(spec := o.spec.(crons := crons, excludeDates := dates));
             Admissible(parse, o, round.now, choice) && Admissible(parse, o', round.now, choice')
    ensures var o' := o.(spec := o.spec.(crons := crons, excludeDates := dates));
            var (w1, r1), (w2, r2) := Reconcile(parse, o, round, choice, w), Reconcile(parse, o', round, choice', w);
            && w1.hpas == w2.hpas && w1.scales == w2.scales
            && (r1.Ok? <==> r2.Ok?)
  {
    OrderIndependent(parse, o, crons, dates, round.now);
    var o' := o.(spec := o.spec.(crons := crons, excludeDates := dates));
    if choice.chosen.targetSize == choice'.chosen.targetSize {
      FireStepSize(o, o', round, choice, choice', w);
    }
  }

  /** Of the choice only the size matters to the scaling and to the outcome. */
  lemma FireStepSize(o: CronHPA, o': CronHPA, round: Round, choice: Choice, choice': Choice, w: World)
    requires o'.key == o.key && o'.version == o.version && o'.spec.scaleTargetRef == o.spec.scaleTargetRef
    requires choice.chosen.targetSize == choice'.chosen.targetSize
    ensures var (w1, r1), (w2, r2) := FireStep(o, round, choice, w), FireStep(o', round, choice', w);
            w1.hpas == w2.hpas && w1.scales == w2.scales && (r1.Ok? <==> r2.Ok?)
  {}
}
