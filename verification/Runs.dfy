/** Whole runs for one CronHPA object: any number of reconciles, from caches of any age, with
    any failures, clocks and choices, interleaved with anything others do. */
module Runs {
  import opened Types
  import opened Schedules
  import opened Conditions
  import opened Batch
  import opened Scaling
  import opened Reconciling
  import Autoscaler

  /** A reconcile of a cached copy, or a change by anyone else, reconciles of other objects
      included. */
  datatype Event = Reconciled(cached: CronHPA, round: Round, choice: Choice) | Outside(after: World)

  /** A recorded firing: the object it was planned from, the world it met and the world it
      left. */
  datatype Firing = Firing(before: CronHPA, round: Round, choice: Choice, start: World, after: World)
  {
    function Chosen(): Cron { choice.chosen }
  }

  /** `history` holds every version the object has had, which is what a cache may hold. */
  datatype Sys = Sys(world: World, history: set<CronHPA>, log: seq<Firing>)

  ghost predicate Present(k: Key, s: Sys) {
    k in s.world.objects && s.world.objects[k].key == k
  }

  function Current(k: Key, s: Sys): CronHPA
    requires k in s.world.objects
  {
    s.world.objects[k]
  }

  ghost predicate Init(k: Key, s: Sys) {
    Present(k, s) && s.history == {Current(k, s)} && s.log == []
  }

  ghost predicate Step(parse: Parser, k: Key, s: Sys, e: Event, s': Sys) {
    && Present(k, s) && Present(k, s')
    && s'.history == s.history + {Current(k, s')}
    && match e
       case Reconciled(cached, round, choice) =>
         && cached in s.history && round.now <= round.stamped
         && Admissible(parse, cached, round.now, choice)
         && s'.world == Reconcile(parse, cached, round, choice, s.world).0
         && s'.log == (if s'.world.objects == s.world.objects then s.log
                       else s.log + [Firing(cached, round, choice, s.world, s'.world)])
       case Outside(after) =>
         // Every stored write of the object raises its version.
         && s'.world == after && s'.log == s.log
         && (Current(k, s') == Current(k, s) || Current(k, s').version > Current(k, s).version)
  }

  /** Nothing else is ruled out: any reconcile of any version the object has had, whatever the
      clock, the API and the open choices do, is a step; and so is any outside change that keeps the
      object under its key and raises its version if it writes it at all. */
  lemma EveryEventIsAStep(parse: Parser, k: Key, s: Sys, e: Event)
    requires Present(k, s) && (forall o :: o in s.history ==> o.key == k)
    requires match e
             case Reconciled(cached, round, choice) =>
               cached in s.history && round.now <= round.stamped && Admissible(parse, cached, round.now, choice)
             case Outside(after) =>
               && k in after.objects && after.objects[k].key == k
               && (after.objects[k] == s.world.objects[k] || after.objects[k].version > s.world.objects[k].version)
    ensures exists s' :: Step(parse, k, s, e, s')
  {
    match e
    case Reconciled(cached, round, choice) =>
      ReconcileExact(parse, cached, round, choice, s.world);
      var after := Reconcile(parse, cached, round, choice, s.world).0;
      var log := if after.objects == s.world.objects then s.log
                 else s.log + [Firing(cached, round, choice, s.world, after)];
      assert Step(parse, k, s, e, Sys(after, s.history + {after.objects[k]}, log));
    case Outside(after) =>
      assert Step(parse, k, s, e, Sys(after, s.history + {after.objects[k]}, s.log));
  }

  /** Nobody deletes the object. */
  ghost predicate AllPresent(k: Key, states: seq<Sys>) {
    forall i :: 0 <= i < |states| ==> Present(k, states[i])
  }

  ghost predicate IsRun(parse: Parser, k: Key, states: seq<Sys>, events: seq<Event>) {
    && |states| == |events| + 1 && AllPresent(k, states) && Init(k, states[0])
    && forall i {:trigger events[i]} :: 0 <= i < |events| ==> Step(parse, k, states[i], events[i], states[i + 1])
  }

  // ---------- versions ----------

  /** A version number identifies the object's contents, and none exceeds the current one. */
  ghost predicate VersionsAreUnique(k: Key, s: Sys) {
    && Present(k, s) && Current(k, s) in s.history
    && forall o :: o in s.history ==>
                     o.key == k && o.version <= Current(k, s).version
                     && (o.version == Current(k, s).version ==> o == Current(k, s))
  }

  /** The log grows exactly by firings planned from the current object. */
  lemma StepEffect(parse: Parser, k: Key, s: Sys, e: Event, s': Sys)
    requires Step(parse, k, s, e, s') && VersionsAreUnique(k, s)
    ensures VersionsAreUnique(k, s')
    ensures e.Reconciled? ==>
              || (s'.log == s.log && Current(k, s') == Current(k, s))
              || (&& e.cached == Current(k, s)
                  && s'.log == s.log + [Firing(e.cached, e.round, e.choice, s.world, s'.world)]
                  && Fires(parse, e.cached, e.round, e.choice, s.world, s'.world)
                  && Current(k, s') == Stored(e.cached, e.round.stamped, e.choice))
  {
    if e.Reconciled? {
      ReconcileExact(parse, e.cached, e.round, e.choice, s.world);
    }
  }

  lemma VersionsStep(parse: Parser, k: Key, states: seq<Sys>, events: seq<Event>, i: nat)
    requires IsRun(parse, k, states, events) && i < |events| && VersionsAreUnique(k, states[i])
    ensures VersionsAreUnique(k, states[i + 1])
  {
    StepEffect(parse, k, states[i], events[i], states[i + 1]);
  }

  lemma {:induction false} RunVersions(parse: Parser, k: Key, states: seq<Sys>, events: seq<Event>, i: nat)
    requires IsRun(parse, k, states, events) && i < |states|
    ensures VersionsAreUnique(k, states[i])
  {
    if i == 0 {
    } else {
      RunVersions(parse, k, states, events, i - 1);
      VersionsStep(parse, k, states, events, i - 1);
    }
  }

  // ---------- run-once ----------

  /** Every name that has run by the conditions of `o` has run by those of `o'`. */
  ghost predicate RunsKept(o: CronHPA, o': CronHPA) {
    forall name :: HasRun(o.status.conditions, name) ==> HasRun(o'.status.conditions, name)
  }

  /** Nobody else takes a success away from the object's conditions. */
  ghost predicate SuccessesKept(k: Key, states: seq<Sys>, events: seq<Event>)
    requires |states| == |events| + 1 && AllPresent(k, states)
  {
    forall i {:trigger events[i]} :: 0 <= i < |events| && events[i].Outside? ==>
                  RunsKept(Current(k, states[i]), Current(k, states[i + 1]))
  }

  /** A firing of a run-once cron comes after no other recorded firing of that name. */
  ghost predicate RunOnceOnlyOnce(log: seq<Firing>) {
    forall a, b :: 0 <= a < b < |log| && log[b].choice.chosen.runOnce
                   ==> log[a].choice.chosen.name != log[b].choice.chosen.name
  }

  ghost predicate LoggedNamesHaveRun(k: Key, s: Sys) {
    && Present(k, s)
    && forall a :: 0 <= a < |s.log| ==> HasRun(Current(k, s).status.conditions, s.log[a].choice.chosen.name)
  }

  /** A recorded firing adds its cron's name to those that have run; any other reconcile adds
      nothing. */
  lemma ReconcileAddsRun(parse: Parser, k: Key, s: Sys, e: Event, s': Sys)
    requires Step(parse, k, s, e, s') && VersionsAreUnique(k, s) && e.Reconciled?
    ensures RunsKept(Current(k, s), Current(k, s'))
    ensures s'.log != s.log ==>
              forall name :: HasRun(Current(k, s').status.conditions, name) <==>
                             name == e.choice.chosen.name || HasRun(Current(k, s).status.conditions, name)
  {
    StepEffect(parse, k, s, e, s');
    if s'.log != s.log {
      var before, after := Current(k, s).status.conditions, Current(k, s').status.conditions;
      forall name ensures HasRun(after, name) <==> name == e.choice.chosen.name || HasRun(before, name) {
        UpdateRecordsRun(after, before, SuccessOf(e.choice.chosen), name);
      }
    }
  }

  /** What a reconcile does to the log and to the names that have run. */
  lemma FiringEffect(parse: Parser, k: Key, s: Sys, e: Event, s': Sys)
    requires Step(parse, k, s, e, s') && VersionsAreUnique(k, s) && e.Reconciled?
    ensures RunsKept(Current(k, s), Current(k, s')) && Current(k, s').version >= Current(k, s).version
    ensures s'.log == s.log
            || (&& s'.log == s.log + [Firing(Current(k, s), e.round, e.choice, s.world, s'.world)]
                && Current(k, s').version > Current(k, s).version
                && HasRun(Current(k, s').status.conditions, e.choice.chosen.name)
                && (e.choice.chosen.runOnce ==> !HasRun(Current(k, s).status.conditions, e.choice.chosen.name)))
  {
    StepEffect(parse, k, s, e, s');
    ReconcileAddsRun(parse, k, s, e, s');
    if s'.log != s.log {
      DueIsNotSkipped(parse, e.cached, e.round.now, e.choice.chosen);
    }
  }

  lemma DueIsNotSkipped(parse: Parser, o: CronHPA, now: Time, cron: Cron)
    requires Due(parse, o, now, cron)
    ensures !Skipped(o, cron)
  {}

  lemma FiringKeepsRunOnce(parse: Parser, k: Key, s: Sys, e: Event, s': Sys)
    requires Step(parse, k, s, e, s') && VersionsAreUnique(k, s) && e.Reconciled?
    requires LoggedNamesHaveRun(k, s) && RunOnceOnlyOnce(s.log)
    ensures LoggedNamesHaveRun(k, s') && RunOnceOnlyOnce(s'.log)
  {
    FiringEffect(parse, k, s, e, s');
  }

  /** One step of a run in which nobody else drops a success. */
  ghost predicate SafeStep(parse: Parser, k: Key, s: Sys, e: Event, s': Sys) {
    && VersionsAreUnique(k, s) && Step(parse, k, s, e, s')
    && (e.Outside? ==> RunsKept(Current(k, s), Current(k, s')))
  }

  lemma StepIsSafe(parse: Parser, k: Key, states: seq<Sys>, events: seq<Event>, i: nat)
    requires IsRun(parse, k, states, events) && i < |events| && SuccessesKept(k, states, events)
    ensures SafeStep(parse, k, states[i], events[i], states[i + 1])
  {
    RunVersions(parse, k, states, events, i);
    assert Step(parse, k, states[i], events[i], states[i + 1]);
  }

  lemma RunOnceStep(parse: Parser, k: Key, states: seq<Sys>, events: seq<Event>, i: nat)
    requires IsRun(parse, k, states, events) && i < |events| && SuccessesKept(k, states, events)
    requires LoggedNamesHaveRun(k, states[i]) && RunOnceOnlyOnce(states[i].log)
    ensures LoggedNamesHaveRun(k, states[i + 1]) && RunOnceOnlyOnce(states[i + 1].log)
  {
    StepIsSafe(parse, k, states, events, i);
    if events[i].Reconciled? { FiringKeepsRunOnce(parse, k, states[i], events[i], states[i + 1]); }
  }

  /** Run-once safety. In every run, with stale caches, failing and half-failing updates and
      any clock, no run-once cron is recorded as the chosen firing when its name has been
      recorded before; in particular, at most once. */
  lemma {:induction false} RunOnceSafety(parse: Parser, k: Key, states: seq<Sys>, events: seq<Event>, i: nat)
    requires IsRun(parse, k, states, events) && i < |states|
    requires SuccessesKept(k, states, events)
    ensures RunOnceOnlyOnce(states[i].log) && LoggedNamesHaveRun(k, states[i])
  {
    if i == 0 {
    } else {
      RunOnceSafety(parse, k, states, events, i - 1);
      RunOnceStep(parse, k, states, events, i - 1);
    }
  }

  // ---------- who skips a recorded run-once cron ----------

  /** The current object has run whatever any earlier version has. */
  ghost predicate CurrentKeepsRuns(k: Key, s: Sys) {
    Present(k, s) && forall o :: o in s.history ==> RunsKept(o, Current(k, s))
  }

  lemma RunsKeptStep(parse: Parser, k: Key, states: seq<Sys>, events: seq<Event>, i: nat)
    requires IsRun(parse, k, states, events) && i < |events| && SuccessesKept(k, states, events)
    requires CurrentKeepsRuns(k, states[i])
    ensures CurrentKeepsRuns(k, states[i + 1])
  {
    var s, e, s' := states[i], events[i], states[i + 1];
    StepIsSafe(parse, k, states, events, i);
    if e.Reconciled? { ReconcileAddsRun(parse, k, s, e, s'); }
    forall o | o in s'.history ensures RunsKept(o, Current(k, s')) {
      assert o == Current(k, s') || RunsKept(o, Current(k, s));
    }
  }

  lemma {:induction false} RunsAreKept(parse: Parser, k: Key, states: seq<Sys>, events: seq<Event>, i: nat)
    requires IsRun(parse, k, states, events) && i < |states| && SuccessesKept(k, states, events)
    ensures CurrentKeepsRuns(k, states[i])
  {
    if i == 0 {
    } else {
      RunsAreKept(parse, k, states, events, i - 1);
      RunsKeptStep(parse, k, states, events, i - 1);
    }
  }

  /** The firing was planned from an earlier version than the current one. */
  ghost predicate FiredFromPast(k: Key, s: Sys, f: Firing) {
    Present(k, s) && f.before in s.history && f.before.version < Current(k, s).version
  }

  /** What versions know of a firing: those after the one it was planned from have its name
      run, and, for a run-once cron, no others do. */
  ghost predicate Remembered(history: set<CronHPA>, f: Firing) {
    forall o :: o in history ==>
                  && (o.version > f.before.version ==> HasRun(o.status.conditions, f.Chosen().name))
                  && (o.version <= f.before.version && f.Chosen().runOnce ==>
                        !HasRun(o.status.conditions, f.Chosen().name))
  }

  lemma RememberedOn(k: Key, s: Sys, f: Firing, now: CronHPA)
    requires VersionsAreUnique(k, s) && FiredFromPast(k, s, f) && Remembered(s.history, f)
    requires RunsKept(Current(k, s), now) && now.version >= Current(k, s).version
    ensures Remembered(s.history + {now}, f)
  {}

  lemma FreshFiringRemembered(parse: Parser, k: Key, s: Sys, e: Event, s': Sys, f: Firing)
    requires Step(parse, k, s, e, s') && VersionsAreUnique(k, s) && e.Reconciled?
    requires CurrentKeepsRuns(k, s) && s'.log == s.log + [f]
    ensures FiredFromPast(k, s', f) && Remembered(s'.history, f)
  {
    FiringEffect(parse, k, s, e, s');
    assert f == s'.log[|s.log|] == Firing(Current(k, s), e.round, e.choice, s.world, s'.world);
    forall o | o in s.history ensures RunsKept(o, Current(k, s)) {}
  }

  /** Every firing in the log is remembered by the history. */
  ghost predicate AllRemembered(k: Key, s: Sys) {
    forall a :: 0 <= a < |s.log| ==> FiredFromPast(k, s, s.log[a]) && Remembered(s.history, s.log[a])
  }

  lemma RememberedStep(parse: Parser, k: Key, states: seq<Sys>, events: seq<Event>, i: nat)
    requires IsRun(parse, k, states, events) && i < |events| && SuccessesKept(k, states, events)
    requires AllRemembered(k, states[i])
    ensures AllRemembered(k, states[i + 1])
  {
    var s, e, s' := states[i], events[i], states[i + 1];
    StepIsSafe(parse, k, states, events, i);
    if e.Reconciled? { FiringEffect(parse, k, s, e, s'); }
    forall a | 0 <= a < |s'.log| ensures FiredFromPast(k, s', s'.log[a]) && Remembered(s'.history, s'.log[a]) {
      if a < |s.log| {
        assert FiredFromPast(k, s, s.log[a]) && s'.log[a] == s.log[a];
        RememberedOn(k, s, s.log[a], Current(k, s'));
      } else {
        RunsAreKept(parse, k, states, events, i);
        FreshFiringRemembered(parse, k, s, e, s', s'.log[a]);
      }
    }
  }

  lemma {:induction false} FiringsRemembered(parse: Parser, k: Key, states: seq<Sys>, events: seq<Event>, i: nat)
    requires IsRun(parse, k, states, events) && i < |states| && SuccessesKept(k, states, events)
    ensures AllRemembered(k, states[i])
  {
    if i == 0 {
    } else {
      FiringsRemembered(parse, k, states, events, i - 1);
      RememberedStep(parse, k, states, events, i - 1);
    }
  }

  /** The cron is run-once under the name of the recorded firing, itself of a run-once cron; its
      schedule and size may have been edited since. */
  predicate SameRunOnce(f: Firing, cron: Cron) {
    f.Chosen().runOnce && cron.runOnce && cron.name == f.Chosen().name
  }

  /** Exactly which cached copies skip a run-once cron that has been recorded: those of a
      version newer than the one the firing was planned from. A reconcile of any other copy may
      choose and apply it again. */
  lemma SkippedIffNewer(parse: Parser, k: Key, states: seq<Sys>, events: seq<Event>, i: nat, a: nat, o: CronHPA,
                        cron: Cron)
    requires IsRun(parse, k, states, events) && i < |states| && SuccessesKept(k, states, events)
    requires a < |states[i].log| && SameRunOnce(states[i].log[a], cron) && o in states[i].history
    ensures Skipped(o, cron) <==> o.version > states[i].log[a].before.version
  {
    FiringsRemembered(parse, k, states, events, i);
  }

  /** So a run-once cron whose name has been recorded, by whichever cron, is chosen again only by
      reconciles of copies no newer than the one the recorded firing was planned from. */
  lemma ChosenAgainOnlyFromStale(parse: Parser, k: Key, states: seq<Sys>, events: seq<Event>, i: nat, a: nat)
    requires IsRun(parse, k, states, events) && i < |events| && SuccessesKept(k, states, events)
    requires a < |states[i].log| && events[i].Reconciled?
    requires events[i].choice.chosen.runOnce && events[i].choice.chosen.name == states[i].log[a].Chosen().name
    requires var plan := Plan(parse, events[i].cached, events[i].round.now); plan.Ok? && plan.value != []
    ensures events[i].cached.version <= states[i].log[a].before.version
  {
    var e := events[i];
    assert Step(parse, k, states[i], e, states[i + 1]);
    PlanIsLargestDue(parse, e.cached, e.round.now, e.choice);
    assert !Skipped(e.cached, e.choice.chosen);
    FiringsRemembered(parse, k, states, events, i);
  }

  // ---------- what gets recorded ----------

  /** The reconcile gets as far as storing its firing: something is due, scaling succeeds, the
      copy is current and the update is stored. */
  ghost predicate GetsStored(parse: Parser, o: CronHPA, round: Round, choice: Choice, w: World) {
    var plan := Plan(parse, o, round.now);
    && plan.Ok? && plan.value != []
    && UpdateScaleTargetRef(w, o.key.namespace, o.spec.scaleTargetRef, choice.chosen.targetSize, round.api).1.Ok?
    && o.key in w.objects && w.objects[o.key].version == o.version
    && !round.api.statusUpdate.Rejected?
  }

  lemma StoredOrKept(parse: Parser, o: CronHPA, round: Round, choice: Choice, w: World)
    ensures var w' := Reconcile(parse, o, round, choice, w).0;
            w'.objects == if GetsStored(parse, o, round, choice, w)
                          then w.objects[o.key := Stored(o, round.stamped, choice)] else w.objects
  {
    SuccessMeansApplied(w, o.key.namespace, o.spec.scaleTargetRef, choice.chosen.targetSize, round.api);
  }

  /** A reconcile is recorded exactly when something is due, scaling succeeds, the copy is
      current and the status update is stored, acknowledged or not. */
  lemma RecordedIff(parse: Parser, k: Key, s: Sys, e: Event, s': Sys)
    requires Step(parse, k, s, e, s') && VersionsAreUnique(k, s) && e.Reconciled?
    ensures s'.log != s.log <==> GetsStored(parse, e.cached, e.round, e.choice, s.world)
  {
    StoredOrKept(parse, e.cached, e.round, e.choice, s.world);
    if GetsStored(parse, e.cached, e.round, e.choice, s.world) {
      assert s'.world.objects[k].version != s.world.objects[k].version;
    }
  }

  /** Recording is what run-once rests on: after a reconcile that chose a run-once cron not yet
      run, the stored object skips it exactly when that reconcile got its firing stored. */
  lemma SkippedIffRecorded(parse: Parser, k: Key, s: Sys, e: Event, s': Sys)
    requires Step(parse, k, s, e, s') && VersionsAreUnique(k, s) && e.Reconciled?
    requires e.choice.chosen.runOnce && !Skipped(Current(k, s), e.choice.chosen)
    ensures Skipped(Current(k, s'), e.choice.chosen) <==> GetsStored(parse, e.cached, e.round, e.choice, s.world)
  {
    RecordedIff(parse, k, s, e, s');
    StepEffect(parse, k, s, e, s');
    ReconcileAddsRun(parse, k, s, e, s');
  }

  /** A firing that was not recorded is not lost: without a deadline and without exclude
      dates, a due cron stays due at every later time the plan succeeds. No law is needed. */
  lemma UnrecordedStaysDue(parse: Parser, o: CronHPA, now: Time, later: Time, cron: Cron)
    requires now <= later
    requires o.spec.startingDeadlineSeconds == 0 && o.spec.excludeDates == []
    requires cron in o.spec.crons && Due(parse, o, now, cron) && CanPlan(parse, o, later)
    ensures Due(parse, o, later, cron)
  {
    PrefixMonotone(parse, LatestScheduledTime(o), now, later, cron.schedule);
    var times := Unmet(parse, o, later, cron.schedule).value;
    assert EndsWith(Unmet(parse, o, later, cron.schedule), times[|times| - 1]);
  }

  /** With exclude dates, it stays due at those later times, and no others, at which no exclude
      schedule ticks at its latest tick for the last time. */
  lemma UnrecordedDueUnlessExcluded(parse: Parser, o: CronHPA, now: Time, later: Time, cron: Cron)
    requires now <= later && o.spec.startingDeadlineSeconds == 0
    requires cron in o.spec.crons && Due(parse, o, now, cron) && CanPlan(parse, o, later)
    requires BehavedFor(parse, o, later, cron)
    ensures exists t :: LatestFor(parse, o, later, cron.schedule, t)
                        && (Due(parse, o, later, cron) <==> !ExcludedLastAt(parse, o, later, t))
  {
    PrefixMonotone(parse, LatestScheduledTime(o), now, later, cron.schedule);
    var times := Unmet(parse, o, later, cron.schedule).value;
    var t := times[|times| - 1];
    LatestIsEnd(parse, o, later, cron.schedule);
    assert EndsWith(Unmet(parse, o, later, cron.schedule), t);
    DueUnlessExcludedLast(parse, o, later, cron, t);
  }

  // ---------- every recorded firing ----------

  /** The firing was planned without error, chose a largest due cron, scaled with success, and
      left its size applied. */
  ghost predicate GoodFiring(parse: Parser, f: Firing) {
    var o, round, cron := f.before, f.round, f.choice.chosen;
    && round.now <= round.stamped
    && CanPlan(parse, o, round.now) && LargestDue(parse, o, round.now, cron)
    && var (scaled, result) :=
         UpdateScaleTargetRef(f.start, o.key.namespace, o.spec.scaleTargetRef, cron.targetSize, round.api);
    && result.Ok? && f.after.hpas == scaled.hpas && f.after.scales == scaled.scales
    && Applied(f.after, o.key.namespace, o.spec.scaleTargetRef, cron.targetSize, round.api)
  }

  ghost predicate AllGood(parse: Parser, s: Sys) {
    forall a :: 0 <= a < |s.log| ==> GoodFiring(parse, s.log[a])
  }

  lemma GoodStep(parse: Parser, k: Key, states: seq<Sys>, events: seq<Event>, i: nat)
    requires IsRun(parse, k, states, events) && i < |events| && AllGood(parse, states[i])
    ensures AllGood(parse, states[i + 1])
  {
    RunVersions(parse, k, states, events, i);
    StepEffect(parse, k, states[i], events[i], states[i + 1]);
  }

  /** Every recorded firing of every run is good. */
  lemma {:induction false} EveryFiringIsGood(parse: Parser, k: Key, states: seq<Sys>, events: seq<Event>, i: nat)
    requires IsRun(parse, k, states, events) && i < |states|
    ensures AllGood(parse, states[i])
  {
    if i == 0 {
    } else {
      EveryFiringIsGood(parse, k, states, events, i - 1);
      GoodStep(parse, k, states, events, i - 1);
    }
  }

  /** The autoscaler and the workload, at the resolved scale, as a state of `Autoscaler`. */
  function AutoOf(w: World, key: Key, scale: ScaleKey): Autoscaler.Auto
    requires key in w.hpas && scale in w.scales
  {
    Autoscaler.Auto(w.hpas[key], w.scales[scale])
  }

  /** A recorded firing on an autoscaler whose workload is found is one completed application of
      the state machine: it is honoured exactly when it was honourable, so in particular when
      the status agreed with a workload within the range. */
  lemma RecordedFiringHonoured(parse: Parser, k: Key, states: seq<Sys>, events: seq<Event>, i: nat, a: nat,
                               scale: ScaleKey)
    requires IsRun(parse, k, states, events) && i < |states| && a < |states[i].log|
    requires var f := states[i].log[a];
             var key := Key(f.before.key.namespace, f.before.spec.scaleTargetRef.name);
             && f.before.spec.scaleTargetRef.kind == HPA_KIND && key in f.start.hpas
             && 0 <= f.start.hpas[key].currentReplicas
             && Resolve(f.start, f.before.key.namespace, f.start.hpas[key].target, f.round.api) == Ok(scale)
    ensures var f := states[i].log[a];
            var key := Key(f.before.key.namespace, f.before.spec.scaleTargetRef.name);
            && scale in f.start.scales && key in f.after.hpas && scale in f.after.scales
            && var before, after := AutoOf(f.start, key, scale), AutoOf(f.after, key, scale);
            && (Autoscaler.Honoured(before, f.Chosen().targetSize, after)
                <==> Autoscaler.Honourable(before, f.Chosen().targetSize))
            && (before.InSync() && Autoscaler.Inv(before) ==> Autoscaler.Honoured(before, f.Chosen().targetSize, after))
  {
    EveryFiringIsGood(parse, k, states, events, i);
    var f := states[i].log[a];
    assert GoodFiring(parse, f);
    var namespace, ref, size := f.before.key.namespace, f.before.spec.scaleTargetRef, f.Chosen().targetSize;
    var key := Key(namespace, ref.name);
    ResolvedIsStored(f.start, namespace, f.start.hpas[key].target, f.round.api);
    var before := AutoOf(f.start, key, scale);
    var faults := Autoscaler.FaultsOf(f.start, namespace, before, f.round.api);
    Autoscaler.AttemptIsUpdateHPAIfNeed(f.start, namespace, ref, size, f.round.api, scale, before);
    Autoscaler.HonouredExactly(before, size, faults);
  }

  /** A cron whose own schedule is listed in `excludeDates` is never the recorded firing. */
  lemma ListedScheduleNeverFires(parse: Parser, k: Key, states: seq<Sys>, events: seq<Event>, i: nat)
    requires IsRun(parse, k, states, events) && i < |states|
    ensures forall a :: 0 <= a < |states[i].log| ==>
                          var f := states[i].log[a]; f.choice.chosen.schedule !in f.before.spec.excludeDates
  {
    EveryFiringIsGood(parse, k, states, events, i);
    forall a | 0 <= a < |states[i].log|
      ensures var f := states[i].log[a]; f.choice.chosen.schedule !in f.before.spec.excludeDates
    {
      var f := states[i].log[a];
      assert GoodFiring(parse, f);
      if f.choice.chosen.schedule in f.before.spec.excludeDates {
        ListedScheduleNeverDue(parse, f.before, f.round.now, f.choice.chosen);
      }
    }
  }

  // ---------- what reconciles leave alone ----------

  /** No reconcile, recorded or not, changes the object's spec or creation time. */
  lemma ReconcileKeepsSpec(parse: Parser, k: Key, s: Sys, e: Event, s': Sys)
    requires Step(parse, k, s, e, s') && VersionsAreUnique(k, s) && e.Reconciled?
    ensures Current(k, s').spec == Current(k, s).spec && Current(k, s').creation == Current(k, s).creation
  {
    StepEffect(parse, k, s, e, s');
  }

  /** Nobody else changes the object's spec or creation time. */
  ghost predicate SpecKept(k: Key, states: seq<Sys>, events: seq<Event>)
    requires |states| == |events| + 1 && AllPresent(k, states)
  {
    forall i {:trigger events[i]} :: 0 <= i < |events| && events[i].Outside? ==>
                  && Current(k, states[i + 1]).spec == Current(k, states[i]).spec
                  && Current(k, states[i + 1]).creation == Current(k, states[i]).creation
  }

  lemma SpecStep(parse: Parser, k: Key, states: seq<Sys>, events: seq<Event>, i: nat)
    requires IsRun(parse, k, states, events) && i < |events| && SpecKept(k, states, events)
    ensures Current(k, states[i + 1]).spec == Current(k, states[i]).spec
            && Current(k, states[i + 1]).creation == Current(k, states[i]).creation
  {
    RunVersions(parse, k, states, events, i);
    assert Step(parse, k, states[i], events[i], states[i + 1]);
    if events[i].Reconciled? { ReconcileKeepsSpec(parse, k, states[i], events[i], states[i + 1]); }
  }

  /** So in a run in which nobody else edits it, however many firings are recorded, the object asks
      for what it asked for at the start. */
  lemma {:induction false} SpecIsUsers(parse: Parser, k: Key, states: seq<Sys>, events: seq<Event>, i: nat)
    requires IsRun(parse, k, states, events) && i < |states| && SpecKept(k, states, events)
    ensures Current(k, states[i]).spec == Current(k, states[0]).spec
            && Current(k, states[i]).creation == Current(k, states[0]).creation
  {
    if i == 0 {
    } else {
      SpecIsUsers(parse, k, states, events, i - 1);
      SpecStep(parse, k, states, events, i - 1);
    }
  }

  // ---------- progress and tiling ----------

  /** Nobody else moves the time of the last firing. */
  ghost predicate LastFiringKept(k: Key, states: seq<Sys>, events: seq<Event>)
    requires |states| == |events| + 1 && AllPresent(k, states)
  {
    forall i {:trigger events[i]} :: 0 <= i < |events| && events[i].Outside? ==>
                  LatestScheduledTime(Current(k, states[i + 1])) == LatestScheduledTime(Current(k, states[i]))
  }

  function Opens(f: Firing): Time { LatestScheduledTime(f.before) }

  /** Each firing opens where the one before it was stamped, the first one at `start`, and is
      stamped strictly later; the last stamp is `end`. */
  ghost predicate Chained(start: Time, log: seq<Firing>, end: Time) {
    if log == [] then end == start
    else
      var n := |log| - 1;
      && Chained(start, log[..n], Opens(log[n]))
      && Opens(log[n]) < log[n].round.now <= log[n].round.stamped == end
  }

  /** The schedules of the crons recorded as fired are moving over the window of that firing. */
  ghost predicate MovingRun(parse: Parser, states: seq<Sys>) {
    forall i, a :: 0 <= i < |states| && 0 <= a < |states[i].log| ==>
                     MovesAt(parse, states[i].log[a], states[i].log[a].Chosen().schedule)
  }

  /** The schedule is moving over the window of the firing. */
  ghost predicate MovesAt(parse: Parser, f: Firing, schedule: string) {
    Moving(parse, schedule, WindowOf(f.before, f.round.now), f.round.now)
  }

  /** Nothing is due before the clock has passed the last firing. */
  lemma DueNeedsProgress(parse: Parser, o: CronHPA, now: Time, cron: Cron)
    requires Moving(parse, cron.schedule, WindowOf(o, now), now) && Due(parse, o, now, cron)
    ensures LatestScheduledTime(o) < now
  {
    var t :| EndsWith(Unmet(parse, o, now, cron.schedule), t)
             && !LastOfSome(parse, o, now, o.spec.excludeDates, t);
    UnmetInWindow(parse, LatestScheduledTime(o), now, cron.schedule, o.spec.startingDeadlineSeconds);
    assert t in Unmet(parse, o, now, cron.schedule).value;
  }

  lemma ProgressStep(parse: Parser, k: Key, states: seq<Sys>, events: seq<Event>, i: nat, start: Time)
    requires IsRun(parse, k, states, events) && i < |events| && MovingRun(parse, states)
    requires LastFiringKept(k, states, events)
    requires Chained(start, states[i].log, LatestScheduledTime(Current(k, states[i])))
    ensures Chained(start, states[i + 1].log, LatestScheduledTime(Current(k, states[i + 1])))
  {
    RunVersions(parse, k, states, events, i);
    var s, e, s' := states[i], events[i], states[i + 1];
    StepEffect(parse, k, s, e, s');
    if s'.log != s.log {
      assert s'.log[..|s.log|] == s.log;
      assert MovesAt(parse, states[i + 1].log[|s.log|], e.choice.chosen.schedule);
      DueNeedsProgress(parse, e.cached, e.round.now, e.choice.chosen);
    }
  }

  /** Progress is strict even when the clock jumps backwards between reconciles: each recorded
      firing opens where the last one was stamped and is stamped strictly later. */
  lemma {:induction false} ProgressIsStrict(parse: Parser, k: Key, states: seq<Sys>, events: seq<Event>, i: nat)
    requires IsRun(parse, k, states, events) && i < |states| && MovingRun(parse, states)
    requires LastFiringKept(k, states, events)
    ensures Chained(LatestScheduledTime(Current(k, states[0])), states[i].log,
                    LatestScheduledTime(Current(k, states[i])))
  {
    if i == 0 {
    } else {
      ProgressIsStrict(parse, k, states, events, i - 1);
      ProgressStep(parse, k, states, events, i - 1, LatestScheduledTime(Current(k, states[0])));
    }
  }

  /** The chain, spelled out: it begins at `start` and ends at `end`, each firing opens where the one
      before it was stamped, and stamps strictly increase. */
  lemma {:induction false} StampsIncrease(start: Time, log: seq<Firing>, end: Time)
    requires Chained(start, log, end)
    ensures log == [] ==> end == start
    ensures log != [] ==> LatestScheduledTime(log[0].before) == start && log[|log| - 1].round.stamped == end
    ensures forall a :: 0 <= a < |log| ==>
                          LatestScheduledTime(log[a].before) < log[a].round.now <= log[a].round.stamped
    ensures forall a, b :: 0 <= a && b == a + 1 < |log| ==>
                             LatestScheduledTime(log[b].before) == log[a].round.stamped
    ensures forall a, b :: 0 <= a < b < |log| ==> log[a].round.stamped < log[b].round.stamped
    decreases |log|
  {
    if log == [] {
    } else {
      var n := |log| - 1;
      var front := log[..n];
      StampsIncrease(start, front, Opens(log[n]));
      assert forall a :: 0 <= a < n ==> log[a] == front[a];
      if n > 0 { assert log[n - 1] == front[n - 1]; }
    }
  }

  /** The firing is responsible for `t`: it lies after the previous firing's stamp and not
      after its own. */
  ghost predicate Covers(f: Firing, t: Time) {
    Opens(f) < t <= f.round.stamped
  }

  ghost predicate Covered(log: seq<Firing>, t: Time) {
    exists a :: 0 <= a < |log| && Covers(log[a], t)
  }

  lemma CoveredSnoc(log: seq<Firing>, t: Time)
    requires log != []
    ensures Covered(log, t) <==> Covered(log[..|log| - 1], t) || Covers(log[|log| - 1], t)
  {
    var n := |log| - 1;
    if a :| 0 <= a < n && Covers(log[..n][a], t) {
      assert Covers(log[a], t);
    }
    if a :| 0 <= a < n && Covers(log[a], t) {
      assert Covers(log[..n][a], t);
    }
  }

  /** The firings of a chain tile its extent: one is responsible for every time in it, for no
      time outside it, and never two for the same time. */
  lemma {:induction false} ChainCovers(start: Time, log: seq<Firing>, end: Time, t: Time)
    requires Chained(start, log, end)
    ensures start <= end
    ensures start < t <= end <==> Covered(log, t)
    ensures forall a, b :: 0 <= a < b < |log| ==> !(Covers(log[a], t) && Covers(log[b], t))
    decreases |log|
  {
    if log == [] {
    } else {
      var n := |log| - 1;
      ChainCovers(start, log[..n], Opens(log[n]), t);
      CoveredSnoc(log, t);
      forall a, b | 0 <= a < b < |log| ensures !(Covers(log[a], t) && Covers(log[b], t)) {
        assert log[..n][a] == log[a];
        if b < n {
          assert log[..n][b] == log[b];
        } else if Covers(log[a], t) {
          assert Covered(log[..n], t);
        }
      }
    }
  }

  /** The exclusion test looks only at latest ticks, and it hit this cron's. */
  ghost predicate LatestExcluded(parse: Parser, o: CronHPA, now: Time, cron: Cron) {
    exists t, d :: d in o.spec.excludeDates
                   && LatestFor(parse, o, now, cron.schedule, t) && LatestFor(parse, o, now, d, t)
  }

  /** The firing gave the cron at least its size. */
  ghost predicate Provides(f: Firing, cron: Cron) {
    && cron.targetSize <= f.Chosen().targetSize
    && Applied(f.after, f.before.key.namespace, f.before.spec.scaleTargetRef, f.Chosen().targetSize, f.round.api)
  }

  /** The cron got at least its size, unless it had used up its only run or was excluded. */
  ghost predicate Served(parse: Parser, f: Firing, cron: Cron) {
    || (cron.runOnce && LastSucceeded(f.before.status.conditions, cron.name))
    || LatestExcluded(parse, f.before, f.round.now, cron)
    || Provides(f, cron)
  }

  /** Inside the window the firing enumerated. */
  ghost predicate InWindow(f: Firing, t: Time) {
    && Opens(f) < t <= f.round.now
    && (f.before.spec.startingDeadlineSeconds == 0 || f.round.now - t < f.before.spec.startingDeadlineSeconds)
  }

  /** Between the firing's two clock readings. */
  ghost predicate InGap(f: Firing, t: Time) {
    f.round.now < t <= f.round.stamped
  }

  /** What became of time `t` at the firing responsible for it: too old for the deadline, in
      the gap between the two clock readings, or in the window, where every cron that ticks at
      `t` is served. */
  ghost predicate Accounts(parse: Parser, f: Firing, t: Time) {
    var deadline := f.before.spec.startingDeadlineSeconds;
    if t > f.round.now then InGap(f, t)
    else if deadline != 0 && f.round.now - t >= deadline then Opens(f) < t
    else
      && InWindow(f, t)
      && forall cron | cron in f.before.spec.crons && BehavedFor(parse, f.before, f.round.now, cron) ::
           TicksAt(parse, cron.schedule, t) ==> Served(parse, f, cron)
  }

  /** A cron ticking in the window of a reconcile that can plan is due, unless it has used up
      its only run or is excluded. */
  lemma WindowTickIsDue(parse: Parser, o: CronHPA, now: Time, cron: Cron, t: Time)
    requires BehavedFor(parse, o, now, cron) && CanPlan(parse, o, now)
    requires cron in o.spec.crons && TicksAt(parse, cron.schedule, t)
    requires LatestScheduledTime(o) < t <= now
    requires o.spec.startingDeadlineSeconds == 0 || now - t < o.spec.startingDeadlineSeconds
    ensures || (cron.runOnce && LastSucceeded(o.status.conditions, cron.name))
            || LatestExcluded(parse, o, now, cron)
            || Due(parse, o, now, cron)
  {
    HasRunExactly(o.status.conditions, cron.name);
    if !Skipped(o, cron) {
      LastUnmetIsLatest(parse, LatestScheduledTime(o), now, cron.schedule, o.spec.startingDeadlineSeconds);
      var times := Unmet(parse, o, now, cron.schedule).value;
      assert times != [];
      var last := times[|times| - 1];
      assert EndsWith(Unmet(parse, o, now, cron.schedule), last);
      if LastOfSome(parse, o, now, o.spec.excludeDates, last) {
        var d :| d in o.spec.excludeDates && EndsWith(Unmet(parse, o, now, d), last);
        LatestIsEnd(parse, o, now, d);
        assert LatestFor(parse, o, now, cron.schedule, last) && LatestFor(parse, o, now, d, last);
      }
    }
  }

  lemma GoodFiringAccounts(parse: Parser, f: Firing, t: Time)
    requires GoodFiring(parse, f) && Covers(f, t)
    ensures Accounts(parse, f, t)
  {
    if InWindow(f, t) {
      forall cron | && cron in f.before.spec.crons && BehavedFor(parse, f.before, f.round.now, cron)
                    && TicksAt(parse, cron.schedule, t)
        ensures Served(parse, f, cron)
      {
        WindowTickIsDue(parse, f.before, f.round.now, cron, t);
      }
    }
  }

  /** Tiling and service. In every run, whatever the deadlines and however the spec changes,
      each time from the start to the last recorded firing has exactly one firing responsible
      for it, and that firing accounts for it. */
  lemma EveryTickAccountedFor(parse: Parser, k: Key, states: seq<Sys>, events: seq<Event>, i: nat, t: Time)
    requires IsRun(parse, k, states, events) && i < |states| && MovingRun(parse, states)
    requires LastFiringKept(k, states, events)
    requires LatestScheduledTime(Current(k, states[0])) < t <= LatestScheduledTime(Current(k, states[i]))
    ensures var log := states[i].log;
            exists a :: && 0 <= a < |log| && Covers(log[a], t) && Accounts(parse, log[a], t)
                        && forall b :: 0 <= b < |log| && Covers(log[b], t) ==> b == a
  {
    var log := states[i].log;
    ProgressIsStrict(parse, k, states, events, i);
    ChainCovers(LatestScheduledTime(Current(k, states[0])), log, LatestScheduledTime(Current(k, states[i])), t);
    EveryFiringIsGood(parse, k, states, events, i);
    var a :| 0 <= a < |log| && Covers(log[a], t);
    GoodFiringAccounts(parse, log[a], t);
  }

  /** Service, spelled out. A tick that a recorded firing found after the last firing and within the
      deadline was served, if its cron had a run left and its last missed tick was no exclude
      schedule's last missed tick: the size applied was at least the cron's, and the workload had
      it, or the autoscaler's range held it and that many replicas were reported or given. */
  lemma TickServedInFull(parse: Parser, k: Key, states: seq<Sys>, events: seq<Event>, i: nat, a: nat, cron: Cron,
                         t: Time)
    requires IsRun(parse, k, states, events) && i < |states| && a < |states[i].log|
    requires var f := states[i].log[a];
             var o, now, deadline := f.before, f.round.now, f.before.spec.startingDeadlineSeconds;
             && cron in o.spec.crons && BehavedFor(parse, o, now, cron) && TicksAt(parse, cron.schedule, t)
             && LatestScheduledTime(o) < t <= now && (deadline == 0 || now - t < deadline)
             && (cron.runOnce ==> !LastSucceeded(o.status.conditions, cron.name))
             && forall u, d :: d in o.spec.excludeDates && LastMissed(parse, o, now, d, u) ==>
                                 !LastMissed(parse, o, now, cron.schedule, u)
    ensures var f := states[i].log[a];
            var w, namespace, ref, size := f.after, f.before.key.namespace, f.before.spec.scaleTargetRef,
                                           f.Chosen().targetSize;
            && cron.targetSize <= size
            && if ref.kind != "HorizontalPodAutoscaler" then
                 var scale := Resolve(w, namespace, ref, f.round.api);
                 scale.Ok? && scale.value in w.scales && w.scales[scale.value] == size
               else
                 && Key(namespace, ref.name) in w.hpas
                 && var h := w.hpas[Key(namespace, ref.name)];
                 var scale := Resolve(w, namespace, h.target, f.round.api);
                 && h.minReplicas <= size <= h.maxReplicas
                 && (size <= h.currentReplicas
                     || (scale.Ok? && scale.value in w.scales && w.scales[scale.value] == size))
  {
    EveryFiringIsGood(parse, k, states, events, i);
    var f := states[i].log[a];
    assert GoodFiring(parse, f);
    GoodFiringAccounts(parse, f, t);
    assert !LatestExcluded(parse, f.before, f.round.now, cron) by {
      forall s, u ensures LatestFor(parse, f.before, f.round.now, s, u) <==>
                          LastMissed(parse, f.before, f.round.now, s, u)
      {
        LatestIsLastMissed(parse, f.before, f.round.now, s, u);
      }
    }
  }

  // ---------- which ticks are seen at all ----------

  /** A reconcile of the object that can plan enumerates the schedule: an exclude schedule, or one
      of a cron that has not used up its only run. */
  ghost predicate MustEnumerate(o: CronHPA, schedule: string) {
    || schedule in o.spec.excludeDates
    || exists cron :: && cron in o.spec.crons && cron.schedule == schedule
                      && !(cron.runOnce && HasRun(o.status.conditions, cron.name))
  }

  /** Those are the schedules a plan depends on: apart from repeated names, it succeeds exactly when
      every one of them can be enumerated. */
  lemma PlansIffEnumerable(parse: Parser, o: CronHPA, now: Time)
    ensures Plan(parse, o, now).Ok? <==>
            && (forall i, j :: 0 <= i < j < |o.spec.crons| ==> o.spec.crons[i].name != o.spec.crons[j].name)
            && (forall schedule :: MustEnumerate(o, schedule) ==> Unmet(parse, o, now, schedule).Ok?)
  {
    PlanExact(parse, o, now);
    forall d | d in o.spec.excludeDates ensures MustEnumerate(o, d) {}
    forall c | c in o.spec.crons && !(c.runOnce && HasRun(o.status.conditions, c.name))
      ensures MustEnumerate(o, c.schedule) {}
  }

  /** The firing enumerated the schedule and found the tick. */
  ghost predicate Saw(parse: Parser, f: Firing, schedule: string, t: Time) {
    var u := Unmet(parse, f.before, f.round.now, schedule);
    MustEnumerate(f.before, schedule) && u.Ok? && t in u.value
  }

  lemma SeenIsCovered(parse: Parser, f: Firing, schedule: string, t: Time)
    requires MovesAt(parse, f, schedule) && Saw(parse, f, schedule, t) && f.round.now <= f.round.stamped
    ensures InWindow(f, t) && Covers(f, t)
  {
    UnmetInWindow(parse, Opens(f), f.round.now, schedule, f.before.spec.startingDeadlineSeconds);
  }

  lemma WindowTickIsSeen(parse: Parser, f: Firing, schedule: string, t: Time)
    requires Behaved(parse, schedule, WindowOf(f.before, f.round.now), f.round.now)
    requires TicksAt(parse, schedule, t) && InWindow(f, t)
    requires MustEnumerate(f.before, schedule) && CanPlan(parse, f.before, f.round.now)
    ensures Saw(parse, f, schedule, t)
  {
    UnmetIsScan(parse, Opens(f), f.round.now, schedule, f.before.spec.startingDeadlineSeconds);
    TickSeqIsExact(parse(schedule).value, WindowOf(f.before, f.round.now), f.round.now);
  }

  /** Exactly which ticks recorded firings look at. Of all the firings recorded in a run, some
      firing enumerates a tick if and only if the one responsible for its time enumerates the
      schedule and has the tick in its window; so a tick in that firing's gap, or too old for its
      deadline, is seen by none. */
  lemma SeenIffInWindow(parse: Parser, k: Key, states: seq<Sys>, events: seq<Event>, i: nat, a: nat,
                        schedule: string, t: Time)
    requires IsRun(parse, k, states, events) && i < |states| && MovingRun(parse, states)
    requires LastFiringKept(k, states, events) && a < |states[i].log|
    requires TicksAt(parse, schedule, t) && Covers(states[i].log[a], t)
    requires forall b :: 0 <= b < |states[i].log| ==> MovesAt(parse, states[i].log[b], schedule)
    requires var f := states[i].log[a]; Behaved(parse, schedule, WindowOf(f.before, f.round.now), f.round.now)
    ensures var log := states[i].log;
            (exists b :: 0 <= b < |log| && Saw(parse, log[b], schedule, t)) <==>
            MustEnumerate(log[a].before, schedule) && InWindow(log[a], t)
  {
    var log := states[i].log;
    ProgressIsStrict(parse, k, states, events, i);
    ChainCovers(LatestScheduledTime(Current(k, states[0])), log, LatestScheduledTime(Current(k, states[i])), t);
    EveryFiringIsGood(parse, k, states, events, i);
    if b :| 0 <= b < |log| && Saw(parse, log[b], schedule, t) {
      assert GoodFiring(parse, log[b]);
      SeenIsCovered(parse, log[b], schedule, t);
      assert a == b;
    }
    if MustEnumerate(log[a].before, schedule) && InWindow(log[a], t) {
      assert GoodFiring(parse, log[a]);
      WindowTickIsSeen(parse, log[a], schedule, t);
    }
  }

  // ---------- reconciling in time ----------

  lemma LogStep(parse: Parser, k: Key, states: seq<Sys>, events: seq<Event>, i: nat)
    requires IsRun(parse, k, states, events) && i < |events|
    ensures states[i].log <= states[i + 1].log
  {
    RunVersions(parse, k, states, events, i);
    StepEffect(parse, k, states[i], events[i], states[i + 1]);
  }

  /** The log only grows. */
  lemma {:induction false} LogGrows(parse: Parser, k: Key, states: seq<Sys>, events: seq<Event>, j: nat, i: nat)
    requires IsRun(parse, k, states, events) && j <= i < |states|
    ensures states[j].log <= states[i].log
    decreases i
  {
    if j == i {
    } else {
      LogGrows(parse, k, states, events, j, i - 1);
      LogStep(parse, k, states, events, i - 1);
    }
  }

  /** A reconcile of the current object in which no request fails and planning succeeds. */
  ghost predicate HealthyEvent(parse: Parser, k: Key, s: Sys, e: Event)
    requires Present(k, s)
  {
    && e.Reconciled? && e.cached == Current(k, s)
    && Healthy(s.world, k.namespace, e.cached.spec.scaleTargetRef, e.choice.chosen.targetSize, e.round.api)
    && !e.round.api.statusUpdate.Rejected?
    && CanPlan(parse, e.cached, e.round.now)
  }

  lemma HealthyEventFires(parse: Parser, k: Key, states: seq<Sys>, events: seq<Event>, j: nat, cron: Cron)
    requires IsRun(parse, k, states, events) && j < |events| && HealthyEvent(parse, k, states[j], events[j])
    requires cron in events[j].cached.spec.crons && Due(parse, events[j].cached, events[j].round.now, cron)
    ensures var s, e, s' := states[j], events[j], states[j + 1];
            var f := Firing(e.cached, e.round, e.choice, s.world, s'.world);
            s'.log == s.log + [f] && Provides(f, cron)
  {
    var s, e, s' := states[j], events[j], states[j + 1];
    RunVersions(parse, k, states, events, j);
    assert Step(parse, k, s, e, s');
    HealthyReconcileFires(parse, e.cached, e.round, e.choice, s.world);
    assert s'.world.objects[k].version != s.world.objects[k].version;
  }

  /** Reconciling in time is enough. When a healthy reconcile of the current object takes place
      no earlier than a tick and, if there is a deadline, less than the deadline after it, and
      no firing has been stamped at or after the tick, then for ever after some recorded firing
      has the tick in its window and gives the cron its size; unless at that reconcile the cron
      had used up its only run or was excluded. */
  lemma TimelyReconcileServes(parse: Parser, k: Key, states: seq<Sys>, events: seq<Event>, j: nat, i: nat, cron: Cron,
                              t: Time)
    requires IsRun(parse, k, states, events) && j < i < |states| && HealthyEvent(parse, k, states[j], events[j])
    requires var o, now := events[j].cached, events[j].round.now;
             && cron in o.spec.crons && BehavedFor(parse, o, now, cron) && TicksAt(parse, cron.schedule, t)
             && LatestScheduledTime(o) < t <= now
             && (o.spec.startingDeadlineSeconds == 0 || now < t + o.spec.startingDeadlineSeconds)
    ensures var o, now := events[j].cached, events[j].round.now;
            || (cron.runOnce && LastSucceeded(o.status.conditions, cron.name))
            || LatestExcluded(parse, o, now, cron)
            || exists b :: && 0 <= b < |states[i].log| && states[i].log[b].before == o
                           && InWindow(states[i].log[b], t) && Provides(states[i].log[b], cron)
  {
    var s, e, s' := states[j], events[j], states[j + 1];
    RunVersions(parse, k, states, events, j);
    assert Step(parse, k, s, e, s');
    WindowTickIsDue(parse, e.cached, e.round.now, cron, t);
    if Due(parse, e.cached, e.round.now, cron) {
      HealthyEventFires(parse, k, states, events, j, cron);
      LogGrows(parse, k, states, events, j + 1, i);
      var f := s'.log[|s.log|];
      assert states[i].log[|s.log|] == f && InWindow(f, t) && Provides(f, cron);
    }
  }

  // ---------- what falls into the gap ----------

  /** Versions after the firing's own start looking where it was stamped, or later. */
  ghost predicate LeftBehind(history: set<CronHPA>, f: Firing) {
    forall o :: o in history && o.version > f.before.version ==> LatestScheduledTime(o) >= f.round.stamped
  }

  lemma StepMovesForward(parse: Parser, k: Key, s: Sys, e: Event, s': Sys)
    requires Step(parse, k, s, e, s') && VersionsAreUnique(k, s) && e.Reconciled?
    requires s'.log != s.log ==>
               Moving(parse, e.choice.chosen.schedule, WindowOf(e.cached, e.round.now), e.round.now)
    ensures LatestScheduledTime(Current(k, s)) <= LatestScheduledTime(Current(k, s'))
  {
    StepEffect(parse, k, s, e, s');
    if s'.log != s.log {
      DueNeedsProgress(parse, e.cached, e.round.now, e.choice.chosen);
    }
  }

  lemma FreshFiringLeavesBehind(parse: Parser, k: Key, s: Sys, e: Event, s': Sys, f: Firing)
    requires Step(parse, k, s, e, s') && VersionsAreUnique(k, s) && e.Reconciled? && s'.log == s.log + [f]
    ensures FiredFromPast(k, s', f) && LeftBehind(s'.history, f)
  {
    StepEffect(parse, k, s, e, s');
    assert f == s'.log[|s.log|] == Firing(e.cached, e.round, e.choice, s.world, s'.world);
  }

  ghost predicate AllLeftBehind(k: Key, s: Sys) {
    forall a :: 0 <= a < |s.log| ==> FiredFromPast(k, s, s.log[a]) && LeftBehind(s.history, s.log[a])
  }

  lemma LeaveBehindStep(parse: Parser, k: Key, states: seq<Sys>, events: seq<Event>, i: nat)
    requires IsRun(parse, k, states, events) && i < |events| && MovingRun(parse, states)
    requires LastFiringKept(k, states, events) && AllLeftBehind(k, states[i])
    ensures AllLeftBehind(k, states[i + 1])
  {
    var s, e, s' := states[i], events[i], states[i + 1];
    RunVersions(parse, k, states, events, i);
    StepEffect(parse, k, s, e, s');
    forall a | 0 <= a < |s'.log| ensures FiredFromPast(k, s', s'.log[a]) && LeftBehind(s'.history, s'.log[a]) {
      if a < |s.log| {
        assert FiredFromPast(k, s, s.log[a]) && s'.log[a] == s.log[a];
        assert s'.log != s.log ==> MovesAt(parse, states[i + 1].log[|s.log|], e.choice.chosen.schedule);
        if e.Reconciled? { StepMovesForward(parse, k, s, e, s'); }
      } else {
        FreshFiringLeavesBehind(parse, k, s, e, s', s'.log[a]);
      }
    }
  }

  lemma {:induction false} FiringsLeaveBehind(parse: Parser, k: Key, states: seq<Sys>, events: seq<Event>, i: nat)
    requires IsRun(parse, k, states, events) && i < |states| && MovingRun(parse, states)
    requires LastFiringKept(k, states, events)
    ensures AllLeftBehind(k, states[i])
  {
    if i == 0 {
    } else {
      FiringsLeaveBehind(parse, k, states, events, i - 1);
      LeaveBehindStep(parse, k, states, events, i - 1);
    }
  }

  /** A tick no later than a firing's stamp, one in the gap included, is missing from everything
      a version after that firing ever enumerates. Older copies may still see it, but nothing
      planned from them is recorded. */
  lemma StampedTicksAreGone(parse: Parser, k: Key, states: seq<Sys>, events: seq<Event>, i: nat, a: nat, o: CronHPA,
                            now: Time, schedule: string, t: Time)
    requires IsRun(parse, k, states, events) && i < |states| && MovingRun(parse, states)
    requires LastFiringKept(k, states, events) && a < |states[i].log|
    requires o in states[i].history && t <= states[i].log[a].round.stamped
    requires Moving(parse, schedule, WindowOf(o, now), now)
    ensures var u := Unmet(parse, o, now, schedule);
            o.version > states[i].log[a].before.version && u.Ok? ==> t !in u.value
    ensures i < |events| && events[i].Reconciled? && events[i].cached == o
            && o.version <= states[i].log[a].before.version
            ==> states[i + 1].log == states[i].log
  {
    FiringsLeaveBehind(parse, k, states, events, i);
    RunVersions(parse, k, states, events, i);
    if Unmet(parse, o, now, schedule).Ok? {
      UnmetInWindow(parse, LatestScheduledTime(o), now, schedule, o.spec.startingDeadlineSeconds);
    }
    if i < |events| {
      assert Step(parse, k, states[i], events[i], states[i + 1]);
      StepEffect(parse, k, states[i], events[i], states[i + 1]);
    }
  }

  // ---------- the cap is for ever ----------

  /** Without a deadline, a schedule the plan must enumerate has missed too many starts. */
  ghost predicate Capped(parse: Parser, o: CronHPA, now: Time, schedule: string) {
    && o.spec.startingDeadlineSeconds == 0
    && MustEnumerate(o, schedule)
    && Unmet(parse, o, now, schedule) == Err(TooManyMissed)
  }

  /** For a lawful schedule: when it has ticked more than a hundred times since the last firing, or
      since the creation when there was none. */
  lemma CappedExactly(parse: Parser, o: CronHPA, now: Time, schedule: string)
    requires parse(schedule).Some? && o.spec.startingDeadlineSeconds == 0
    requires var last := if o.status.lastScheduleTime.Some? then o.status.lastScheduleTime.value else o.creation;
             Lawful(parse(schedule).value, last, now)
    ensures var last := if o.status.lastScheduleTime.Some? then o.status.lastScheduleTime.value else o.creation;
            Capped(parse, o, now, schedule) <==>
            MustEnumerate(o, schedule) && |set t | last < t <= now && IsTick(parse(schedule).value, t)| > 100
  {
    var last := if o.status.lastScheduleTime.Some? then o.status.lastScheduleTime.value else o.creation;
    UnmetFailsExactly(parse, o, now, schedule, last);
    assert (set t | last < t <= now && (0 == 0 || now - t < 0) && IsTick(parse(schedule).value, t))
        == set t | last < t <= now && IsTick(parse(schedule).value, t);
  }

  lemma CappedStaysCapped(parse: Parser, o: CronHPA, now: Time, later: Time, schedule: string)
    requires Capped(parse, o, now, schedule) && now <= later
    ensures Capped(parse, o, later, schedule) && !CanPlan(parse, o, later)
  {
    PrefixMonotone(parse, LatestScheduledTime(o), now, later, schedule);
  }

  /** A reconcile of a capped object fails and touches nothing. */
  lemma CappedReconcileFails(parse: Parser, o: CronHPA, now: Time, schedule: string, round: Round, choice: Choice,
                             w: World)
    requires Capped(parse, o, now, schedule) && now <= round.now
    ensures var (w', r) := Reconcile(parse, o, round, choice, w); w' == w && r.Err?
  {
    CappedStaysCapped(parse, o, now, round.now, schedule);
    PlanExact(parse, o, round.now);
  }

  /** From the i-th to the j-th state the clock does not go back behind `now` and nobody else
      changes the object. */
  ghost predicate Undisturbed(k: Key, states: seq<Sys>, events: seq<Event>, i: nat, j: nat, now: Time)
    requires |states| == |events| + 1 && AllPresent(k, states) && i <= j < |states|
  {
    forall m {:trigger events[m]} :: i <= m < j ==>
                  match events[m]
                  case Reconciled(_, round, _) => round.now >= now
                  case Outside(_) => Current(k, states[m + 1]) == Current(k, states[m])
  }

  lemma CappedStep(parse: Parser, k: Key, states: seq<Sys>, events: seq<Event>, i: nat, j: nat, m: nat, now: Time,
                   o: CronHPA, schedule: string)
    requires IsRun(parse, k, states, events) && i <= m < j < |states|
    requires Undisturbed(k, states, events, i, j, now) && Capped(parse, o, now, schedule)
    requires Current(k, states[m]) == o
    ensures states[m + 1].log == states[m].log && Current(k, states[m + 1]) == o
  {
    var e := events[m];
    RunVersions(parse, k, states, events, m);
    StepEffect(parse, k, states[m], e, states[m + 1]);
    if e.Reconciled? {
      CappedStaysCapped(parse, o, now, e.round.now, schedule);
    }
  }

  /** Once the cap has struck the current object `o`, nothing is ever recorded again, whatever
      stale caches do, as long as the clock does not go back behind that point and nobody else
      changes the object; and so every reconcile of the current object fails. */
  lemma {:induction false} CapIsForever(parse: Parser, k: Key, states: seq<Sys>, events: seq<Event>, i: nat, j: nat,
                                        m: nat, now: Time, o: CronHPA, schedule: string)
    requires IsRun(parse, k, states, events) && i <= m <= j < |states|
    requires Undisturbed(k, states, events, i, j, now) && Capped(parse, o, now, schedule)
    requires Current(k, states[i]) == o
    ensures states[m].log == states[i].log && Current(k, states[m]) == o
    decreases m
  {
    if m <= i {
    } else {
      CapIsForever(parse, k, states, events, i, j, m - 1, now, o, schedule);
      CappedStep(parse, k, states, events, i, j, m - 1, now, o, schedule);
    }
  }
}
