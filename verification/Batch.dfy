/** Which crons of a CronHPA are due: exclusion (pkg/controller/util.go) and the batch loop of
    `reconcileCronHPA` (pkg/controller/cronhpa_controller.go). */
module Batch {
  import opened Types
  import opened Schedules
  import opened Conditions

  /** The last firing, or the creation when there was none. */
  function LatestScheduledTime(o: CronHPA): Time {
    match o.status.lastScheduleTime
    case Some(t) => t
    case None => o.creation
  }

  /** The enumerator with the arguments a reconcile of `o` at `now` gives it. */
  function Unmet(parse: Parser, o: CronHPA, now: Time, schedule: string): Result<seq<Time>> {
    UnmetTimes(parse, LatestScheduledTime(o), now, schedule, o.spec.startingDeadlineSeconds)
  }

  /** Where that enumeration starts looking. */
  function WindowOf(o: CronHPA, now: Time): Time {
    WindowStart(LatestScheduledTime(o), now, o.spec.startingDeadlineSeconds)
  }

  // ---------- the window ----------

  // The laws are asked from any time on that is not after the window's start: not after the last
  // firing, or the creation when there was none; or, if there is a deadline, no later than that
  // long before the clock.

  lemma BehavedFromEarlier(parse: Parser, o: CronHPA, now: Time, schedule: string, from: Time)
    requires || from <= (if o.status.lastScheduleTime.Some? then o.status.lastScheduleTime.value else o.creation)
             || (o.spec.startingDeadlineSeconds != 0 && from <= now - o.spec.startingDeadlineSeconds)
    requires Behaved(parse, schedule, from, now)
    ensures Behaved(parse, schedule, WindowOf(o, now), now)
  {
    assert from <= WindowOf(o, now);
  }

  /** Which times the enumeration of a behaved schedule returns when it succeeds: its ticks after
      the last firing, or after the creation when there was none, up to the clock, and less than
      the deadline ago if there is one; in order. */
  lemma UnmetExactly(parse: Parser, o: CronHPA, now: Time, schedule: string, from: Time)
    requires || from <= (if o.status.lastScheduleTime.Some? then o.status.lastScheduleTime.value else o.creation)
             || (o.spec.startingDeadlineSeconds != 0 && from <= now - o.spec.startingDeadlineSeconds)
    requires Behaved(parse, schedule, from, now)
    requires Unmet(parse, o, now, schedule).Ok?
    ensures parse(schedule).Some?
    ensures var times, last, deadline := Unmet(parse, o, now, schedule).value, o.status.lastScheduleTime,
                                         o.spec.startingDeadlineSeconds;
            && (forall t :: t in times <==>
                  && parse(schedule).value(t - 1) == t
                  && (if last.Some? then last.value < t else o.creation < t) && t <= now
                  && (deadline == 0 || now - t < deadline))
            && (forall i, j :: 0 <= i < j < |times| ==> times[i] < times[j])
  {
    BehavedFromEarlier(parse, o, now, schedule, from);
    UnmetIsScan(parse, LatestScheduledTime(o), now, schedule, o.spec.startingDeadlineSeconds);
    TickSeqIsExact(parse(schedule).value, WindowOf(o, now), now);
  }

  /** When it fails: for an unparseable schedule, or, when the schedule is lawful, for more than a
      hundred such ticks. */
  lemma UnmetFailsExactly(parse: Parser, o: CronHPA, now: Time, schedule: string, from: Time)
    requires || from <= (if o.status.lastScheduleTime.Some? then o.status.lastScheduleTime.value else o.creation)
             || (o.spec.startingDeadlineSeconds != 0 && from <= now - o.spec.startingDeadlineSeconds)
    requires parse(schedule).Some? ==> Lawful(parse(schedule).value, from, now)
    ensures var last, deadline := o.status.lastScheduleTime, o.spec.startingDeadlineSeconds;
            var after := if last.Some? then last.value else o.creation;
            Unmet(parse, o, now, schedule).Err? <==>
            || parse(schedule).None?
            || |set t | after < t <= now && (deadline == 0 || now - t < deadline) && IsTick(parse(schedule).value, t)|
               > 100
  {
    if parse(schedule).Some? {
      var next, start, deadline := parse(schedule).value, WindowOf(o, now), o.spec.startingDeadlineSeconds;
      assert from <= start;
      EnumeratorRefinesScan(parse, LatestScheduledTime(o), now, schedule, deadline);
      TickSeqCounts(next, start, now);
      var after := LatestScheduledTime(o);
      assert (set t | start < t <= now && IsTick(next, t))
          == set t | after < t <= now && (deadline == 0 || now - t < deadline) && IsTick(next, t);
    }
  }

  // ---------- exclusion ----------

  /** The last missed tick of every exclude schedule, or the first schedule's failure. */
  function ExcludeTimes(parse: Parser, o: CronHPA, now: Time, dates: seq<string>): Result<set<Time>> {
    if dates == [] then Ok({})
    else
      var n := |dates| - 1;
      match ExcludeTimes(parse, o, now, dates[..n])
      case Err(e) => Err(e)
      case Ok(earlier) =>
        match Unmet(parse, o, now, dates[n])
        case Err(e) => Err(e)
        case Ok(times) => Ok(if times == [] then earlier else earlier + {times[|times| - 1]})
  }

  lemma {:induction false} ErrorsPersist(parse: Parser, o: CronHPA, now: Time, dates: seq<string>, i: nat)
    requires i <= |dates| && ExcludeTimes(parse, o, now, dates[..i]).Err?
    ensures ExcludeTimes(parse, o, now, dates) == ExcludeTimes(parse, o, now, dates[..i])
    decreases |dates|
  {
    if i < |dates| {
      var n := |dates| - 1;
      assert dates[..n][..i] == dates[..i];
      ErrorsPersist(parse, o, now, dates[..n], i);
    } else {
      assert dates[..i] == dates;
    }
  }

  method GetExcludeTimes(parse: Parser, o: CronHPA, now: Time, crons: seq<string>) returns (r: Result<map<Time, int>>)
    ensures r == match ExcludeTimes(parse, o, now, crons)
                 case Err(e) => Err(e)
                 case Ok(times) => Ok(map t | t in times :: 1)
  {
    var result: map<Time, int> := map[];
    for i := 0 to |crons|
      invariant ExcludeTimes(parse, o, now, crons[..i]).Ok?
      invariant result == map t | t in ExcludeTimes(parse, o, now, crons[..i]).value :: 1
    {
      assert crons[..i + 1][..i] == crons[..i];
      var r := GetRecentUnmetScheduleTimes(parse, LatestScheduledTime(o), now, crons[i],
                                           o.spec.startingDeadlineSeconds);
      if r.Err? {
        ErrorsPersist(parse, o, now, crons, i + 1);
        return Err(r.error);
      }
      var times := r.value;
      if |times| != 0 && times[|times| - 1] !in result {
        result := result[times[|times| - 1] := 1];
      }
    }
    assert crons[..|crons|] == crons;
    r := Ok(result);
  }

  predicate ShouldFilter(excludeTimes: map<Time, int>, t: Time) {
    if |excludeTimes| == 0 then false else t in excludeTimes
  }

  ghost predicate LastOfSome(parse: Parser, o: CronHPA, now: Time, dates: seq<string>, t: Time) {
    exists d :: d in dates && EndsWith(Unmet(parse, o, now, d), t)
  }

  predicate EndsWith(r: Result<seq<Time>>, t: Time) {
    r.Ok? && r.value != [] && r.value[|r.value| - 1] == t
  }

  lemma LastOfSomeSnoc(parse: Parser, o: CronHPA, now: Time, front: seq<string>, date: string, t: Time)
    ensures LastOfSome(parse, o, now, front + [date], t) <==>
            LastOfSome(parse, o, now, front, t) || EndsWith(Unmet(parse, o, now, date), t)
  {
    assert forall d :: d in front + [date] <==> d in front || d == date;
  }

  ghost predicate AllEnumerable(parse: Parser, o: CronHPA, now: Time, dates: seq<string>) {
    forall d :: d in dates ==> Unmet(parse, o, now, d).Ok?
  }

  lemma AllEnumerableSnoc(parse: Parser, o: CronHPA, now: Time, front: seq<string>, date: string)
    ensures AllEnumerable(parse, o, now, front + [date]) <==>
            AllEnumerable(parse, o, now, front) && Unmet(parse, o, now, date).Ok?
  {
    assert forall d :: d in front + [date] <==> d in front || d == date;
  }

  lemma ExcludeTimesSnoc(parse: Parser, o: CronHPA, now: Time, dates: seq<string>)
    requires dates != []
    ensures var n := |dates| - 1;
            var r, earlier := ExcludeTimes(parse, o, now, dates), ExcludeTimes(parse, o, now, dates[..n]);
            var last := Unmet(parse, o, now, dates[n]);
            && (r.Ok? <==> earlier.Ok? && last.Ok?)
            && (r.Ok? ==> forall t :: t in r.value <==> t in earlier.value || EndsWith(last, t))
  {}

  /** Exclusion in one sentence: it fails exactly when some schedule does, and otherwise
      excludes exactly the last missed ticks. */
  lemma {:induction false} ExcludeTimesExact(parse: Parser, o: CronHPA, now: Time, dates: seq<string>)
    ensures var r := ExcludeTimes(parse, o, now, dates);
            && (r.Ok? <==> AllEnumerable(parse, o, now, dates))
            && (r.Ok? ==> forall t :: t in r.value <==> LastOfSome(parse, o, now, dates, t))
  {
    if dates == [] {
    } else {
      var n := |dates| - 1;
      var front := dates[..n];
      assert dates == front + [dates[n]];
      ExcludeTimesExact(parse, o, now, front);
      ExcludeTimesSnoc(parse, o, now, dates);
      AllEnumerableSnoc(parse, o, now, front, dates[n]);
      forall t ensures LastOfSome(parse, o, now, dates, t) <==>
                       LastOfSome(parse, o, now, front, t) || EndsWith(Unmet(parse, o, now, dates[n]), t)
      {
        LastOfSomeSnoc(parse, o, now, front, dates[n], t);
      }
    }
  }

  // ---------- the batch ----------

  predicate Skipped(o: CronHPA, cron: Cron) {
    cron.runOnce && HasRun(o.status.conditions, cron.name)
  }

  function Names(crons: seq<Cron>): set<string> {
    set cron | cron in crons :: cron.name
  }

  /** What one cron contributes: an error, or whether it joins the batch. */
  function Joins(parse: Parser, o: CronHPA, now: Time, excluded: set<Time>, cron: Cron): Result<bool> {
    if Skipped(o, cron) then Ok(false)
    else match Unmet(parse, o, now, cron.schedule)
      case Err(e) => Err(e)
      case Ok(times) => Ok(times != [] && times[|times| - 1] !in excluded)
  }

  method CheckCron(parse: Parser, o: CronHPA, now: Time, excludeTimes: map<Time, int>, cron: Cron)
    returns (r: Result<bool>)
    ensures r == Joins(parse, o, now, excludeTimes.Keys, cron)
  {
    if cron.runOnce {
      var run := HaveRunAlready(cron, o.status.conditions);
      if run { return Ok(false); }
    }
    var u := GetRecentUnmetScheduleTimes(parse, LatestScheduledTime(o), now, cron.schedule,
                                         o.spec.startingDeadlineSeconds);
    if u.Err? {
      return Err(u.error);
    }
    var times := u.value;
    if |times| == 0 {
      return Ok(false);
    }
    r := Ok(!ShouldFilter(excludeTimes, times[|times| - 1]));
  }

  /** The batch loop: one cron at a time, in order, stopping at the first failure. */
  function BatchOf(parse: Parser, o: CronHPA, now: Time, excluded: set<Time>, crons: seq<Cron>): Result<seq<Cron>> {
    if crons == [] then Ok([])
    else
      var n := |crons| - 1;
      match BatchOf(parse, o, now, excluded, crons[..n])
      case Err(e) => Err(e)
      case Ok(batch) => Extend(parse, o, now, excluded, crons[..n], batch, crons[n])
  }

  function Extend(parse: Parser, o: CronHPA, now: Time, excluded: set<Time>, seen: seq<Cron>, batch: seq<Cron>,
                  cron: Cron): Result<seq<Cron>>
  {
    if cron.name in Names(seen) then Err(DuplicateName(cron.name))
    else match Joins(parse, o, now, excluded, cron)
      case Err(e) => Err(e)
      case Ok(joins) => Ok(if joins then batch + [cron] else batch)
  }

  lemma {:induction false} BatchErrorsPersist(parse: Parser, o: CronHPA, now: Time, excluded: set<Time>,
                                              crons: seq<Cron>, i: nat)
    requires i <= |crons| && BatchOf(parse, o, now, excluded, crons[..i]).Err?
    ensures BatchOf(parse, o, now, excluded, crons) == BatchOf(parse, o, now, excluded, crons[..i])
    decreases |crons|
  {
    if i < |crons| {
      var n := |crons| - 1;
      assert crons[..n][..i] == crons[..i];
      BatchErrorsPersist(parse, o, now, excluded, crons[..n], i);
    } else {
      assert crons[..i] == crons;
    }
  }

  /** One round of the loop: the batch is extended, or the failure is final. */
  lemma BatchNext(parse: Parser, o: CronHPA, now: Time, excluded: set<Time>, crons: seq<Cron>, i: nat, batch: seq<Cron>)
    requires i < |crons| && BatchOf(parse, o, now, excluded, crons[..i]) == Ok(batch)
    ensures Names(crons[..i + 1]) == Names(crons[..i]) + {crons[i].name}
    ensures BatchOf(parse, o, now, excluded, crons[..i + 1]) ==
            Extend(parse, o, now, excluded, crons[..i], batch, crons[i])
    ensures BatchOf(parse, o, now, excluded, crons[..i + 1]).Err? ==>
              BatchOf(parse, o, now, excluded, crons) == BatchOf(parse, o, now, excluded, crons[..i + 1])
  {
    assert crons[..i + 1] == crons[..i] + [crons[i]];
    assert crons[..i + 1][..i] == crons[..i];
    if BatchOf(parse, o, now, excluded, crons[..i + 1]).Err? {
      BatchErrorsPersist(parse, o, now, excluded, crons, i + 1);
    }
  }

  method BuildBatch(parse: Parser, o: CronHPA, now: Time, excludeTimes: map<Time, int>, crons: seq<Cron>)
    returns (r: Result<seq<Cron>>)
    ensures r == BatchOf(parse, o, now, excludeTimes.Keys, crons)
  {
    var cronJobBatch: seq<Cron> := [];
    var checkName: map<string, int> := map[];
    ghost var excluded := excludeTimes.Keys;
    for i := 0 to |crons|
      invariant checkName.Keys == Names(crons[..i])
      invariant BatchOf(parse, o, now, excluded, crons[..i]) == Ok(cronJobBatch)
    {
      var cron := crons[i];
      BatchNext(parse, o, now, excluded, crons, i, cronJobBatch);
      if cron.name in checkName {
        return Err(DuplicateName(cron.name));
      }
      checkName := checkName[cron.name := 1];
      var joins := CheckCron(parse, o, now, excludeTimes, cron);
      if joins.Err? {
        return Err(joins.error);
      }
      if joins.value {
        cronJobBatch := cronJobBatch + [cron];
      }
    }
    assert crons[..|crons|] == crons;
    r := Ok(cronJobBatch);
  }

  /** What a reconcile of `o` at `now` decides to run, or why it gives up. */
  function Plan(parse: Parser, o: CronHPA, now: Time): Result<seq<Cron>> {
    match ExcludeTimes(parse, o, now, o.spec.excludeDates)
    case Err(e) => Err(e)
    case Ok(excluded) => BatchOf(parse, o, now, excluded, o.spec.crons)
  }

  // ---------- what the plan means ----------

  ghost predicate DistinctCronNames(crons: seq<Cron>) {
    forall i, j :: 0 <= i < j < |crons| ==> crons[i].name != crons[j].name
  }

  /** Everything the plan has to enumerate can be enumerated. */
  ghost predicate CanPlan(parse: Parser, o: CronHPA, now: Time) {
    && AllEnumerable(parse, o, now, o.spec.excludeDates)
    && DistinctCronNames(o.spec.crons)
    && (forall cron :: cron in o.spec.crons && !(cron.runOnce && HasRun(o.status.conditions, cron.name)) ==>
                         Unmet(parse, o, now, cron.schedule).Ok?)
  }

  /** The cron has missed a start, has not used up its only run, and its last missed start
      is no exclude schedule's last missed start. */
  ghost predicate Due(parse: Parser, o: CronHPA, now: Time, cron: Cron) {
    && !(cron.runOnce && HasRun(o.status.conditions, cron.name))
    && exists t :: EndsWith(Unmet(parse, o, now, cron.schedule), t)
                   && !LastOfSome(parse, o, now, o.spec.excludeDates, t)
  }

  lemma BatchOfSnoc(parse: Parser, o: CronHPA, now: Time, excluded: set<Time>, crons: seq<Cron>)
    requires crons != []
    ensures var n := |crons| - 1;
            var r, front := BatchOf(parse, o, now, excluded, crons), BatchOf(parse, o, now, excluded, crons[..n]);
            var joins := Joins(parse, o, now, excluded, crons[n]);
            && (r.Ok? <==> front.Ok? && crons[n].name !in Names(crons[..n]) && joins.Ok?)
            && (r.Ok? ==> forall c :: c in r.value <==> c in front.value || (c == crons[n] && joins == Ok(true)))
  {}

  lemma JoinsOkIff(parse: Parser, o: CronHPA, now: Time, excluded: set<Time>, cron: Cron)
    ensures Joins(parse, o, now, excluded, cron).Ok? <==>
            (cron.runOnce && HasRun(o.status.conditions, cron.name)) || Unmet(parse, o, now, cron.schedule).Ok?
  {}

  lemma {:induction false} BatchOfExact(parse: Parser, o: CronHPA, now: Time, excluded: set<Time>, crons: seq<Cron>)
    ensures var r := BatchOf(parse, o, now, excluded, crons);
            && (r.Ok? <==> DistinctCronNames(crons)
                           && forall c :: c in crons && !(c.runOnce && HasRun(o.status.conditions, c.name)) ==>
                                            Unmet(parse, o, now, c.schedule).Ok?)
            && (r.Ok? ==> forall c :: c in r.value <==> c in crons && Joins(parse, o, now, excluded, c) == Ok(true))
  {
    if crons == [] {
    } else {
      var n := |crons| - 1;
      var front, cron := crons[..n], crons[n];
      BatchOfExact(parse, o, now, excluded, front);
      BatchOfSnoc(parse, o, now, excluded, crons);
      JoinsOkIff(parse, o, now, excluded, cron);
      assert crons == front + [cron];
      assert forall c :: c in crons <==> c in front || c == cron;
      DistinctCronNamesSnoc(front, cron);
    }
  }

  lemma DistinctCronNamesSnoc(front: seq<Cron>, cron: Cron)
    ensures DistinctCronNames(front + [cron]) <==> DistinctCronNames(front) && cron.name !in Names(front)
  {
    var crons := front + [cron];
    if DistinctCronNames(crons) {
      forall i, j | 0 <= i < j < |front| ensures front[i].name != front[j].name {
        assert crons[i].name != crons[j].name;
      }
      forall c | c in front ensures c.name != cron.name {
        var i :| 0 <= i < |front| && front[i] == c;
        assert crons[i].name != crons[|front|].name;
      }
    }
  }

  /** The plan fails exactly when an exclude schedule cannot be enumerated, two crons share
      a name, or a cron not skipped by run-once cannot be enumerated. Otherwise it is made
      of exactly the due crons. */
  lemma PlanExact(parse: Parser, o: CronHPA, now: Time)
    ensures Plan(parse, o, now).Ok? <==> CanPlan(parse, o, now)
    ensures Plan(parse, o, now).Ok? ==>
              forall c :: c in Plan(parse, o, now).value <==> c in o.spec.crons && Due(parse, o, now, c)
  {
    ExcludeTimesExact(parse, o, now, o.spec.excludeDates);
    var x := ExcludeTimes(parse, o, now, o.spec.excludeDates);
    if x.Ok? {
      BatchOfExact(parse, o, now, x.value, o.spec.crons);
      forall c ensures Joins(parse, o, now, x.value, c) == Ok(true) <==> Due(parse, o, now, c) {
        var u := Unmet(parse, o, now, c.schedule);
        if u.Ok? && u.value != [] {
          assert EndsWith(u, u.value[|u.value| - 1]);
        }
      }
    }
  }

  /** Over the window of a reconcile of `o` at `now`, the cron's own schedule and the exclude
      schedules are behaved; what other crons and other objects use does not matter. */
  ghost predicate BehavedFor(parse: Parser, o: CronHPA, now: Time, cron: Cron) {
    && Behaved(parse, cron.schedule, WindowOf(o, now), now)
    && forall d :: d in o.spec.excludeDates ==> Behaved(parse, d, WindowOf(o, now), now)
  }

  /** The same in terms of ticks alone: a cron is due exactly when the window has a latest
      tick of its schedule that is not also the latest tick of an exclude schedule. */
  lemma DueMeansLatestTick(parse: Parser, o: CronHPA, now: Time, cron: Cron)
    requires BehavedFor(parse, o, now, cron) && CanPlan(parse, o, now) && cron in o.spec.crons
    ensures Due(parse, o, now, cron) <==>
            !Skipped(o, cron) && exists t :: LatestFor(parse, o, now, cron.schedule, t)
                                             && forall d :: d in o.spec.excludeDates ==> !LatestFor(parse, o, now, d, t)
  {
    if !Skipped(o, cron) {
      LatestIsEnd(parse, o, now, cron.schedule);
      forall d | d in o.spec.excludeDates
        ensures parse(d).Some?
        ensures forall t :: EndsWith(Unmet(parse, o, now, d), t) <==> LatestFor(parse, o, now, d, t)
      {
        LatestIsEnd(parse, o, now, d);
      }
      forall t ensures LastOfSome(parse, o, now, o.spec.excludeDates, t) <==>
                       exists d :: d in o.spec.excludeDates && LatestFor(parse, o, now, d, t)
      {
      }
    }
  }

  /** `t` is the schedule's latest tick in the window of a reconcile of `o` at `now`. */
  ghost predicate LatestFor(parse: Parser, o: CronHPA, now: Time, schedule: string, t: Time) {
    parse(schedule).Some? && IsLatest(parse(schedule).value, WindowOf(o, now), now, t)
  }

  lemma LatestIsEnd(parse: Parser, o: CronHPA, now: Time, schedule: string)
    requires Behaved(parse, schedule, WindowOf(o, now), now) && Unmet(parse, o, now, schedule).Ok?
    ensures parse(schedule).Some?
    ensures forall t :: EndsWith(Unmet(parse, o, now, schedule), t) <==> LatestFor(parse, o, now, schedule, t)
  {
    LastUnmetIsLatest(parse, LatestScheduledTime(o), now, schedule, o.spec.startingDeadlineSeconds);
  }

  lemma DueByLastStarts(parse: Parser, o: CronHPA, now: Time, cron: Cron)
    requires AllEnumerable(parse, o, now, o.spec.excludeDates) && Unmet(parse, o, now, cron.schedule).Ok?
    requires !(cron.runOnce && HasRun(o.status.conditions, cron.name))
    ensures var times := Unmet(parse, o, now, cron.schedule).value;
            Due(parse, o, now, cron) <==>
            && times != []
            && forall d :: d in o.spec.excludeDates ==>
                 var others := Unmet(parse, o, now, d).value;
                 others == [] || others[|others| - 1] != times[|times| - 1]
  {
    var u := Unmet(parse, o, now, cron.schedule);
    if u.value != [] {
      var t := u.value[|u.value| - 1];
      assert EndsWith(u, t);
      forall d | d in o.spec.excludeDates
        ensures EndsWith(Unmet(parse, o, now, d), t) <==>
                var others := Unmet(parse, o, now, d).value; others != [] && others[|others| - 1] == t
      {
      }
    }
  }

  /** The plan in terms of the object's fields: it fails exactly when some exclude schedule cannot
      be enumerated, two crons share a name, or a cron that has a run left cannot be enumerated;
      otherwise a cron is in it exactly when it has a run left and its last missed start is
      no exclude schedule's last missed start. Only run-once crons can have no run left. */
  lemma PlanInFull(parse: Parser, o: CronHPA, now: Time)
    ensures Plan(parse, o, now).Ok? <==>
            && (forall d :: d in o.spec.excludeDates ==> Unmet(parse, o, now, d).Ok?)
            && (forall i, j :: 0 <= i < j < |o.spec.crons| ==> o.spec.crons[i].name != o.spec.crons[j].name)
            && (forall c :: c in o.spec.crons && (c.runOnce ==> !LastSucceeded(o.status.conditions, c.name)) ==>
                              Unmet(parse, o, now, c.schedule).Ok?)
    ensures Plan(parse, o, now).Ok? ==>
              forall c :: c in Plan(parse, o, now).value <==>
                && c in o.spec.crons && (c.runOnce ==> !LastSucceeded(o.status.conditions, c.name))
                && var times := Unmet(parse, o, now, c.schedule).value;
                && times != []
                && forall d :: d in o.spec.excludeDates ==>
                     var others := Unmet(parse, o, now, d).value;
                     others == [] || others[|others| - 1] != times[|times| - 1]
  {
    PlanExact(parse, o, now);
    forall c: Cron ensures HasRun(o.status.conditions, c.name) <==> LastSucceeded(o.status.conditions, c.name) {
      HasRunExactly(o.status.conditions, c.name);
    }
    if CanPlan(parse, o, now) {
      forall c | c in o.spec.crons && (c.runOnce ==> !LastSucceeded(o.status.conditions, c.name))
        ensures Unmet(parse, o, now, c.schedule).Ok?
        ensures var times := Unmet(parse, o, now, c.schedule).value;
                Due(parse, o, now, c) <==>
                && times != []
                && forall d :: d in o.spec.excludeDates ==>
                     var others := Unmet(parse, o, now, d).value;
                     others == [] || others[|others| - 1] != times[|times| - 1]
      {
        DueByLastStarts(parse, o, now, c);
      }
    }
  }

  /** A recurring cron does not look at the conditions: whatever they say, it joins the batch of
      every plan that succeeds, or of none. */
  lemma RecurringIgnoresConditions(parse: Parser, o: CronHPA, now: Time, cron: Cron, conditions: seq<Condition>)
    requires !cron.runOnce
    requires Plan(parse, o, now).Ok?
             && Plan(parse, o.(status := o.status.(conditions := conditions)), now).Ok?
    ensures cron in Plan(parse, o, now).value <==>
            cron in Plan(parse, o.(status := o.status.(conditions := conditions)), now).value
  {
    var o' := o.(status := o.status.(conditions := conditions));
    PlanExact(parse, o, now);
    PlanExact(parse, o', now);
    forall t ensures LastOfSome(parse, o', now, o.spec.excludeDates, t) <==>
                     LastOfSome(parse, o, now, o.spec.excludeDates, t)
    {
      assert forall d :: Unmet(parse, o', now, d) == Unmet(parse, o, now, d);
    }
  }

  // ---------- exclusion exactness ----------

  predicate TicksAt(parse: Parser, schedule: string, t: Time) {
    parse(schedule).Some? && IsTick(parse(schedule).value, t)
  }

  /** From one time to another, all ticks of the one schedule are ticks of the other. */
  ghost predicate TicksWithin(parse: Parser, sub: string, sup: string, from: Time, to: Time) {
    forall t :: from < t <= to && TicksAt(parse, sub, t) ==> TicksAt(parse, sup, t)
  }

  /** Some exclude schedule ticks at `t`. */
  ghost predicate ExcludedAt(parse: Parser, o: CronHPA, t: Time) {
    exists d :: d in o.spec.excludeDates && TicksAt(parse, d, t)
  }

  /** Some exclude schedule ticks at `t` and not again up to `now`. */
  ghost predicate ExcludedLastAt(parse: Parser, o: CronHPA, now: Time, t: Time) {
    exists d :: d in o.spec.excludeDates && TicksAt(parse, d, t) && forall u :: t < u <= now ==> !TicksAt(parse, d, u)
  }

  /** Inside the window, being an exclude schedule's latest tick is ticking there for the last
      time. */
  lemma LatestMeansLastTick(parse: Parser, o: CronHPA, now: Time, d: string, t: Time)
    requires WindowOf(o, now) < t <= now
    ensures LatestFor(parse, o, now, d, t) <==>
            TicksAt(parse, d, t) && forall u :: t < u <= now ==> !TicksAt(parse, d, u)
  {
    if parse(d).Some? {
      assert forall u :: TicksAt(parse, d, u) <==> IsTick(parse(d).value, u);
    }
  }

  /** What the exclusion test really tests: a cron that has not used up its only run is due
      exactly when no exclude schedule ticks at its latest tick for the last time. */
  lemma DueUnlessExcludedLast(parse: Parser, o: CronHPA, now: Time, cron: Cron, t: Time)
    requires BehavedFor(parse, o, now, cron) && CanPlan(parse, o, now) && cron in o.spec.crons && !Skipped(o, cron)
    requires LatestFor(parse, o, now, cron.schedule, t)
    ensures Due(parse, o, now, cron) <==> !ExcludedLastAt(parse, o, now, t)
  {
    DueMeansLatestTick(parse, o, now, cron);
    forall d | d in o.spec.excludeDates
      ensures LatestFor(parse, o, now, d, t) <==>
              TicksAt(parse, d, t) && forall u :: t < u <= now ==> !TicksAt(parse, d, u)
    {
      LatestMeansLastTick(parse, o, now, d, t);
    }
    assert forall t' :: LatestFor(parse, o, now, cron.schedule, t') ==> t' == t;
  }

  /** When exclusion does what its name says: the cron's being due at its latest tick agrees
      with that tick's being no exclude tick if and only if, should some exclude schedule tick
      there, some exclude schedule does so for the last time. */
  lemma ExclusionRightIff(parse: Parser, o: CronHPA, now: Time, cron: Cron, t: Time)
    requires BehavedFor(parse, o, now, cron) && CanPlan(parse, o, now) && cron in o.spec.crons && !Skipped(o, cron)
    requires LatestFor(parse, o, now, cron.schedule, t)
    ensures (Due(parse, o, now, cron) <==> !ExcludedAt(parse, o, t)) <==>
            (ExcludedAt(parse, o, t) ==> ExcludedLastAt(parse, o, now, t))
  {
    DueUnlessExcludedLast(parse, o, now, cron, t);
  }

  /** In particular, when all ticks of the exclude schedules in the window are ticks of the cron:
      then it is due exactly when its latest tick is no exclude tick. */
  lemma ExclusionExact(parse: Parser, o: CronHPA, now: Time, cron: Cron)
    requires BehavedFor(parse, o, now, cron) && CanPlan(parse, o, now)
    requires cron in o.spec.crons && parse(cron.schedule).Some?
    requires forall d :: d in o.spec.excludeDates ==> TicksWithin(parse, d, cron.schedule, WindowOf(o, now), now)
    ensures Due(parse, o, now, cron) <==>
            !Skipped(o, cron) && exists t :: LatestFor(parse, o, now, cron.schedule, t) && !ExcludedAt(parse, o, t)
  {
    DueMeansLatestTick(parse, o, now, cron);
    if !Skipped(o, cron) {
      forall t | LatestFor(parse, o, now, cron.schedule, t)
        ensures Due(parse, o, now, cron) <==> !ExcludedAt(parse, o, t)
      {
        if d :| d in o.spec.excludeDates && TicksAt(parse, d, t) {
          forall u | t < u <= now ensures !TicksAt(parse, d, u) {
            assert !TicksAt(parse, cron.schedule, u);
          }
        }
        ExclusionRightIff(parse, o, now, cron, t);
      }
    }
  }

  /** A cron whose own schedule is listed in `excludeDates` is never due, with no condition
      on the other exclude schedules. */
  lemma ListedScheduleNeverDue(parse: Parser, o: CronHPA, now: Time, cron: Cron)
    requires cron.schedule in o.spec.excludeDates
    ensures !Due(parse, o, now, cron)
  {}

  /** Exclusion is not exact without some condition. With ticks every 4 seconds for the cron and
      every 3 for the exclude schedule, the cron's latest tick in (11, 15] is 12, an exclude tick;
      but the exclude schedule's own latest tick there is 15, so the cron is due all the same. */
  lemma ExclusionMissesEarlierTicks(parse: Parser, o: CronHPA, cron: Cron, date: string)
    requires parse(cron.schedule) == Some((t: Time) => t - t % 4 + 4)
    requires parse(date) == Some((t: Time) => t - t % 3 + 3)
    requires o.status.lastScheduleTime == Some(11) && o.status.conditions == []
    requires o.spec.crons == [cron] && o.spec.excludeDates == [date] && o.spec.startingDeadlineSeconds == 0
    ensures IsTick(parse(date).value, 12) && IsTick(parse(cron.schedule).value, 12)
    ensures Unmet(parse, o, 15, cron.schedule) == Ok([12])
    ensures Plan(parse, o, 15) == Ok([cron])
  {
    var fours, threes := parse(cron.schedule).value, parse(date).value;
    assert [12] + [] == [12] && [15] + [] == [15] && [12] + [15] == [12, 15];
    assert Walk(fours, fours(12), 15, 99) == Some([]);
    assert Walk(fours, fours(11), 15, 100) == Some([12]);
    assert Walk(threes, threes(15), 15, 98) == Some([]);
    assert Walk(threes, threes(12), 15, 99) == Some([15]);
    assert Walk(threes, threes(11), 15, 100) == Some([12, 15]);
    assert [date][..0] == [] && [cron][..0] == [];
    assert ExcludeTimes(parse, o, 15, []) == Ok({});
    assert Unmet(parse, o, 15, date) == Ok([12, 15]);
    assert {} + {15} == {15};
    assert ExcludeTimes(parse, o, 15, [date]) == Ok({15});
    assert !HasRun(o.status.conditions, cron.name);
    assert Joins(parse, o, 15, {15}, cron) == Ok(true);
    assert BatchOf(parse, o, 15, {15}, [cron]) == Extend(parse, o, 15, {15}, [], [], cron);
    assert [] + [cron] == [cron];
  }

  // ---------- the plan by the clock ----------

  /** `t` is a tick the schedule has missed, and the last one: it lies after the last firing, or
      after the creation when there was none, no more than the deadline ago, and no later tick has
      passed. */
  ghost predicate LastMissed(parse: Parser, o: CronHPA, now: Time, schedule: string, t: Time) {
    && (match o.status.lastScheduleTime case Some(last) => last < t case None => o.creation < t)
    && t <= now && (o.spec.startingDeadlineSeconds == 0 || now - t < o.spec.startingDeadlineSeconds)
    && TicksAt(parse, schedule, t)
    && forall u :: t < u <= now ==> !TicksAt(parse, schedule, u)
  }

  lemma LatestIsLastMissed(parse: Parser, o: CronHPA, now: Time, schedule: string, t: Time)
    ensures LatestFor(parse, o, now, schedule, t) <==> LastMissed(parse, o, now, schedule, t)
  {
    if WindowOf(o, now) < t <= now { LatestMeansLastTick(parse, o, now, schedule, t); }
  }

  /** What a plan that succeeds contains, in terms of the object's fields, the clock and the ticks:
      the crons with a run left whose last missed tick is no exclude schedule's last missed tick. */
  lemma PlanByTheClock(parse: Parser, o: CronHPA, now: Time, from: Time, cron: Cron)
    requires || from <= (if o.status.lastScheduleTime.Some? then o.status.lastScheduleTime.value else o.creation)
             || (o.spec.startingDeadlineSeconds != 0 && from <= now - o.spec.startingDeadlineSeconds)
    requires Behaved(parse, cron.schedule, from, now)
    requires forall d :: d in o.spec.excludeDates ==> Behaved(parse, d, from, now)
    requires Plan(parse, o, now).Ok?
    ensures cron in Plan(parse, o, now).value <==>
            && cron in o.spec.crons && (cron.runOnce ==> !LastSucceeded(o.status.conditions, cron.name))
            && exists t :: LastMissed(parse, o, now, cron.schedule, t)
                           && forall d :: d in o.spec.excludeDates ==> !LastMissed(parse, o, now, d, t)
  {
    PlanExact(parse, o, now);
    HasRunExactly(o.status.conditions, cron.name);
    BehavedFromEarlier(parse, o, now, cron.schedule, from);
    forall d | d in o.spec.excludeDates ensures Behaved(parse, d, WindowOf(o, now), now) {
      BehavedFromEarlier(parse, o, now, d, from);
    }
    if cron in o.spec.crons {
      DueMeansLatestTick(parse, o, now, cron);
      forall s, t ensures LatestFor(parse, o, now, s, t) <==> LastMissed(parse, o, now, s, t) {
        LatestIsLastMissed(parse, o, now, s, t);
      }
    }
  }

  // ---------- which failure, and the order ----------

  /** The error is that of the first exclude schedule that fails. */
  lemma {:induction false} FirstExcludeError(parse: Parser, o: CronHPA, now: Time, dates: seq<string>)
    requires ExcludeTimes(parse, o, now, dates).Err?
    ensures exists i :: && 0 <= i < |dates|
                        && Unmet(parse, o, now, dates[i]) == Err(ExcludeTimes(parse, o, now, dates).error)
                        && forall j :: 0 <= j < i ==> Unmet(parse, o, now, dates[j]).Ok?
  {
    var n := |dates| - 1;
    if ExcludeTimes(parse, o, now, dates[..n]).Err? {
      FirstExcludeError(parse, o, now, dates[..n]);
      assert forall j :: 0 <= j < n ==> dates[..n][j] == dates[j];
    } else {
      ExcludeTimesExact(parse, o, now, dates[..n]);
      assert forall j :: 0 <= j < n ==> dates[j] in dates[..n];
    }
  }

  /** The i-th cron stops the loop with the error `e`: its name repeats an earlier one, or it has a
      run left and cannot be enumerated. */
  ghost predicate StopsWith(parse: Parser, o: CronHPA, now: Time, crons: seq<Cron>, i: nat, e: Error)
    requires i < |crons|
  {
    if exists j :: 0 <= j < i && crons[j].name == crons[i].name then e == DuplicateName(crons[i].name)
    else
      && (crons[i].runOnce ==> !LastSucceeded(o.status.conditions, crons[i].name))
      && Unmet(parse, o, now, crons[i].schedule) == Err(e)
  }

  lemma NameSeen(crons: seq<Cron>, i: nat)
    requires i < |crons|
    ensures crons[i].name in Names(crons[..i]) <==> exists j :: 0 <= j < i && crons[j].name == crons[i].name
  {
    if j :| 0 <= j < i && crons[j].name == crons[i].name {
      assert crons[j] in crons[..i];
    }
  }

  /** The loop over a longer list fails with the next cron, exactly when that cron stops it. */
  lemma StopsNext(parse: Parser, o: CronHPA, now: Time, excluded: set<Time>, crons: seq<Cron>, i: nat, e: Error)
    requires i < |crons| && BatchOf(parse, o, now, excluded, crons[..i]).Ok?
    ensures StopsWith(parse, o, now, crons, i, e) <==> BatchOf(parse, o, now, excluded, crons[..i + 1]) == Err(e)
  {
    BatchNext(parse, o, now, excluded, crons, i, BatchOf(parse, o, now, excluded, crons[..i]).value);
    HasRunExactly(o.status.conditions, crons[i].name);
    NameSeen(crons, i);
  }

  lemma {:induction false} FirstBatchError(parse: Parser, o: CronHPA, now: Time, excluded: set<Time>, crons: seq<Cron>,
                                           i: nat)
    requires i <= |crons| && BatchOf(parse, o, now, excluded, crons[..i]).Ok?
    requires forall j, e :: 0 <= j < i ==> !StopsWith(parse, o, now, crons, j, e)
    requires BatchOf(parse, o, now, excluded, crons).Err?
    ensures FirstToStop(parse, o, now, crons, BatchOf(parse, o, now, excluded, crons).error)
    decreases |crons| - i
  {
    assert crons[..|crons|] == crons;
    BatchNext(parse, o, now, excluded, crons, i, BatchOf(parse, o, now, excluded, crons[..i]).value);
    forall e ensures StopsWith(parse, o, now, crons, i, e) <==>
                     BatchOf(parse, o, now, excluded, crons[..i + 1]) == Err(e)
    {
      StopsNext(parse, o, now, excluded, crons, i, e);
    }
    if BatchOf(parse, o, now, excluded, crons[..i + 1]).Err? {
      assert StopsWith(parse, o, now, crons, i, BatchOf(parse, o, now, excluded, crons).error);
    } else {
      FirstBatchError(parse, o, now, excluded, crons, i + 1);
    }
  }

  /** Some cron stops the loop with the error, and none before it stops the loop at all. */
  ghost predicate FirstToStop(parse: Parser, o: CronHPA, now: Time, crons: seq<Cron>, e: Error) {
    exists i :: && 0 <= i < |crons| && StopsWith(parse, o, now, crons, i, e)
                && forall j, e' :: 0 <= j < i ==> !StopsWith(parse, o, now, crons, j, e')
  }

  /** A plan that fails reports the first failure: of the exclude schedules in their order, and, when
      they all pass, of the crons in theirs. */
  lemma PlanFailsFirst(parse: Parser, o: CronHPA, now: Time)
    requires Plan(parse, o, now).Err?
    ensures var e, dates := Plan(parse, o, now).error, o.spec.excludeDates;
            || (exists i :: && 0 <= i < |dates| && Unmet(parse, o, now, dates[i]) == Err(e)
                            && forall j :: 0 <= j < i ==> Unmet(parse, o, now, dates[j]).Ok?)
            || ((forall d :: d in dates ==> Unmet(parse, o, now, d).Ok?)
                && FirstToStop(parse, o, now, o.spec.crons, e))
  {
    var x := ExcludeTimes(parse, o, now, o.spec.excludeDates);
    if x.Err? {
      FirstExcludeError(parse, o, now, o.spec.excludeDates);
    } else {
      ExcludeTimesExact(parse, o, now, o.spec.excludeDates);
      assert o.spec.crons[..0] == [];
      FirstBatchError(parse, o, now, x.value, o.spec.crons, 0);
    }
  }

  ghost predicate Before(crons: seq<Cron>, first: Cron, second: Cron) {
    exists a, b :: 0 <= a < b < |crons| && crons[a] == first && crons[b] == second
  }

  /** Later entries of `batch` come from later entries of `crons`. */
  ghost predicate InOrder(batch: seq<Cron>, crons: seq<Cron>) {
    forall i, j :: 0 <= i < j < |batch| ==> Before(crons, batch[i], batch[j])
  }

  lemma BeforeSnoc(crons: seq<Cron>, cron: Cron, first: Cron, second: Cron)
    ensures Before(crons, first, second) ==> Before(crons + [cron], first, second)
    ensures first in crons ==> Before(crons + [cron], first, cron)
  {
    var all := crons + [cron];
    if Before(crons, first, second) {
      var a, b :| 0 <= a < b < |crons| && crons[a] == first && crons[b] == second;
      assert all[a] == first && all[b] == second;
    }
    if first in crons {
      var a :| 0 <= a < |crons| && crons[a] == first;
      assert all[a] == first && all[|crons|] == cron;
    }
  }

  lemma InOrderSnoc(batch: seq<Cron>, crons: seq<Cron>, cron: Cron)
    requires InOrder(batch, crons) && forall c :: c in batch ==> c in crons
    ensures InOrder(batch, crons + [cron]) && InOrder(batch + [cron], crons + [cron])
  {
    forall first, second
      ensures Before(crons, first, second) ==> Before(crons + [cron], first, second)
      ensures first in crons ==> Before(crons + [cron], first, cron)
    {
      BeforeSnoc(crons, cron, first, second);
    }
  }

  lemma {:induction false} BatchInOrder(parse: Parser, o: CronHPA, now: Time, excluded: set<Time>, crons: seq<Cron>)
    requires BatchOf(parse, o, now, excluded, crons).Ok?
    ensures InOrder(BatchOf(parse, o, now, excluded, crons).value, crons)
  {
    if crons == [] {
    } else {
      var n := |crons| - 1;
      BatchInOrder(parse, o, now, excluded, crons[..n]);
      BatchOfExact(parse, o, now, excluded, crons[..n]);
      InOrderSnoc(BatchOf(parse, o, now, excluded, crons[..n]).value, crons[..n], crons[n]);
      assert crons == crons[..n] + [crons[n]];
    }
  }

  /** The plan keeps the order of the spec, and so lists no cron twice. */
  lemma PlanInOrder(parse: Parser, o: CronHPA, now: Time)
    requires Plan(parse, o, now).Ok?
    ensures InOrder(Plan(parse, o, now).value, o.spec.crons)
    ensures forall i, j :: 0 <= i < j < |Plan(parse, o, now).value| ==>
                             Plan(parse, o, now).value[i].name != Plan(parse, o, now).value[j].name
  {
    PlanExact(parse, o, now);
    BatchInOrder(parse, o, now, ExcludeTimes(parse, o, now, o.spec.excludeDates).value, o.spec.crons);
  }

  // ---------- the choice ----------

  ghost predicate IsTop(batch: seq<Cron>, cron: Cron) {
    cron in batch && forall c :: c in batch ==> c.targetSize <= cron.targetSize
  }

  predicate Descending(s: seq<Cron>) {
    forall i, j :: 0 <= i < j < |s| ==> s[i].targetSize >= s[j].targetSize
  }

  /** The library sort: big to small, ties in any order. */
  method SortBatch(batch: seq<Cron>) returns (sorted: seq<Cron>)
    ensures multiset(sorted) == multiset(batch)
    ensures forall i, j :: 0 <= i < j < |sorted| ==> sorted[i].targetSize >= sorted[j].targetSize
  {
    sorted := [];
    var rest := batch;
    while rest != []
      invariant multiset(sorted) + multiset(rest) == multiset(batch)
      invariant Descending(sorted) && Above(sorted, rest)
      decreases |rest|
    {
      HasTop(rest);
      var k :| 0 <= k < |rest| && TopAt(rest, k);
      SelectTop(sorted, rest, k);
      sorted, rest := sorted + [rest[k]], rest[..k] + rest[k + 1..];
    }
  }

  predicate Above(high: seq<Cron>, low: seq<Cron>) {
    forall i, j :: 0 <= i < |high| && 0 <= j < |low| ==> high[i].targetSize >= low[j].targetSize
  }

  predicate TopAt(s: seq<Cron>, k: nat)
    requires k < |s|
  {
    forall j :: 0 <= j < |s| ==> s[j].targetSize <= s[k].targetSize
  }

  lemma SelectTop(sorted: seq<Cron>, rest: seq<Cron>, k: nat)
    requires k < |rest| && TopAt(rest, k)
    requires Descending(sorted) && Above(sorted, rest)
    ensures var sorted', rest' := sorted + [rest[k]], rest[..k] + rest[k + 1..];
            && multiset(sorted') + multiset(rest') == multiset(sorted) + multiset(rest)
            && Descending(sorted') && Above(sorted', rest')
  {
    assert rest == rest[..k] + [rest[k]] + rest[k + 1..];
    var rest' := rest[..k] + rest[k + 1..];
    assert forall j :: 0 <= j < |rest'| ==> rest'[j] == rest[if j < k then j else j + 1];
  }

  lemma {:induction false} HasTop(s: seq<Cron>)
    requires s != []
    ensures exists k :: 0 <= k < |s| && TopAt(s, k)
  {
    var n := |s| - 1;
    if n == 0 {
      assert TopAt(s, 0);
    } else {
      HasTop(s[..n]);
      var k :| 0 <= k < n && TopAt(s[..n], k);
      assert forall j :: 0 <= j < n ==> s[..n][j] == s[j];
      assert TopAt(s, if s[n].targetSize > s[k].targetSize then n else k);
    }
  }

  lemma SortedHeadIsTop(batch: seq<Cron>, sorted: seq<Cron>)
    requires batch != [] && multiset(sorted) == multiset(batch)
    requires forall i, j :: 0 <= i < j < |sorted| ==> sorted[i].targetSize >= sorted[j].targetSize
    ensures sorted != [] && sorted[0] in batch && forall c :: c in batch ==> c.targetSize <= sorted[0].targetSize
  {
    assert batch[0] in multiset(batch);
    assert sorted[0] in multiset(sorted);
    forall c | c in batch ensures c.targetSize <= sorted[0].targetSize {
      assert c in multiset(sorted);
      var i :| 0 <= i < |sorted| && sorted[i] == c;
    }
  }

  // ---------- order independence ----------

  lemma {:induction false} RepeatedElement(s: seq<Cron>, c: Cron)
    requires multiset(s)[c] >= 2
    ensures exists i, j :: 0 <= i < j < |s| && s[i] == s[j] == c
  {
    var n := |s| - 1;
    assert s == s[..n] + [s[n]];
    if s[n] == c {
      assert c in multiset(s[..n]);
      var i :| 0 <= i < n && s[..n][i] == c;
      assert s[i] == s[n] == c;
    } else {
      RepeatedElement(s[..n], c);
      var i, j :| 0 <= i < j < n && s[..n][i] == s[..n][j] == c;
      assert s[i] == s[j] == c;
    }
  }

  lemma CountedTwice(s: seq<Cron>, i: nat, j: nat)
    requires i < j < |s| && s[i] == s[j]
    ensures multiset(s)[s[i]] >= 2
  {
    assert s == s[..j] + s[j..];
    assert s[..j][i] in multiset(s[..j]) && s[j..][0] in multiset(s[j..]);
  }

  lemma DistinctNamesIgnoreOrder(a: seq<Cron>, b: seq<Cron>)
    requires multiset(a) == multiset(b) && DistinctCronNames(a)
    ensures DistinctCronNames(b)
  {
    SameElements(a, b);
    forall i, j | 0 <= i < j < |b| ensures b[i].name != b[j].name {
      if b[i] == b[j] {
        CountedTwice(b, i, j);
        RepeatedElement(a, b[i]);
      } else {
        assert b[i] in a && b[j] in a;
        var k :| 0 <= k < |a| && a[k] == b[i];
        var l :| 0 <= l < |a| && a[l] == b[j];
      }
    }
  }

  /** Reordering the crons or the exclude dates changes neither whether planning fails, nor
      whether anything is due, nor the size any choice of top cron leads to. */
  lemma OrderIndependent(parse: Parser, o: CronHPA, crons: seq<Cron>, dates: seq<string>, now: Time)
    requires multiset(crons) == multiset(o.spec.crons) && multiset(dates) == multiset(o.spec.excludeDates)
    ensures var o' := o.(spec := o.spec.(crons := crons, excludeDates := dates));
            var p, p' := Plan(parse, o, now), Plan(parse, o', now);
            && (p.Ok? <==> p'.Ok?)
            && (p.Ok? ==> (p.value == [] <==> p'.value == [])
                          && forall c, c' :: IsTop(p.value, c) && IsTop(p'.value, c') ==> c.targetSize == c'.targetSize)
  {
    var o' := o.(spec := o.spec.(crons := crons, excludeDates := dates));
    PlanExact(parse, o, now);
    PlanExact(parse, o', now);
    SameElements(crons, o.spec.crons);
    SameElements(dates, o.spec.excludeDates);
    if DistinctCronNames(crons) { DistinctNamesIgnoreOrder(crons, o.spec.crons); }
    if DistinctCronNames(o.spec.crons) { DistinctNamesIgnoreOrder(o.spec.crons, crons); }
    forall s ensures Unmet(parse, o', now, s) == Unmet(parse, o, now, s) {}
    forall c ensures Due(parse, o', now, c) <==> Due(parse, o, now, c) {
      forall t ensures LastOfSome(parse, o', now, dates, t) <==> LastOfSome(parse, o, now, o.spec.excludeDates, t) {}
    }
    var p, p' := Plan(parse, o, now), Plan(parse, o', now);
    if p.Ok? {
      assert forall c :: c in p.value <==> c in p'.value;
      assert p.value != [] ==> p.value[0] in p'.value;
      assert p'.value != [] ==> p'.value[0] in p.value;
    }
  }

  lemma SameElements<T>(a: seq<T>, b: seq<T>)
    requires multiset(a) == multiset(b)
    ensures forall x :: x in a <==> x in b
  {
    forall x ensures x in a <==> x in b {
      assert x in a <==> x in multiset(a);
    }
  }
}
