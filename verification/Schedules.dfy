/** Missed-tick enumeration (pkg/controller/util.go) for an opaque schedule. */
module Schedules {
  import opened Types

  const MAX_MISSED: nat := 100

  // ---------- what a schedule promises, from one time to another ----------

  /** The next tick is in the future. */
  ghost predicate Advancing(next: Schedule, from: Time, to: Time) {
    forall t :: from <= t <= to ==> next(t) > t
  }

  /** No tick is skipped: between `t` and its next tick the answer stays the same. */
  ghost predicate Settled(next: Schedule, from: Time, to: Time) {
    forall t, u {:trigger next(t), next(u)} :: from <= t <= u <= to && u < next(t) ==> next(u) == next(t)
  }

  ghost predicate Lawful(next: Schedule, from: Time, to: Time) {
    Advancing(next, from, to) && Settled(next, from, to)
  }

  predicate IsTick(next: Schedule, t: Time) {
    next(t - 1) == t
  }

  /** The ticks in `(a, b]`, found by looking at every second: the reference the
      enumerator is compared with. */
  function TickSeq(next: Schedule, a: Time, b: Time): seq<Time>
    decreases b - a
  {
    if b <= a then []
    else TickSeq(next, a, b - 1) + (if IsTick(next, b) then [b] else [])
  }

  // ---------- the enumerator ----------

  /** The enumeration loop from the candidate tick `t`, with room for `room` more
      starts before giving up. */
  function Walk(next: Schedule, t: Time, now: Time, room: nat): Option<seq<Time>>
    decreases room
  {
    if t > now then Some([])
    else if room == 0 then None
    else After([t], Walk(next, next(t), now, room - 1))
  }

  /** The starts of a longer walk: some found already, then the rest, unless that gave up. */
  function After(starts: seq<Time>, rest: Option<seq<Time>>): Option<seq<Time>> {
    match rest
    case None => None
    case Some(times) => Some(starts + times)
  }

  lemma AfterOneMore(starts: seq<Time>, t: Time, rest: Option<seq<Time>>)
    ensures After([], rest) == rest
    ensures After(starts, After([t], rest)) == After(starts + [t], rest)
  {
    if rest.Some? {
      assert [] + rest.value == rest.value;
      assert starts + ([t] + rest.value) == starts + [t] + rest.value;
    }
  }

  /** The controller starts nothing at or before this time. */
  function WindowStart(earliest: Time, now: Time, deadline: int): Time {
    if deadline != 0 && now - deadline > earliest then now - deadline else earliest
  }

  function UnmetTimes(parse: Parser, earliest: Time, now: Time, cron: string, deadline: int): Result<seq<Time>> {
    match parse(cron)
    case None => Err(UnparseableSchedule(cron))
    case Some(next) =>
      var start := WindowStart(earliest, now, deadline);
      if start > now then Ok([])
      else match Walk(next, next(start), now, MAX_MISSED)
        case None => Err(TooManyMissed)
        case Some(times) => Ok(times)
  }

  /** The loop: collect starts until one lies in the future, or give up. */
  method CollectStarts(next: Schedule, earliest: Time, now: Time) returns (r: Option<seq<Time>>)
    ensures r == Walk(next, next(earliest), now, MAX_MISSED)
  {
    var starts: seq<Time> := [];
    var t := next(earliest);
    ghost var whole, room: nat := Walk(next, t, now, MAX_MISSED), MAX_MISSED;
    AfterOneMore([], t, whole);
    while t <= now
      invariant |starts| + room == MAX_MISSED
      invariant whole == After(starts, Walk(next, t, now, room))
      decreases room
    {
      ghost var found := starts;
      starts := starts + [t];
      if |starts| > MAX_MISSED {
        return None;
      }
      room := room - 1;
      AfterOneMore(found, t, Walk(next, next(t), now, room));
      t := next(t);
    }
    assert starts + [] == starts;
    r := Some(starts);
  }

  method GetRecentUnmetScheduleTimes(parse: Parser, earliestTime: Time, now: Time, cron: string,
                                     startingDeadlineSeconds: int)
    returns (r: Result<seq<Time>>)
    ensures r == UnmetTimes(parse, earliestTime, now, cron, startingDeadlineSeconds)
  {
    var parsed := parse(cron);
    if parsed.None? {
      return Err(UnparseableSchedule(cron));
    }
    var earliest := earliestTime;
    if startingDeadlineSeconds != 0 {
      var schedulingDeadline := now - startingDeadlineSeconds;
      if schedulingDeadline > earliest {
        earliest := schedulingDeadline;
      }
    }
    if earliest > now {
      return Ok([]);
    }
    var starts := CollectStarts(parsed.value, earliest, now);
    if starts.None? {
      return Err(TooManyMissed);
    }
    r := Ok(starts.value);
  }

  // ---------- any `next` at all ----------

  function Iterate(next: Schedule, t: Time, k: nat): Time
    decreases k
  {
    if k == 0 then t else Iterate(next, next(t), k - 1)
  }

  /** The first `n` candidates from `t` on are all in the past. */
  ghost predicate AllPast(next: Schedule, t: Time, now: Time, n: nat) {
    forall k: nat | k < n :: Iterate(next, t, k) <= now
  }

  lemma AllPastUnfold(next: Schedule, t: Time, now: Time, n: nat)
    ensures AllPast(next, t, now, n + 1) <==> t <= now && AllPast(next, next(t), now, n)
  {
    if AllPast(next, t, now, n + 1) {
      assert Iterate(next, t, 0) <= now;
      forall k: nat | k < n ensures Iterate(next, next(t), k) <= now {
        assert Iterate(next, t, k + 1) <= now;
      }
    } else {
      var k: nat :| k < n + 1 && Iterate(next, t, k) > now;
      if k > 0 {
        assert Iterate(next, next(t), k - 1) > now;
      }
    }
  }

  /** Without any law on `next`, the walk ends after at most `room + 1` candidates. It gives
      up exactly when all of them are in the past, and otherwise returns those before the
      first one in the future. */
  lemma {:induction false} WalkIsBounded(next: Schedule, t: Time, now: Time, room: nat)
    ensures Walk(next, t, now, room).None? <==> AllPast(next, t, now, room + 1)
    ensures Walk(next, t, now, room).Some? ==>
              var s := Walk(next, t, now, room).value;
              && |s| <= room
              && (forall i :: 0 <= i < |s| ==> s[i] == Iterate(next, t, i) <= now)
              && Iterate(next, t, |s|) > now
    decreases room
  {
    AllPastUnfold(next, t, now, room);
    if t <= now && room > 0 {
      WalkIsBounded(next, next(t), now, room - 1);
    }
  }

  // ---------- schedules that give up ----------

  /** The cron library's answer when it finds no tick within five years: the zero time. Counting
      on from there, more than a hundred candidates lie in the past. */
  ghost predicate GivesUp(next: Schedule, t: Time, to: Time) {
    next(t) == ZERO_TIME && AllPast(next, ZERO_TIME, to, MAX_MISSED + 1)
  }

  /** The next tick is in the future, except where the schedule gives up. Schedules that count
      from where they start do move. */
  ghost predicate Moves(next: Schedule, from: Time, to: Time) {
    forall t :: from <= t <= to ==> next(t) > t || GivesUp(next, t, to)
  }

  /** The schedule, if it parses, moves forward all that time. */
  ghost predicate Moving(parse: Parser, schedule: string, from: Time, to: Time) {
    parse(schedule).Some? ==> Moves(parse(schedule).value, from, to)
  }

  /** The schedule, if it parses, moves forward all that time and skips no tick. */
  ghost predicate Behaved(parse: Parser, schedule: string, from: Time, to: Time) {
    Moving(parse, schedule, from, to) && (parse(schedule).Some? ==> Settled(parse(schedule).value, from, to))
  }

  /** A date that never comes: the zero time, always. */
  ghost predicate Stuck(next: Schedule) {
    forall t :: next(t) == ZERO_TIME
  }

  /** A schedule that never ticks is reported as too many missed starts, and never as due. */
  lemma StuckScheduleNeverFires(parse: Parser, earliest: Time, now: Time, cron: string, deadline: int)
    requires parse(cron).Some? && Stuck(parse(cron).value)
    ensures UnmetTimes(parse, earliest, now, cron, deadline) ==
            if WindowStart(earliest, now, deadline) <= now && ZERO_TIME <= now then Err(TooManyMissed) else Ok([])
  {
    var next := parse(cron).value;
    WalkIsBounded(next, ZERO_TIME, now, MAX_MISSED);
    forall k: nat ensures Iterate(next, ZERO_TIME, k) == ZERO_TIME { StuckIterate(next, k); }
  }

  lemma {:induction false} StuckIterate(next: Schedule, k: nat)
    requires Stuck(next)
    ensures Iterate(next, ZERO_TIME, k) == ZERO_TIME
    decreases k
  {
    if k == 0 {
    } else {
      StuckIterate(next, k - 1);
    }
  }

  /** Giving up for ever is one way of behaving. */
  lemma StuckIsBehaved(parse: Parser, schedule: string, from: Time, to: Time)
    requires parse(schedule).Some? && Stuck(parse(schedule).value)
    ensures Behaved(parse, schedule, from, to)
  {
    var next := parse(schedule).value;
    forall k: nat ensures Iterate(next, ZERO_TIME, k) == ZERO_TIME { StuckIterate(next, k); }
  }

  lemma LawfulIsBehaved(parse: Parser, schedule: string, from: Time, to: Time)
    requires parse(schedule).Some? && Lawful(parse(schedule).value, from, to)
    ensures Behaved(parse, schedule, from, to)
  {}

  /** A schedule that counts from where it starts moves, though it is not lawful. */
  lemma CountingMoves(parse: Parser, schedule: string, delay: nat, from: Time, to: Time)
    requires delay > 0 && parse(schedule) == Some((t: Time) => t + delay)
    ensures Moving(parse, schedule, from, to)
    ensures delay > 1 && from < to ==> !Lawful(parse(schedule).value, from, to)
  {
    var next := parse(schedule).value;
    assert next(from + 1) != next(from);
  }

  /** Once a schedule has given up, the enumeration fails. */
  lemma GivingUpFails(next: Schedule, t: Time, now: Time, room: nat)
    requires GivesUp(next, t, now) && room <= MAX_MISSED
    ensures Walk(next, next(t), now, room).None?
  {
    WalkIsBounded(next, ZERO_TIME, now, room);
  }

  // ---------- the reference scan ----------

  lemma {:induction false} TickSeqIsExact(next: Schedule, a: Time, b: Time)
    ensures forall t :: t in TickSeq(next, a, b) <==> a < t <= b && IsTick(next, t)
    ensures forall i, j :: 0 <= i < j < |TickSeq(next, a, b)| ==> TickSeq(next, a, b)[i] < TickSeq(next, a, b)[j]
    decreases b - a
  {
    if b <= a {
    } else {
      TickSeqIsExact(next, a, b - 1);
      var s := TickSeq(next, a, b - 1);
      forall i | 0 <= i < |s| ensures s[i] < b { assert s[i] in s; }
    }
  }

  lemma {:induction false} IncreasingHasNoRepeats(s: seq<Time>)
    requires forall i, j :: 0 <= i < j < |s| ==> s[i] < s[j]
    ensures |set t | t in s| == |s|
  {
    if s == [] {
    } else {
      var n := |s| - 1;
      IncreasingHasNoRepeats(s[..n]);
      assert s[n] !in s[..n];
      assert (set t | t in s) == (set t | t in s[..n]) + {s[n]};
    }
  }

  /** The scan counts the ticks. */
  lemma TickSeqCounts(next: Schedule, a: Time, b: Time)
    ensures |TickSeq(next, a, b)| == |set t | a < t <= b && IsTick(next, t)|
  {
    TickSeqIsExact(next, a, b);
    IncreasingHasNoRepeats(TickSeq(next, a, b));
    assert (set t | t in TickSeq(next, a, b)) == set t | a < t <= b && IsTick(next, t);
  }

  lemma {:induction false} TickSeqSplit(next: Schedule, a: Time, m: Time, b: Time)
    requires a <= m <= b
    ensures TickSeq(next, a, b) == TickSeq(next, a, m) + TickSeq(next, m, b)
    decreases b - m
  {
    if b <= m {
    } else {
      TickSeqSplit(next, a, m, b - 1);
    }
  }

  /** No tick lies strictly between a time and its next tick. */
  lemma {:induction false} NoTickBeforeNext(next: Schedule, a: Time, b: Time)
    requires Settled(next, a, b) && b < next(a)
    ensures TickSeq(next, a, b) == []
    decreases b - a
  {
    if b <= a {
    } else {
      NoTickBeforeNext(next, a, b - 1);
      assert next(b - 1) == next(a);
    }
  }

  lemma {:induction false} WalkRefinesScan(next: Schedule, a: Time, now: Time, room: nat)
    requires a <= now && Lawful(next, a, now)
    ensures Walk(next, next(a), now, room) ==
            (var s := TickSeq(next, a, now); if |s| <= room then Some(s) else None)
    decreases room
  {
    var t := next(a);
    if t > now {
      NoTickBeforeNext(next, a, now);
    } else {
      TickSeqSplit(next, a, t, now);
      NoTickBeforeNext(next, a, t - 1);
      assert IsTick(next, t);
      assert TickSeq(next, a, t) == [t];
      if room > 0 { WalkRefinesScan(next, t, now, room - 1); }
    }
  }

  /** The enumerator returns every tick of the window, in order, unless there are more than
      a hundred of them; then, and only then, it fails. */
  lemma EnumeratorRefinesScan(parse: Parser, earliest: Time, now: Time, cron: string, deadline: int)
    requires parse(cron).Some? ==> Lawful(parse(cron).value, WindowStart(earliest, now, deadline), now)
    ensures UnmetTimes(parse, earliest, now, cron, deadline) ==
            match parse(cron)
            case None => Err(UnparseableSchedule(cron))
            case Some(next) =>
              var s := TickSeq(next, WindowStart(earliest, now, deadline), now);
              if |s| <= MAX_MISSED then Ok(s) else Err(TooManyMissed)
  {
    var start := WindowStart(earliest, now, deadline);
    if parse(cron).Some? && start <= now {
      WalkRefinesScan(parse(cron).value, start, now, MAX_MISSED);
    }
  }

  lemma {:induction false} WalkPrefix(next: Schedule, t: Time, now: Time, later: Time, room: nat)
    requires now <= later
    ensures var early, late := Walk(next, t, now, room), Walk(next, t, later, room);
            && (early.None? ==> late.None?)
            && (late.Some? ==> early.Some? && early.value <= late.value)
    decreases room
  {
    if t > now || room == 0 {
    } else {
      WalkPrefix(next, next(t), now, later, room - 1);
    }
  }

  /** Without a deadline, an earlier look sees a prefix of what a later look sees; so once
      there are too many missed starts there are too many ever after. No law is needed. */
  lemma PrefixMonotone(parse: Parser, earliest: Time, now: Time, later: Time, cron: string)
    requires now <= later
    ensures var early, late := UnmetTimes(parse, earliest, now, cron, 0), UnmetTimes(parse, earliest, later, cron, 0);
            && (early.Err? ==> late == early)
            && (late.Ok? ==> early.Ok? && early.value <= late.value)
  {
    if parse(cron).Some? {
      WalkPrefix(parse(cron).value, parse(cron).value(earliest), now, later, MAX_MISSED);
    }
  }

  lemma {:induction false} WalkMovesOn(next: Schedule, t: Time, now: Time, room: nat)
    requires Moves(next, t, now) && room <= MAX_MISSED && Walk(next, t, now, room).Some?
    ensures forall u :: u in Walk(next, t, now, room).value ==> t <= u <= now
    decreases room
  {
    if t > now {
    } else {
      if GivesUp(next, t, now) { GivingUpFails(next, t, now, room - 1); }
      WalkMovesOn(next, next(t), now, room - 1);
    }
  }

  /** A moving schedule's missed starts lie in the window. */
  lemma UnmetInWindow(parse: Parser, earliest: Time, now: Time, cron: string, deadline: int)
    requires Moving(parse, cron, WindowStart(earliest, now, deadline), now)
    requires UnmetTimes(parse, earliest, now, cron, deadline).Ok?
    ensures forall t :: t in UnmetTimes(parse, earliest, now, cron, deadline).value ==>
                          WindowStart(earliest, now, deadline) < t <= now
  {
    var next, start := parse(cron).value, WindowStart(earliest, now, deadline);
    if start <= now {
      if GivesUp(next, start, now) { GivingUpFails(next, start, now, MAX_MISSED); }
      WalkMovesOn(next, next(start), now, MAX_MISSED);
    }
  }

  lemma {:induction false} WalkFindsScan(next: Schedule, a: Time, now: Time, room: nat)
    requires a <= now && Moves(next, a, now) && Settled(next, a, now)
    requires room <= MAX_MISSED && Walk(next, next(a), now, room).Some?
    ensures Walk(next, next(a), now, room).value == TickSeq(next, a, now)
    decreases room
  {
    var t := next(a);
    if t > now {
      NoTickBeforeNext(next, a, now);
    } else {
      if GivesUp(next, a, now) { GivingUpFails(next, a, now, room); }
      TickSeqSplit(next, a, t, now);
      NoTickBeforeNext(next, a, t - 1);
      assert IsTick(next, t);
      assert TickSeq(next, a, t) == [t];
      WalkFindsScan(next, t, now, room - 1);
    }
  }

  /** What a successful enumeration of a schedule that may give up returns is the scan. */
  lemma UnmetIsScan(parse: Parser, earliest: Time, now: Time, cron: string, deadline: int)
    requires Behaved(parse, cron, WindowStart(earliest, now, deadline), now)
    requires UnmetTimes(parse, earliest, now, cron, deadline).Ok?
    ensures UnmetTimes(parse, earliest, now, cron, deadline).value ==
            TickSeq(parse(cron).value, WindowStart(earliest, now, deadline), now)
  {
    var start := WindowStart(earliest, now, deadline);
    if start <= now {
      WalkFindsScan(parse(cron).value, start, now, MAX_MISSED);
    }
  }

  // ---------- the latest tick of a window ----------

  /** `t` is the latest tick of `next` in `(start, now]`. */
  ghost predicate IsLatest(next: Schedule, start: Time, now: Time, t: Time) {
    start < t <= now && IsTick(next, t) && forall u :: t < u <= now ==> !IsTick(next, u)
  }

  /** What the controller looks at is the latest tick: the enumeration is non-empty exactly
      when the window has a tick, and then it ends with the latest one. */
  lemma LastUnmetIsLatest(parse: Parser, earliest: Time, now: Time, cron: string, deadline: int)
    requires Behaved(parse, cron, WindowStart(earliest, now, deadline), now)
    requires UnmetTimes(parse, earliest, now, cron, deadline).Ok?
    ensures var times := UnmetTimes(parse, earliest, now, cron, deadline).value;
            var next, start := parse(cron).value, WindowStart(earliest, now, deadline);
            && (times == [] <==> forall t :: start < t <= now ==> !IsTick(next, t))
            && (times != [] ==> forall t :: IsLatest(next, start, now, t) <==> t == times[|times| - 1])
  {
    var next, start := parse(cron).value, WindowStart(earliest, now, deadline);
    UnmetIsScan(parse, earliest, now, cron, deadline);
    LastOfScanIsLatest(next, start, now);
  }

  lemma LastOfScanIsLatest(next: Schedule, start: Time, now: Time)
    ensures var times := TickSeq(next, start, now);
            && (times == [] <==> forall t :: start < t <= now ==> !IsTick(next, t))
            && (times != [] ==> forall t :: IsLatest(next, start, now, t) <==> t == times[|times| - 1])
  {
    var times := TickSeq(next, start, now);
    TickSeqIsExact(next, start, now);
    if times != [] {
      var last := times[|times| - 1];
      assert last in times;
      forall t | IsLatest(next, start, now, t) ensures t == last {
        assert t in times;
      }
      forall u | last < u <= now ensures !IsTick(next, u) {
        assert u !in times;
      }
    }
  }
}
