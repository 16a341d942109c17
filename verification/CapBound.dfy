/** How large `startingDeadlineSeconds` may be before the hundred-start cap can strike. */
module CapBound {
  import opened Types
  import opened Schedules

  /** A tick is followed by none for at least `g` seconds. */
  ghost predicate Spaced(next: Schedule, g: nat, from: Time, to: Time) {
    forall t :: from <= t && next(t) <= to ==> next(next(t)) - next(t) >= g
  }

  /** Lawful and spaced over the window. */
  ghost predicate Regular(parse: Parser, cron: string, g: nat, from: Time, to: Time) {
    parse(cron).Some? && Lawful(parse(cron).value, from, to) && Spaced(parse(cron).value, g, from, to)
  }

  /** Whatever the schedule, provided its ticks are `g` apart, and whatever the clock and
      the last firing, deadline `d` keeps the enumerator from failing. */
  ghost predicate NeverOverflows(g: nat, d: int) {
    forall parse: Parser, cron: string, last: Time, now: Time
      | Regular(parse, cron, g, WindowStart(last, now, d), now)
      :: UnmetTimes(parse, last, now, cron, d).Ok?
  }

  lemma TicksApart(next: Schedule, g: nat, from: Time, to: Time, u: Time, v: Time)
    requires Lawful(next, from, to) && Spaced(next, g, from, to)
    requires IsTick(next, u) && IsTick(next, v) && from < u < v <= to
    ensures v - u >= g
  {
    assert u <= v - 1 < next(u) ==> next(v - 1) == next(u);
    assert next(next(u - 1)) - next(u - 1) >= g;
  }

  lemma MulStep(k: int, g: nat)
    ensures k * g == (k - 1) * g + g
  {}

  lemma {:induction false} SpreadOfTicks(next: Schedule, g: nat, from: Time, to: Time, s: seq<Time>, k: nat)
    requires Lawful(next, from, to) && Spaced(next, g, from, to) && k < |s|
    requires forall i :: 0 <= i < |s| ==> from < s[i] <= to && IsTick(next, s[i])
    requires forall i, j :: 0 <= i < j < |s| ==> s[i] < s[j]
    ensures s[k] - s[0] >= k * g
  {
    if k == 0 {
    } else {
      SpreadOfTicks(next, g, from, to, s, k - 1);
      TicksApart(next, g, from, to, s[k - 1], s[k]);
      MulStep(k, g);
    }
  }

  lemma MulMono(a: int, b: int, g: nat)
    ensures a <= b ==> a * g <= b * g
  {
    if a <= b { assert b * g == a * g + (b - a) * g; }
  }

  /** A window no longer than a hundred spacings holds at most a hundred ticks. */
  lemma ShortWindowFits(next: Schedule, g: nat, start: Time, now: Time)
    requires Lawful(next, start, now) && Spaced(next, g, start, now)
    requires now - start <= 100 * g
    ensures |TickSeq(next, start, now)| <= MAX_MISSED
  {
    TickSeqIsExact(next, start, now);
    var s := TickSeq(next, start, now);
    if s != [] {
      forall i | 0 <= i < |s| ensures start < s[i] <= now && IsTick(next, s[i]) { assert s[i] in s; }
      SpreadOfTicks(next, g, start, now, s, |s| - 1);
      MulMono(100, |s| - 1, g);
    }
  }

  lemma ShortDeadlineIsSafe(g: nat, d: int)
    requires 0 < d <= 100 * g
    ensures NeverOverflows(g, d)
  {
    forall parse: Parser, cron: string, last: Time, now: Time
      | Regular(parse, cron, g, WindowStart(last, now, d), now)
      ensures UnmetTimes(parse, last, now, cron, d).Ok?
    {
      EnumeratorRefinesScan(parse, last, now, cron, d);
      ShortWindowFits(parse(cron).value, g, WindowStart(last, now, d), now);
    }
  }

  // ---------- the periodic schedule ----------

  /** Ticks at the multiples of `g`. */
  function Periodic(g: nat): Schedule
    requires g > 0
  {
    t => t - t % g + g
  }

  lemma RemainderUnique(t: int, g: nat, q: int, r: nat)
    requires g > 0 && r < g && t == q * g + r
    ensures t % g == r
  {
    var p := t / g;
    assert t == p * g + t % g;
    assert p * g - q * g == (p - q) * g;
    MulMono(p - q, -1, g);
    MulMono(1, p - q, g);
  }

  lemma PeriodicSettled(g: nat, t: Time, u: Time)
    requires g > 0 && t <= u < Periodic(g)(t)
    ensures Periodic(g)(u) == Periodic(g)(t)
  {
    RemainderUnique(u, g, t / g, u - t + t % g);
  }

  lemma PeriodicAtMultiple(g: nat, m: Time, q: int)
    requires g > 0 && m == q * g
    ensures Periodic(g)(m) == m + g == (q + 1) * g
  {
    RemainderUnique(m, g, q, 0);
  }

  lemma PeriodicAdvances(g: nat, t: Time)
    requires g > 0
    ensures Periodic(g)(t) > t
  {}

  lemma PeriodicSpaced(g: nat, t: Time)
    requires g > 0
    ensures Periodic(g)(Periodic(g)(t)) - Periodic(g)(t) >= g
  {
    PeriodicAtMultiple(g, Periodic(g)(t), t / g + 1);
  }

  /** The laws are not vacuous: every period gives a lawful schedule with that spacing. */
  lemma PeriodicIsLawful(g: nat, from: Time, to: Time)
    requires g > 0
    ensures Lawful(Periodic(g), from, to) && Spaced(Periodic(g), g, from, to)
  {
    forall t ensures Periodic(g)(t) > t { PeriodicAdvances(g, t); }
    forall t ensures Periodic(g)(Periodic(g)(t)) - Periodic(g)(t) >= g { PeriodicSpaced(g, t); }
    forall t, u | t <= u < Periodic(g)(t) ensures Periodic(g)(u) == Periodic(g)(t) { PeriodicSettled(g, t, u); }
  }

  lemma {:induction false} PeriodicIterate(g: nat, m: Time, q: int, k: nat)
    requires g > 0 && m == q * g
    ensures Iterate(Periodic(g), m, k) == m + k * g
    decreases k
  {
    if k == 0 {
    } else {
      PeriodicAtMultiple(g, m, q);
      PeriodicIterate(g, m + g, q + 1, k - 1);
      assert k * g == (k - 1) * g + g;
    }
  }

  lemma PeriodicFillsWindow(g: nat)
    requires g > 0
    ensures AllPast(Periodic(g), Periodic(g)(-100 * g - 1), 0, 101)
  {
    var m := -100 * g;
    RemainderUnique(m - 1, g, -101, g - 1);
    forall k: nat | k < 101 ensures Iterate(Periodic(g), m, k) <= 0 {
      PeriodicIterate(g, m, -100, k);
      MulMono(k, 100, g);
    }
  }

  lemma CapStrikes(parse: Parser, cron: string, g: nat, d: int, last: Time)
    requires g > 0 && (d == 0 || d > 100 * g) && last == -100 * g - 1
    requires parse(cron) == Some(Periodic(g))
    ensures UnmetTimes(parse, last, 0, cron, d) == Err(TooManyMissed)
  {
    PeriodicFillsWindow(g);
    WalkIsBounded(Periodic(g), Periodic(g)(last), 0, MAX_MISSED);
    assert WindowStart(last, 0, d) == last;
  }

  lemma OverflowWitness(parse: Parser, cron: string, g: nat, d: int, last: Time, now: Time)
    requires Regular(parse, cron, g, WindowStart(last, now, d), now)
    requires UnmetTimes(parse, last, now, cron, d).Err?
    ensures !NeverOverflows(g, d)
  {}

  /** One second more than a hundred periods, or no deadline at all, lets 101 starts in. */
  lemma LongDeadlineOverflows(g: nat, d: int)
    requires g > 0 && (d == 0 || d > 100 * g)
    ensures !NeverOverflows(g, d)
  {
    var next := Periodic(g);
    var parse: Parser := (cron: string) => Some(next);
    var last := -100 * g - 1;
    PeriodicIsLawful(g, WindowStart(last, 0, d), 0);
    CapStrikes(parse, "", g, d, last);
    OverflowWitness(parse, "", g, d, last, 0);
  }

  /** The bound is tight in both directions. A negative deadline admits no start at all. */
  lemma CapIsTight(g: nat, d: int)
    requires g > 0
    ensures NeverOverflows(g, d) <==> d < 0 || 0 < d <= 100 * g
  {
    if d == 0 || d > 100 * g {
      LongDeadlineOverflows(g, d);
    } else if d > 0 {
      ShortDeadlineIsSafe(g, d);
    }
  }
}
