/**
 * The older `MutableReminder.upcoming(from:limit:)` kept in Models.swift, which
 * `Reminder.upcoming` and so the notification schedule call. It reads the
 * clock (`Date()`, here the parameter `now`) and recurses into itself, guards
 * and all. It differs from the newer generator only in its monthly rule: it
 * restarts a month later while `now`, rather than the origin, is past the
 * day's candidate.
 */
module OlderGenerator {
  import opened Calendar
  import opened Models
  import opened MutableReminders

  /**
   * `upcoming(from:limit:)` of the older struct, with `depth` bounding the
   * recursion. The last-day-of-month rule postdates it and is generated as the
   * newer generator does.
   */
  function OlderUpcoming(m: MutableReminder, from: Date, now: Date, limit: int, depth: nat): (r: seq<Date>)
    requires HaltUsable(m)
    ensures limit <= 0 || !m.enabled ==> r == []
    ensures |r| <= if limit > 0 then limit else 0
    decreases depth
  {
    if limit <= 0 || !m.enabled then []
    else
      var sc := StartCandidate(m, from);
      match m.whenInterval
      case NoRepeat =>
        if Instant(sc) > Instant(now) then [sc] else []
      case Daily =>
        if SelectedWeekDays(m) == [] then []
        else
          var batch := DayBatch(m, from, limit, OnWeekDay(SelectedWeekDays(m)));
          if |batch| < limit && depth > 0 then batch + OlderUpcoming(m, AddDays(from, limit), now, Remaining(limit, batch), OneLess(depth))
          else batch
      case Monthly =>
        if Instant(now) > Instant(sc) then
          if depth > 0 then OlderUpcoming(m, AddMonths(sc, 1), now, limit, OneLess(depth)) else []
        else
          var batch := MonthBatch(m, sc, limit);
          if |batch| < limit && depth > 0 then batch + OlderUpcoming(m, AddMonths(from, limit), now, Remaining(limit, batch), OneLess(depth))
          else batch
      case DaysOfMonth =>
        if SelectedDaysOfMonth(m) == [] then []
        else
          var batch := DayBatch(m, from, limit, OnDayOfMonth(SelectedDaysOfMonth(m)));
          if |batch| < limit && depth > 0 then batch + OlderUpcoming(m, AddDays(from, limit), now, Remaining(limit, batch), OneLess(depth))
          else batch
      case LastDayOfMonth =>
        LastDaySteps(m, from, now, limit, depth)
  }

  /** The day test of a day-stepping rule, as the generators filter with it. */
  predicate DayRule(m: MutableReminder, t: Test) {
    || (m.whenInterval == Interval.Daily && SelectedWeekDays(m) != [] && t == OnWeekDay(SelectedWeekDays(m)))
    || (m.whenInterval == Interval.DaysOfMonth && SelectedDaysOfMonth(m) != [] && t == OnDayOfMonth(SelectedDaysOfMonth(m)))
  }

  /** A day-stepping batch that falls short is followed by the older generator's rest. */
  lemma OlderDayMore(m: MutableReminder, from: Date, now: Date, limit: int, depth: nat, t: Test, batch: seq<Date>,
                     next: Date, left: int, lower: nat, rest: seq<Date>)
    requires HaltUsable(m) && m.enabled && DayRule(m, t) && limit > 0 && depth > 0
    requires batch == DayBatch(m, from, limit, t) && |batch| < limit
    requires next == AddDays(from, limit) && left == Remaining(limit, batch) && lower == OneLess(depth)
    requires rest == OlderUpcoming(m, next, now, left, lower)
    ensures OlderUpcoming(m, from, now, limit, depth) == batch + rest
  {
  }

  /** Otherwise the older day-stepping recursion ends with its batch. */
  lemma OlderDayLast(m: MutableReminder, from: Date, now: Date, limit: int, depth: nat, t: Test, batch: seq<Date>)
    requires HaltUsable(m) && m.enabled && DayRule(m, t) && limit > 0
    requires batch == DayBatch(m, from, limit, t) && (|batch| >= limit || depth == 0)
    ensures OlderUpcoming(m, from, now, limit, depth) == batch
  {
  }

  /**
   * Outside the monthly rule the older generator, with the clock reading as
   * `now`, gives what the newer one gives: its one-off branch tests the same
   * candidate against the clock, and its daily and days-of-month recursion
   * re-enters the same branch with the guards still holding.
   */
  lemma {:induction false} OlderAgrees(m: MutableReminder, from: Date, now: Date, limit: int, depth: nat)
    requires HaltUsable(m) && m.whenInterval != Interval.Monthly
    ensures OlderUpcoming(m, from, now, limit, depth) == Upcoming(m, from, now, limit, depth)
    decreases depth
  {
    if limit > 0 && m.enabled {
      var t := if m.whenInterval == Interval.Daily then OnWeekDay(SelectedWeekDays(m)) else OnDayOfMonth(SelectedDaysOfMonth(m));
      if DayRule(m, t) {
        var batch := DayBatch(m, from, limit, t);
        assert Upcoming(m, from, now, limit, depth) == DaySteps(m, from, limit, depth, t);
        if |batch| < limit && depth > 0 {
          var next, left, lower := AddDays(from, limit), Remaining(limit, batch), OneLess(depth);
          var rest := OlderUpcoming(m, next, now, left, lower);
          OlderDayMore(m, from, now, limit, depth, t, batch, next, left, lower, rest);
          OlderAgrees(m, next, now, left, lower);
          assert rest == DaySteps(m, next, left, lower, t);
          DayStepsMore(m, from, limit, depth, t, batch, next, left, lower, rest);
        } else {
          OlderDayLast(m, from, now, limit, depth, t, batch);
          DayStepsLast(m, from, limit, depth, t, batch);
        }
      }
    }
  }

  /** A monthly restart moves on to the candidate a month later. */
  lemma OlderRestart(m: MutableReminder, from: Date, now: Date, limit: int, depth: nat, sc: Date, next: Date, lower: nat, rest: seq<Date>)
    requires HaltUsable(m) && m.enabled && m.whenInterval == Interval.Monthly && limit > 0 && depth > 0
    requires sc == StartCandidate(m, from) && Instant(now) > Instant(sc)
    requires next == AddMonths(sc, 1) && lower == OneLess(depth) && rest == OlderUpcoming(m, next, now, limit, lower)
    ensures OlderUpcoming(m, from, now, limit, depth) == rest
  {
  }

  /** A monthly batch that falls short is followed by the rest from the origin moved `limit` months on. */
  lemma OlderMore(m: MutableReminder, from: Date, now: Date, limit: int, depth: nat, sc: Date, batch: seq<Date>,
                  next: Date, left: int, lower: nat, rest: seq<Date>)
    requires HaltUsable(m) && m.enabled && m.whenInterval == Interval.Monthly && limit > 0 && depth > 0
    requires sc == StartCandidate(m, from) && Instant(now) <= Instant(sc)
    requires batch == MonthBatch(m, sc, limit) && |batch| < limit
    requires next == AddMonths(from, limit) && left == Remaining(limit, batch) && lower == OneLess(depth)
    requires rest == OlderUpcoming(m, next, now, left, lower)
    ensures OlderUpcoming(m, from, now, limit, depth) == batch + rest
  {
  }

  /** Otherwise the older monthly recursion ends. */
  lemma OlderLast(m: MutableReminder, from: Date, now: Date, limit: int, depth: nat, sc: Date, batch: seq<Date>)
    requires HaltUsable(m) && m.enabled && m.whenInterval == Interval.Monthly && limit > 0
    requires sc == StartCandidate(m, from) && batch == MonthBatch(m, sc, limit)
    ensures Instant(now) > Instant(sc) && depth == 0 ==> OlderUpcoming(m, from, now, limit, depth) == []
    ensures Instant(now) <= Instant(sc) && (|batch| >= limit || depth == 0) ==> OlderUpcoming(m, from, now, limit, depth) == batch
  {
  }

  /** Joining a run of months before month `k` to a run of months from `k` on. */
  lemma JoinByMonth(u: Test, low: int, k: int, a: seq<Date>, b: seq<Date>)
    requires Usable(u)
    requires Increasing(a) && AllPass(u, a) && forall d | d in a :: low <= Instant(d) && MonthIndex(d.civil) < k
    requires Increasing(b) && AllPass(u, b) && forall d | d in b :: low <= Instant(d) && k <= MonthIndex(d.civil)
    ensures Increasing(a + b) && AllPass(u, a + b)
    ensures forall d | d in a + b :: low <= Instant(d)
  {
    forall d, e | d in a && e in b
      ensures Instant(d) < Instant(e)
    {
      EarlierMonthIsEarlier(d, e);
    }
    IncreasingConcat(a, b);
  }

  /** A monthly batch lies in the months from its candidate's to just before `limit` months on. */
  lemma MonthBatchMonths(m: MutableReminder, sc: Date, limit: nat)
    requires HaltUsable(m)
    ensures forall d | d in MonthBatch(m, sc, limit) ::
      MonthIndex(sc.civil) <= MonthIndex(d.civil) < MonthIndex(sc.civil) + limit
  {
    var w := MonthWindow(sc, limit);
    forall d | d in w
      ensures MonthIndex(sc.civil) <= MonthIndex(d.civil) < MonthIndex(sc.civil) + limit
    {
      var i :| 0 <= i < limit && w[i] == d;
      AddMonthsDay(sc, i);
    }
  }

  /**
   * The older monthly recursion gives an increasing run, none of it halted,
   * none of it before `now`, none in a month before the origin's.
   */
  lemma {:induction false} OlderMonthlyFacts(m: MutableReminder, from: Date, now: Date, limit: int, depth: nat)
    requires HaltUsable(m) && m.whenInterval == Interval.Monthly
    ensures Increasing(OlderUpcoming(m, from, now, limit, depth))
    ensures AllPass(NotHalted(AsHalt(m)), OlderUpcoming(m, from, now, limit, depth))
    ensures forall d | d in OlderUpcoming(m, from, now, limit, depth) ::
      Instant(now) <= Instant(d) && MonthIndex(from.civil) <= MonthIndex(d.civil)
    decreases depth, 1
  {
    if limit > 0 && m.enabled {
      var sc := StartCandidate(m, from);
      if Instant(now) > Instant(sc) {
        OlderLast(m, from, now, limit, depth, sc, MonthBatch(m, sc, limit));
        if depth > 0 {
          var next, lower := AddMonths(sc, 1), OneLess(depth);
          var rest := OlderUpcoming(m, next, now, limit, lower);
          OlderRestart(m, from, now, limit, depth, sc, next, lower, rest);
          OlderMonthlyFacts(m, next, now, limit, lower);
          AddMonthsDay(sc, 1);
        }
      } else {
        OlderBatchStepFacts(m, from, now, limit, depth, sc);
      }
    }
  }

  /** The same, once the day's candidate is not before `now`: a batch, then possibly the rest. */
  lemma {:induction false} OlderBatchStepFacts(m: MutableReminder, from: Date, now: Date, limit: int, depth: nat, sc: Date)
    requires HaltUsable(m) && m.enabled && m.whenInterval == Interval.Monthly && limit > 0
    requires sc == StartCandidate(m, from) && Instant(now) <= Instant(sc)
    ensures Increasing(OlderUpcoming(m, from, now, limit, depth))
    ensures AllPass(NotHalted(AsHalt(m)), OlderUpcoming(m, from, now, limit, depth))
    ensures forall d | d in OlderUpcoming(m, from, now, limit, depth) ::
      Instant(now) <= Instant(d) && MonthIndex(from.civil) <= MonthIndex(d.civil)
    decreases depth, 0
  {
    var batch := MonthBatch(m, sc, limit);
    var next := AddMonths(from, limit);
    OlderLast(m, from, now, limit, depth, sc, batch);
    AddMonthsDay(from, limit);
    MonthBatchFacts(m, sc, limit, next);
    MonthBatchMonths(m, sc, limit);
    if |batch| < limit && depth > 0 {
      var left, lower := Remaining(limit, batch), OneLess(depth);
      var rest := OlderUpcoming(m, next, now, left, lower);
      OlderMore(m, from, now, limit, depth, sc, batch, next, left, lower, rest);
      OlderMonthlyFacts(m, next, now, left, lower);
      JoinByMonth(NotHalted(AsHalt(m)), Instant(now), MonthIndex(next.civil), batch, rest);
    }
  }

  /**
   * Every monthly result of the older generator is at or after `now`; the
   * results increase and none is halted.
   */
  lemma OlderMonthlyResults(m: MutableReminder, from: Date, now: Date, limit: int, depth: nat)
    requires HaltUsable(m) && m.whenInterval == Interval.Monthly
    ensures Increasing(OlderUpcoming(m, from, now, limit, depth))
    ensures forall d | d in OlderUpcoming(m, from, now, limit, depth) ::
      Instant(now) <= Instant(d) && !(AsHalt(m).Some? && IsHalted(AsHalt(m).value, d))
  {
    var r := OlderUpcoming(m, from, now, limit, depth);
    OlderMonthlyFacts(m, from, now, limit, depth);
    forall d | d in r
      ensures Instant(now) <= Instant(d) && !(AsHalt(m).Some? && IsHalted(AsHalt(m).value, d))
    {
      assert Passes(NotHalted(AsHalt(m)), d);
    }
  }

  /** `Reminder.upcoming(from:limit:)`: the older generator on the editable form. */
  function ReminderUpcoming(r: Reminder, from: Date, now: Date, limit: int, depth: nat): (ds: seq<Date>)
    requires r.halt.Some? ==> r.halt.value.spec.nth != 0
    ensures |ds| <= if limit > 0 then limit else 0
  {
    MutableHalt(r, now);
    OlderUpcoming(Mutable(r, now), from, now, limit, depth)
  }
}
