/**
 * Pill/Models/MutableReminder.swift: reading a reminder back out of its
 * editable form (`asWhen`, `asHalt`, `immutable`), the last-day-of-month test,
 * and the occurrence generator `upcoming(from:now:limit:)`.
 *
 * The generator works in windows: it lays out `limit` candidate dates (days
 * or months), filters them, and when fewer than `limit` survive it moves the
 * origin `limit` days (or months) on and asks for the rest. The source's
 * recursion is unbounded; here it carries a fuel `depth`, and a call that
 * would recurse with no fuel left returns the batch it has.
 */
module MutableReminders {
  import opened Wrappers
  import opened Calendar
  import opened Selections
  import opened Models

  // ---- reading the editable form back ----

  /** `selectedWeekDays`: the ticked weekdays, Monday first. */
  function SelectedWeekDays(m: MutableReminder): seq<WeekDay> { SelectedDays(m.whenWeekDays) }

  /** `selectedDaysOfMonth`: the ticked days of the month, in row order. */
  function SelectedDaysOfMonth(m: MutableReminder): seq<int> { SelectedDays(m.whenDaysOfMonth) }

  /** `asHalt`: the halt rule of the chosen kind, every `haltNth`, anchored at `start`. */
  function AsHalt(m: MutableReminder): (h: Option<Halt>)
    ensures h.None? <==> m.haltInterval == NoHalt
    ensures h.Some? ==> HaltIntervalOf(h.value) == m.haltInterval && h.value.spec == NthSpec(m.start, m.haltNth)
  {
    match m.haltInterval
    case NoHalt => None
    case WeekInterval => Some(NthWeek(NthSpec(m.start, m.haltNth)))
    case MonthInterval => Some(NthMonth(NthSpec(m.start, m.haltNth)))
  }

  /**
   * `asWhen`: the rule of the chosen kind at the time of `timeAsDate`, with the
   * ticked days; a one-off reminder fires on its start day.
   */
  function AsWhen(m: MutableReminder): (w: When)
    ensures IntervalOf(w) == m.whenInterval
    ensures TimeOfWhen(w) == TimeOf(m.timeAsDate)
    ensures w.Once? ==> w.date.civil == m.start.civil
    ensures w.Daily? ==> w.weekDays == SelectedWeekDays(m)
    ensures w.DaysOfMonth? ==> w.monthDays == SelectedDaysOfMonth(m)
  {
    var time := TimeOf(m.timeAsDate);
    match m.whenInterval
    case NoRepeat => When.Once(At(m.start, time))
    case Daily => When.Daily(SelectedWeekDays(m), time)
    case Monthly => When.Monthly(time)
    case DaysOfMonth => When.DaysOfMonth(SelectedDaysOfMonth(m), time)
    case LastDayOfMonth => When.LastDayOfMonth(time)
  }

  /** `immutable`. */
  function Immutable(m: MutableReminder): Reminder {
    Reminder(m.id, m.enabled, m.name, AsWhen(m), AsHalt(m), m.start)
  }

  /** `isLastDayOfMonth`: the next day is in another month, exactly when the date is its month's last day. */
  function IsLastDayOfMonth(d: Date): (b: bool)
    ensures b <==> d.civil.day == DaysInMonth(d.civil.year, d.civil.month)
  {
    Tomorrow(d).civil.month != d.civil.month
  }

  // ---- filtering candidates ----

  /** The tests the generator filters its candidate windows with. */
  datatype Test =
    | OnWeekDay(weekDays: seq<WeekDay>)
    | OnDayOfMonth(monthDays: seq<int>)
    | NotHalted(halt: Option<Halt>)
    | LastDayAfter(now: Date)

  /** A halt rule with `nth == 0` would trap on its remainder. */
  predicate Usable(t: Test) {
    t.NotHalted? && t.halt.Some? ==> t.halt.value.spec.nth != 0
  }

  predicate Passes(t: Test, d: Date)
    requires Usable(t)
  {
    match t
    case OnWeekDay(days) => WeekDayOf(d).Ok? && WeekDayOf(d).value in days
    case OnDayOfMonth(days) => d.civil.day in days
    case NotHalted(h) => !(h.Some? && IsHalted(h.value, d))
    case LastDayAfter(now) => IsLastDayOfMonth(d) && Instant(d) > Instant(now)
  }

  /** Strictly increasing in time. */
  predicate Increasing(s: seq<Date>) {
    forall i, j :: 0 <= i < j < |s| ==> Instant(s[i]) < Instant(s[j])
  }

  /** `filter`: the candidates that pass, in their order. */
  function Keep(t: Test, s: seq<Date>): (r: seq<Date>)
    requires Usable(t)
    ensures |r| <= |s|
    ensures forall d :: d in r <==> d in s && Passes(t, d)
    ensures (forall d | d in s :: Passes(t, d)) ==> r == s
    decreases |s|
  {
    if s == [] then []
    else (if Passes(t, s[0]) then [s[0]] else []) + Keep(t, s[1..])
  }

  /** Filtering keeps the order. */
  lemma {:induction false} KeepIncreasing(t: Test, s: seq<Date>)
    requires Usable(t) && Increasing(s)
    ensures Increasing(Keep(t, s))
    decreases |s|
  {
    if s != [] {
      var tail := s[1..];
      IncreasingTail(s);
      KeepIncreasing(t, tail);
      if Passes(t, s[0]) {
        var kept := Keep(t, tail);
        forall d | d in kept ensures Instant(s[0]) < Instant(d) {
          assert d in tail;
        }
        IncreasingConcat([s[0]], kept);
      }
    }
  }

  /** The tail of an increasing run is increasing and comes after its head. */
  lemma IncreasingTail(s: seq<Date>)
    requires s != [] && Increasing(s)
    ensures Increasing(s[1..]) && forall d | d in s[1..] :: Instant(s[0]) < Instant(d)
  {
    var tail := s[1..];
    forall i, j | 0 <= i < j < |tail| ensures Instant(tail[i]) < Instant(tail[j]) {
      assert tail[i] == s[i + 1] && tail[j] == s[j + 1];
    }
    forall d | d in tail ensures Instant(s[0]) < Instant(d) {
      var j :| 0 <= j < |tail| && tail[j] == d;
      assert s[j + 1] == d;
    }
  }

  /** Two increasing runs, the first wholly before the second, make an increasing run. */
  lemma IncreasingConcat(a: seq<Date>, b: seq<Date>)
    requires Increasing(a) && Increasing(b)
    requires forall d, e | d in a && e in b :: Instant(d) < Instant(e)
    ensures Increasing(a + b)
  {
    var c := a + b;
    forall i, j | 0 <= i < j < |c| ensures Instant(c[i]) < Instant(c[j]) {
      if j < |a| {
        assert c[i] == a[i] && c[j] == a[j];
      } else if i >= |a| {
        assert c[i] == b[i - |a|] && c[j] == b[j - |a|];
      } else {
        assert c[i] == a[i] && c[j] == b[j - |a|];
      }
    }
  }

  /** `(0..<count).compactMap { cal.date(byAdding: .day, value: $0, to: first) }`. */
  function DayWindow(first: Date, count: nat): (w: seq<Date>)
    ensures |w| == count && Increasing(w)
    ensures forall i :: 0 <= i < count ==> Instant(w[i]) == Instant(first) + i * SecondsPerDay
  {
    seq(count, i requires 0 <= i < count => AddDays(first, i))
  }

  /** `(0..<count).compactMap { cal.date(byAdding: .month, value: $0, to: first) }`. */
  function MonthWindow(first: Date, count: nat): (w: seq<Date>)
    ensures |w| == count
    ensures forall i :: 0 <= i < count ==> w[i] == AddMonths(first, i)
  {
    seq(count, i requires 0 <= i < count => AddMonths(first, i))
  }

  lemma MonthWindowIncreasing(first: Date, count: nat)
    ensures Increasing(MonthWindow(first, count))
  {
    var w := MonthWindow(first, count);
    forall i, j | 0 <= i < j < count
      ensures Instant(w[i]) < Instant(w[j])
    {
      AddMonthsIncreasing(first, i, j);
    }
  }

  // ---- the generator ----

  /** `asHalt()` can be evaluated on every candidate. */
  predicate HaltUsable(m: MutableReminder) {
    m.haltInterval != NoHalt ==> m.haltNth != 0
  }

  /** `startCandidate`: the origin's day at the reminder's time. */
  function StartCandidate(m: MutableReminder, from: Date): (sc: Date)
    ensures sc.civil == from.civil && sc.second == SecondOfDay(TimeOf(m.timeAsDate))
  {
    At(from, TimeOf(m.timeAsDate))
  }

  /** `next`: today's candidate when it is still ahead of the origin, else tomorrow's. */
  function FirstCandidate(from: Date, startCandidate: Date): Date {
    if Instant(from) < Instant(startCandidate) then startCandidate else Tomorrow(startCandidate)
  }

  /** The day-stepping batch of the daily and days-of-month rules: window, day test, halt test. */
  function DayBatch(m: MutableReminder, from: Date, limit: nat, t: Test): seq<Date>
    requires HaltUsable(m) && Usable(t)
  {
    var window := DayWindow(FirstCandidate(from, StartCandidate(m, from)), limit);
    Keep(NotHalted(AsHalt(m)), Keep(t, window))
  }

  /** The monthly batch: `limit` months from the candidate, halt test. */
  function MonthBatch(m: MutableReminder, startCandidate: Date, limit: nat): seq<Date>
    requires HaltUsable(m)
  {
    Keep(NotHalted(AsHalt(m)), MonthWindow(startCandidate, limit))
  }

  /** The last-day-of-month batch: `limit` days from the candidate, last days after `now`; no halt test. */
  function LastDayBatch(startCandidate: Date, now: Date, limit: nat): seq<Date> {
    Keep(LastDayAfter(now), DayWindow(startCandidate, limit))
  }

  /** `limit - batch.count`: how many dates the recursion still asks for. */
  function Remaining(limit: int, batch: seq<Date>): int { limit - |batch| }

  /** One round of fuel spent. */
  function OneLess(depth: nat): nat
    requires depth > 0
  {
    depth - 1
  }

  /**
   * The day-stepping recursion of the daily and days-of-month rules: a batch,
   * then, while it falls short, the rest from the origin moved `limit` days on.
   * The guards of `upcoming` (positive limit, enabled, some day ticked) hold
   * again on every recursive call, so the recursion stays in this rule.
   */
  function DaySteps(m: MutableReminder, from: Date, limit: int, depth: nat, t: Test): (r: seq<Date>)
    requires HaltUsable(m) && Usable(t)
    ensures limit <= 0 ==> r == []
    ensures |r| <= if limit > 0 then limit else 0
    decreases depth
  {
    if limit <= 0 then []
    else
      var batch := DayBatch(m, from, limit, t);
      if |batch| < limit && depth > 0 then batch + DaySteps(m, AddDays(from, limit), Remaining(limit, batch), OneLess(depth), t)
      else batch
  }

  /**
   * The recursion of the monthly rule: an origin already past its day's
   * candidate restarts from the candidate a month on; otherwise a batch of
   * `limit` months, then the rest from the origin moved `limit` months on.
   */
  function MonthSteps(m: MutableReminder, from: Date, limit: int, depth: nat): (r: seq<Date>)
    requires HaltUsable(m)
    ensures limit <= 0 ==> r == []
    ensures |r| <= if limit > 0 then limit else 0
    decreases depth
  {
    if limit <= 0 then []
    else
      var sc := StartCandidate(m, from);
      if Instant(from) > Instant(sc) then
        if depth > 0 then MonthSteps(m, AddMonths(sc, 1), limit, OneLess(depth)) else []
      else
        var batch := MonthBatch(m, sc, limit);
        if |batch| < limit && depth > 0 then batch + MonthSteps(m, AddMonths(from, limit), Remaining(limit, batch), OneLess(depth))
        else batch
  }

  /** The recursion of the last-day-of-month rule. */
  function LastDaySteps(m: MutableReminder, from: Date, now: Date, limit: int, depth: nat): (r: seq<Date>)
    ensures limit <= 0 ==> r == []
    ensures |r| <= if limit > 0 then limit else 0
    decreases depth
  {
    if limit <= 0 then []
    else
      var batch := LastDayBatch(StartCandidate(m, from), now, limit);
      if |batch| < limit && depth > 0 then batch + LastDaySteps(m, AddDays(from, limit), now, Remaining(limit, batch), OneLess(depth))
      else batch
  }

  /** `upcoming(from:now:limit:)`, with `depth` bounding the recursion. */
  function Upcoming(m: MutableReminder, from: Date, now: Date, limit: int, depth: nat): (r: seq<Date>)
    requires HaltUsable(m)
    ensures limit <= 0 ==> r == []
    ensures |r| <= if limit > 0 then limit else 0
  {
    if limit <= 0 || !m.enabled then []
    else
      match m.whenInterval
      case NoRepeat =>
        var sc := StartCandidate(m, from);
        if Instant(sc) > Instant(now) then [sc] else []
      case Daily =>
        if SelectedWeekDays(m) == [] then []
        else DaySteps(m, from, limit, depth, OnWeekDay(SelectedWeekDays(m)))
      case Monthly =>
        MonthSteps(m, from, limit, depth)
      case DaysOfMonth =>
        if SelectedDaysOfMonth(m) == [] then []
        else DaySteps(m, from, limit, depth, OnDayOfMonth(SelectedDaysOfMonth(m)))
      case LastDayOfMonth =>
        LastDaySteps(m, from, now, limit, depth)
  }

  // ---- what the generator promises ----

  /** No ticked row means no selected day. */
  lemma NothingTicked<D>(rows: seq<Selection<D>>)
    requires forall i | 0 <= i < |rows| :: !rows[i].isSelected
    ensures SelectedDays(rows) == []
  {
    if SelectedDays(rows) != [] {
      SelectedDaysMembership(rows, SelectedDays(rows)[0]);
    }
  }

  /**
   * Nothing comes back for a non-positive limit, a disabled reminder, a daily
   * rule with no weekday ticked, or a days-of-month rule with no day ticked.
   */
  lemma UpcomingEmpty(m: MutableReminder, from: Date, now: Date, limit: int, depth: nat)
    requires HaltUsable(m)
    requires limit <= 0 || !m.enabled
          || (m.whenInterval == Interval.Daily && forall i | 0 <= i < |m.whenWeekDays| :: !m.whenWeekDays[i].isSelected)
          || (m.whenInterval == Interval.DaysOfMonth && forall i | 0 <= i < |m.whenDaysOfMonth| :: !m.whenDaysOfMonth[i].isSelected)
    ensures Upcoming(m, from, now, limit, depth) == []
  {
    if limit > 0 && m.enabled {
      if m.whenInterval == Interval.Daily {
        NothingTicked(m.whenWeekDays);
      } else {
        NothingTicked(m.whenDaysOfMonth);
      }
    }
  }

  /**
   * A one-off reminder gives at most one date: the origin's day at the
   * reminder's time, to the minute, present exactly when it is after `now`.
   */
  lemma UpcomingOnce(m: MutableReminder, from: Date, now: Date, limit: int, depth: nat)
    requires HaltUsable(m) && m.whenInterval == Interval.NoRepeat && m.enabled && limit > 0
    ensures |Upcoming(m, from, now, limit, depth)| <= 1
    ensures Upcoming(m, from, now, limit, depth) != [] <==> Instant(StartCandidate(m, from)) > Instant(now)
    ensures forall d | d in Upcoming(m, from, now, limit, depth) ::
      d.civil == from.civil && TimeOf(d) == TimeOf(m.timeAsDate) && d.second == SecondOfDay(TimeOf(d))
  {
  }

  /** The first day-stepping candidate lies in the day after the origin. */
  lemma FirstCandidateBounds(from: Date, sc: Date)
    requires sc.civil == from.civil
    ensures Instant(from) < Instant(FirstCandidate(from, sc)) <= Instant(from) + SecondsPerDay
  {
    assert DayIndex(sc) == DayIndex(from);
  }

  /** A window of days starting within a day of the origin ends within `count` days of it. */
  lemma DayWindowBounds(from: Date, first: Date, count: nat)
    requires Instant(from) < Instant(first) <= Instant(from) + SecondsPerDay
    ensures forall d | d in DayWindow(first, count) :: Instant(from) < Instant(d) <= Instant(from) + count * SecondsPerDay
  {
    var w := DayWindow(first, count);
    forall d | d in w
      ensures Instant(from) < Instant(d) <= Instant(from) + count * SecondsPerDay
    {
      var i :| 0 <= i < count && w[i] == d;
      assert Instant(d) == Instant(first) + i * SecondsPerDay;
      assert i * SecondsPerDay <= (count - 1) * SecondsPerDay;
    }
  }

  /** Every date of `s` passes test `t`. */
  predicate AllPass(t: Test, s: seq<Date>)
    requires Usable(t)
  {
    forall d | d in s :: Passes(t, d)
  }

  /** Every date of `s` is after `low` and at most `high`. */
  predicate AllBetween(low: int, high: int, s: seq<Date>) {
    forall d | d in s :: low < Instant(d) <= high
  }

  /**
   * A day-stepping batch is increasing, passes both tests, and lies after the
   * origin and no later than `limit` days after it.
   */
  lemma DayBatchFacts(m: MutableReminder, from: Date, limit: nat, t: Test)
    requires HaltUsable(m) && Usable(t)
    ensures Increasing(DayBatch(m, from, limit, t))
    ensures AllBetween(Instant(from), Instant(from) + limit * SecondsPerDay, DayBatch(m, from, limit, t))
    ensures AllPass(t, DayBatch(m, from, limit, t)) && AllPass(NotHalted(AsHalt(m)), DayBatch(m, from, limit, t))
  {
    var sc := StartCandidate(m, from);
    var first := FirstCandidate(from, sc);
    var w := DayWindow(first, limit);
    KeepIncreasing(t, w);
    KeepIncreasing(NotHalted(AsHalt(m)), Keep(t, w));
    FirstCandidateBounds(from, sc);
    DayWindowBounds(from, first, limit);
  }

  /** A batch that falls short is followed by the rest from the origin moved `limit` days on. */
  lemma DayStepsMore(m: MutableReminder, from: Date, limit: int, depth: nat, t: Test, batch: seq<Date>,
                     next: Date, left: int, lower: nat, rest: seq<Date>)
    requires HaltUsable(m) && Usable(t) && limit > 0 && depth > 0
    requires batch == DayBatch(m, from, limit, t) && |batch| < limit
    requires next == AddDays(from, limit) && left == Remaining(limit, batch) && lower == OneLess(depth)
    requires rest == DaySteps(m, next, left, lower, t)
    ensures DaySteps(m, from, limit, depth, t) == batch + rest
  {
  }

  /** A batch that fills the limit, or the last allowed round, ends the recursion. */
  lemma DayStepsLast(m: MutableReminder, from: Date, limit: int, depth: nat, t: Test, batch: seq<Date>)
    requires HaltUsable(m) && Usable(t) && limit > 0
    requires batch == DayBatch(m, from, limit, t) && (|batch| >= limit || depth == 0)
    ensures DaySteps(m, from, limit, depth, t) == batch
  {
  }

  /** Joining a run that ends by `mid` to one that starts after `mid`. */
  lemma JoinRuns(t: Test, u: Test, low: int, mid: int, a: seq<Date>, b: seq<Date>)
    requires Usable(t) && Usable(u) && low <= mid
    requires Increasing(a) && AllBetween(low, mid, a) && AllPass(t, a) && AllPass(u, a)
    requires Increasing(b) && (forall d | d in b :: mid < Instant(d)) && AllPass(t, b) && AllPass(u, b)
    ensures Increasing(a + b) && AllPass(t, a + b) && AllPass(u, a + b)
    ensures forall d | d in a + b :: low < Instant(d)
  {
    IncreasingConcat(a, b);
  }

  /**
   * The day-stepping recursion gives an increasing run after the origin whose
   * dates pass the rule's day test and are not halted.
   */
  lemma {:induction false} DayStepsFacts(m: MutableReminder, from: Date, limit: int, depth: nat, t: Test)
    requires HaltUsable(m) && Usable(t)
    ensures Increasing(DaySteps(m, from, limit, depth, t))
    ensures AllPass(t, DaySteps(m, from, limit, depth, t)) && AllPass(NotHalted(AsHalt(m)), DaySteps(m, from, limit, depth, t))
    ensures forall d | d in DaySteps(m, from, limit, depth, t) :: Instant(from) < Instant(d)
    decreases depth
  {
    if limit > 0 {
      var batch := DayBatch(m, from, limit, t);
      DayBatchFacts(m, from, limit, t);
      if |batch| < limit && depth > 0 {
        var next, left, lower := AddDays(from, limit), Remaining(limit, batch), OneLess(depth);
        var rest := DaySteps(m, next, left, lower, t);
        DayStepsMore(m, from, limit, depth, t, batch, next, left, lower, rest);
        DayStepsFacts(m, next, left, lower, t);
        JoinRuns(t, NotHalted(AsHalt(m)), Instant(from), Instant(next), batch, rest);
      } else {
        DayStepsLast(m, from, limit, depth, t, batch);
      }
    }
  }

  /**
   * Daily results fall on a ticked weekday, are not halted, lie after the
   * origin and increase; and every such date at the reminder's time, up to
   * the last result, is one of them.
   */
  lemma DailyResults(m: MutableReminder, from: Date, now: Date, limit: int, depth: nat)
    requires HaltUsable(m) && m.whenInterval == Interval.Daily
    ensures Increasing(Upcoming(m, from, now, limit, depth))
    ensures forall d | d in Upcoming(m, from, now, limit, depth) ::
      Instant(from) < Instant(d) && WeekDayOf(d).value in SelectedWeekDays(m)
      && !(AsHalt(m).Some? && IsHalted(AsHalt(m).value, d))
    ensures forall d, e | e in Upcoming(m, from, now, limit, depth) && AtReminderTime(m, d)
        && Instant(from) < Instant(d) <= Instant(e) && WeekDayOf(d).value in SelectedWeekDays(m)
        && !(AsHalt(m).Some? && IsHalted(AsHalt(m).value, d)) ::
      d in Upcoming(m, from, now, limit, depth)
  {
    DayStepsFacts(m, from, limit, depth, OnWeekDay(SelectedWeekDays(m)));
    forall d, e | e in Upcoming(m, from, now, limit, depth) && AtReminderTime(m, d)
        && Instant(from) < Instant(d) <= Instant(e) && WeekDayOf(d).value in SelectedWeekDays(m)
        && !(AsHalt(m).Some? && IsHalted(AsHalt(m).value, d))
      ensures d in Upcoming(m, from, now, limit, depth)
    {
      DailyComplete(m, from, now, limit, depth, d, e);
    }
  }

  /**
   * Days-of-month results fall on a ticked day, are not halted, lie after the
   * origin and increase; and every such date at the reminder's time, up to
   * the last result, is one of them.
   */
  lemma DaysOfMonthResults(m: MutableReminder, from: Date, now: Date, limit: int, depth: nat)
    requires HaltUsable(m) && m.whenInterval == Interval.DaysOfMonth
    ensures Increasing(Upcoming(m, from, now, limit, depth))
    ensures forall d | d in Upcoming(m, from, now, limit, depth) ::
      Instant(from) < Instant(d) && d.civil.day in SelectedDaysOfMonth(m)
      && !(AsHalt(m).Some? && IsHalted(AsHalt(m).value, d))
    ensures forall d, e | e in Upcoming(m, from, now, limit, depth) && AtReminderTime(m, d)
        && Instant(from) < Instant(d) <= Instant(e) && d.civil.day in SelectedDaysOfMonth(m)
        && !(AsHalt(m).Some? && IsHalted(AsHalt(m).value, d)) ::
      d in Upcoming(m, from, now, limit, depth)
  {
    forall d, e | e in Upcoming(m, from, now, limit, depth) && AtReminderTime(m, d)
        && Instant(from) < Instant(d) <= Instant(e) && d.civil.day in SelectedDaysOfMonth(m)
        && !(AsHalt(m).Some? && IsHalted(AsHalt(m).value, d))
      ensures d in Upcoming(m, from, now, limit, depth)
    {
      DaysOfMonthComplete(m, from, now, limit, depth, d, e);
    }
    var r := Upcoming(m, from, now, limit, depth);
    var t := OnDayOfMonth(SelectedDaysOfMonth(m));
    DayStepsFacts(m, from, limit, depth, t);
    assert limit > 0 && m.enabled && SelectedDaysOfMonth(m) != [] ==> r == DaySteps(m, from, limit, depth, t);
    forall d | d in r
      ensures Instant(from) < Instant(d) && d.civil.day in SelectedDaysOfMonth(m)
      ensures !(AsHalt(m).Some? && IsHalted(AsHalt(m).value, d))
    {
      assert Passes(t, d) && Passes(NotHalted(AsHalt(m)), d);
    }
  }

  // ---- no qualifying day is skipped ----

  /** `d` falls at the reminder's time of day, as every candidate does. */
  predicate AtReminderTime(m: MutableReminder, d: Date) {
    d.second == SecondOfDay(TimeOf(m.timeAsDate))
  }

  /** A window of days holds every date at its time of day within its span. */
  lemma DayWindowCovers(first: Date, count: nat, d: Date)
    requires d.second == first.second
    requires Instant(first) <= Instant(d) < Instant(first) + count * SecondsPerDay
    ensures d in DayWindow(first, count)
  {
    var k := DayIndex(d) - DayIndex(first);
    assert Instant(d) - Instant(first) == k * SecondsPerDay;
    assert 0 <= k < count;
    AddDaysUnique(first, k, d);
    assert DayWindow(first, count)[k] == d;
  }

  /** No date at the candidate's time and after the origin comes before the first candidate. */
  lemma FirstCandidateFirst(from: Date, sc: Date, d: Date)
    requires sc.civil == from.civil && d.second == sc.second && Instant(from) < Instant(d)
    ensures Instant(FirstCandidate(from, sc)) <= Instant(d)
  {
    var f := FirstCandidate(from, sc);
    if DayIndex(d) < DayIndex(from) {
      LaterDayIsLater(d, from);
      assert false;
    }
    if Instant(sc) <= Instant(from) && DayIndex(d) == DayIndex(sc) {
      assert false;
    }
    assert DayIndex(f) <= DayIndex(d);
  }

  /** A day-stepping batch holds every qualifying date up to `limit` days after the origin. */
  lemma DayBatchComplete(m: MutableReminder, from: Date, limit: nat, t: Test, d: Date)
    requires HaltUsable(m) && Usable(t) && AtReminderTime(m, d)
    requires Instant(from) < Instant(d) <= Instant(from) + limit * SecondsPerDay
    requires Passes(t, d) && Passes(NotHalted(AsHalt(m)), d)
    ensures d in DayBatch(m, from, limit, t)
  {
    var sc := StartCandidate(m, from);
    var f := FirstCandidate(from, sc);
    FirstCandidateBounds(from, sc);
    FirstCandidateFirst(from, sc, d);
    DayWindowCovers(f, limit, d);
  }

  /**
   * The day-stepping recursion skips nothing: a date at the reminder's time
   * after the origin that passes both tests, and is no later than some
   * result, is itself a result.
   */
  lemma {:induction false} DayStepsComplete(m: MutableReminder, from: Date, limit: int, depth: nat, t: Test, d: Date, e: Date)
    requires HaltUsable(m) && Usable(t) && AtReminderTime(m, d)
    requires e in DaySteps(m, from, limit, depth, t) && Instant(from) < Instant(d) <= Instant(e)
    requires Passes(t, d) && Passes(NotHalted(AsHalt(m)), d)
    ensures d in DaySteps(m, from, limit, depth, t)
    decreases depth
  {
    var batch := DayBatch(m, from, limit, t);
    DayBatchFacts(m, from, limit, t);
    if Instant(d) <= Instant(from) + limit * SecondsPerDay {
      DayBatchComplete(m, from, limit, t, d);
      if |batch| < limit && depth > 0 {
        var next, left, lower := AddDays(from, limit), Remaining(limit, batch), OneLess(depth);
        DayStepsMore(m, from, limit, depth, t, batch, next, left, lower, DaySteps(m, next, left, lower, t));
      } else {
        DayStepsLast(m, from, limit, depth, t, batch);
      }
    } else if |batch| < limit && depth > 0 {
      var next, left, lower := AddDays(from, limit), Remaining(limit, batch), OneLess(depth);
      var rest := DaySteps(m, next, left, lower, t);
      DayStepsMore(m, from, limit, depth, t, batch, next, left, lower, rest);
      assert e !in batch;
      DayStepsComplete(m, next, left, lower, t, d, e);
    } else {
      DayStepsLast(m, from, limit, depth, t, batch);
      assert false;
    }
  }

  /**
   * A daily reminder skips no day: every ticked, unhalted weekday at the
   * reminder's time after the origin and up to a result is a result.
   */
  lemma DailyComplete(m: MutableReminder, from: Date, now: Date, limit: int, depth: nat, d: Date, e: Date)
    requires HaltUsable(m) && m.whenInterval == Interval.Daily && AtReminderTime(m, d)
    requires e in Upcoming(m, from, now, limit, depth) && Instant(from) < Instant(d) <= Instant(e)
    requires WeekDayOf(d).value in SelectedWeekDays(m) && !(AsHalt(m).Some? && IsHalted(AsHalt(m).value, d))
    ensures d in Upcoming(m, from, now, limit, depth)
  {
    var t := OnWeekDay(SelectedWeekDays(m));
    assert Upcoming(m, from, now, limit, depth) == DaySteps(m, from, limit, depth, t);
    DayStepsComplete(m, from, limit, depth, t, d, e);
  }

  /**
   * A days-of-month reminder skips no day: every ticked, unhalted day of the
   * month at the reminder's time after the origin and up to a result is a result.
   */
  lemma DaysOfMonthComplete(m: MutableReminder, from: Date, now: Date, limit: int, depth: nat, d: Date, e: Date)
    requires HaltUsable(m) && m.whenInterval == Interval.DaysOfMonth && AtReminderTime(m, d)
    requires e in Upcoming(m, from, now, limit, depth) && Instant(from) < Instant(d) <= Instant(e)
    requires d.civil.day in SelectedDaysOfMonth(m) && !(AsHalt(m).Some? && IsHalted(AsHalt(m).value, d))
    ensures d in Upcoming(m, from, now, limit, depth)
  {
    var t := OnDayOfMonth(SelectedDaysOfMonth(m));
    assert Upcoming(m, from, now, limit, depth) == DaySteps(m, from, limit, depth, t);
    DayStepsComplete(m, from, limit, depth, t, d, e);
  }

  /** The first day-stepping candidate of a reminder. */
  function FirstOf(m: MutableReminder, from: Date): Date {
    FirstCandidate(from, StartCandidate(m, from))
  }

  /** Moving the origin `n` days moves the first candidate `n` days. */
  lemma FirstCandidateShift(m: MutableReminder, from: Date, n: nat, next: Date)
    requires next == AddDays(from, n)
    ensures DayIndex(FirstOf(m, next)) == DayIndex(FirstOf(m, from)) + n
    ensures FirstOf(m, next).second == FirstOf(m, from).second
  {
    var sc, sc' := StartCandidate(m, from), StartCandidate(m, next);
    assert Instant(sc') == Instant(sc) + n * SecondsPerDay;
  }

  /** Without a halt rule a day-stepping batch is the window filtered by the day test. */
  lemma UnhaltedBatch(m: MutableReminder, from: Date, limit: nat, t: Test)
    requires m.haltInterval == NoHalt && Usable(t)
    ensures DayBatch(m, from, limit, t) == Keep(t, DayWindow(FirstOf(m, from), limit))
  {
  }

  /** A ticked weekday `p` days into a window of more than `p` days is in the unhalted batch. */
  lemma TickedInBatch(m: MutableReminder, from: Date, limit: nat, w: WeekDay, p: nat)
    requires m.haltInterval == NoHalt && w in SelectedWeekDays(m) && p < limit
    requires WeekDayOf(AddDays(FirstOf(m, from), p)) == Ok(w)
    ensures |DayBatch(m, from, limit, OnWeekDay(SelectedWeekDays(m)))| >= 1
  {
    var t := OnWeekDay(SelectedWeekDays(m));
    var window := DayWindow(FirstOf(m, from), limit);
    UnhaltedBatch(m, from, limit, t);
    assert window[p] == AddDays(FirstOf(m, from), p) && Passes(t, window[p]);
    assert window[p] in Keep(t, window);
  }

  /**
   * Without a halt rule, a daily recursion whose first candidate reaches a
   * ticked weekday `w` within `p` days fills its limit once it may run
   * `p + 7 * (limit - 1)` further rounds: each round either finds a date or
   * brings `w` closer, and a week of days always holds `w`.
   */
  lemma {:induction false} DayStepsFill(m: MutableReminder, from: Date, limit: int, depth: nat, w: WeekDay, p: nat)
    requires m.haltInterval == NoHalt && limit > 0 && w in SelectedWeekDays(m)
    requires WeekDayOf(AddDays(FirstOf(m, from), p)) == Ok(w)
    requires depth >= p + 7 * (limit - 1)
    ensures |DaySteps(m, from, limit, depth, OnWeekDay(SelectedWeekDays(m)))| == limit
    decreases depth
  {
    var t := OnWeekDay(SelectedWeekDays(m));
    var batch := DayBatch(m, from, limit, t);
    if p < limit {
      TickedInBatch(m, from, limit, w, p);
    }
    if |batch| >= limit || depth == 0 {
      DayStepsLast(m, from, limit, depth, t, batch);
    } else {
      var next, left, lower := AddDays(from, limit), Remaining(limit, batch), OneLess(depth);
      var rest := DaySteps(m, next, left, lower, t);
      DayStepsMore(m, from, limit, depth, t, batch, next, left, lower, rest);
      FillRest(m, from, limit, depth, w, p, batch, next, left, lower);
    }
  }

  /** The recursive step of `DayStepsFill`: the rest fills what the batch left. */
  lemma {:induction false} FillRest(m: MutableReminder, from: Date, limit: int, depth: nat, w: WeekDay, p: nat,
                                    batch: seq<Date>, next: Date, left: int, lower: nat)
    requires m.haltInterval == NoHalt && limit > 0 && w in SelectedWeekDays(m)
    requires WeekDayOf(AddDays(FirstOf(m, from), p)) == Ok(w)
    requires depth >= p + 7 * (limit - 1) && depth > 0
    requires batch == DayBatch(m, from, limit, OnWeekDay(SelectedWeekDays(m))) && |batch| < limit
    requires p < limit ==> |batch| >= 1
    requires next == AddDays(from, limit) && left == Remaining(limit, batch) && lower == OneLess(depth)
    ensures |DaySteps(m, next, left, lower, OnWeekDay(SelectedWeekDays(m)))| == left
    decreases depth, 0
  {
    var f, f' := FirstOf(m, from), FirstOf(m, next);
    FirstCandidateShift(m, from, limit, next);
    if p < limit {
      var p' := DaysUntil(f', w);
      DayStepsFill(m, next, left, lower, w, p');
    } else {
      var g, q := AddDays(f, p), p - limit;
      assert DayIndex(g) == DayIndex(f') + q && g.second == f'.second;
      AddDaysUnique(f', q, g);
      DayStepsFill(m, next, left, lower, w, q);
    }
  }

  /**
   * A daily reminder with a ticked weekday and no halt rule gives exactly
   * `limit` dates once the recursion may run seven rounds per date.
   */
  lemma DailyFull(m: MutableReminder, from: Date, now: Date, limit: int, depth: nat)
    requires m.whenInterval == Interval.Daily && m.enabled && m.haltInterval == NoHalt
    requires SelectedWeekDays(m) != [] && limit > 0 && depth + 1 >= 7 * limit
    ensures |Upcoming(m, from, now, limit, depth)| == limit
  {
    var w := SelectedWeekDays(m)[0];
    var p := DaysUntil(FirstOf(m, from), w);
    DayStepsFill(m, from, limit, depth, w, p);
  }

  /**
   * A monthly batch is increasing, not halted, and lies from its candidate
   * up to, but not including, the date `limit` months on (`bound`).
   */
  lemma MonthBatchFacts(m: MutableReminder, sc: Date, limit: nat, bound: Date)
    requires HaltUsable(m) && MonthIndex(bound.civil) == MonthIndex(sc.civil) + limit
    ensures Increasing(MonthBatch(m, sc, limit)) && AllPass(NotHalted(AsHalt(m)), MonthBatch(m, sc, limit))
    ensures forall d | d in MonthBatch(m, sc, limit) :: Instant(sc) <= Instant(d) < Instant(bound)
  {
    var w := MonthWindow(sc, limit);
    MonthWindowIncreasing(sc, limit);
    KeepIncreasing(NotHalted(AsHalt(m)), w);
    forall d | d in w
      ensures Instant(sc) <= Instant(d) < Instant(bound)
    {
      var i :| 0 <= i < limit && w[i] == d;
      AddMonthsZero(sc);
      AddMonthsMonotone(sc, 0, i);
      AddMonthsDay(sc, i);
      EarlierMonthIsEarlier(d, bound);
    }
  }

  /** An origin past its day's candidate restarts from the candidate a month on. */
  lemma MonthStepsRestart(m: MutableReminder, from: Date, limit: int, depth: nat, sc: Date, next: Date, lower: nat, rest: seq<Date>)
    requires HaltUsable(m) && limit > 0 && depth > 0
    requires sc == StartCandidate(m, from) && Instant(from) > Instant(sc)
    requires next == AddMonths(sc, 1) && lower == OneLess(depth) && rest == MonthSteps(m, next, limit, lower)
    ensures MonthSteps(m, from, limit, depth) == rest
  {
  }

  /** A monthly batch that falls short is followed by the rest from the origin moved `limit` months on. */
  lemma MonthStepsMore(m: MutableReminder, from: Date, limit: int, depth: nat, sc: Date, batch: seq<Date>,
                       next: Date, left: int, lower: nat, rest: seq<Date>)
    requires HaltUsable(m) && limit > 0 && depth > 0
    requires sc == StartCandidate(m, from) && Instant(from) <= Instant(sc)
    requires batch == MonthBatch(m, sc, limit) && |batch| < limit
    requires next == AddMonths(from, limit) && left == Remaining(limit, batch) && lower == OneLess(depth)
    requires rest == MonthSteps(m, next, left, lower)
    ensures MonthSteps(m, from, limit, depth) == batch + rest
  {
  }

  /** Otherwise the monthly recursion ends: with nothing on a restart, with the batch after one. */
  lemma MonthStepsLast(m: MutableReminder, from: Date, limit: int, depth: nat, sc: Date, batch: seq<Date>)
    requires HaltUsable(m) && limit > 0
    requires sc == StartCandidate(m, from) && batch == MonthBatch(m, sc, limit)
    ensures Instant(from) > Instant(sc) && depth == 0 ==> MonthSteps(m, from, limit, depth) == []
    ensures Instant(from) <= Instant(sc) && (|batch| >= limit || depth == 0) ==> MonthSteps(m, from, limit, depth) == batch
  {
  }

  /** Joining a run in `[low, mid)` to one from `mid` on. */
  lemma JoinFrom(u: Test, low: int, mid: int, a: seq<Date>, b: seq<Date>)
    requires Usable(u) && low <= mid
    requires Increasing(a) && AllPass(u, a) && forall d | d in a :: low <= Instant(d) < mid
    requires Increasing(b) && AllPass(u, b) && forall d | d in b :: mid <= Instant(d)
    ensures Increasing(a + b) && AllPass(u, a + b)
    ensures forall d | d in a + b :: low <= Instant(d)
  {
    IncreasingConcat(a, b);
  }

  /**
   * The monthly recursion gives an increasing run, none of it halted, none of
   * it before the origin.
   */
  lemma {:induction false} MonthStepsFacts(m: MutableReminder, from: Date, limit: int, depth: nat)
    requires HaltUsable(m)
    ensures Increasing(MonthSteps(m, from, limit, depth))
    ensures AllPass(NotHalted(AsHalt(m)), MonthSteps(m, from, limit, depth))
    ensures forall d | d in MonthSteps(m, from, limit, depth) :: Instant(from) <= Instant(d)
    decreases depth, 1
  {
    if limit > 0 {
      var sc := StartCandidate(m, from);
      if Instant(from) > Instant(sc) {
        MonthStepsLast(m, from, limit, depth, sc, MonthBatch(m, sc, limit));
        if depth > 0 {
          var next, lower := AddMonths(sc, 1), OneLess(depth);
          var rest := MonthSteps(m, next, limit, lower);
          MonthStepsRestart(m, from, limit, depth, sc, next, lower, rest);
          MonthStepsFacts(m, next, limit, lower);
          AddMonthsDay(sc, 1);
          EarlierMonthIsEarlier(from, next);
        }
      } else {
        MonthBatchStepFacts(m, from, limit, depth, sc);
      }
    }
  }

  /** The same, for an origin not past its day's candidate: a batch, then possibly the rest. */
  lemma {:induction false} MonthBatchStepFacts(m: MutableReminder, from: Date, limit: int, depth: nat, sc: Date)
    requires HaltUsable(m) && limit > 0
    requires sc == StartCandidate(m, from) && Instant(from) <= Instant(sc)
    ensures Increasing(MonthSteps(m, from, limit, depth))
    ensures AllPass(NotHalted(AsHalt(m)), MonthSteps(m, from, limit, depth))
    ensures forall d | d in MonthSteps(m, from, limit, depth) :: Instant(from) <= Instant(d)
    decreases depth, 0
  {
    var batch := MonthBatch(m, sc, limit);
    var next := AddMonths(from, limit);
    MonthStepsLast(m, from, limit, depth, sc, batch);
    AddMonthsDay(from, limit);
    MonthBatchFacts(m, sc, limit, next);
    EarlierMonthIsEarlier(from, next);
    if |batch| < limit && depth > 0 {
      var left, lower := Remaining(limit, batch), OneLess(depth);
      var rest := MonthSteps(m, next, left, lower);
      MonthStepsMore(m, from, limit, depth, sc, batch, next, left, lower, rest);
      MonthStepsFacts(m, next, left, lower);
      JoinFrom(NotHalted(AsHalt(m)), Instant(from), Instant(next), batch, rest);
    }
  }

  /** Monthly results are increasing, not halted, and none is before the origin. */
  lemma MonthlyResults(m: MutableReminder, from: Date, now: Date, limit: int, depth: nat)
    requires HaltUsable(m) && m.whenInterval == Interval.Monthly
    ensures Increasing(Upcoming(m, from, now, limit, depth))
    ensures forall d | d in Upcoming(m, from, now, limit, depth) ::
      Instant(from) <= Instant(d) && !(AsHalt(m).Some? && IsHalted(AsHalt(m).value, d))
  {
    MonthStepsFacts(m, from, limit, depth);
  }

  /**
   * Without a halt rule, a monthly reminder gives `limit` consecutive months
   * from its first candidate not before the origin: the origin's day at the
   * reminder's time, or a month after it when that has passed.
   */
  lemma MonthlyWithoutHalt(m: MutableReminder, from: Date, now: Date, limit: int, depth: nat)
    requires m.whenInterval == Interval.Monthly && m.haltInterval == NoHalt && m.enabled
    requires limit > 0 && depth > 0
    ensures var sc := StartCandidate(m, from);
      Upcoming(m, from, now, limit, depth) == MonthWindow(if Instant(from) > Instant(sc) then AddMonths(sc, 1) else sc, limit)
  {
    var sc := StartCandidate(m, from);
    if Instant(from) > Instant(sc) {
      var next, lower := AddMonths(sc, 1), OneLess(depth);
      AddMonthsDay(sc, 1);
      AtOwnTime(next, TimeOf(m.timeAsDate));
      var batch := MonthBatch(m, next, limit);
      MonthStepsLast(m, next, limit, lower, next, batch);
      MonthStepsRestart(m, from, limit, depth, sc, next, lower, MonthSteps(m, next, limit, lower));
    } else {
      MonthStepsLast(m, from, limit, depth, sc, MonthBatch(m, sc, limit));
    }
  }

  /** A window of days spans `count` days from its first date, all at its time of day. */
  lemma DayWindowSpan(first: Date, count: nat)
    ensures forall d | d in DayWindow(first, count) ::
      Instant(first) <= Instant(d) < Instant(first) + count * SecondsPerDay && d.second == first.second
  {
    var w := DayWindow(first, count);
    forall d | d in w
      ensures Instant(first) <= Instant(d) < Instant(first) + count * SecondsPerDay && d.second == first.second
    {
      var i :| 0 <= i < count && w[i] == d;
      assert i * SecondsPerDay < count * SecondsPerDay;
    }
  }

  /** A last-day batch that falls short is followed by the rest from the origin moved `limit` days on. */
  lemma LastDayStepsMore(m: MutableReminder, from: Date, now: Date, limit: int, depth: nat, batch: seq<Date>,
                         next: Date, left: int, lower: nat, rest: seq<Date>)
    requires limit > 0 && depth > 0
    requires batch == LastDayBatch(StartCandidate(m, from), now, limit) && |batch| < limit
    requires next == AddDays(from, limit) && left == Remaining(limit, batch) && lower == OneLess(depth)
    requires rest == LastDaySteps(m, next, now, left, lower)
    ensures LastDaySteps(m, from, now, limit, depth) == batch + rest
  {
  }

  /** A last-day batch that fills the limit, or the last allowed round, ends the recursion. */
  lemma LastDayStepsLast(m: MutableReminder, from: Date, now: Date, limit: int, depth: nat, batch: seq<Date>)
    requires limit > 0
    requires batch == LastDayBatch(StartCandidate(m, from), now, limit) && (|batch| >= limit || depth == 0)
    ensures LastDaySteps(m, from, now, limit, depth) == batch
  {
  }

  /**
   * The last-day recursion gives an increasing run of last days of their
   * months, all after `now` and none before the origin's candidate.
   */
  lemma {:induction false} LastDayStepsFacts(m: MutableReminder, from: Date, now: Date, limit: int, depth: nat)
    ensures Increasing(LastDaySteps(m, from, now, limit, depth))
    ensures AllPass(LastDayAfter(now), LastDaySteps(m, from, now, limit, depth))
    ensures forall d | d in LastDaySteps(m, from, now, limit, depth) ::
      Instant(StartCandidate(m, from)) <= Instant(d) && AtReminderTime(m, d)
    decreases depth
  {
    if limit > 0 {
      var sc := StartCandidate(m, from);
      var w := DayWindow(sc, limit);
      var batch := LastDayBatch(sc, now, limit);
      KeepIncreasing(LastDayAfter(now), w);
      DayWindowSpan(sc, limit);
      if |batch| < limit && depth > 0 {
        var next, left, lower := AddDays(from, limit), Remaining(limit, batch), OneLess(depth);
        var rest := LastDaySteps(m, next, now, left, lower);
        LastDayStepsMore(m, from, now, limit, depth, batch, next, left, lower, rest);
        LastDayStepsFacts(m, next, now, left, lower);
        assert Instant(StartCandidate(m, next)) == Instant(sc) + limit * SecondsPerDay;
        IncreasingConcat(batch, rest);
      } else {
        LastDayStepsLast(m, from, now, limit, depth, batch);
      }
    }
  }

  /**
   * Last-day-of-month results are increasing last days of their months, all
   * after `now`, one in each of a run of consecutive months.
   */
  lemma LastDayResults(m: MutableReminder, from: Date, now: Date, limit: int, depth: nat)
    requires HaltUsable(m) && m.whenInterval == Interval.LastDayOfMonth
    ensures Increasing(Upcoming(m, from, now, limit, depth))
    ensures forall d | d in Upcoming(m, from, now, limit, depth) ::
      d.civil.day == DaysInMonth(d.civil.year, d.civil.month) && Instant(d) > Instant(now)
    ensures var r := Upcoming(m, from, now, limit, depth);
      forall i | 0 <= i < |r| - 1 :: MonthIndex(r[i + 1].civil) == MonthIndex(r[i].civil) + 1
  {
    forall i | 0 <= i < |Upcoming(m, from, now, limit, depth)| - 1
      ensures MonthIndex(Upcoming(m, from, now, limit, depth)[i + 1].civil)
           == MonthIndex(Upcoming(m, from, now, limit, depth)[i].civil) + 1
    {
      LastDayConsecutive(m, from, now, limit, depth, i);
    }
    var r := Upcoming(m, from, now, limit, depth);
    LastDayStepsFacts(m, from, now, limit, depth);
    assert limit > 0 && m.enabled ==> r == LastDaySteps(m, from, now, limit, depth);
    forall d | d in r
      ensures d.civil.day == DaysInMonth(d.civil.year, d.civil.month) && Instant(d) > Instant(now)
    {
      assert Passes(LastDayAfter(now), d);
    }
  }

  /**
   * The last-day recursion skips no month's end: a last day of its month at
   * the reminder's time, after `now`, from the origin's candidate on and no
   * later than some result, is itself a result.
   */
  lemma {:induction false} LastDayStepsComplete(m: MutableReminder, from: Date, now: Date, limit: int, depth: nat, d: Date, e: Date)
    requires AtReminderTime(m, d) && Passes(LastDayAfter(now), d)
    requires e in LastDaySteps(m, from, now, limit, depth)
    requires Instant(StartCandidate(m, from)) <= Instant(d) <= Instant(e)
    ensures d in LastDaySteps(m, from, now, limit, depth)
    decreases depth
  {
    var sc := StartCandidate(m, from);
    var batch := LastDayBatch(sc, now, limit);
    DayWindowSpan(sc, limit);
    if Instant(d) < Instant(sc) + limit * SecondsPerDay {
      DayWindowCovers(sc, limit, d);
      assert d in batch;
      if |batch| < limit && depth > 0 {
        var next, left, lower := AddDays(from, limit), Remaining(limit, batch), OneLess(depth);
        LastDayStepsMore(m, from, now, limit, depth, batch, next, left, lower, LastDaySteps(m, next, now, left, lower));
      } else {
        LastDayStepsLast(m, from, now, limit, depth, batch);
      }
    } else if |batch| < limit && depth > 0 {
      var next, left, lower := AddDays(from, limit), Remaining(limit, batch), OneLess(depth);
      var rest := LastDaySteps(m, next, now, left, lower);
      LastDayStepsMore(m, from, now, limit, depth, batch, next, left, lower, rest);
      assert e !in batch;
      assert Instant(StartCandidate(m, next)) == Instant(sc) + limit * SecondsPerDay;
      LastDayStepsComplete(m, next, now, left, lower, d, e);
    } else {
      LastDayStepsLast(m, from, now, limit, depth, batch);
      assert false;
    }
  }

  /** Of two last days of their months at one time of day, the later lies in a later month. */
  lemma LastDaysOrdered(a: Date, b: Date)
    requires a.civil.day == DaysInMonth(a.civil.year, a.civil.month)
    requires b.civil.day == DaysInMonth(b.civil.year, b.civil.month)
    requires a.second == b.second
    requires Instant(a) < Instant(b)
    ensures MonthIndex(a.civil) < MonthIndex(b.civil)
  {
    if MonthIndex(b.civil) < MonthIndex(a.civil) {
      EarlierMonthIsEarlier(b, a);
    } else if MonthIndex(b.civil) == MonthIndex(a.civil) {
      SameMonthEnd(a.civil, b.civil);
      assert false;
    }
  }

  /** Successive results of the last-day recursion lie in successive months. */
  lemma LastDayStepsConsecutive(m: MutableReminder, from: Date, now: Date, limit: int, depth: nat, i: nat)
    requires i + 1 < |LastDaySteps(m, from, now, limit, depth)|
    ensures var r := LastDaySteps(m, from, now, limit, depth);
      MonthIndex(r[i + 1].civil) == MonthIndex(r[i].civil) + 1
  {
    var r := LastDaySteps(m, from, now, limit, depth);
    LastDayStepsFacts(m, from, now, limit, depth);
    var a, b := r[i], r[i + 1];
    assert a in r && b in r && Instant(a) < Instant(b);
    assert Passes(LastDayAfter(now), a) && Passes(LastDayAfter(now), b);
    assert AtReminderTime(m, a) && AtReminderTime(m, b);
    assert IsLastDayOfMonth(a) && IsLastDayOfMonth(b);
    LastDaysOrdered(a, b);
    NoMonthSkipped(m, from, now, limit, depth, i);
  }

  /** Between two successive last-day results no month's end is left out. */
  lemma NoMonthSkipped(m: MutableReminder, from: Date, now: Date, limit: int, depth: nat, i: nat)
    requires i + 1 < |LastDaySteps(m, from, now, limit, depth)|
    ensures var r := LastDaySteps(m, from, now, limit, depth);
      MonthIndex(r[i + 1].civil) <= MonthIndex(r[i].civil) + 1
  {
    var r := LastDaySteps(m, from, now, limit, depth);
    var a, b := r[i], r[i + 1];
    if MonthIndex(b.civil) > MonthIndex(a.civil) + 1 {
      LastDayStepsFacts(m, from, now, limit, depth);
      assert a in r && Passes(LastDayAfter(now), a) && AtReminderTime(m, a);
      var c := MonthEnd(MonthIndex(a.civil) + 1, a.second);
      EarlierMonthIsEarlier(a, c);
      EarlierMonthIsEarlier(c, b);
      LastDayStepsComplete(m, from, now, limit, depth, c, b);
      NothingBetween(r, i, c);
      assert false;
    }
  }

  /** No element of an increasing run lies strictly between two neighbours. */
  lemma NothingBetween(r: seq<Date>, i: nat, c: Date)
    requires Increasing(r) && i + 1 < |r| && c in r
    ensures Instant(c) <= Instant(r[i]) || Instant(r[i + 1]) <= Instant(c)
  {
    var j :| 0 <= j < |r| && r[j] == c;
    if j < i {
      assert Instant(r[j]) < Instant(r[i]);
    } else if j > i + 1 {
      assert Instant(r[i + 1]) < Instant(r[j]);
    }
  }

  /**
   * Successive last-day-of-month results fall in successive months: the
   * rule gives one date per month, and no month is skipped between two results.
   */
  lemma LastDayConsecutive(m: MutableReminder, from: Date, now: Date, limit: int, depth: nat, i: nat)
    requires HaltUsable(m) && m.whenInterval == Interval.LastDayOfMonth
    requires i + 1 < |Upcoming(m, from, now, limit, depth)|
    ensures var r := Upcoming(m, from, now, limit, depth);
      MonthIndex(r[i + 1].civil) == MonthIndex(r[i].civil) + 1
  {
    assert Upcoming(m, from, now, limit, depth) == LastDaySteps(m, from, now, limit, depth);
    LastDayStepsConsecutive(m, from, now, limit, depth, i);
  }
}
