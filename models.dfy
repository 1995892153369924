/**
 * The reminder vocabulary of Pill/Models/Models.swift: weekdays and their
 * calendar codes, times of day, the repeat rule `When`, the halt rule with
 * its week and month cadence, and the conversion of a reminder into the
 * editable `MutableReminder` the edit screen works on.
 */
module Models {
  import opened Wrappers
  import opened Calendar
  import opened Selections
  import SwiftInt

  // ---- weekdays ----

  /** `WeekDay`, its cases in declaration order (`WeekDay.allCases`). */
  datatype WeekDay = Mon | Tue | Wed | Thu | Fri | Sat | Sun

  const AllWeekDays: seq<WeekDay> := [Mon, Tue, Wed, Thu, Fri, Sat, Sun]

  /** The weekdays in the order of Foundation's weekday codes 1 to 7. */
  const GregorianOrder: seq<WeekDay> := [Sun, Mon, Tue, Wed, Thu, Fri, Sat]

  function RawValue(w: WeekDay): string {
    match w
    case Mon => "Monday"
    case Tue => "Tuesday"
    case Wed => "Wednesday"
    case Thu => "Thursday"
    case Fri => "Friday"
    case Sat => "Saturday"
    case Sun => "Sunday"
  }

  /** The three-letter label: the first three letters of the full name. */
  function Short(w: WeekDay): (s: string)
    ensures |s| == 3 && s == RawValue(w)[..3]
  {
    match w
    case Mon => "Mon"
    case Tue => "Tue"
    case Wed => "Wed"
    case Thu => "Thu"
    case Fri => "Fri"
    case Sat => "Sat"
    case Sun => "Sun"
  }

  datatype PillError = General(message: string)

  /** `WeekDay.gregorian`: the weekday of a calendar weekday code, Sunday being 1. */
  function Gregorian(code: int): (r: Result<WeekDay, PillError>)
    ensures r.Ok? <==> 1 <= code <= 7
    ensures r.Err? ==> r.error == General("Invalid weekday value.")
  {
    if code == 1 then Ok(Sun)
    else if code == 2 then Ok(Mon)
    else if code == 3 then Ok(Tue)
    else if code == 4 then Ok(Wed)
    else if code == 5 then Ok(Thu)
    else if code == 6 then Ok(Fri)
    else if code == 7 then Ok(Sat)
    else Err(General("Invalid weekday value."))
  }

  /** The calendar weekday code of a weekday. */
  function CalendarCode(w: WeekDay): (code: int)
    ensures 1 <= code <= 7 && GregorianOrder[code - 1] == w
  {
    match w
    case Sun => 1
    case Mon => 2
    case Tue => 3
    case Wed => 4
    case Thu => 5
    case Fri => 6
    case Sat => 7
  }

  /** Codes 1 to 7 name Sunday to Saturday in turn, and each weekday has exactly one code. */
  lemma GregorianCodes(code: int, w: WeekDay)
    ensures 1 <= code <= 7 ==> Gregorian(code) == Ok(GregorianOrder[code - 1])
    ensures Gregorian(code) == Ok(w) <==> code == CalendarCode(w)
  {
  }

  /** The weekday a date falls on, as the generator asks the calendar for it. */
  function WeekDayOf(d: Date): (r: Result<WeekDay, PillError>)
    ensures r.Ok? && CalendarCode(r.value) == WeekdayCode(d)
  {
    Gregorian(WeekdayCode(d))
  }

  /** Every weekday comes round within a week: the days from `d` to the next `w`. */
  function DaysUntil(d: Date, w: WeekDay): (p: nat)
    ensures p < 7 && WeekDayOf(AddDays(d, p)) == Ok(w)
  {
    var p := (CalendarCode(w) - 5 - DayIndex(d)) % 7;
    LandsOn(d, w, p);
    p
  }

  lemma LandsOn(d: Date, w: WeekDay, p: nat)
    requires p == (CalendarCode(w) - 5 - DayIndex(d)) % 7
    ensures WeekDayOf(AddDays(d, p)) == Ok(w)
  {
    WeekdayAfter(d, p);
    CodeLands(DayIndex(d), w, p);
  }

  /** Stepping from day `i` to the next day whose weekday code is `w`'s. */
  lemma CodeLands(i: int, w: WeekDay, p: int)
    requires p == (CalendarCode(w) - 5 - i) % 7
    ensures Gregorian((i + 4 + p) % 7 + 1) == Ok(w)
  {
    var x, c := i + 4, CalendarCode(w) - 1;
    StepsToResidue(x, c, p);
    GregorianCodes(c + 1, w);
  }

  /** Adding `(c - x) % 7` to `x` reaches residue `c`. */
  lemma StepsToResidue(x: int, c: int, p: int)
    requires 0 <= c < 7 && p == (c - x) % 7
    ensures (x + p) % 7 == c
  {
    var y := c - x;
    DivModUnique(x + p, 7, -(y / 7), c);
  }

  // ---- times of day ----

  /** `Time`: an hour and a minute, unchecked as in the source. */
  datatype Time = Time(hour: int, minute: int)

  predicate ValidTime(t: Time) { 0 <= t.hour < 24 && 0 <= t.minute < 60 }

  /** The seconds after midnight at which a valid time falls. */
  function SecondOfDay(t: Time): int { t.hour * 3600 + t.minute * 60 }

  /** `minuteTwoDigits`: the minute with a leading "0" below ten. */
  function MinuteTwoDigits(t: Time): (s: string)
    ensures |s| >= 1 && (s[0] == '0' <==> t.minute < 10)
    ensures 0 <= t.minute < 60 ==> |s| == 2 && SwiftInt.AllDigits(s)
  {
    if t.minute < 10 then "0" + SwiftInt.IntToString(t.minute)
    else SwiftInt.IntToString(t.minute)
  }

  /** `describe`: hour, a colon, then the two-digit minute. */
  function Describe(t: Time): (s: string)
    ensures 0 <= t.hour && 0 <= t.minute < 60 ==>
      |s| >= 4 && s[|s| - 3] == ':' && s[|s| - 2..] == MinuteTwoDigits(t)
  {
    SwiftInt.IntToString(t.hour) + ":" + MinuteTwoDigits(t)
  }

  /** Reads a time back from its description. */
  function ParseDescribed(s: string): Option<Time> {
    if |s| >= 4 && s[|s| - 3] == ':' && SwiftInt.AllDigits(s[..|s| - 3]) && SwiftInt.AllDigits(s[|s| - 2..]) then
      Some(Time(SwiftInt.DigitsValue(s[..|s| - 3]), SwiftInt.DigitsValue(s[|s| - 2..])))
    else None
  }

  lemma MinuteTwoDigitsValue(t: Time)
    requires 0 <= t.minute < 60
    ensures SwiftInt.DigitsValue(MinuteTwoDigits(t)) == t.minute
  {
    var s := MinuteTwoDigits(t);
    if t.minute < 10 {
      assert s == ['0', SwiftInt.DigitChar(t.minute)];
      assert s[..1] == ['0'];
      assert SwiftInt.DigitsValue(s[..1]) == 0;
    } else {
      SwiftInt.DigitsRoundTrip(t.minute);
    }
  }

  /** A time with a non-negative hour is read back from its description. */
  lemma DescribeRoundTrip(t: Time)
    requires 0 <= t.hour && 0 <= t.minute < 60
    ensures ParseDescribed(Describe(t)) == Some(t)
  {
    var s := Describe(t);
    var h := SwiftInt.IntToString(t.hour);
    assert s[..|s| - 3] == h;
    MinuteTwoDigitsValue(t);
    SwiftInt.DigitsRoundTrip(t.hour);
  }

  /** `Date.time`: the hour and minute of a date. */
  function TimeOf(d: Date): (t: Time)
    ensures ValidTime(t) && SecondOfDay(t) <= d.second < SecondOfDay(t) + 60
  {
    Time(HourOf(d), MinuteOf(d))
  }

  /** `Date.at(time:)`: the same day at the given time, or the date itself when the time is out of range. */
  function At(d: Date, t: Time): (r: Date)
    ensures ValidTime(t) ==> r.civil == d.civil && r.second == SecondOfDay(t) && TimeOf(r) == t
    ensures !ValidTime(t) ==> r == d
  {
    SetHourMinute(d, t.hour, t.minute).GetOr(d)
  }

  /** Setting a time a date already shows, to the second, leaves the date as it is. */
  lemma AtOwnTime(d: Date, t: Time)
    requires ValidTime(t) && d.second == SecondOfDay(t)
    ensures At(d, t) == d
  {
  }

  /** Setting a time twice is setting it once. */
  lemma AtIdempotent(d: Date, t: Time)
    ensures At(At(d, t), t) == At(d, t)
  {
  }

  // ---- repeat rules ----

  /** `Interval`; `NoRepeat` is the source's `.none`. */
  datatype Interval = NoRepeat | Daily | Monthly | DaysOfMonth | LastDayOfMonth

  /** `HaltInterval`: `.none`, `.nthWeek` and `.nthMonth`. */
  datatype HaltInterval = NoHalt | WeekInterval | MonthInterval

  /** `When`: the repeat rule of a reminder. */
  datatype When =
    | Once(date: Date)
    | Daily(weekDays: seq<WeekDay>, time: Time)
    | Monthly(time: Time)
    | DaysOfMonth(monthDays: seq<int>, time: Time)
    | LastDayOfMonth(time: Time)

  function IntervalOf(w: When): Interval {
    match w
    case Once(_) => Interval.NoRepeat
    case Daily(_, _) => Interval.Daily
    case Monthly(_) => Interval.Monthly
    case DaysOfMonth(_, _) => Interval.DaysOfMonth
    case LastDayOfMonth(_) => Interval.LastDayOfMonth
  }

  /** `When.time`: a one-off reminder's time is the time of its date. */
  function TimeOfWhen(w: When): (t: Time)
    ensures w.Once? ==> t == TimeOf(w.date) && ValidTime(t)
  {
    match w
    case Once(date) => TimeOf(date)
    case Daily(_, t) => t
    case Monthly(t) => t
    case DaysOfMonth(_, t) => t
    case LastDayOfMonth(t) => t
  }

  function WeekDaysOf(w: When): Option<seq<WeekDay>> {
    match w
    case Daily(days, _) => Some(days)
    case _ => None
  }

  function MonthDaysOf(w: When): Option<seq<int>> {
    match w
    case DaysOfMonth(days, _) => Some(days)
    case _ => None
  }

  /**
   * Only a daily rule has weekdays, only a days-of-month rule has days of the
   * month, and the interval names the rule's kind, one interval per kind.
   */
  lemma WhenAccessors(w: When)
    ensures WeekDaysOf(w).Some? <==> IntervalOf(w) == Interval.Daily
    ensures MonthDaysOf(w).Some? <==> IntervalOf(w) == Interval.DaysOfMonth
    ensures IntervalOf(w) == Interval.NoRepeat <==> w.Once?
    ensures IntervalOf(w) == Interval.Monthly <==> w.Monthly?
    ensures IntervalOf(w) == Interval.LastDayOfMonth <==> w.LastDayOfMonth?
  {
  }

  // ---- halt rule ----

  datatype NthSpec = NthSpec(start: Date, nth: int)

  /** `Halt`: skip every nth week, or every nth month, counted from `start`. */
  datatype Halt = NthWeek(spec: NthSpec) | NthMonth(spec: NthSpec)

  function HaltIntervalOf(h: Halt): (i: HaltInterval)
    ensures i != NoHalt
  {
    match h
    case NthWeek(_) => WeekInterval
    case NthMonth(_) => MonthInterval
  }

  /** `Halt.nth`: optional in the source's type, yet always present. */
  function NthOf(h: Halt): (n: Option<int>)
    ensures n.Some?
  {
    match h
    case NthWeek(spec) => Some(spec.nth)
    case NthMonth(spec) => Some(spec.nth)
  }

  /** The same day at noon, where the halt rule measures from. */
  function Noon(d: Date): (r: Date)
    ensures r.civil == d.civil && r.second == 12 * 3600
  {
    At(d, Time(12, 0))
  }

  /** Whole days from the anchor's noon to the date's noon. */
  function ElapsedDays(spec: NthSpec, date: Date): (days: int)
    ensures days == DayIndex(date) - DayIndex(spec.start)
  {
    DaysBetween(Noon(spec.start), Noon(date))
  }

  /** Whole months from the anchor's noon to the date's noon. */
  function ElapsedMonths(spec: NthSpec, date: Date): (months: int)
    ensures CountsWholeMonths(Noon(spec.start), Noon(date), months)
  {
    MonthsBetweenWhole(Noon(spec.start), Noon(date));
    MonthsBetween(Noon(spec.start), Noon(date))
  }

  /** The week rule on elapsed days, with Swift's truncating `/` and `%`. */
  predicate WeekHalted(days: int, nth: int)
    requires nth != 0
  {
    SwiftInt.Rem(SwiftInt.Div(days, 7) + 1, nth) == 0
  }

  /** The month rule on elapsed months, with Swift's truncating `%`. */
  predicate MonthHalted(months: int, nth: int)
    requires nth != 0
  {
    SwiftInt.Rem(months + 1, nth) == 0
  }

  /** `Halt.isHalted`; a zero `nth` traps in the source and is excluded. */
  predicate IsHalted(h: Halt, date: Date)
    requires h.spec.nth != 0
  {
    match h
    case NthWeek(spec) => WeekHalted(ElapsedDays(spec, date), spec.nth)
    case NthMonth(spec) => MonthHalted(ElapsedMonths(spec, date), spec.nth)
  }

  /** For dates on or after the anchor, the week in progress, counted from 1, is a multiple of `nth`. */
  lemma WeekHaltedForward(days: int, nth: int)
    requires days >= 0 && nth > 0
    ensures WeekHalted(days, nth) <==> (days / 7 + 1) % nth == 0
  {
  }

  lemma MonthHaltedForward(months: int, nth: int)
    requires months >= 0 && nth > 0
    ensures MonthHalted(months, nth) <==> (months + 1) % nth == 0
  {
  }

  /** On or after the anchor, the week rule repeats every `nth` weeks. */
  lemma WeekHaltedPeriodic(days: int, nth: int)
    requires days >= 0 && nth > 0
    ensures WeekHalted(days + 7 * nth, nth) == WeekHalted(days, nth)
  {
    var later := days + 7 * nth;
    DivModUnique(later, 7, days / 7 + nth, days % 7);
    WeekHaltedForward(days, nth);
    WeekHaltedForward(later, nth);
    var w := days / 7 + 1;
    DivModUnique(w + nth, nth, w / nth + 1, w % nth);
  }

  /**
   * The month rule repeats every `nth` months, before the anchor as well as
   * after it: it has no division, and Swift's `%` is zero exactly when `nth`
   * divides the month count, whatever its sign.
   */
  lemma MonthHaltedPeriodic(months: int, nth: int, later: int)
    requires nth != 0 && later == months + nth
    ensures MonthHalted(later, nth) == MonthHalted(months, nth)
  {
    var w, d := months + 1, SwiftInt.Abs(nth);
    assert MonthHalted(months, nth) <==> SwiftInt.Abs(w) % d == 0;
    assert MonthHalted(later, nth) <==> SwiftInt.Abs(w + nth) % d == 0;
    AbsModZero(w, d);
    AbsModZero(w + nth, d);
    ModPeriod(w, nth);
  }

  /** Adding the divisor, of either sign, leaves the (Euclidean) remainder by its magnitude unchanged. */
  lemma ModPeriod(w: int, nth: int)
    requires nth != 0
    ensures (w + nth) % SwiftInt.Abs(nth) == w % SwiftInt.Abs(nth)
  {
    var d := SwiftInt.Abs(nth);
    var q := if nth > 0 then w / d + 1 else w / d - 1;
    DivModUnique(w + nth, d, q, w % d);
  }

  /** A number and its magnitude have the same (Euclidean) divisibility. */
  lemma AbsModZero(x: int, d: int)
    requires d > 0
    ensures SwiftInt.Abs(x) % d == 0 <==> x % d == 0
  {
    if x < 0 {
      if x % d == 0 {
        DivModUnique(-x, d, -(x / d), 0);
      }
      if (-x) % d == 0 {
        DivModUnique(x, d, -((-x) / d), 0);
      }
    }
  }

  /** Before the anchor the truncating division breaks the cadence: 1 day before and 13 days after differ by 2 weeks. */
  lemma WeekHaltedNotPeriodicBeforeAnchor()
    ensures !WeekHalted(-1, 2) && WeekHalted(-1 + 7 * 2, 2)
  {
  }

  /** `k` days after the anchor, a week rule halts as the week rule on `k` says. */
  lemma NthWeekAfter(start: Date, nth: int, k: nat)
    requires nth != 0
    ensures IsHalted(NthWeek(NthSpec(start, nth)), AddDays(start, k)) == WeekHalted(k, nth)
  {
    var days := ElapsedDays(NthSpec(start, nth), AddDays(start, k));
    assert days == k;
  }

  /** `k` months after the anchor, a month rule halts as the month rule on `k` says. */
  lemma NthMonthAfter(start: Date, nth: int, k: int)
    requires nth != 0
    ensures IsHalted(NthMonth(NthSpec(start, nth)), AddMonths(start, k)) == MonthHalted(k, nth)
  {
    var a := Noon(start);
    assert AddMonths(a, k) == Noon(AddMonths(start, k));
    MonthsBetweenAddMonths(a, k);
  }

  /**
   * Halting is periodic in its own unit: `k` and `k + nth` weeks (or months)
   * after the anchor are halted alike.
   */
  lemma NthWeekPeriodic(start: Date, nth: int, k: nat)
    requires nth > 0
    ensures IsHalted(NthWeek(NthSpec(start, nth)), AddDays(start, k + 7 * nth))
         == IsHalted(NthWeek(NthSpec(start, nth)), AddDays(start, k))
  {
    NthWeekAfter(start, nth, k);
    NthWeekAfter(start, nth, k + 7 * nth);
    WeekHaltedPeriodic(k, nth);
  }

  lemma NthMonthPeriodic(start: Date, nth: int, k: int, later: int)
    requires nth != 0 && later == k + nth
    ensures IsHalted(NthMonth(NthSpec(start, nth)), AddMonths(start, later))
         == IsHalted(NthMonth(NthSpec(start, nth)), AddMonths(start, k))
  {
    NthMonthAfter(start, nth, k);
    NthMonthAfter(start, nth, later);
    MonthHaltedPeriodic(k, nth, later);
  }

  /**
   * Every second week off: 6 and 14 days after the anchor are not halted,
   * 7, 10 and 21 days after it are.
   */
  lemma EverySecondWeek(start: Date, k: nat)
    requires k in [6, 7, 10, 14, 21]
    ensures IsHalted(NthWeek(NthSpec(start, 2)), AddDays(start, k)) <==> k in [7, 10, 21]
  {
    NthWeekAfter(start, 2, k);
    WeekHaltedEverySecond(k);
  }

  lemma WeekHaltedEverySecond(k: nat)
    requires k in [6, 7, 10, 14, 21]
    ensures WeekHalted(k, 2) <==> k in [7, 10, 21]
  {
    WeekHaltedForward(k, 2);
    if k == 6 {
      assert k / 7 == 0;
    } else if k == 7 || k == 10 {
      assert k / 7 == 1;
    } else if k == 14 {
      assert k / 7 == 2;
    } else {
      assert k / 7 == 3;
    }
  }

  /** The same cadence from 11 July 2021, 08:34. */
  lemma EverySecondWeekFromJuly2021(k: nat)
    requires k in [6, 7, 10, 14, 21]
    ensures IsHalted(NthWeek(NthSpec(DateTime(CivilDate(2021, 7, 11), 8 * 3600 + 34 * 60), 2)),
                     AddDays(DateTime(CivilDate(2021, 7, 11), 8 * 3600 + 34 * 60), k))
        <==> k in [7, 10, 21]
  {
    EverySecondWeek(DateTime(CivilDate(2021, 7, 11), 8 * 3600 + 34 * 60), k);
  }

  // ---- reminders and their editable form ----

  /** `Reminder`. */
  datatype Reminder = Reminder(id: string, enabled: bool, name: string, when: When, halt: Option<Halt>, start: Date)

  /** `MutableReminder`: the editable form, with a tick per weekday and per day of the month. */
  datatype MutableReminder = MutableReminder(
    id: string,
    enabled: bool,
    name: string,
    whenInterval: Interval,
    whenWeekDays: seq<Selection<WeekDay>>,
    whenDaysOfMonth: seq<Selection<int>>,
    timeAsDate: Date,
    haltInterval: HaltInterval,
    haltNth: int,
    start: Date)

  /** `Array(1...31)`. */
  const AllMonthDays: seq<int> :=
    [1, 2, 3, 4, 5, 6, 7, 8, 9, 10, 11, 12, 13, 14, 15, 16, 17, 18, 19, 20, 21, 22, 23, 24, 25, 26, 27, 28, 29, 30, 31]

  /** A row per day of `all`, ticked when the day is in `enabled`. */
  function Ticked<D(==)>(all: seq<D>, enabled: seq<D>): (rows: seq<Selection<D>>)
    ensures Days(rows) == all
    ensures forall i :: 0 <= i < |all| ==> (rows[i].isSelected <==> all[i] in enabled)
  {
    seq(|all|, i requires 0 <= i < |all| => Selection(all[i], all[i] in enabled))
  }

  /** `Time.today`, with the clock's current date as a parameter. */
  function TimeToday(t: Time, today: Date): Date { At(today, t) }

  /** `Reminder.mutable`; `today` stands for the clock reading of `Time.today`. */
  function Mutable(r: Reminder, today: Date): MutableReminder {
    MutableReminder(
      r.id, r.enabled, r.name,
      IntervalOf(r.when),
      Ticked(AllWeekDays, WeekDaysOf(r.when).GetOr(AllWeekDays)),
      Ticked(AllMonthDays, MonthDaysOf(r.when).GetOr(AllMonthDays)),
      TimeToday(TimeOfWhen(r.when), today),
      if r.halt.Some? then HaltIntervalOf(r.halt.value) else NoHalt,
      if r.halt.Some? then NthOf(r.halt.value).GetOr(2) else 2,
      r.start)
  }

  /**
   * The editable form lists the seven weekdays from Monday and the days 1 to
   * 31, each ticked exactly when the rule lists it; a rule without a list
   * ticks them all.
   */
  lemma MutableTicks(r: Reminder, today: Date)
    ensures Days(Mutable(r, today).whenWeekDays) == AllWeekDays
    ensures forall i :: 0 <= i < 7 ==>
      (Mutable(r, today).whenWeekDays[i].isSelected <==> (r.when.Daily? ==> AllWeekDays[i] in r.when.weekDays))
    ensures Days(Mutable(r, today).whenDaysOfMonth) == AllMonthDays
    ensures forall i :: 0 <= i < 31 ==>
      (Mutable(r, today).whenDaysOfMonth[i].isSelected <==> (r.when.DaysOfMonth? ==> i + 1 in r.when.monthDays))
  {
  }

  /** Without a halt the editable form says "none" and every second; with one it copies its kind and `nth`. */
  lemma MutableHalt(r: Reminder, today: Date)
    ensures r.halt.None? ==> Mutable(r, today).haltInterval == NoHalt && Mutable(r, today).haltNth == 2
    ensures r.halt.Some? ==>
      Mutable(r, today).haltInterval == HaltIntervalOf(r.halt.value) && Mutable(r, today).haltNth == r.halt.value.spec.nth
  {
  }

  /** The editable form keeps the rule's kind and, for a valid time, its time of day. */
  lemma MutableTime(r: Reminder, today: Date)
    ensures Mutable(r, today).whenInterval == IntervalOf(r.when)
    ensures ValidTime(TimeOfWhen(r.when)) ==> TimeOf(Mutable(r, today).timeAsDate) == TimeOfWhen(r.when)
  {
  }
}
