/**
 * An explicit integer calendar standing in for Foundation's `Calendar.current`
 * in one fixed time zone without daylight saving. A date is a proleptic
 * Gregorian civil date together with the second within that day; its instant
 * counts seconds since 1970-01-01 00:00, and dates compare by instant.
 * Day numbers are computed with years that begin on 1 March, so that the
 * leap day is the last day of each counted year.
 */
module Calendar {
  import opened Wrappers
  import SwiftInt

  const SecondsPerDay: int := 86400
  /** Days from 0000-03-01 to 1970-01-01. */
  const EpochOffset: int := 719468

  function Min(a: int, b: int): int { if a <= b then a else b }

  // ---- civil dates ----

  datatype CivilDate = CivilDate(year: int, month: int, day: int)

  predicate LeapYear(y: int) { y % 4 == 0 && (y % 100 != 0 || y % 400 == 0) }

  function DaysInMonth(year: int, month: int): (n: int)
    requires 1 <= month <= 12
    ensures 28 <= n <= 31
    ensures n == 29 <==> month == 2 && LeapYear(year)
  {
    if month == 2 then (if LeapYear(year) then 29 else 28)
    else if month == 4 || month == 6 || month == 9 || month == 11 then 30
    else 31
  }

  predicate ValidCivil(c: CivilDate) {
    1 <= c.month <= 12 && 1 <= c.day <= DaysInMonth(c.year, c.month)
  }

  /** Months counted without years: January of year 0 is month 0. */
  function MonthIndex(c: CivilDate): int { c.year * 12 + c.month - 1 }

  /** Days from 0000-03-01 to 1 March of year `y`. */
  function MarchYearStart(y: int): int { 365 * y + y / 4 - y / 100 + y / 400 }

  /** Days from 1 March to the first of the `mp`-th month after March (0 = March, 11 = February). */
  function DaysBeforeMonth(mp: int): int
    requires 0 <= mp <= 12
  {
    (153 * mp + 2) / 5
  }

  function MarchMonth(month: int): int
    requires 1 <= month <= 12
  {
    if month > 2 then month - 3 else month + 9
  }

  function MarchYear(c: CivilDate): int { if c.month <= 2 then c.year - 1 else c.year }

  /** Days from 1970-01-01 to the civil date `c`. */
  function DayNumber(c: CivilDate): int
    requires 1 <= c.month <= 12
  {
    MarchYearStart(MarchYear(c)) + DaysBeforeMonth(MarchMonth(c.month)) + c.day - 1 - EpochOffset
  }

  /** The civil date after `c`. */
  function NextDay(c: CivilDate): (t: CivilDate)
    requires ValidCivil(c)
    ensures ValidCivil(t) && DayNumber(t) == DayNumber(c) + 1
  {
    NextDayNumber(c);
    if c.day < DaysInMonth(c.year, c.month) then CivilDate(c.year, c.month, c.day + 1)
    else if c.month < 12 then CivilDate(c.year, c.month + 1, 1)
    else CivilDate(c.year + 1, 1, 1)
  }

  lemma NextDayNumber(c: CivilDate)
    requires ValidCivil(c)
    ensures c.day < DaysInMonth(c.year, c.month) ==>
      DayNumber(CivilDate(c.year, c.month, c.day + 1)) == DayNumber(c) + 1
    ensures c.day == DaysInMonth(c.year, c.month) && c.month < 12 ==>
      DayNumber(CivilDate(c.year, c.month + 1, 1)) == DayNumber(c) + 1
    ensures c.day == DaysInMonth(c.year, c.month) && c.month == 12 ==>
      DayNumber(CivilDate(c.year + 1, 1, 1)) == DayNumber(c) + 1
  {
    if c.month == 2 {
      MarchYearNext(c.year - 1);
    } else if c.month < 12 {
      MonthLengths(MarchMonth(c.month));
    } else {
      MonthLengths(9);
    }
  }

  /** Distinct valid civil dates have distinct day numbers. */
  lemma DayNumberInjective(c: CivilDate, c': CivilDate)
    requires ValidCivil(c) && ValidCivil(c')
    requires DayNumber(c) == DayNumber(c')
    ensures c == c'
  {
    DaysInItsMonth(c);
    DaysInItsMonth(c');
    if MonthIndex(c) < MonthIndex(c') {
      MonthStartIncreasing(MonthIndex(c), MonthIndex(c'));
    } else if MonthIndex(c') < MonthIndex(c) {
      MonthStartIncreasing(MonthIndex(c'), MonthIndex(c));
    }
    MonthIndexOf(c.year, c.month);
    MonthIndexOf(c'.year, c'.month);
  }

  // ---- dates and times of day ----

  datatype DateTime = DateTime(civil: CivilDate, second: int)

  predicate ValidDate(d: DateTime) { ValidCivil(d.civil) && 0 <= d.second < SecondsPerDay }

  /** Foundation's `Date`: a valid civil date and a second within it. */
  type Date = d: DateTime | ValidDate(d) witness DateTime(CivilDate(1970, 1, 1), 0)

  function DayIndex(d: Date): int { DayNumber(d.civil) }

  /** Seconds since 1970-01-01 00:00; dates are ordered by their instants. */
  function Instant(d: Date): int { DayIndex(d) * SecondsPerDay + d.second }

  function HourOf(d: Date): (h: int)
    ensures 0 <= h < 24
  {
    d.second / 3600
  }

  function MinuteOf(d: Date): (m: int)
    ensures 0 <= m < 60
  {
    d.second % 3600 / 60
  }

  /** Of two dates, the one on the later day is the later date. */
  lemma LaterDayIsLater(a: Date, b: Date)
    requires DayIndex(a) < DayIndex(b)
    ensures Instant(a) < Instant(b)
  {
  }

  /**
   * Foundation's `date(bySettingHour:minute:second: 0, of:)`: the same day at
   * the given hour and minute, or nothing when they are out of range.
   */
  function SetHourMinute(d: Date, hour: int, minute: int): (r: Option<Date>)
    ensures r.Some? <==> 0 <= hour < 24 && 0 <= minute < 60
    ensures r.Some? ==> r.value.civil == d.civil && r.value.second == hour * 3600 + minute * 60
    ensures r.Some? ==> HourOf(r.value) == hour && MinuteOf(r.value) == minute
  {
    if 0 <= hour < 24 && 0 <= minute < 60 then
      Some(DateTime(d.civil, hour * 3600 + minute * 60))
    else None
  }

  /**
   * Foundation's `date(byAdding: .day, value: n, to: d)` for `n >= 0`: the same
   * time of day `n` days later. It never fails here.
   */
  function AddDays(d: Date, n: nat): (r: Date)
    ensures DayIndex(r) == DayIndex(d) + n && r.second == d.second
    ensures Instant(r) == Instant(d) + n * SecondsPerDay
    decreases n
  {
    if n == 0 then d else AddDays(DateTime(NextDay(d.civil), d.second), n - 1)
  }

  /** Adding days is fixed by the day it lands on: any date on that day at that time is it. */
  lemma AddDaysUnique(d: Date, n: nat, e: Date)
    requires DayIndex(e) == DayIndex(d) + n && e.second == d.second
    ensures AddDays(d, n) == e
  {
    DayNumberInjective(AddDays(d, n).civil, e.civil);
  }

  /** The same time on the next civil date: adding one day. */
  function Tomorrow(d: Date): (r: Date)
    ensures DayIndex(r) == DayIndex(d) + 1 && r.second == d.second
    ensures Instant(r) == Instant(d) + SecondsPerDay
  {
    DateTime(NextDay(d.civil), d.second)
  }

  /**
   * Foundation's whole days from `a` to `b` (`dateComponents([.day], from:to:)`),
   * truncated toward zero like Swift's division.
   */
  function DaysBetween(a: Date, b: Date): (n: int)
    ensures a.second == b.second ==> n == DayIndex(b) - DayIndex(a)
    ensures (n > 0 ==> Instant(a) < Instant(b)) && (n < 0 ==> Instant(b) < Instant(a))
  {
    DaysBetweenSameTime(a, b);
    SwiftInt.Div(Instant(b) - Instant(a), SecondsPerDay)
  }

  lemma DaysBetweenSameTime(a: Date, b: Date)
    ensures a.second == b.second ==>
      SwiftInt.Div(Instant(b) - Instant(a), SecondsPerDay) == DayIndex(b) - DayIndex(a)
  {
    if a.second == b.second {
      var diff, k := Instant(b) - Instant(a), DayIndex(b) - DayIndex(a);
      assert diff == k * SecondsPerDay;
      assert SwiftInt.Abs(diff) / SecondsPerDay == SwiftInt.Abs(k);
    }
  }

  /** Foundation's weekday component: 1 = Sunday ... 7 = Saturday; 1970-01-01 was a Thursday. */
  function WeekdayCode(d: Date): (code: int)
    ensures 1 <= code <= 7
  {
    (DayIndex(d) + 4) % 7 + 1
  }

  /** The weekday code `n` days after `d`. */
  lemma WeekdayAfter(d: Date, n: nat)
    ensures WeekdayCode(AddDays(d, n)) == (DayIndex(d) + 4 + n) % 7 + 1
  {
    assert DayIndex(AddDays(d, n)) == DayIndex(d) + n;
  }

  // ---- months ----

  function FirstOfMonth(k: int): CivilDate { CivilDate(k / 12, k % 12 + 1, 1) }

  /** The day number of the first day of month `k`. */
  function MonthStart(k: int): int { DayNumber(FirstOfMonth(k)) }

  function MonthLength(k: int): int { DaysInMonth(k / 12, k % 12 + 1) }

  /** A month has one last day. */
  lemma SameMonthEnd(c: CivilDate, c': CivilDate)
    requires 1 <= c.month <= 12 && 1 <= c'.month <= 12 && MonthIndex(c) == MonthIndex(c')
    requires c.day == DaysInMonth(c.year, c.month) && c'.day == DaysInMonth(c'.year, c'.month)
    ensures c == c'
  {
    assert (c.year - c'.year) * 12 == c'.month - c.month;
  }

  /** The last day of month `k` (counted as by `MonthIndex`), at the given second. */
  function MonthEnd(k: int, second: int): (d: Date)
    requires 0 <= second < SecondsPerDay
    ensures MonthIndex(d.civil) == k && d.second == second
    ensures d.civil.day == DaysInMonth(d.civil.year, d.civil.month)
  {
    DateTime(CivilDate(k / 12, k % 12 + 1, MonthLength(k)), second)
  }

  /** The civil date `n` months after `c`, its day clamped to the last day of that month. */
  function ShiftMonths(c: CivilDate, n: int): (t: CivilDate)
    requires ValidCivil(c)
    ensures ValidCivil(t) && MonthIndex(t) == MonthIndex(c) + n
    ensures t.day == Min(c.day, MonthLength(MonthIndex(c) + n))
  {
    var k := MonthIndex(c) + n;
    MonthIndexOf(k / 12, k % 12 + 1);
    CivilDate(k / 12, k % 12 + 1, Min(c.day, MonthLength(k)))
  }

  /**
   * Foundation's `date(byAdding: .month, value: n, to: d)`: the same day of the
   * month `n` months later, clamped to that month's last day, at the same time
   * of day. It never fails here.
   */
  function AddMonths(d: Date, n: int): Date {
    DateTime(ShiftMonths(d.civil, n), d.second)
  }

  /** Month addition lands `n` months on, keeps the day when that month has it, else takes the month's last day. */
  lemma AddMonthsDay(d: Date, n: int)
    ensures MonthIndex(AddMonths(d, n).civil) == MonthIndex(d.civil) + n
    ensures AddMonths(d, n).second == d.second
    ensures d.civil.day <= MonthLength(MonthIndex(d.civil) + n) ==> AddMonths(d, n).civil.day == d.civil.day
    ensures d.civil.day > MonthLength(MonthIndex(d.civil) + n) ==>
      AddMonths(d, n).civil.day == MonthLength(MonthIndex(d.civil) + n)
  {
  }

  /** Adding no months leaves a date unchanged. */
  lemma AddMonthsZero(d: Date)
    ensures AddMonths(d, 0) == d
  {
    MonthIndexOf(d.civil.year, d.civil.month);
  }

  /** Adding more months gives a later date. */
  lemma AddMonthsIncreasing(d: Date, i: int, j: int)
    requires i < j
    ensures Instant(AddMonths(d, i)) < Instant(AddMonths(d, j))
  {
    EarlierMonthIsEarlier(AddMonths(d, i), AddMonths(d, j));
  }

  /** A date in an earlier month is on an earlier day. */
  lemma EarlierMonthIsEarlier(a: Date, b: Date)
    requires MonthIndex(a.civil) < MonthIndex(b.civil)
    ensures DayIndex(a) < DayIndex(b) && Instant(a) < Instant(b)
  {
    DaysInItsMonth(a.civil);
    DaysInItsMonth(b.civil);
    MonthStartIncreasing(MonthIndex(a.civil), MonthIndex(b.civil));
  }

  /**
   * Foundation's whole months from `a` to `b` (`dateComponents([.month], from:to:)`):
   * the furthest month addition from `a` that does not pass `b`.
   */
  function MonthsBetween(a: Date, b: Date): int {
    WholeMonths(a, b, MonthIndex(b.civil) - MonthIndex(a.civil))
  }

  /** Steps the calendar-month difference `raw` back by one when adding it to `a` passes `b`. */
  function WholeMonths(a: Date, b: Date, raw: int): int {
    if raw > 0 && Instant(AddMonths(a, raw)) > Instant(b) then raw - 1
    else if raw < 0 && Instant(AddMonths(a, raw)) < Instant(b) then raw + 1
    else raw
  }

  /**
   * `n` is the whole number of months from `a` to `b`: the furthest month
   * addition from `a` that does not pass `b` (going back when `b` is earlier).
   */
  predicate CountsWholeMonths(a: Date, b: Date, n: int) {
    (Instant(a) <= Instant(b) ==>
      n >= 0 && Instant(AddMonths(a, n)) <= Instant(b) < Instant(AddMonths(a, n + 1))) &&
    (Instant(b) < Instant(a) ==>
      n <= 0 && Instant(AddMonths(a, n - 1)) < Instant(b) <= Instant(AddMonths(a, n)))
  }

  /** MonthsBetween counts whole months. */
  lemma MonthsBetweenWhole(a: Date, b: Date)
    ensures CountsWholeMonths(a, b, MonthsBetween(a, b))
  {
    var n := MonthsBetween(a, b);
    if MonthIndex(a.civil) < MonthIndex(b.civil) {
      WholeMonthsForward(a, b, n);
    } else if MonthIndex(b.civil) < MonthIndex(a.civil) {
      WholeMonthsBackward(a, b, n);
    } else {
      WholeMonthsSameMonth(a, b, n);
    }
  }

  /** At most one count of whole months fits: MonthsBetween is the only one. */
  lemma WholeMonthsUnique(a: Date, b: Date, n: int, m: int)
    requires CountsWholeMonths(a, b, n) && CountsWholeMonths(a, b, m)
    ensures n == m
  {
    if n < m {
      AddMonthsMonotoneNext(a, n, m);
      AddMonthsMonotonePrevious(a, n, m);
    } else if m < n {
      AddMonthsMonotoneNext(a, m, n);
      AddMonthsMonotonePrevious(a, m, n);
    }
  }

  /** Adding the months to a date and measuring the whole months back gives the same number. */
  lemma MonthsBetweenAddMonths(a: Date, k: int)
    ensures MonthsBetween(a, AddMonths(a, k)) == k
  {
    var b := AddMonths(a, k);
    AddMonthsZero(a);
    if k >= 0 {
      AddMonthsMonotone(a, 0, k);
      AddMonthsNextLater(a, k);
    } else {
      AddMonthsIncreasing(a, k, 0);
      AddMonthsPreviousEarlier(a, k);
    }
    assert CountsWholeMonths(a, b, k);
    MonthsBetweenWhole(a, b);
    WholeMonthsUnique(a, b, k, MonthsBetween(a, b));
  }

  lemma AddMonthsNextLater(d: Date, n: int)
    ensures Instant(AddMonths(d, n)) < Instant(AddMonths(d, n + 1))
  {
    AddMonthsIncreasing(d, n, n + 1);
  }

  lemma AddMonthsPreviousEarlier(d: Date, n: int)
    ensures Instant(AddMonths(d, n - 1)) < Instant(AddMonths(d, n))
  {
    AddMonthsIncreasing(d, n - 1, n);
  }

  lemma AddMonthsMonotoneNext(d: Date, n: int, m: int)
    requires n < m
    ensures Instant(AddMonths(d, n + 1)) <= Instant(AddMonths(d, m))
  {
    AddMonthsMonotone(d, n + 1, m);
  }

  lemma AddMonthsMonotonePrevious(d: Date, n: int, m: int)
    requires n < m
    ensures Instant(AddMonths(d, n)) <= Instant(AddMonths(d, m - 1))
  {
    AddMonthsMonotone(d, n, m - 1);
  }

  /** Adding at least as many months gives a date no earlier. */
  lemma AddMonthsMonotone(d: Date, i: int, j: int)
    requires i <= j
    ensures Instant(AddMonths(d, i)) <= Instant(AddMonths(d, j))
  {
    if i < j {
      AddMonthsIncreasing(d, i, j);
    }
  }

  lemma WholeMonthsForward(a: Date, b: Date, n: int)
    requires MonthIndex(a.civil) < MonthIndex(b.civil)
    requires n == WholeMonths(a, b, MonthIndex(b.civil) - MonthIndex(a.civil))
    ensures CountsWholeMonths(a, b, n)
  {
    EarlierMonthIsEarlier(a, b);
    if n == MonthIndex(b.civil) - MonthIndex(a.civil) - 1 {
      MonthBefore(a, b, n);
    } else {
      MonthAfterNext(a, b, n);
    }
  }

  lemma WholeMonthsBackward(a: Date, b: Date, n: int)
    requires MonthIndex(b.civil) < MonthIndex(a.civil)
    requires n == WholeMonths(a, b, MonthIndex(b.civil) - MonthIndex(a.civil))
    ensures CountsWholeMonths(a, b, n)
  {
    EarlierMonthIsEarlier(b, a);
    if n == MonthIndex(b.civil) - MonthIndex(a.civil) + 1 {
      MonthAfter(a, b, n);
    } else {
      MonthBeforePrevious(a, b, n);
    }
  }

  lemma WholeMonthsSameMonth(a: Date, b: Date, n: int)
    requires MonthIndex(b.civil) == MonthIndex(a.civil)
    requires n == WholeMonths(a, b, 0)
    ensures CountsWholeMonths(a, b, n)
  {
    AddMonthsZero(a);
    if Instant(a) <= Instant(b) {
      MonthAfterNext(a, b, n);
    } else {
      MonthBeforePrevious(a, b, n);
    }
  }

  /** Adding to `a` fewer months than separate `a` from `b` lands before `b`. */
  lemma MonthBefore(a: Date, b: Date, n: int)
    requires MonthIndex(a.civil) + n < MonthIndex(b.civil)
    ensures Instant(AddMonths(a, n)) < Instant(b)
  {
    EarlierMonthIsEarlier(AddMonths(a, n), b);
  }

  lemma MonthBeforePrevious(a: Date, b: Date, n: int)
    requires MonthIndex(a.civil) + n - 1 < MonthIndex(b.civil)
    ensures Instant(AddMonths(a, n - 1)) < Instant(b)
  {
    EarlierMonthIsEarlier(AddMonths(a, n - 1), b);
  }

  /** Adding to `a` more months than separate `a` from `b` lands after `b`. */
  lemma MonthAfter(a: Date, b: Date, n: int)
    requires MonthIndex(a.civil) + n > MonthIndex(b.civil)
    ensures Instant(b) < Instant(AddMonths(a, n))
  {
    EarlierMonthIsEarlier(b, AddMonths(a, n));
  }

  lemma MonthAfterNext(a: Date, b: Date, n: int)
    requires MonthIndex(a.civil) + n + 1 > MonthIndex(b.civil)
    ensures Instant(b) < Instant(AddMonths(a, n + 1))
  {
    EarlierMonthIsEarlier(b, AddMonths(a, n + 1));
  }

  /** A valid civil date lies within its month. */
  lemma DaysInItsMonth(c: CivilDate)
    requires ValidCivil(c)
    ensures DayNumber(c) == MonthStart(MonthIndex(c)) + c.day - 1
    ensures MonthStart(MonthIndex(c)) <= DayNumber(c) < MonthStart(MonthIndex(c)) + MonthLength(MonthIndex(c))
  {
    MonthIndexOf(c.year, c.month);
    assert FirstOfMonth(MonthIndex(c)) == CivilDate(c.year, c.month, 1);
  }

  lemma MonthIndexOf(year: int, month: int)
    requires 1 <= month <= 12
    ensures (year * 12 + month - 1) / 12 == year && (year * 12 + month - 1) % 12 == month - 1
  {
    DivModUnique(year * 12 + month - 1, 12, year, month - 1);
  }

  /** Each month starts where the previous one ends. */
  lemma MonthStartNext(k: int, next: int)
    requires next == k + 1
    ensures MonthStart(next) == MonthStart(k) + MonthLength(k)
  {
    var y, m := k / 12, k % 12 + 1;
    var last := CivilDate(y, m, MonthLength(k));
    if m < 12 {
      DivModUnique(next, 12, y, m);
    } else {
      DivModUnique(next, 12, y + 1, 0);
    }
    assert NextDay(last) == FirstOfMonth(next);
  }

  lemma {:induction false} MonthStartIncreasing(k1: int, k2: int)
    requires k1 < k2
    ensures MonthStart(k1) + MonthLength(k1) <= MonthStart(k2)
    decreases k2 - k1
  {
    var k := k1 + 1;
    MonthStartNext(k1, k);
    if k < k2 {
      MonthStartIncreasing(k, k2);
    }
  }

  // ---- arithmetic facts behind the day numbers ----

  /** March years are 365 days long, or 366 when the February that ends them is a leap February. */
  lemma MarchYearNext(y: int)
    ensures MarchYearStart(y + 1) == MarchYearStart(y) + if LeapYear(y + 1) then 366 else 365
  {
    DivStep(y, 4);
    DivStep(y, 100);
    DivStep(y, 400);
    var z := y + 1;
    if z % 400 == 0 {
      DivModUnique(z, 100, z / 400 * 4, 0);
    }
    if z % 100 == 0 {
      DivModUnique(z, 4, z / 100 * 25, 0);
    }
  }

  /** Incrementing a number increments its quotient exactly when it reaches a multiple. */
  lemma DivStep(x: int, b: int)
    requires b > 0
    ensures (x + 1) / b == x / b + (if (x + 1) % b == 0 then 1 else 0)
  {
    var q, r := x / b, x % b;
    if r == b - 1 {
      DivModUnique(x + 1, b, q + 1, 0);
    } else {
      DivModUnique(x + 1, b, q, r + 1);
    }
  }

  lemma DivModUnique(a: int, b: int, q: int, r: int)
    requires b > 0 && 0 <= r < b && a == q * b + r
    ensures a / b == q && a % b == r
  {
    var q', r' := a / b, a % b;
    assert q' * b + r' == q * b + r;
    if q' > q {
      MulAtLeast(q' - q, b);
    } else if q' < q {
      MulAtLeast(q - q', b);
    }
  }

  lemma {:induction false} MulAtLeast(x: int, b: int)
    requires x >= 1 && b > 0
    ensures x * b >= b
    decreases x
  {
    if x > 1 {
      MulAtLeast(x - 1, b);
      assert x * b == (x - 1) * b + b;
    }
  }

  /** Month lengths as the March-based table gives them. */
  lemma MonthLengths(mp: int)
    requires 0 <= mp <= 10
    ensures DaysBeforeMonth(mp + 1) - DaysBeforeMonth(mp)
         == DaysInMonth(0, if mp < 10 then mp + 3 else mp - 9)
  {
  }
}
