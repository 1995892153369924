/**
 * The editing round trip: `Reminder.mutable` followed by
 * `MutableReminder.immutable`. It gives back the reminder it started from
 * exactly when the reminder is already in the form the editor produces.
 */
module Projection {
  import opened Wrappers
  import opened Calendar
  import opened Selections
  import opened Models
  import opened MutableReminders

  /** The days of `all` that `listed` names, in the order of `all`. */
  function Listed<D(==,!new)>(all: seq<D>, listed: seq<D>): (r: seq<D>)
    ensures forall x :: x in r <==> x in all && x in listed
  {
    if all == [] then []
    else (if all[0] in listed then [all[0]] else []) + Listed(all[1..], listed)
  }

  /** `listed` is already a selection of `all` in `all`'s order, without repeats. */
  predicate InOrder<D(==,!new)>(all: seq<D>, listed: seq<D>) {
    Listed(all, listed) == listed
  }

  /** Reading back the rows built for `enabled` lists the days of `all` it names, in `all`'s order. */
  lemma {:induction false} SelectedTicked<D(!new)>(all: seq<D>, enabled: seq<D>)
    ensures SelectedDays(Ticked(all, enabled)) == Listed(all, enabled)
  {
    if all != [] {
      var rows := Ticked(all, enabled);
      SelectedTicked(all[1..], enabled);
      assert rows[1..] == Ticked(all[1..], enabled);
    }
  }

  /** Every weekday has a row. */
  lemma EveryWeekDayListed(w: WeekDay)
    ensures w in AllWeekDays
  {
    match w
    case Mon => assert AllWeekDays[0] == w;
    case Tue => assert AllWeekDays[1] == w;
    case Wed => assert AllWeekDays[2] == w;
    case Thu => assert AllWeekDays[3] == w;
    case Fri => assert AllWeekDays[4] == w;
    case Sat => assert AllWeekDays[5] == w;
    case Sun => assert AllWeekDays[6] == w;
  }

  /** The rows of the day-of-month picker are the days 1 to 31. */
  lemma MonthDayListed(d: int)
    ensures d in AllMonthDays <==> 1 <= d <= 31
  {
    if 1 <= d <= 31 {
      assert AllMonthDays[d - 1] == d;
    }
  }

  /**
   * A daily rule keeps its weekdays through the round trip, listed from
   * Monday to Sunday.
   */
  lemma DailyRoundTripDays(r: Reminder, today: Date)
    requires r.when.Daily?
    ensures AsWhen(Mutable(r, today)).Daily?
    ensures forall w :: w in AsWhen(Mutable(r, today)).weekDays <==> w in r.when.weekDays
    ensures AsWhen(Mutable(r, today)).weekDays == Listed(AllWeekDays, r.when.weekDays)
  {
    SelectedTicked(AllWeekDays, r.when.weekDays);
    forall w ensures w in AllWeekDays {
      EveryWeekDayListed(w);
    }
  }

  /**
   * A days-of-month rule keeps its days from 1 to 31 through the round trip,
   * in increasing order; any other day it lists is dropped.
   */
  lemma DaysOfMonthRoundTripDays(r: Reminder, today: Date)
    requires r.when.DaysOfMonth?
    ensures AsWhen(Mutable(r, today)).DaysOfMonth?
    ensures forall d :: d in AsWhen(Mutable(r, today)).monthDays <==> d in r.when.monthDays && 1 <= d <= 31
    ensures AsWhen(Mutable(r, today)).monthDays == Listed(AllMonthDays, r.when.monthDays)
  {
    SelectedTicked(AllMonthDays, r.when.monthDays);
    forall d ensures d in AllMonthDays <==> 1 <= d <= 31 {
      MonthDayListed(d);
    }
  }

  /** The round trip rebuilds the halt rule with its kind and `nth`, anchored at the reminder's start. */
  lemma HaltRoundTrip(r: Reminder, today: Date)
    ensures r.halt.None? ==> AsHalt(Mutable(r, today)) == None
    ensures r.halt.Some? ==>
      && AsHalt(Mutable(r, today)).Some?
      && HaltIntervalOf(AsHalt(Mutable(r, today)).value) == HaltIntervalOf(r.halt.value)
      && AsHalt(Mutable(r, today)).value.spec == NthSpec(r.start, r.halt.value.spec.nth)
  {
    MutableHalt(r, today);
  }

  /** The reminders the editor produces. */
  predicate Canonical(r: Reminder) {
    && ValidTime(TimeOfWhen(r.when))
    && (r.halt.Some? ==> r.halt.value.spec.start == r.start)
    && (r.when.Once? ==> r.when.date == At(r.start, TimeOf(r.when.date)))
    && (r.when.Daily? ==> InOrder(AllWeekDays, r.when.weekDays))
    && (r.when.DaysOfMonth? ==> InOrder(AllMonthDays, r.when.monthDays))
  }

  /** The halt rule survives the round trip exactly when it is anchored at the reminder's start. */
  lemma HaltSurvives(r: Reminder, today: Date)
    ensures AsHalt(Mutable(r, today)) == r.halt <==> (r.halt.Some? ==> r.halt.value.spec.start == r.start)
  {
    HaltRoundTrip(r, today);
  }

  /** The repeat rule survives the round trip exactly when it is in the editor's form. */
  lemma WhenSurvives(r: Reminder, today: Date)
    ensures AsWhen(Mutable(r, today)) == r.when <==>
      && ValidTime(TimeOfWhen(r.when))
      && (r.when.Once? ==> r.when.date == At(r.start, TimeOf(r.when.date)))
      && (r.when.Daily? ==> InOrder(AllWeekDays, r.when.weekDays))
      && (r.when.DaysOfMonth? ==> InOrder(AllMonthDays, r.when.monthDays))
  {
    var m := Mutable(r, today);
    var t := TimeOfWhen(r.when);
    var w := AsWhen(m);
    if ValidTime(t) {
      assert TimeOf(m.timeAsDate) == t;
    }
    if r.when.Daily? {
      DailyRoundTripDays(r, today);
    } else if r.when.DaysOfMonth? {
      DaysOfMonthRoundTripDays(r, today);
    }
  }

  /** `mutable.immutable` gives back the reminder exactly when the reminder is canonical. */
  lemma RoundTrip(r: Reminder, today: Date)
    ensures Immutable(Mutable(r, today)) == r <==> Canonical(r)
  {
    HaltSurvives(r, today);
    WhenSurvives(r, today);
  }
}
