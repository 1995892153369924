# Pill reminder recurrence engine, in Dafny

This project models the recurrence engine of the Pill iOS app and proves properties of it. Given a reminder, the engine works out when the reminder fires next. A reminder has:

- a repeat rule (`When`): once, daily on chosen weekdays, monthly, on chosen days of the month, or on the last day of every month;
- a time of day;
- an optional halt rule, which skips every nth week or every nth month counted from an anchor date;
- a start date.

The model covers these parts:

- **Vocabulary** (`Models`, from `Pill/Models/Models.swift`): weekdays and their calendar codes, `Time` and its text form, the accessors of `When`, `Halt.isHalted` with Swift's truncating `/` and `%` (`SwiftInt`), and `Reminder.mutable`, which turns a reminder into the editable form.
- **Newer generator** (`MutableReminders`, from `Pill/Models/MutableReminder.swift`): `upcoming(from:now:limit:)` for all five kinds of rule, `isLastDayOfMonth`, `asHalt`, `asWhen` and `immutable`.
- **Older generator** (`OlderGenerator`): the `upcoming(from:limit:)` that `Models.swift` still holds. `Reminder.upcoming`, and so the schedule, calls this one. It differs from the newer generator only in its monthly rule.
- **Schedule merge** (`Schedule`): the selection part of `RemindersNotifications.schedule`. It runs every reminder's upcoming dates through `flatMap`, sorts them by date and keeps the first `limit` (64 by default).
- **Pickers** (`Selections`, `WeekDaysSelectors`, `DaysOfMonthSelectors`): the weekday and day-of-month pickers. "All", "None" and a tap on a row update the bound selection array in place. Here each picker is a class over an `array`, and its methods are proved against the functions in `Selections`.
- **Editing round trip** (`Projection`): `Reminder.mutable` followed by `MutableReminder.immutable`.

**Calendar.** Foundation's `Calendar` is replaced by an explicit proleptic Gregorian calendar (`Calendar`):

- A date is a civil date plus a second of the day.
- Its instant is the day number times 86400 plus that second.
- Adding days steps through the days one at a time.
- Adding months keeps the day, clamped to the length of the target month.
- The weekday code comes from the day number, with 1 January 1970 as a Thursday.

There is one time zone and no daylight saving time, so noon normalisation only sets the time of day.

**Clock and termination.**

- The clock (`Date()`, `Date.now`, `Time.today`) becomes a parameter: `now` for the generators, `today` for `Reminder.mutable`.
- The recursion of `upcoming` is not structural in the source. Each generator takes a fuel parameter `depth`. A call that would recurse with no fuel left returns the batch it has.

**Behaviour of the code that a reader might not expect, which the model follows:**

- **Round trip.** Editing a reminder and saving it unchanged (`Reminder.mutable` followed by `MutableReminder.immutable`) does not give back every reminder. It gives back the original exactly when the reminder is *canonical* (`Projection.RoundTrip`):
  - a halt rule is anchored at the reminder's own start;
  - a one-off date is on the start day, at the minute;
  - weekday and day lists are already in picker order without repeats;
  - the time is a valid time of day.
- **Halt periodicity.** A halt rule is meant to repeat with its period, which the test at PillTests.swift:22-40 exercises from the anchor on. The month rule has no division, only Swift's `%`, and `(months + 1) % nth == 0` does not depend on the sign truncation gives the remainder, so it holds for every `k`, before the anchor too (`Models.NthMonthPeriodic`). The week rule divides the elapsed days by 7 first, and truncation toward zero puts days -6 to 6 into the same week 0. So its cadence holds only from the anchor on, for `k >= 0` (`Models.WeekHaltedNotPeriodicBeforeAnchor` shows the break one day before the anchor).
- **Dates before `now`.** The generator takes `now`, yet the daily, days-of-month and monthly branches of `upcoming(from:now:limit:)` (MutableReminder.swift:38-103) never compare a date with `now`: they return dates after `from` (daily, days of month) or at or after `from` (monthly), even when these are before `now`. Only the one-off branch and the last-day branch compare with `now`. `MutableReminders.DailyResults`, `MutableReminders.DaysOfMonthResults` and `MutableReminders.MonthlyResults` state the bound against `from` for that reason.
- **Which generator the schedule uses.** The schedule goes through `Reminder.upcoming`, which calls the older two-argument generator, not the newer one.

## Model

| member | source | states |
|---|---|---|
| Models.Short | Pill/Models/Models.swift:20-30 | the short label is three letters, the first three of the weekday's full name |
| Models.Gregorian | Pill/Models/Models.swift:33-44 | a code succeeds exactly when it is 1 to 7; any other code fails with "Invalid weekday value." |
| Models.CalendarCode | Pill/Models/Models.swift:33-44 | every weekday has a code from 1 to 7 whose place in Sunday-first order is that weekday |
| Models.GregorianCodes | Pill/Models/Models.swift:33-44 | codes 1 to 7 map to Sunday through Saturday in turn, and a code yields weekday w exactly when it is w's code |
| Models.WeekDayOf | Pill/Models/MutableReminder.swift:48 | the weekday of a date never fails, and its code is the calendar's weekday code of the date |
| Models.MinuteTwoDigits | Pill/Models/Models.swift:50 | the text starts with "0" exactly when minute < 10, and for a minute in 0..59 it is two decimal digits |
| Models.Describe | Pill/Models/Models.swift:51 | the description ends in ":" followed by the two-digit minute |
| Models.DescribeRoundTrip | Pill/Models/Models.swift:50-51 | the hour and minute are read back from the description of every time with a non-negative hour |
| Models.TimeOf | Pill/Models/Models.swift:169-174 | the hour and minute of a date form a valid time and name the minute that holds the date's second |
| Models.At | Pill/Models/Models.swift:176-179 | for a valid time the result is the same day at that time; otherwise it is the date unchanged (the `?? self` fallback) |
| Models.AtOwnTime | Pill/Models/Models.swift:176-179 | setting the time a date already has, to the second, changes nothing |
| Models.AtIdempotent | Pill/Models/Models.swift:176-179 | setting the same time twice is the same as setting it once |
| Models.TimeOfWhen | Pill/Models/Models.swift:98-105 | a one-off rule's time is exactly `TimeOf` its date (its hour and minute), which is valid |
| Models.WhenAccessors | Pill/Models/Models.swift:90-121 | `weekDays` is present exactly for the daily rule, `monthDays` exactly for days-of-month, and `interval` names the kind of rule |
| Models.HaltIntervalOf | Pill/Models/Models.swift:132-137 | a halt's interval is never `.none` |
| Models.NthOf | Pill/Models/Models.swift:139-144 | `nth` is always present, though the type is optional |
| Models.Noon | Pill/Models/Models.swift:150-151 | noon normalisation keeps the day and sets 12:00:00 |
| Models.ElapsedDays | Pill/Models/Models.swift:150-153 | the elapsed days are the difference of the day numbers of the anchor and the date |
| Models.ElapsedMonths | Pill/Models/Models.swift:158-161 | the elapsed months are the whole months from the anchor's noon to the date's noon |
| Models.WeekHalted | Pill/Models/Models.swift:153-155 | `((days / 7) + 1) % nth == 0` with Swift's truncating operators; `Models.WeekHaltedForward` gives its meaning from the anchor on |
| Models.MonthHalted | Pill/Models/Models.swift:161-163 | `(months + 1) % nth == 0` with Swift's `%`; `Models.MonthHaltedForward` gives its meaning from the anchor on |
| Models.IsHalted | Pill/Models/Models.swift:146-165 | the week rule on the days between the two noons, the month rule on the whole months between them; `Models.NthWeekAfter` and `Models.NthMonthAfter` state it for dates counted from the anchor |
| SwiftInt.Div | Pill/Models/Models.swift:154 | Swift's `/` for every non-zero divisor: the magnitude is `|a| / |b|`, the sign is the product of the signs, so it rounds toward zero |
| SwiftInt.Rem | Pill/Models/Models.swift:162 | Swift's `%` for every non-zero divisor: the remainder has the dividend's sign, and its magnitude is `|a| % |b|` |
| Models.WeekHaltedForward | Pill/Models/Models.swift:154-155 | on or after the anchor, the week rule halts exactly when `(days / 7 + 1) % nth == 0` |
| Models.MonthHaltedForward | Pill/Models/Models.swift:162-163 | on or after the anchor, the month rule halts exactly when `(months + 1) % nth == 0` |
| Models.WeekHaltedPeriodic | Pill/Models/Models.swift:154 | for days elapsed >= 0, d and d + 7·nth days halt alike |
| Models.MonthHaltedPeriodic | Pill/Models/Models.swift:162 | for every whole number of months m, positive or negative, and every non-zero nth, m and m + nth months halt alike |
| Models.WeekHaltedNotPeriodicBeforeAnchor | Pill/Models/Models.swift:154 | before the anchor, truncation breaks the cadence: -1 and 13 days differ for nth = 2 |
| Models.NthWeekAfter | Pill/Models/Models.swift:148-155 | k days after the anchor, the week halt decides by the week rule on k |
| Models.NthMonthAfter | Pill/Models/Models.swift:156-163 | k months after the anchor, the month halt decides by the month rule on k |
| Models.NthWeekPeriodic | Pill/Models/Models.swift:148-155 | a week halt gives the same answer k and k + 7·nth days after its anchor |
| Models.NthMonthPeriodic | Pill/Models/Models.swift:156-163 | for every k, before the anchor too, and every non-zero nth, a month halt gives the same answer k and k + nth months after its anchor |
| Models.EverySecondWeek | PillTests/PillTests.swift:30-40 | with nth = 2, +6 and +14 days are not halted, and +7, +10 and +21 are |
| Models.WeekHaltedEverySecond | PillTests/PillTests.swift:30-40 | the same five cases on the elapsed-days rule |
| Models.EverySecondWeekFromJuly2021 | PillTests/PillTests.swift:22-40 | the same cases anchored at 2021-07-11 08:34 |
| Models.DaysUntil | Pill/Models/MutableReminder.swift:43-50 | from any date, every weekday is reached by adding fewer than 7 days; this is what lets a daily batch find a ticked weekday |
| Models.Ticked | Pill/Models/Models.swift:333-335 | one row per day of the list, in order, each ticked exactly when the day is enabled |
| Models.MutableTicks | Pill/Models/Models.swift:332-340 | the seven weekdays from Monday and the days 1..31, each ticked exactly when the rule lists it; a rule without a list ticks all |
| Models.MutableHalt | Pill/Models/Models.swift:341 | without a halt, the interval is none and nth is 2; with one, they are its kind and its nth |
| Models.MutableTime | Pill/Models/Models.swift:341 | the editable form keeps the rule's interval and, for a valid time, its time of day |
| Models.TimeToday | Pill/Models/Models.swift:52-54 | `Time.today`: today's date at the time; `Models.At` states what that date is |
| Models.Mutable | Pill/Models/Models.swift:331-342 | `Reminder.mutable`; `Models.MutableTicks`, `Models.MutableHalt` and `Models.MutableTime` state what each field of the editable form holds |
| Selections.AllSelected | Pill/Views/WeekDaysSelector.swift:19-23 | the rows after "All" or "None"; `Selections.AllSelectedRows` states what they are |
| Selections.Toggled | Pill/Views/WeekDaysSelector.swift:42 | the rows after a tap on one row; `Selections.ToggledRows` states what they are |
| Selections.SelectedDays | Pill/Models/MutableReminder.swift:18 | `filter { $0.isSelected }.map { $0.day }`; `Selections.SelectedDaysMembership` states which days come back |
| Selections.AllSelectedRows | Pill/Views/WeekDaysSelector.swift:19-23 | "All"/"None" keeps the row count and every row's day, and sets every tick to `selected` |
| Selections.AllSelectedLastWins | Pill/Views/WeekDaysSelector.swift:19-23 | two presses are the last press; in particular, a press is idempotent |
| Selections.ToggledRows | Pill/Views/WeekDaysSelector.swift:42 | a tap flips the tapped row's tick and leaves the length, the days and every other row as they were |
| Selections.ToggledTwice | Pill/Views/WeekDaysSelector.swift:42 | tapping the same row twice restores the rows |
| Selections.SelectedDaysMembership | Pill/Models/MutableReminder.swift:18 | a day is read back exactly when some ticked row carries it |
| Selections.SelectedDaysLength | Pill/Models/MutableReminder.swift:18 | no more days are read back than there are rows |
| Selections.SelectedAfterAll | Pill/Models/MutableReminder.swift:18 | after "All", every row's day is read back, in row order |
| Selections.SelectedAfterNone | Pill/Models/MutableReminder.swift:18 | after "None", nothing is read back |
| Selections.ToggledMembership | Pill/Views/WeekDaysSelector.swift:42 | with distinct days, a tap adds or removes exactly the tapped day |
| WeekDaysSelectors.WeekDaysSelector.constructor | Pill/Views/WeekDaysSelector.swift:17 | the picker holds a fresh array with the given rows |
| WeekDaysSelectors.WeekDaysSelector.Selected | Pill/Models/MutableReminder.swift:18 | the weekdays read back are exactly those of ticked rows |
| WeekDaysSelectors.WeekDaysSelector.ForAll | Pill/Views/WeekDaysSelector.swift:19-23 | after the loop the array holds the "All"/"None" rows of its old contents |
| WeekDaysSelectors.WeekDaysSelector.Toggle | Pill/Views/WeekDaysSelector.swift:42 | after the tap the array holds the old rows with the tapped row flipped |
| DaysOfMonthSelectors.DaysOfMonthSelector.constructor | Pill/Views/DaysOfMonthSelector.swift:29 | the picker holds a fresh array with the given rows |
| DaysOfMonthSelectors.DaysOfMonthSelector.Selected | Pill/Models/MutableReminder.swift:21 | the days read back are exactly those of ticked rows |
| DaysOfMonthSelectors.DaysOfMonthSelector.ForAll | Pill/Views/DaysOfMonthSelector.swift:31-35 | after the loop the array holds the "All"/"None" rows of its old contents |
| DaysOfMonthSelectors.DaysOfMonthSelector.Toggle | Pill/Views/DaysOfMonthSelector.swift:54 | after the tap the array holds the old rows with the tapped row flipped |
| MutableReminders.AsHalt | Pill/Models/MutableReminder.swift:127-136 | no halt exactly for interval none; otherwise the chosen kind, every `haltNth`, anchored at `start` |
| MutableReminders.AsWhen | Pill/Models/MutableReminder.swift:138-157 | the rule's kind is `whenInterval` and its time is that of `timeAsDate`; a one-off falls on the start day; lists are the ticked days |
| MutableReminders.SelectedWeekDays | Pill/Models/MutableReminder.swift:18 | the ticked weekdays in row order, as `Selections.SelectedDays` reads them |
| MutableReminders.SelectedDaysOfMonth | Pill/Models/MutableReminder.swift:21 | the ticked days of the month in row order, as `Selections.SelectedDays` reads them |
| MutableReminders.Immutable | Pill/Models/MutableReminder.swift:159-161 | `immutable`: the fields kept, the rule from `AsWhen`, the halt from `AsHalt`; `Projection.RoundTrip` states when it undoes `Reminder.mutable` |
| MutableReminders.IsLastDayOfMonth | Pill/Models/MutableReminder.swift:118-125 | the next day is in another month exactly when the day is the last day of its month |
| MutableReminders.StartCandidate | Pill/Models/MutableReminder.swift:33 | the origin's day at the reminder's time |
| MutableReminders.Keep | Pill/Models/MutableReminder.swift:46-54 | `filter`: no longer than its input, a date is kept exactly when it is in the input and passes the test, and an input that all passes is kept whole |
| MutableReminders.FirstCandidate | Pill/Models/MutableReminder.swift:40-42 | the start candidate when the origin is before it, otherwise the next day at the same time; `MutableReminders.FirstCandidateBounds` bounds it |
| MutableReminders.DayBatch | Pill/Models/MutableReminder.swift:43-54 | `limit` days from the first candidate, filtered by the day test and then by the halt; `MutableReminders.DayBatchFacts` and `MutableReminders.DayBatchComplete` state what it holds |
| MutableReminders.MonthBatch | Pill/Models/MutableReminder.swift:66-72 | `limit` months from the start candidate, filtered by the halt; `MutableReminders.MonthBatchFacts` states what it holds |
| MutableReminders.LastDayBatch | Pill/Models/MutableReminder.swift:106-108 | `limit` days from the start candidate, kept when last of their month and after `now`; `MutableReminders.LastDayStepsFacts` states what the run of them holds |
| MutableReminders.FirstCandidateBounds | Pill/Models/MutableReminder.swift:40-42 | the first day-stepping candidate is after the origin and at most one day after it |
| MutableReminders.DaySteps | Pill/Models/MutableReminder.swift:55-57 | nothing for limit <= 0, and never more than `limit` dates, since the recursion asks for `limit - batch.count` |
| MutableReminders.MonthSteps | Pill/Models/MutableReminder.swift:61-79 | nothing for limit <= 0, and never more than `limit` dates |
| MutableReminders.LastDaySteps | Pill/Models/MutableReminder.swift:104-114 | nothing for limit <= 0, and never more than `limit` dates |
| MutableReminders.Upcoming | Pill/Models/MutableReminder.swift:27-116 | nothing for limit <= 0, and for every rule at most `limit` dates |
| MutableReminders.UpcomingEmpty | Pill/Models/MutableReminder.swift:28-39 | nothing for limit <= 0, for a disabled reminder, or for a daily rule with no weekday ticked (the days-of-month guard at line 81 likewise) |
| MutableReminders.UpcomingOnce | Pill/Models/MutableReminder.swift:36-37 | a one-off gives at most one date, the origin's day at the reminder's time, present exactly when it is after `now` |
| MutableReminders.DayBatchFacts | Pill/Models/MutableReminder.swift:40-54 | a daily batch increases, passes the day test and the halt test, and lies within `limit` days after the origin |
| MutableReminders.DayStepsFacts | Pill/Models/MutableReminder.swift:38-60 | the whole day-stepping run increases strictly, is after the origin, and passes both tests |
| MutableReminders.DailyResults | Pill/Models/MutableReminder.swift:38-60 | daily results increase, are after `from`, fall on a ticked weekday and are not halted; and every unhalted date on a ticked weekday at the reminder's time, after `from` and up to the last result, is a result |
| MutableReminders.DaysOfMonthResults | Pill/Models/MutableReminder.swift:80-103 | days-of-month results increase, are after `from`, fall on a ticked day of the month and are not halted; and every unhalted date on a ticked day at the reminder's time, after `from` and up to the last result, is a result |
| MutableReminders.DayBatchComplete | Pill/Models/MutableReminder.swift:40-54 | every date at the reminder's time within the batch's `limit` days that passes the day test and the halt test is in the batch |
| MutableReminders.DayStepsComplete | Pill/Models/MutableReminder.swift:38-60 | the day-stepping run leaves nothing out: a date at the reminder's time that passes both tests, after the origin and no later than some result, is itself a result |
| MutableReminders.DailyComplete | Pill/Models/MutableReminder.swift:38-60 | completeness of the daily rule: an unhalted date on a ticked weekday, at the reminder's time, after `from` and up to the last result, is a result |
| MutableReminders.DaysOfMonthComplete | Pill/Models/MutableReminder.swift:80-103 | completeness of the days-of-month rule: an unhalted date on a ticked day, at the reminder's time, after `from` and up to the last result, is a result |
| MutableReminders.FirstCandidateShift | Pill/Models/MutableReminder.swift:40-42 | moving the origin by n days moves the first candidate by n days, at the same time of day |
| MutableReminders.DayStepsFill | Pill/Models/MutableReminder.swift:38-60 | with no halt, a ticked weekday p days from the first candidate and enough fuel, the day-stepping run returns exactly `limit` dates |
| MutableReminders.DailyFull | Pill/Models/MutableReminder.swift:38-60 | an enabled daily rule with a ticked weekday and no halt returns exactly `limit` dates, given fuel for 7·limit rounds |
| MutableReminders.MonthStepsFacts | Pill/Models/MutableReminder.swift:61-79 | the monthly run increases, is not halted, and starts no earlier than the origin |
| MutableReminders.MonthlyResults | Pill/Models/MutableReminder.swift:61-79 | monthly results increase, are at or after `from`, and are not halted |
| MutableReminders.MonthlyWithoutHalt | Pill/Models/MutableReminder.swift:62-72 | with no halt, exactly the `limit` consecutive months from the candidate, restarted a month later when `from` is past it |
| MutableReminders.LastDayStepsFacts | Pill/Models/MutableReminder.swift:104-114 | the last-day run increases, every date passes `isLastDayOfMonth && date > now`, and none is before the candidate |
| MutableReminders.LastDayResults | Pill/Models/MutableReminder.swift:104-114 | last-day results increase, are last days of their months, and are after `now`, one in each of a run of consecutive months; no halt is applied |
| MutableReminders.LastDayStepsComplete | Pill/Models/MutableReminder.swift:104-114 | the last-day run leaves nothing out: a last day at the reminder's time, after `now`, from the start candidate up to some result, is a result |
| MutableReminders.LastDaysOrdered | Pill/Models/MutableReminder.swift:118-125 | of two month ends at the same time of day, the earlier is in an earlier month |
| MutableReminders.LastDayStepsConsecutive | Pill/Models/MutableReminder.swift:104-114 | successive dates of the last-day run fall in successive months |
| MutableReminders.LastDayConsecutive | Pill/Models/MutableReminder.swift:104-114 | successive last-day-of-month results fall in successive months: one per month, none skipped |
| OlderGenerator.OlderUpcoming | Pill/Models/Models.swift:208-287 | nothing for limit <= 0 or a disabled reminder, and never more than `limit` dates |
| OlderGenerator.OlderMonthlyFacts | Pill/Models/Models.swift:242-261 | the older monthly run increases, is not halted, is at or after `now`, and stays in months from the origin's on |
| OlderGenerator.OlderMonthlyResults | Pill/Models/Models.swift:243-249 | every monthly result of the older generator is at or after `now`; results increase and none is halted |
| OlderGenerator.OlderAgrees | Pill/Models/Models.swift:208-286 | proved by induction over the two recursions: outside the monthly rule the older generator gives what the newer one gives, with `Date()` as `now` |
| OlderGenerator.ReminderUpcoming | Pill/Models/Models.swift:344-346 | a reminder's upcoming dates number at most `limit` |
| Schedule.Flatten | Pill/System/RemindersNotifications.swift:37-40 | `flatMap`: the occurrence lists joined; `Schedule.FlattenMembership` and `Schedule.FlattenLength` state what it holds |
| Schedule.Scheduled | Pill/System/RemindersNotifications.swift:36-43 | flatten, sort by date, keep the first `limit`; the `Schedule.Scheduled...` lemmas state what it keeps |
| Schedule.Occurrences | Pill/System/RemindersNotifications.swift:38-40 | one entry per upcoming date, in order, each carrying that date and the reminder |
| Schedule.OccurrencesMembership | Pill/System/RemindersNotifications.swift:38-40 | an entry belongs to one reminder's occurrences exactly when it names that reminder and one of its upcoming dates |
| Schedule.OccurrenceLists | Pill/System/RemindersNotifications.swift:37-40 | one occurrence list per reminder, in the reminders' order |
| Schedule.InsertBy | Pill/System/RemindersNotifications.swift:41-42 | inserting into a sorted list keeps it sorted and adds exactly that element |
| Schedule.SortBy | Pill/System/RemindersNotifications.swift:41-42 | the result is sorted by key and a permutation of the input |
| Schedule.SortByDate | Pill/System/RemindersNotifications.swift:41-42 | the result is ascending by date and a permutation of the input |
| Schedule.Take | Pill/System/RemindersNotifications.swift:43 | `prefix(limit)`: the first min(count, limit) entries |
| Schedule.ScheduledBounded | Pill/System/RemindersNotifications.swift:36-43 | at most `limit` entries are scheduled |
| Schedule.ScheduledSorted | Pill/System/RemindersNotifications.swift:41-43 | the scheduled entries are ascending by date |
| Schedule.FlattenLength | Pill/System/RemindersNotifications.swift:37-40 | the flattened list has at most `limit` entries per reminder |
| Schedule.FlattenMembership | Pill/System/RemindersNotifications.swift:37-40 | an entry is in the flattened list exactly when it pairs a listed reminder with one of that reminder's upcoming dates |
| Schedule.ScheduledFromUpcoming | Pill/System/RemindersNotifications.swift:37-43 | every scheduled entry is a listed reminder at one of its own upcoming dates |
| Schedule.ScheduledKeepsEarliest | Pill/System/RemindersNotifications.swift:41-43 | the kept and dropped entries together are the flattened list, and no dropped date is before a kept one |
| Schedule.ScheduledAllWhenShort | Pill/System/RemindersNotifications.swift:37-43 | when at most `limit` entries come back, the schedule is a permutation of all of them |
| Schedule.Reset | Pill/System/RemindersNotifications.swift:31-36 | `reset` with the default limit: at most 64 entries, ascending by date, each a listed reminder at one of its own upcoming dates |
| Projection.SelectedTicked | Pill/Models/Models.swift:333-335 | reading back rows built for a list gives the days of the picker that the list names, in picker order |
| Projection.DailyRoundTripDays | Pill/Models/Models.swift:332-335 | a daily rule keeps the same set of weekdays through the round trip, listed Monday to Sunday |
| Projection.DaysOfMonthRoundTripDays | Pill/Models/Models.swift:336-340 | a days-of-month rule keeps exactly its days within 1..31, in increasing order |
| Projection.HaltRoundTrip | Pill/Models/MutableReminder.swift:127-136 | the halt comes back with the same kind and nth, anchored at the reminder's start; no halt stays no halt |
| Projection.HaltSurvives | Pill/Models/Models.swift:341 | the halt survives the round trip exactly when it is absent or anchored at the start |
| Projection.WhenSurvives | Pill/Models/MutableReminder.swift:138-157 | the repeat rule survives exactly when its time is valid, a one-off is at its start day's time, and its lists are in picker order |
| Projection.RoundTrip | Pill/Models/MutableReminder.swift:159-161 | `mutable.immutable` gives back the reminder exactly when the reminder is canonical |

## Left out

- Fuel: every generator takes `depth`. Where the source would keep recursing, a call with no fuel left returns the batch it has, so a run is cut short only when the source recurses more than `depth` times.
- Termination of the source's recursion is not proved. With `nth == 1` every date is halted, and the source would recurse forever.
- Clock reads (`Date()`, `Date.now`, `Time.today`) are the parameters `now` and `today`.
- MutableReminders.MonthSteps, OlderGenerator.OlderUpcoming: a `Date` here is a whole second of the day. Swift's `Date` is a `Double` count of seconds, so `from` and `now` can carry a fraction of a second, while every candidate is set to second 0. A comparison with a candidate made within that candidate's own second is not modelled. This matters for the monthly restarts `from > startCandidate` (MutableReminder.swift:62) and `now > startCandidate` (Models.swift:244). For example, a monthly reminder at 08:00 with `from` at 08:00:00.5 restarts in Swift a month later. The model cannot represent that `from`, and its nearest input, 08:00:00, does not restart.
- Time zones and daylight saving time of Foundation's `Calendar` are not modelled; the calendar here is a plain proleptic Gregorian one, and its additions never fail, so the `?? from` and `compactMap` fallbacks never fire. The `bySettingHour` fallback does fire, for an out-of-range time, and is kept.
- `Halt.isHalted` with `nth == 0` traps in Swift. It is excluded by a precondition, and so is such a halt reaching a generator. The UI's 2...10 range for `haltNth` is not assumed further.
- Two versions of the enums and of `MutableReminder`: the source declares `MutableReminder` twice (Models.swift:186 and MutableReminder.swift:3). Models.swift's `Interval` (:59-66) and `When` (:87-121) have no last-day-of-month case, while MutableReminder.swift switches on `.lastDayOfMonth` (:104, :154-155). The model's `Interval` and `When` are the five-case versions the newer struct needs, and `WhenAccessors` treats the fifth case as the other cases are treated. The older generator has no last-day branch; its last-day case is taken to be the newer generator's.
- The older struct's `asHalt`/`asWhen` (Models.swift:289-317) duplicate the newer ones without the last-day case and are not modelled separately.
- `MutableReminder.create`, UUIDs, logging, `Codable` and the `short`/`rawValue` display strings beyond `Short` are not modelled.
- The notification side of `schedule` is not modelled: removing pending requests, the `scheduleOnce` loop, and `Date.components`. `reset` is modelled only as the entries it schedules (`Schedule.Reset`). `resetAllNow`, `Notifications`, `PillSettings`, `RemindersStore` and the sample data are not modelled.
- The SwiftUI bodies of the pickers are not modelled. A SwiftUI `@Binding` is modelled as an array the picker owns.
- Schedule.SortBy: it is an insertion sort that keeps equal dates in input order, but the contract states only sorted-and-permutation. Swift's `sorted` does not promise stability either.
- Models.Describe: states the form of the text for non-negative hours only. A negative hour prints with a minus sign and is not read back.
- MutableReminders.DailyFull: the exact count of `limit` dates is proved for a daily rule without a halt. With a halt the count also depends on the fuel: with `nth == 1` every date is halted and the run ends only when the fuel runs out.
- MutableReminders.DaysOfMonthComplete: completeness is proved, but the exact count of `limit` dates is not proved for the days-of-month rule. A ticked day such as the 31st is missing from some months, so the fuel bound needed is larger and depends on the ticked days.
- Models.NthWeekPeriodic: stated for k >= 0 days after the anchor. Before the anchor the truncating division by 7 breaks the cadence (`Models.WeekHaltedNotPeriodicBeforeAnchor`).
