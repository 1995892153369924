/**
 * The selection part of `RemindersNotifications.schedule`: every reminder's
 * upcoming dates tagged with the reminder, sorted ascending by date, and the
 * first `limit` of them kept. Removing pending requests and scheduling each
 * kept entry are platform calls and are not part of this model.
 */
module Schedule {
  import opened Calendar
  import opened Models
  import opened OlderGenerator

  /** A date paired with the reminder it fires for. */
  datatype DatedReminder = DatedReminder(date: Date, reminder: Reminder)

  /** `schedule`'s default limit. */
  const DefaultLimit: nat := 64

  /** The reminders `schedule` can evaluate: none carries a halt rule with `nth == 0`. */
  predicate Schedulable(rs: seq<Reminder>) {
    forall i | 0 <= i < |rs| :: rs[i].halt.Some? ==> rs[i].halt.value.spec.nth != 0
  }

  /** `reminder.upcoming(from:limit:).map { DatedReminder(date: $0, reminder: reminder) }`. */
  function Occurrences(r: Reminder, from: Date, now: Date, limit: int, depth: nat): (es: seq<DatedReminder>)
    requires r.halt.Some? ==> r.halt.value.spec.nth != 0
    ensures |es| == |ReminderUpcoming(r, from, now, limit, depth)| <= if limit > 0 then limit else 0
    ensures forall i | 0 <= i < |es| :: es[i].reminder == r && es[i].date == ReminderUpcoming(r, from, now, limit, depth)[i]
  {
    var ds := ReminderUpcoming(r, from, now, limit, depth);
    seq(|ds|, i requires 0 <= i < |ds| => DatedReminder(ds[i], r))
  }

  /** Each reminder's entries, in the order of the reminders (the `map` half of `flatMap`). */
  function OccurrenceLists(rs: seq<Reminder>, from: Date, now: Date, limit: int, depth: nat): (lists: seq<seq<DatedReminder>>)
    requires Schedulable(rs)
    ensures |lists| == |rs|
    ensures forall i | 0 <= i < |rs| :: lists[i] == Occurrences(rs[i], from, now, limit, depth)
  {
    seq(|rs|, i requires 0 <= i < |rs| => Occurrences(rs[i], from, now, limit, depth))
  }

  /** The lists one after another (the `joined` half of `flatMap`). */
  function Concat<T>(lists: seq<seq<T>>): seq<T> {
    if lists == [] then [] else lists[0] + Concat(lists[1..])
  }

  /** `reminders.flatMap { ... }`. */
  function Flatten(rs: seq<Reminder>, from: Date, now: Date, limit: int, depth: nat): seq<DatedReminder>
    requires Schedulable(rs)
  {
    Concat(OccurrenceLists(rs, from, now, limit, depth))
  }

  /** An element of the joined lists is an element of one of them. */
  lemma {:induction false} ConcatMembership<T>(lists: seq<seq<T>>, e: T)
    ensures e in Concat(lists) <==> exists i :: 0 <= i < |lists| && e in lists[i]
  {
    if lists != [] {
      var tail := lists[1..];
      ConcatMembership(tail, e);
      if e in Concat(tail) {
        var i :| 0 <= i < |tail| && e in tail[i];
        assert lists[i + 1] == tail[i];
      }
      if exists i :: 0 <= i < |lists| && e in lists[i] {
        var i :| 0 <= i < |lists| && e in lists[i];
        if i > 0 {
          assert tail[i - 1] == lists[i];
        }
      }
    }
  }

  /** Lists of at most `bound` elements each join into at most `bound` per list. */
  lemma {:induction false} ConcatLength<T>(lists: seq<seq<T>>, bound: nat)
    requires forall i | 0 <= i < |lists| :: |lists[i]| <= bound
    ensures |Concat(lists)| <= bound * |lists|
  {
    if lists != [] {
      var tail := lists[1..];
      assert forall i | 0 <= i < |tail| :: |tail[i]| <= bound by {
        forall i | 0 <= i < |tail| ensures |tail[i]| <= bound {
          assert tail[i] == lists[i + 1];
        }
      }
      ConcatLength(tail, bound);
      MulNext(bound, |tail|, |lists|);
    }
  }

  lemma MulNext(a: nat, n: nat, next: nat)
    requires next == n + 1
    ensures a * next == a + a * n
  {
  }

  /** An entry of one reminder is that reminder at one of its upcoming dates. */
  lemma OccurrencesMembership(r: Reminder, from: Date, now: Date, limit: int, depth: nat, e: DatedReminder)
    requires r.halt.Some? ==> r.halt.value.spec.nth != 0
    ensures e in Occurrences(r, from, now, limit, depth) <==> e.reminder == r && e.date in ReminderUpcoming(r, from, now, limit, depth)
  {
    var es := Occurrences(r, from, now, limit, depth);
    var ds := ReminderUpcoming(r, from, now, limit, depth);
    if e.reminder == r && e.date in ds {
      var k :| 0 <= k < |ds| && ds[k] == e.date;
      assert es[k] == e;
    }
  }

  /** Ascending by `key`. */
  predicate SortedBy<T>(s: seq<T>, key: T -> int) {
    forall i, j :: 0 <= i < j < |s| ==> key(s[i]) <= key(s[j])
  }

  /** The tail of a sorted list is sorted. */
  lemma SortedTail<T>(s: seq<T>, key: T -> int)
    requires s != [] && SortedBy(s, key)
    ensures SortedBy(s[1..], key) && forall e | e in s[1..] :: key(s[0]) <= key(e)
  {
    var tail := s[1..];
    forall i, j | 0 <= i < j < |tail| ensures key(tail[i]) <= key(tail[j]) {
      assert tail[i] == s[i + 1] && tail[j] == s[j + 1];
    }
    forall e | e in tail ensures key(s[0]) <= key(e) {
      var j :| 0 <= j < |tail| && tail[j] == e;
      assert s[j + 1] == e;
    }
  }

  /** A head no later than anything after it keeps a sorted list sorted. */
  lemma SortedCons<T>(h: T, rest: seq<T>, key: T -> int)
    requires SortedBy(rest, key) && forall e | e in rest :: key(h) <= key(e)
    ensures SortedBy([h] + rest, key)
  {
    var r := [h] + rest;
    forall i, j | 0 <= i < j < |r| ensures key(r[i]) <= key(r[j]) {
      assert r[j] == rest[j - 1];
      if i > 0 {
        assert r[i] == rest[i - 1];
      }
    }
  }

  /** Inserting one element into a sorted list, ahead of the elements of the same key. */
  function InsertBy<T(==)>(x: T, s: seq<T>, key: T -> int): (r: seq<T>)
    requires SortedBy(s, key)
    ensures SortedBy(r, key) && multiset(r) == multiset(s) + multiset{x}
  {
    if s == [] then [x]
    else if key(x) <= key(s[0]) then
      SortedTail(s, key);
      SortedCons(x, s, key);
      [x] + s
    else
      SortedTail(s, key);
      var rest := InsertBy(x, s[1..], key);
      InsertBehind(x, s, rest, key);
      [s[0]] + rest
  }

  /** The head of a sorted list stays ahead of an element inserted behind it. */
  lemma InsertBehind<T>(x: T, s: seq<T>, rest: seq<T>, key: T -> int)
    requires s != [] && SortedBy(s, key) && key(s[0]) < key(x)
    requires SortedBy(rest, key) && multiset(rest) == multiset(s[1..]) + multiset{x}
    ensures SortedBy([s[0]] + rest, key) && multiset([s[0]] + rest) == multiset(s) + multiset{x}
  {
    SortedTail(s, key);
    forall e | e in rest ensures key(s[0]) <= key(e) {
      assert e in multiset(rest);
    }
    SortedCons(s[0], rest, key);
    assert s == [s[0]] + s[1..];
  }

  /** An insertion sort by `key`; of two elements with the same key, the earlier stays ahead. */
  function SortBy<T(==)>(s: seq<T>, key: T -> int): (r: seq<T>)
    ensures SortedBy(r, key) && multiset(r) == multiset(s)
  {
    if s == [] then []
    else
      var sorted := SortBy(s[1..], key);
      assert s == [s[0]] + s[1..];
      InsertBy(s[0], sorted, key)
  }

  /** An entry's sort key: its date. */
  function DateKey(e: DatedReminder): int { Instant(e.date) }

  /** Ascending by date. */
  predicate SortedByDate(s: seq<DatedReminder>) {
    forall i, j :: 0 <= i < j < |s| ==> Instant(s[i].date) <= Instant(s[j].date)
  }

  /** `sorted { $0.date < $1.date }`. */
  function SortByDate(s: seq<DatedReminder>): (r: seq<DatedReminder>)
    ensures SortedByDate(r) && multiset(r) == multiset(s)
  {
    var r := SortBy(s, DateKey);
    assert forall i, j :: 0 <= i < j < |r| ==> DateKey(r[i]) <= DateKey(r[j]);
    r
  }

  /** `prefix(limit)`. */
  function Take(s: seq<DatedReminder>, limit: nat): (r: seq<DatedReminder>)
    ensures |r| == if |s| < limit then |s| else limit
    ensures r == s[..|r|]
  {
    if |s| <= limit then s else s[..limit]
  }

  /** The entries `schedule` hands to the notification centre. */
  function Scheduled(rs: seq<Reminder>, from: Date, now: Date, limit: nat, depth: nat): seq<DatedReminder>
    requires Schedulable(rs)
  {
    Take(SortByDate(Flatten(rs, from, now, limit, depth)), limit)
  }

  // ---- what the merge promises ----

  /** At most `limit` entries are scheduled. */
  lemma ScheduledBounded(rs: seq<Reminder>, from: Date, now: Date, limit: nat, depth: nat)
    requires Schedulable(rs)
    ensures |Scheduled(rs, from, now, limit, depth)| <= limit
  {
  }

  /** The scheduled entries are in ascending date order. */
  lemma ScheduledSorted(rs: seq<Reminder>, from: Date, now: Date, limit: nat, depth: nat)
    requires Schedulable(rs)
    ensures SortedByDate(Scheduled(rs, from, now, limit, depth))
  {
    var sorted := SortByDate(Flatten(rs, from, now, limit, depth));
    var kept := Scheduled(rs, from, now, limit, depth);
    forall i, j | 0 <= i < j < |kept|
      ensures Instant(kept[i].date) <= Instant(kept[j].date)
    {
      assert kept[i] == sorted[i] && kept[j] == sorted[j];
    }
  }

  /** Each reminder contributes at most `limit` entries, so the merge sees at most `limit` per reminder. */
  lemma FlattenLength(rs: seq<Reminder>, from: Date, now: Date, limit: nat, depth: nat)
    requires Schedulable(rs)
    ensures |Flatten(rs, from, now, limit, depth)| <= limit * |rs|
  {
    var lists := OccurrenceLists(rs, from, now, limit, depth);
    ConcatLength(lists, limit);
  }

  /** An entry of the flattened list is one of the listed reminders with one of its upcoming dates. */
  lemma FlattenMembership(rs: seq<Reminder>, from: Date, now: Date, limit: int, depth: nat, e: DatedReminder)
    requires Schedulable(rs)
    ensures e in Flatten(rs, from, now, limit, depth) <==>
      exists i :: 0 <= i < |rs| && e.reminder == rs[i] && e.date in ReminderUpcoming(rs[i], from, now, limit, depth)
  {
    var lists := OccurrenceLists(rs, from, now, limit, depth);
    ConcatMembership(lists, e);
    forall i | 0 <= i < |rs|
      ensures e in lists[i] <==> e.reminder == rs[i] && e.date in ReminderUpcoming(rs[i], from, now, limit, depth)
    {
      OccurrencesMembership(rs[i], from, now, limit, depth, e);
    }
  }

  /** Every scheduled entry is one of the reminders at one of its own upcoming dates. */
  lemma ScheduledFromUpcoming(rs: seq<Reminder>, from: Date, now: Date, limit: nat, depth: nat)
    requires Schedulable(rs)
    ensures forall e | e in Scheduled(rs, from, now, limit, depth) ::
      e.reminder in rs && e.date in ReminderUpcoming(e.reminder, from, now, limit, depth)
  {
    var flat := Flatten(rs, from, now, limit, depth);
    var sorted := SortByDate(flat);
    forall e | e in Scheduled(rs, from, now, limit, depth)
      ensures e.reminder in rs && e.date in ReminderUpcoming(e.reminder, from, now, limit, depth)
    {
      assert e in sorted;
      assert e in multiset(sorted);
      FlattenMembership(rs, from, now, limit, depth, e);
    }
  }

  /** Cutting a sorted list in two: the parts make up the list, and the front keys are no larger than the back keys. */
  lemma SortedSplit<T>(s: seq<T>, n: nat, key: T -> int)
    requires SortedBy(s, key) && n <= |s|
    ensures multiset(s[..n]) + multiset(s[n..]) == multiset(s)
    ensures forall a, b | a in s[..n] && b in s[n..] :: key(a) <= key(b)
  {
    assert s == s[..n] + s[n..];
    forall a, b | a in s[..n] && b in s[n..]
      ensures key(a) <= key(b)
    {
      var i :| 0 <= i < n && s[..n][i] == a;
      var j :| 0 <= j < |s| - n && s[n..][j] == b;
      assert s[i] == a && s[n + j] == b;
    }
  }

  /**
   * The kept entries and the dropped ones together are the flattened list,
   * and no dropped entry is earlier than a kept one.
   */
  lemma ScheduledKeepsEarliest(rs: seq<Reminder>, from: Date, now: Date, limit: nat, depth: nat)
    requires Schedulable(rs)
    ensures var flat := Flatten(rs, from, now, limit, depth);
      var kept := Scheduled(rs, from, now, limit, depth);
      var dropped := SortByDate(flat)[|kept|..];
      multiset(kept) + multiset(dropped) == multiset(flat)
      && forall k, d | k in kept && d in dropped :: Instant(k.date) <= Instant(d.date)
  {
    var flat := Flatten(rs, from, now, limit, depth);
    var sorted := SortByDate(flat);
    var kept := Scheduled(rs, from, now, limit, depth);
    assert SortedBy(sorted, DateKey) by {
      forall i, j | 0 <= i < j < |sorted| ensures DateKey(sorted[i]) <= DateKey(sorted[j]) {
      }
    }
    SortedSplit(sorted, |kept|, DateKey);
    assert kept == sorted[..|kept|];
  }

  /** When no more than `limit` entries come back, all of them are scheduled, reordered. */
  lemma ScheduledAllWhenShort(rs: seq<Reminder>, from: Date, now: Date, limit: nat, depth: nat)
    requires Schedulable(rs) && |Flatten(rs, from, now, limit, depth)| <= limit
    ensures multiset(Scheduled(rs, from, now, limit, depth)) == multiset(Flatten(rs, from, now, limit, depth))
  {
    var sorted := SortByDate(Flatten(rs, from, now, limit, depth));
    assert |sorted| == |Flatten(rs, from, now, limit, depth)| by {
      assert |multiset(sorted)| == |multiset(Flatten(rs, from, now, limit, depth))|;
    }
  }

  /**
   * `reset(reminders:from:)` after clearing the pending requests: `schedule`
   * with its default limit, so at most 64 entries, earliest first, each one a
   * reminder of `rs` at one of its own upcoming dates.
   */
  function Reset(rs: seq<Reminder>, from: Date, now: Date, depth: nat): (r: seq<DatedReminder>)
    requires Schedulable(rs)
    ensures |r| <= DefaultLimit && SortedByDate(r)
    ensures forall e | e in r :: e.reminder in rs && e.date in ReminderUpcoming(e.reminder, from, now, DefaultLimit, depth)
  {
    ScheduledSorted(rs, from, now, DefaultLimit, depth);
    ScheduledFromUpcoming(rs, from, now, DefaultLimit, depth);
    Scheduled(rs, from, now, DefaultLimit, depth)
  }
}
