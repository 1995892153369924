/**
 * The rows of the weekday and day-of-month pickers (`WeekDaySelection`,
 * `DayOfMonthSelection`): a day with a tick mark. The functions here state
 * what the pickers' in-place updates leave behind and what a reminder reads
 * back from them.
 */
module Selections {

  datatype Selection<D> = Selection(day: D, isSelected: bool)

  /** The days of the rows, ticked or not. */
  function Days<D>(s: seq<Selection<D>>): seq<D> {
    seq(|s|, i requires 0 <= i < |s| => s[i].day)
  }

  /** The rows after "All" (`selected == true`) or "None" (`selected == false`). */
  function AllSelected<D>(s: seq<Selection<D>>, selected: bool): seq<Selection<D>> {
    seq(|s|, i requires 0 <= i < |s| => Selection(s[i].day, selected))
  }

  /** The rows after a tap on row `index`. */
  function Toggled<D>(s: seq<Selection<D>>, index: int): seq<Selection<D>>
    requires 0 <= index < |s|
  {
    s[index := Selection(s[index].day, !s[index].isSelected)]
  }

  /** The ticked days, in row order (`filter { $0.isSelected }.map { $0.day }`). */
  function SelectedDays<D>(s: seq<Selection<D>>): seq<D> {
    if s == [] then []
    else (if s[0].isSelected then [s[0].day] else []) + SelectedDays(s[1..])
  }

  predicate DistinctDays<D(==)>(s: seq<Selection<D>>) {
    forall i, j :: 0 <= i < j < |s| ==> s[i].day != s[j].day
  }

  /** "All"/"None" keeps the rows and their days and sets every tick to `selected`. */
  lemma AllSelectedRows<D>(s: seq<Selection<D>>, selected: bool)
    ensures |AllSelected(s, selected)| == |s|
    ensures Days(AllSelected(s, selected)) == Days(s)
    ensures forall i :: 0 <= i < |s| ==> AllSelected(s, selected)[i].isSelected == selected
  {
  }

  /** Pressing "All" or "None" twice is pressing it once; the last press wins. */
  lemma AllSelectedLastWins<D>(s: seq<Selection<D>>, first: bool, second: bool)
    ensures AllSelected(AllSelected(s, first), second) == AllSelected(s, second)
  {
  }

  /** A tap flips the tapped row's tick and nothing else. */
  lemma ToggledRows<D>(s: seq<Selection<D>>, index: int)
    requires 0 <= index < |s|
    ensures |Toggled(s, index)| == |s| && Days(Toggled(s, index)) == Days(s)
    ensures Toggled(s, index)[index].isSelected == !s[index].isSelected
    ensures forall j :: 0 <= j < |s| && j != index ==> Toggled(s, index)[j] == s[j]
  {
  }

  /** Tapping the same row twice restores the rows. */
  lemma ToggledTwice<D>(s: seq<Selection<D>>, index: int)
    requires 0 <= index < |s|
    ensures Toggled(Toggled(s, index), index) == s
  {
  }

  /** A day is read back exactly when some ticked row carries it. */
  lemma {:induction false} SelectedDaysMembership<D>(s: seq<Selection<D>>, d: D)
    ensures d in SelectedDays(s) <==> exists i :: 0 <= i < |s| && s[i].isSelected && s[i].day == d
  {
    if s != [] {
      SelectedDaysMembership(s[1..], d);
      if d in SelectedDays(s[1..]) {
        var i :| 0 <= i < |s[1..]| && s[1..][i].isSelected && s[1..][i].day == d;
        assert s[i + 1] == s[1..][i];
      }
      if exists i :: 0 <= i < |s| && s[i].isSelected && s[i].day == d {
        var i :| 0 <= i < |s| && s[i].isSelected && s[i].day == d;
        if i > 0 {
          assert s[1..][i - 1] == s[i];
        }
      }
    }
  }

  /** `SelectedDaysMembership` for every day at once. */
  lemma SelectedDaysMembershipAll<D>(s: seq<Selection<D>>)
    ensures forall d :: d in SelectedDays(s) <==> exists i :: 0 <= i < |s| && s[i].isSelected && s[i].day == d
  {
    forall d ensures d in SelectedDays(s) <==> exists i :: 0 <= i < |s| && s[i].isSelected && s[i].day == d {
      SelectedDaysMembership(s, d);
    }
  }

  /** The ticked days never outnumber the rows. */
  lemma {:induction false} SelectedDaysLength<D>(s: seq<Selection<D>>)
    ensures |SelectedDays(s)| <= |s|
  {
    if s != [] {
      SelectedDaysLength(s[1..]);
    }
  }

  /** After "All" every day is read back, in row order. */
  lemma {:induction false} SelectedAfterAll<D>(s: seq<Selection<D>>)
    ensures SelectedDays(AllSelected(s, true)) == Days(s)
  {
    if s != [] {
      SelectedAfterAll(s[1..]);
      assert AllSelected(s, true)[1..] == AllSelected(s[1..], true);
      assert Days(s) == [s[0].day] + Days(s[1..]);
    }
  }

  /** After "None" no day is read back. */
  lemma {:induction false} SelectedAfterNone<D>(s: seq<Selection<D>>)
    ensures SelectedDays(AllSelected(s, false)) == []
  {
    if s != [] {
      SelectedAfterNone(s[1..]);
      assert AllSelected(s, false)[1..] == AllSelected(s[1..], false);
    }
  }

  /** When the rows carry distinct days, a tap adds or removes exactly the tapped day. */
  lemma ToggledMembership<D>(s: seq<Selection<D>>, index: int, d: D)
    requires 0 <= index < |s| && DistinctDays(s)
    ensures d == s[index].day ==> (d in SelectedDays(Toggled(s, index)) <==> !s[index].isSelected)
    ensures d != s[index].day ==> (d in SelectedDays(Toggled(s, index)) <==> d in SelectedDays(s))
  {
    var t := Toggled(s, index);
    SelectedDaysMembership(s, d);
    SelectedDaysMembership(t, d);
    if d == s[index].day {
      if d in SelectedDays(t) {
        var i :| 0 <= i < |t| && t[i].isSelected && t[i].day == d;
        assert i == index;
      }
      if !s[index].isSelected {
        assert t[index].isSelected && t[index].day == d;
      }
    } else {
      if d in SelectedDays(t) {
        var i :| 0 <= i < |t| && t[i].isSelected && t[i].day == d;
        assert s[i] == t[i];
      }
      if d in SelectedDays(s) {
        var i :| 0 <= i < |s| && s[i].isSelected && s[i].day == d;
        assert s[i] == t[i];
      }
    }
  }
}
