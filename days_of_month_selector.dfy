/**
 * The days-of-month picker: a bound array of day-of-month rows that "All",
 * "None" and a tap on a row update in place.
 */
module DaysOfMonthSelectors {
  import opened Selections

  class DaysOfMonthSelector {
    /** The bound `[DayOfMonthSelection]`: its rows change, its length does not. */
    const monthDays: array<Selection<int>>

    constructor (rows: seq<Selection<int>>)
      ensures fresh(monthDays) && monthDays[..] == rows
    {
      monthDays := new Selection<int>[|rows|](i requires 0 <= i < |rows| => rows[i]);
    }

    /** The days of the month read back from the rows. */
    function Selected(): (s: seq<int>)
      reads monthDays
      ensures forall d :: d in s <==> exists i :: 0 <= i < monthDays.Length && monthDays[i].isSelected && monthDays[i].day == d
    {
      SelectedDaysMembershipAll(monthDays[..]);
      SelectedDays(monthDays[..])
    }

    /** `forall(selected:)`: every row's tick set to `selected`, row by row. */
    method ForAll(selected: bool)
      modifies monthDays
      ensures monthDays[..] == AllSelected(old(monthDays[..]), selected)
    {
      var i := 0;
      while i < monthDays.Length
        invariant 0 <= i <= monthDays.Length
        invariant forall k :: 0 <= k < i ==> monthDays[k] == Selection(old(monthDays[k]).day, selected)
        invariant forall k :: i <= k < monthDays.Length ==> monthDays[k] == old(monthDays[k])
      {
        monthDays[i] := monthDays[i].(isSelected := selected);
        i := i + 1;
      }
    }

    /** The row action: flip the tapped row's tick. */
    method Toggle(index: int)
      requires 0 <= index < monthDays.Length
      modifies monthDays
      ensures monthDays[..] == Toggled(old(monthDays[..]), index)
    {
      monthDays[index] := monthDays[index].(isSelected := !monthDays[index].isSelected);
    }
  }
}
