/**
 * The weekday picker: a bound array of weekday rows that "All", "None" and a
 * tap on a row update in place.
 */
module WeekDaysSelectors {
  import opened Selections
  import opened Models

  class WeekDaysSelector {
    /** The bound `[WeekDaySelection]`: its rows change, its length does not. */
    const weekDays: array<Selection<WeekDay>>

    constructor (rows: seq<Selection<WeekDay>>)
      ensures fresh(weekDays) && weekDays[..] == rows
    {
      weekDays := new Selection<WeekDay>[|rows|](i requires 0 <= i < |rows| => rows[i]);
    }

    /** The weekdays read back from the rows. */
    function Selected(): (s: seq<WeekDay>)
      reads weekDays
      ensures forall d :: d in s <==> exists i :: 0 <= i < weekDays.Length && weekDays[i].isSelected && weekDays[i].day == d
    {
      SelectedDaysMembershipAll(weekDays[..]);
      SelectedDays(weekDays[..])
    }

    /** `forall(selected:)`: every row's tick set to `selected`, row by row. */
    method ForAll(selected: bool)
      modifies weekDays
      ensures weekDays[..] == AllSelected(old(weekDays[..]), selected)
    {
      var i := 0;
      while i < weekDays.Length
        invariant 0 <= i <= weekDays.Length
        invariant forall k :: 0 <= k < i ==> weekDays[k] == Selection(old(weekDays[k]).day, selected)
        invariant forall k :: i <= k < weekDays.Length ==> weekDays[k] == old(weekDays[k])
      {
        weekDays[i] := weekDays[i].(isSelected := selected);
        i := i + 1;
      }
    }

    /** The row action: flip the tapped row's tick. */
    method Toggle(index: int)
      requires 0 <= index < weekDays.Length
      modifies weekDays
      ensures weekDays[..] == Toggled(old(weekDays[..]), index)
    {
      weekDays[index] := weekDays[index].(isSelected := !weekDays[index].isSelected);
    }
  }
}
