/** The month grid of the history page: `firstDay` blank cells, then the
    days 1..daysInMonth, laid out in seven columns starting on Sunday. */
module MonthGrid {
  import opened Optional

  /** `cells`: `None` for a blank, `Some(d)` for day `d`. */
  function Cells(firstDay: nat, daysInMonth: nat): (cells: seq<Option<nat>>)
    ensures |cells| == firstDay + daysInMonth
    ensures forall i :: 0 <= i < firstDay ==> cells[i].None?
    ensures forall i :: firstDay <= i < |cells| ==> cells[i] == Some(i - firstDay + 1)
  {
    seq(firstDay, _ => None) + seq(daysInMonth, k => Some(k + 1))
  }

  /** `dow` of day `day`: its weekday, 0 for Sunday to 6 for Saturday. */
  function Dow(firstDay: nat, day: nat): (w: nat)
    requires day >= 1
    ensures w < 7
  {
    (firstDay + day - 1) % 7
  }

  /** Each day of the month sits in exactly one cell, at index
      firstDay + day - 1, and no cell holds a number outside the month. */
  lemma DayPosition(firstDay: nat, daysInMonth: nat, i: nat)
    requires i < firstDay + daysInMonth
    ensures Cells(firstDay, daysInMonth)[i].Some? <==> i >= firstDay
    ensures Cells(firstDay, daysInMonth)[i].Some? ==>
      var d := Cells(firstDay, daysInMonth)[i].value;
      1 <= d <= daysInMonth && i == firstDay + d - 1
  {
    if i >= firstDay {
      assert Cells(firstDay, daysInMonth)[firstDay + (i - firstDay)] == Some(i - firstDay + 1);
    }
  }

  /** The weekday of a day is the column of its cell in the 7-column grid,
      and the first of the month falls on `firstDay`. */
  lemma DowIsColumn(firstDay: nat, daysInMonth: nat, i: nat)
    requires i < firstDay + daysInMonth
    requires Cells(firstDay, daysInMonth)[i].Some?
    ensures Dow(firstDay, Cells(firstDay, daysInMonth)[i].value) == i % 7
  {
    DayPosition(firstDay, daysInMonth, i);
  }

}
