/** The history page's state and per-cell logic: loading the stored
    history, the calendar cells of the month on view, and which archived
    day the detail panel shows. */
module HistoryPage {
  import opened Optional
  import opened HistoryTypes
  import Calendar
  import opened DateKey
  import opened MonthNav
  import opened MonthGrid
  import opened DayStats

  /** The stored history: the parsed record when storage holds a non-empty
      string that parses, and the empty history otherwise (a parse failure
      is swallowed). */
  function LoadHistory(raw: Option<string>, parse: string -> Option<History>): (h: History)
    ensures raw.None? || raw == Some("") ==> h == map[]
    ensures raw.Some? && raw.value != "" && parse(raw.value).None? ==> h == map[]
    ensures raw.Some? && raw.value != "" && parse(raw.value).Some? ==> h == parse(raw.value).value
  {
    match raw
    case None => map[]
    case Some(text) => if text == "" then map[] else parse(text).GetOr(map[])
  }

  /** `history[dateStr]`, `undefined` when absent. */
  function Lookup(history: History, key: string): (r: Option<DayEntry>)
    ensures r.Some? <==> key in history
    ensures r.Some? ==> r.value == history[key]
  {
    if key in history then Some(history[key]) else None
  }

  /** `selected?.date === dateStr`: a closed panel highlights no day, and an
      open one highlights the one key equal to its entry's `date`. */
  predicate IsSelected(selected: Option<DayEntry>, dateStr: string): (b: bool)
    ensures selected.None? ==> !b
    ensures selected.Some? ==> (b <==> dateStr == selected.value.date)
  {
    selected.Some? && selected.value.date == dateStr
  }

  /** A click on the cell of `dateStr`: a day without an entry ignores it;
      otherwise the click deselects the day if it is the one shown and
      shows its entry if not. */
  function ClickDay(history: History, selected: Option<DayEntry>, dateStr: string): (r: Option<DayEntry>)
    ensures dateStr !in history ==> r == selected
    ensures dateStr in history ==> (r.None? <==> IsSelected(selected, dateStr))
    ensures dateStr in history && !IsSelected(selected, dateStr) ==> r == Some(history[dateStr])
  {
    match Lookup(history, dateStr)
    case None => selected
    case Some(entry) => if IsSelected(selected, dateStr) then None else Some(entry)
  }

  /** The panel's close button. */
  function CloseDetail(selected: Option<DayEntry>): (r: Option<DayEntry>)
    ensures r.None?
  {
    None
  }

  /** On a day whose entry carries its own key, a click flips whether that
      day is the one shown. */
  lemma ClickToggles(history: History, selected: Option<DayEntry>, dateStr: string)
    requires dateStr in history && history[dateStr].date == dateStr
    ensures IsSelected(ClickDay(history, selected, dateStr), dateStr) <==> !IsSelected(selected, dateStr)
    ensures ClickDay(history, ClickDay(history, selected, dateStr), dateStr)
         == if IsSelected(selected, dateStr) then Some(history[dateStr]) else None
  {
  }

  /** The panel only ever shows an entry of the history. */
  predicate SelectionInHistory(history: History, selected: Option<DayEntry>) {
    selected.Some? ==> selected.value in history.Values
  }

  lemma ClickKeepsSelectionInHistory(history: History, selected: Option<DayEntry>, dateStr: string)
    requires SelectionInHistory(history, selected)
    ensures SelectionInHistory(history, ClickDay(history, selected, dateStr))
  {
  }

  /** Everything one calendar cell shows for day `day` of the month on view. */
  datatype DayCell = DayCell(
    dateStr: string,
    isToday: bool,
    isSelected: bool,
    counts: Counts,
    dow: nat,
    marker: Marker)

  function CellFor(history: History, selected: Option<DayEntry>, view: YearMonth,
                   today: Ymd, firstDay: nat, day: nat): (c: DayCell)
    requires day >= 1
    ensures c.dateStr == ToDateStr(view.year, view.month, day)
    ensures c.dow < 7
    ensures c.counts.done <= c.counts.total
    ensures c.marker.NoMarker? <==> c.dateStr !in history
  {
    var dateStr := ToDateStr(view.year, view.month, day);
    var entry := Lookup(history, dateStr);
    DayCell(
      dateStr,
      dateStr == ToDateStr(today.year, today.month, today.day),
      IsSelected(selected, dateStr),
      GridCounts(entry),
      Dow(firstDay, day),
      GridMarker(entry))
  }

  /** A cell is marked as today exactly when it is today's date, provided
      both dates have their month in 0..11 and their day in 1..31. */
  lemma IsTodayIff(history: History, selected: Option<DayEntry>, view: YearMonth,
                   today: Ymd, firstDay: nat, day: nat)
    requires Valid(view) && 1 <= day <= 31
    requires 0 <= today.month <= 11 && 1 <= today.day <= 31
    ensures CellFor(history, selected, view, today, firstDay, day).isToday
        <==> Ymd(view.year, view.month, day) == today
  {
    DateKeyInjective(Ymd(view.year, view.month, day), today);
  }

  /** Cell `i` of the month on view: a blank before `firstDay`, then the
      `DayCell` of day `i - firstDay + 1`. */
  function CellAt(history: History, selected: Option<DayEntry>, view: YearMonth,
                  today: Ymd, firstDay: nat, i: nat): (c: Option<DayCell>)
    ensures c.None? <==> i < firstDay
    ensures c.Some? ==> c.value.dow == i % 7
    ensures c.Some? ==> c.value.dateStr == ToDateStr(view.year, view.month, i - firstDay + 1)
  {
    if i < firstDay then None
    else Some(CellFor(history, selected, view, today, firstDay, i - firstDay + 1))
  }

  /** The cells of the month on view: the `cells` layout with each day
      number replaced by its `DayCell`. */
  function MonthCells(history: History, selected: Option<DayEntry>, view: YearMonth,
                      today: Ymd, firstDay: nat): (cells: seq<Option<DayCell>>)
    ensures |cells| == firstDay + Calendar.DaysInMonth(view.year, view.month)
    ensures forall i :: 0 <= i < |cells| ==> cells[i] == CellAt(history, selected, view, today, firstDay, i)
  {
    seq(firstDay + Calendar.DaysInMonth(view.year, view.month), i requires i >= 0 =>
      CellAt(history, selected, view, today, firstDay, i))
  }

  /** The rendered cells follow the `cells` layout: a blank where it has a
      blank, and the cell of day `d` where it holds `d`, drawn in the grid
      column of its weekday. */
  lemma MonthCellsFollowLayout(history: History, selected: Option<DayEntry>, view: YearMonth,
                               today: Ymd, firstDay: nat, i: nat)
    requires i < |MonthCells(history, selected, view, today, firstDay)|
    ensures var layout := Cells(firstDay, Calendar.DaysInMonth(view.year, view.month));
      && i < |layout|
      && (MonthCells(history, selected, view, today, firstDay)[i].None? <==> layout[i].None?)
      && (layout[i].Some? ==>
            MonthCells(history, selected, view, today, firstDay)[i].value.dateStr
            == ToDateStr(view.year, view.month, layout[i].value)
            && MonthCells(history, selected, view, today, firstDay)[i].value.dow == i % 7)
  {
    var cells := MonthCells(history, selected, view, today, firstDay);
    assert cells[i] == CellAt(history, selected, view, today, firstDay, i);
  }

  /** No two days of the month on view share a history key. */
  lemma DayKeysDistinct(view: YearMonth, d1: int, d2: int)
    requires Valid(view)
    requires 1 <= d1 < d2 <= Calendar.DaysInMonth(view.year, view.month)
    ensures ToDateStr(view.year, view.month, d1) != ToDateStr(view.year, view.month, d2)
  {
    DateKeyInjective(Ymd(view.year, view.month, d1), Ymd(view.year, view.month, d2));
  }

  /** No two cells of a month share a history key. */
  lemma MonthCellKeysDistinct(history: History, selected: Option<DayEntry>, view: YearMonth,
                              today: Ymd, firstDay: nat, i: nat, j: nat)
    requires Valid(view)
    requires firstDay <= i < j < |MonthCells(history, selected, view, today, firstDay)|
    ensures MonthCells(history, selected, view, today, firstDay)[i].value.dateStr
         != MonthCells(history, selected, view, today, firstDay)[j].value.dateStr
  {
    var cells := MonthCells(history, selected, view, today, firstDay);
    assert cells[i] == CellAt(history, selected, view, today, firstDay, i);
    assert cells[j] == CellAt(history, selected, view, today, firstDay, j);
    DayKeysDistinct(view, i - firstDay + 1, j - firstDay + 1);
  }

  /** At most one cell of the month on view is highlighted as selected. */
  lemma OneSelectedCell(history: History, selected: Option<DayEntry>, view: YearMonth,
                        today: Ymd, firstDay: nat, i: nat, j: nat)
    requires Valid(view)
    requires firstDay <= i < j < |MonthCells(history, selected, view, today, firstDay)|
    ensures !(MonthCells(history, selected, view, today, firstDay)[i].value.isSelected
              && MonthCells(history, selected, view, today, firstDay)[j].value.isSelected)
  {
    var cells := MonthCells(history, selected, view, today, firstDay);
    MonthCellKeysDistinct(history, selected, view, today, firstDay, i, j);
    assert cells[i].value.isSelected == IsSelected(selected, cells[i].value.dateStr);
    assert cells[j].value.isSelected == IsSelected(selected, cells[j].value.dateStr);
  }
}
