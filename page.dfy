/** The calendar on the agenda page: the module-level current date, the
    grid element's child cells and the month/year label, and the routines
    that rebuild them. The Date-library answers for the shown month (weekday
    of its first day, its length, the previous month's length) and the wall
    clock are parameters. */
module CalendarPage {
  import opened Calendar

  class Page {
    /** The date whose month is shown (`currentDate`). */
    var currentDate: Date
    /** Whether the page has the `#calendar-grid` element. */
    const hasGrid: bool
    /** Whether the page has the `.current-month-year` element. */
    const hasMonthYearDisplay: bool
    /** The grid element's children, in document order. */
    var gridCells: seq<Cell>
    /** The text of the month/year label. */
    var monthYearText: string

    ghost predicate Valid()
      reads this
    {
      ValidDate(currentDate)
    }

    /** The shown month, with the Date library's answers about it. */
    function Shown(firstDay: int, daysInMonth: int, daysInPrevMonth: int): MonthInfo
      reads this
    {
      MonthInfo(currentDate.year, currentDate.month, firstDay, daysInMonth, daysInPrevMonth)
    }

    /** The page as loaded, with whatever the grid and the label hold; the
        current date is the clock's reading at load time. */
    constructor (now: Date, hasGrid: bool, hasMonthYearDisplay: bool, cells: seq<Cell>, text: string)
      requires ValidDate(now)
      ensures Valid() && currentDate == now
      ensures this.hasGrid == hasGrid && this.hasMonthYearDisplay == hasMonthYearDisplay
      ensures gridCells == cells && monthYearText == text
    {
      currentDate := now;
      this.hasGrid := hasGrid;
      this.hasMonthYearDisplay := hasMonthYearDisplay;
      gridCells := cells;
      monthYearText := text;
    }

    /** Rebuilds the label and the grid for the current month. When either
        element is missing nothing changes. Otherwise the grid is emptied
        first, so what it held before plays no part: the new grid is
        Grid(...) of the inputs alone, and rendering the same month again
        reproduces it. */
    method Render(firstDay: int, daysInMonth: int, daysInPrevMonth: int, today: Date)
      requires Valid()
      requires 0 <= firstDay <= 6 && 28 <= daysInMonth <= 31 && 28 <= daysInPrevMonth <= 31
      modifies this
      ensures Valid() && currentDate == old(currentDate)
      ensures hasGrid && hasMonthYearDisplay ==>
                && gridCells == Grid(Shown(firstDay, daysInMonth, daysInPrevMonth), today)
                && monthYearText == MonthYear(currentDate.month, currentDate.year)
      ensures !(hasGrid && hasMonthYearDisplay) ==>
                gridCells == old(gridCells) && monthYearText == old(monthYearText)
    {
      if !hasGrid || !hasMonthYearDisplay {
        return;
      }
      gridCells := [];
      monthYearText := MonthYear(currentDate.month, currentDate.year);
      FillGrid(firstDay, daysInMonth, daysInPrevMonth, today);
    }

    /** Fills the emptied grid with its three runs of cells, in the order
        of the render's three loops. */
    method FillGrid(firstDay: int, daysInMonth: int, daysInPrevMonth: int, today: Date)
      requires 0 <= firstDay <= 6 && gridCells == []
      modifies this`gridCells
      ensures gridCells == Grid(Shown(firstDay, daysInMonth, daysInPrevMonth), today)
    {
      var startDay := MondayFirst(firstDay);
      AppendPrevMonthDays(startDay, daysInPrevMonth);
      assert gridCells == LeadingCells(startDay, daysInPrevMonth);
      AppendMonthDays(daysInMonth, today);
      ghost var filled := gridCells;
      AppendNextMonthDays();
      assert gridCells == filled + TrailingCells(GRID_SIZE - |filled|);
    }

    /** The first loop: for i from startDay - 1 down to 0, an empty cell
        showing daysInPrevMonth - i. */
    method AppendPrevMonthDays(startDay: int, daysInPrevMonth: int)
      requires startDay >= 0
      modifies this`gridCells
      ensures gridCells == old(gridCells) + LeadingCells(startDay, daysInPrevMonth)
    {
      var i := startDay - 1;
      while i >= 0
        invariant -1 <= i <= startDay - 1
        invariant gridCells == old(gridCells) + LeadingCells(startDay - 1 - i, daysInPrevMonth - i - 1)
      {
        gridCells := gridCells + [Cell(daysInPrevMonth - i, true, false)];
        i := i - 1;
      }
    }

    /** The second loop: for day from 1 to daysInMonth, a cell showing day,
        marked as today when day, month and year are today's. */
    method AppendMonthDays(daysInMonth: int, today: Date)
      modifies this`gridCells
      ensures gridCells == old(gridCells) + MonthCells(daysInMonth, currentDate.month, currentDate.year, today)
    {
      var day := 1;
      while day <= daysInMonth
        invariant 1 <= day <= if daysInMonth < 1 then 1 else daysInMonth + 1
        invariant gridCells == old(gridCells) + MonthCells(day - 1, currentDate.month, currentDate.year, today)
      {
        var isToday := day == today.day && currentDate.month == today.month && currentDate.year == today.year;
        gridCells := gridCells + [Cell(day, false, isToday)];
        day := day + 1;
      }
    }

    /** The third loop: the grid's size so far sets how many cells remain
        of the 42, and for i from 1 to that count an empty cell showing i. */
    method AppendNextMonthDays()
      modifies this`gridCells
      ensures gridCells == old(gridCells) + TrailingCells(GRID_SIZE - |old(gridCells)|)
    {
      var totalCells := |gridCells|;
      var remainingCells := GRID_SIZE - totalCells;
      var i := 1;
      while i <= remainingCells
        invariant 1 <= i <= if remainingCells < 1 then 1 else remainingCells + 1
        invariant gridCells == old(gridCells) + TrailingCells(i - 1)
      {
        gridCells := gridCells + [Cell(i, true, false)];
        i := i + 1;
      }
    }

    /** The "today" button: the current date becomes the clock's reading
        and the calendar is rendered again. When both clock readings fall on
        the same day, and that day exists in the shown month, exactly one
        cell is marked as today: the one for today's date. */
    method ShowToday(now: Date, firstDay: int, daysInMonth: int, daysInPrevMonth: int, today: Date)
      requires ValidDate(now)
      requires 0 <= firstDay <= 6 && 28 <= daysInMonth <= 31 && 28 <= daysInPrevMonth <= 31
      modifies this
      ensures Valid() && currentDate == now
      ensures hasGrid && hasMonthYearDisplay ==>
                && gridCells == Grid(MonthInfo(now.year, now.month, firstDay, daysInMonth, daysInPrevMonth), today)
                && monthYearText == MonthYear(now.month, now.year)
      ensures !(hasGrid && hasMonthYearDisplay) ==>
                gridCells == old(gridCells) && monthYearText == old(monthYearText)
      ensures hasGrid && hasMonthYearDisplay && today == now && now.day <= daysInMonth ==>
                && |gridCells| == GRID_SIZE
                && forall k :: 0 <= k < |gridCells| ==>
                     (gridCells[k].today <==> k == MondayFirst(firstDay) + now.day - 1)
    {
      currentDate := now;
      Render(firstDay, daysInMonth, daysInPrevMonth, today);
      ghost var m := MonthInfo(now.year, now.month, firstDay, daysInMonth, daysInPrevMonth);
      assert Shown(firstDay, daysInMonth, daysInPrevMonth) == m;
      if hasGrid && hasMonthYearDisplay && today == now && now.day <= daysInMonth {
        ghost var g := Grid(m, today);
        assert gridCells == g;
        TodayMarker(m, today);
        assert SameMonth(m, today) && 1 <= today.day <= m.daysInMonth;
        assert g[MondayFirst(firstDay) + now.day - 1].today;
      }
    }
  }
}
