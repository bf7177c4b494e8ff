/** The month grid that the agenda page's calendar shows: a header naming the
    month and year, and 42 day cells (six Monday-first weeks) made of the
    last days of the previous month, the days of the shown month, and the
    first days of the next month. Everything here is a value; the page that
    builds the grid step by step is in module CalendarPage. */
module Calendar {
  import Decimal

  datatype Option<T> = None | Some(value: T)

  /** One cell of the grid: the number it shows, whether it carries the
      `empty` class (a day outside the shown month), and whether it carries
      the `today` class. */
  datatype Cell = Cell(number: int, empty: bool, today: bool)

  /** A calendar date as the JavaScript Date getters report it: the full
      year, the month counted from 0 (January) and the day of the month. */
  datatype Date = Date(year: int, month: int, day: int)

  predicate ValidDate(d: Date) {
    0 <= d.month < 12 && 1 <= d.day <= 31
  }

  /** The shown month with the three facts the Date library supplies for it:
      the weekday of its first day (0 = Sunday), its number of days and the
      number of days of the month before it. */
  datatype MonthInfo = MonthInfo(year: int, month: int, firstDay: int, daysInMonth: int, daysInPrevMonth: int)

  predicate ValidMonthInfo(m: MonthInfo) {
    && 0 <= m.month < 12
    && 0 <= m.firstDay <= 6
    && 28 <= m.daysInMonth <= 31
    && 28 <= m.daysInPrevMonth <= 31
  }

  /** Six rows of seven days. */
  const GRID_SIZE := 42

  const MONTH_NAMES: seq<string> := [
    "ENERO", "FEBRERO", "MARZO", "ABRIL", "MAYO", "JUNIO",
    "JULIO", "AGOSTO", "SEPTIEMBRE", "OCTUBRE", "NOVIEMBRE", "DICIEMBRE"
  ]

  // ---------------------------------------------------------------------
  // Header

  /** The text shown above the grid: the month's name, a space, the year. */
  function MonthYear(month: int, year: int): string
    requires 0 <= month < 12
  {
    MONTH_NAMES[month] + " " + Decimal.IntText(year)
  }

  /** Position of the first space in s, or |s| when there is none. */
  function SpaceIndex(s: string): (k: nat)
    ensures k <= |s|
    ensures forall i :: 0 <= i < k ==> s[i] != ' '
    ensures k < |s| ==> s[k] == ' '
  {
    if s == [] || s[0] == ' ' then 0 else 1 + SpaceIndex(s[1..])
  }

  /** The first month, from `from` on, whose name is `name`; 12 when none is. */
  function MonthIndex(name: string, from: nat): (m: nat)
    requires from <= 12
    ensures from <= m <= 12
    ensures m < 12 ==> MONTH_NAMES[m] == name
    ensures forall i :: from <= i < m ==> MONTH_NAMES[i] != name
    decreases 12 - from
  {
    if from == 12 then 12
    else if MONTH_NAMES[from] == name then from
    else MonthIndex(name, from + 1)
  }

  /** Reads a header back into its month and year. */
  function ParseMonthYear(s: string): Option<(int, int)> {
    var k := SpaceIndex(s);
    if k == |s| then None
    else
      var month := MonthIndex(s[..k], 0);
      var yearText := s[k + 1..];
      if month < 12 && Decimal.IsIntText(yearText) then Some((month, Decimal.ParseInt(yearText)))
      else None
  }

  lemma MonthNamesTable()
    ensures |MONTH_NAMES| == 12
    ensures forall m, i :: 0 <= m < 12 && 0 <= i < |MONTH_NAMES[m]| ==> MONTH_NAMES[m][i] != ' '
    ensures forall i, j :: 0 <= i < j < 12 ==> MONTH_NAMES[i] != MONTH_NAMES[j]
  {
  }

  /** The header names its month and year unambiguously. */
  lemma MonthYearRoundTrip(month: int, year: int)
    requires 0 <= month < 12
    ensures ParseMonthYear(MonthYear(month, year)) == Some((month, year))
  {
    MonthNamesTable();
    var name, yearText := MONTH_NAMES[month], Decimal.IntText(year);
    var s := MonthYear(month, year);
    assert s == name + " " + yearText;
    assert s[|name|] == ' ';
    assert forall i :: 0 <= i < |name| ==> s[i] == name[i];
    assert SpaceIndex(s) == |name|;
    assert s[..|name|] == name;
    assert s[|name| + 1..] == yearText;
    assert MonthIndex(name, 0) == month;
    Decimal.IntTextRoundTrip(year);
  }

  lemma MonthYearInjective(m1: int, y1: int, m2: int, y2: int)
    requires 0 <= m1 < 12 && 0 <= m2 < 12
    requires MonthYear(m1, y1) == MonthYear(m2, y2)
    ensures m1 == m2 && y1 == y2
  {
    MonthYearRoundTrip(m1, y1);
    MonthYearRoundTrip(m2, y2);
  }

  // ---------------------------------------------------------------------
  // Weekday of the first day

  /** Turns a Sunday-first weekday (0 = Sunday) into a Monday-first column
      (0 = Monday, 6 = Sunday): the number of leading cells. */
  function MondayFirst(firstDay: int): (startDay: int)
    requires 0 <= firstDay <= 6
    ensures 0 <= startDay <= 6
    ensures SundayFirst(startDay) == firstDay
  {
    if firstDay == 0 then 6 else firstDay - 1
  }

  /** The weekday (0 = Sunday) of a Monday-first column. */
  function SundayFirst(column: int): (weekday: int)
    requires 0 <= column <= 6
    ensures 0 <= weekday <= 6
  {
    (column + 1) % 7
  }

  /** The remap is a bijection of the seven weekdays: distinct weekdays get
      distinct columns, and every column is some weekday's. */
  lemma MondayFirstBijective()
    ensures forall a, b :: 0 <= a <= 6 && 0 <= b <= 6 && MondayFirst(a) == MondayFirst(b) ==> a == b
    ensures forall c :: 0 <= c <= 6 ==> MondayFirst(SundayFirst(c)) == c
    ensures MondayFirst(1) == 0 && MondayFirst(0) == 6
  {
  }

  // ---------------------------------------------------------------------
  // The three runs of cells, each following the loop that appends it

  /** The `count` previous-month days that end on day `last`, oldest
      first, as empty cells: what the countdown loop has appended once it
      has handled `count` of them. */
  function LeadingCells(count: int, last: int): seq<Cell>
    decreases count
  {
    if count <= 0 then [] else LeadingCells(count - 1, last - 1) + [Cell(last, true, false)]
  }

  /** Whether the cell for `day` of the given month is today's. */
  predicate IsToday(day: int, month: int, year: int, today: Date) {
    day == today.day && month == today.month && year == today.year
  }

  predicate SameMonth(m: MonthInfo, today: Date) {
    m.month == today.month && m.year == today.year
  }

  /** The cells for days 1 .. n of the shown month, in order: what the
      day loop has appended once it has passed day n. */
  function MonthCells(n: int, month: int, year: int, today: Date): seq<Cell>
    decreases n
  {
    if n <= 0 then [] else MonthCells(n - 1, month, year, today) + [Cell(n, false, IsToday(n, month, year, today))]
  }

  /** The next-month cells 1 .. n, in order: what the padding loop has
      appended once it has passed n. */
  function TrailingCells(n: int): seq<Cell>
    decreases n
  {
    if n <= 0 then [] else TrailingCells(n - 1) + [Cell(n, true, false)]
  }

  /** The whole grid: leading, month and trailing cells, the trailing run
      sized by what the first two left of the 42 cells. */
  function Grid(m: MonthInfo, today: Date): seq<Cell>
    requires 0 <= m.firstDay <= 6
  {
    var filled := LeadingCells(MondayFirst(m.firstDay), m.daysInPrevMonth) + MonthCells(m.daysInMonth, m.month, m.year, today);
    filled + TrailingCells(GRID_SIZE - |filled|)
  }

  lemma {:induction false} LeadingCellsAt(count: int, last: int)
    ensures |LeadingCells(count, last)| == if count <= 0 then 0 else count
    ensures forall k :: 0 <= k < |LeadingCells(count, last)| ==>
              LeadingCells(count, last)[k] == Cell(last - count + 1 + k, true, false)
    decreases count
  {
    if count > 0 {
      LeadingCellsAt(count - 1, last - 1);
    }
  }

  lemma {:induction false} MonthCellsAt(n: int, month: int, year: int, today: Date)
    ensures |MonthCells(n, month, year, today)| == if n <= 0 then 0 else n
    ensures forall k :: 0 <= k < |MonthCells(n, month, year, today)| ==>
              MonthCells(n, month, year, today)[k] == Cell(k + 1, false, IsToday(k + 1, month, year, today))
    decreases n
  {
    if n > 0 {
      MonthCellsAt(n - 1, month, year, today);
    }
  }

  lemma {:induction false} TrailingCellsAt(n: int)
    ensures |TrailingCells(n)| == if n <= 0 then 0 else n
    ensures forall k :: 0 <= k < |TrailingCells(n)| ==> TrailingCells(n)[k] == Cell(k + 1, true, false)
    decreases n
  {
    if n > 0 {
      TrailingCellsAt(n - 1);
    }
  }

  /** The layout of the grid, cell by cell. With s leading cells and
      d = daysInMonth:
      - there are exactly 42 cells, and at least five of them trail, so the
        padding count 42 - (s + d) is never negative;
      - cells 0 .. s-1 are empty and show daysInPrevMonth - s + 1 up to
        daysInPrevMonth;
      - cells s .. s+d-1 are not empty and show 1 up to d;
      - the remaining cells are empty and show 1 up to 42 - s - d. */
  lemma GridLayout(m: MonthInfo, today: Date)
    requires ValidMonthInfo(m)
    ensures var s := MondayFirst(m.firstDay); var d := m.daysInMonth; var g := Grid(m, today);
      && |g| == GRID_SIZE
      && GRID_SIZE - (s + d) >= 5
      && (forall k :: 0 <= k < s ==> g[k] == Cell(m.daysInPrevMonth - s + 1 + k, true, false))
      && (forall k :: s <= k < s + d ==> g[k] == Cell(k - s + 1, false, IsToday(k - s + 1, m.month, m.year, today)))
      && (forall k :: s + d <= k < GRID_SIZE ==> g[k] == Cell(k - s - d + 1, true, false))
  {
    var s := MondayFirst(m.firstDay);
    var d := m.daysInMonth;
    var lead := LeadingCells(s, m.daysInPrevMonth);
    var days := MonthCells(d, m.month, m.year, today);
    LeadingCellsAt(s, m.daysInPrevMonth);
    MonthCellsAt(d, m.month, m.year, today);
    var filled := lead + days;
    assert |filled| == s + d;
    var trail := TrailingCells(GRID_SIZE - |filled|);
    TrailingCellsAt(GRID_SIZE - |filled|);
    var g := Grid(m, today);
    assert g == lead + days + trail;
    forall k | s <= k < s + d
      ensures g[k] == Cell(k - s + 1, false, IsToday(k - s + 1, m.month, m.year, today))
    {
      assert g[k] == days[k - s];
    }
    forall k | s + d <= k < GRID_SIZE
      ensures g[k] == Cell(k - s - d + 1, true, false)
    {
      assert g[k] == trail[k - s - d];
    }
  }

  /** A cell is empty exactly when it lies outside the shown month's run;
      the labels rise by one from each cell to the next within a run; and
      every label is a day number between 1 and 31. */
  lemma GridRuns(m: MonthInfo, today: Date)
    requires ValidMonthInfo(m)
    ensures var s := MondayFirst(m.firstDay); var d := m.daysInMonth; var g := Grid(m, today);
      && |g| == GRID_SIZE
      && (forall k :: 0 <= k < |g| ==> (g[k].empty <==> !(s <= k < s + d)))
      && (forall k :: 0 < k < |g| && k != s && k != s + d ==> g[k].number == g[k - 1].number + 1)
      && (s > 0 ==> g[s - 1].number == m.daysInPrevMonth)
      && g[s].number == 1 && g[s + d - 1].number == d && g[s + d].number == 1
      && (forall k :: 0 <= k < |g| ==> 1 <= g[k].number <= 31)
  {
    GridLayout(m, today);
  }

  /** At most one cell is marked as today: the shown month's cell for
      today's day, and only when the shown month and year are today's. When
      they are, and today's day is a day of the shown month, that cell is
      marked. Leading and trailing cells are never marked. */
  lemma TodayMarker(m: MonthInfo, today: Date)
    requires ValidMonthInfo(m)
    ensures var s := MondayFirst(m.firstDay); var g := Grid(m, today);
      && |g| == GRID_SIZE
      && (forall k :: 0 <= k < |g| && !(s <= k < s + m.daysInMonth) ==> !g[k].today)
      && (forall k :: 0 <= k < |g| && g[k].today ==> SameMonth(m, today) && k == s + today.day - 1)
      && (forall j, k :: 0 <= j < |g| && 0 <= k < |g| && g[j].today && g[k].today ==> j == k)
      && (SameMonth(m, today) && 1 <= today.day <= m.daysInMonth ==> g[s + today.day - 1].today)
  {
    GridLayout(m, today);
  }
}
