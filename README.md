# Agenda calendar grid of the Puerta Caribe site

A Dafny model of the month calendar that the Puerta Caribe agenda page draws
(`renderCalendar` in `js/script.js`). For the month of the page's current
date it writes a label such as `ENERO 2025` and rebuilds a grid of 42 day
cells: six weeks of seven days, Monday first. The grid holds three runs:

- the last days of the previous month, as many as the weekday of the 1st
  needs (`empty` cells);
- the days 1 .. n of the shown month, one of which may carry the `today`
  class;
- days 1, 2, ... of the next month until there are 42 cells (`empty`
  cells).

The project has three modules:

- `Decimal` (decimal.dfy) turns the year into text the way JavaScript does
  when a whole number is joined to a string. It also has a parser for that
  text, and the round trip between the two is proved.
- `Calendar` (calendar.dfy) holds the values: cells, dates, the month's
  facts, the Sunday-first to Monday-first remap and the header. It defines
  each run of cells by the loop that appends it, defines the whole grid, and
  proves lemmas that give the grid cell by cell.
- `CalendarPage` (page.dfy) holds the page as a class. Its fields are the
  module-level current date, the grid element's children (a sequence field
  that the methods append to) and the label's text. Its methods are the
  render and the "today" button.

Inputs the page gets from outside are parameters:

- the Date library's answers for the shown month: the weekday of its first
  day (0..6, 0 = Sunday), its number of days and the previous month's number
  of days (each 28..31);
- the wall clock's readings (`new Date()`);
- whether the two DOM elements exist.

## Model

| member | source | states |
|---|---|---|
| `Calendar.MondayFirst` | js/script.js:159-160 | The Sunday-first weekday of the 1st becomes a Monday-first column in 0..6, and turning that column back into a Sunday-first weekday gives the input. So Sunday goes to 6 and every other day d goes to d - 1. |
| `Calendar.MondayFirstBijective` | js/script.js:160 | The remap is one-to-one on the seven weekdays and has an inverse. Monday is column 0 and Sunday is column 6. |
| `Calendar.LeadingCellsAt` | js/script.js:162-168 | The countdown loop appends `count` cells, all empty and never marked today. Their numbers rise by one and end at the previous month's last day. |
| `Calendar.MonthCellsAt` | js/script.js:170-190 | The day loop appends exactly n cells. Cell k shows day k + 1, is not empty, and is marked today exactly when that day, month and year are today's. |
| `Calendar.TrailingCellsAt` | js/script.js:192-200 | The padding loop appends one cell per remaining slot (none when the count is not positive). The cells are empty, unmarked, and numbered 1, 2, ... in order. |
| `Calendar.GridLayout` | js/script.js:159-200 | For any month the Date library can report, the grid has exactly 42 cells and the padding count 42 - (startDay + daysInMonth) is at least 5. Cells 0..startDay-1 show daysInPrevMonth - startDay + 1 .. daysInPrevMonth. The next daysInMonth cells show 1..daysInMonth. The rest show 1..42 - startDay - daysInMonth. |
| `Calendar.GridRuns` | js/script.js:163-199 | A cell is empty exactly when it is outside the shown month's run. Inside each run, numbers rise by one from cell to cell. The previous-month run ends on that month's last day, and every number is between 1 and 31. |
| `Calendar.TodayMarker` | js/script.js:177-182 | At most one cell is marked today. A marked cell is always the shown month's cell for today's day, and only when the shown month and year are today's. When they are, and today's day is in the month, that cell is marked. Leading and trailing cells are never marked. |
| `Calendar.MonthYearRoundTrip` | js/script.js:147-152 | Reading the label back gives the month index and the year it was built from. Its proof rests on `Calendar.MonthNamesTable`, which states that the twelve names are distinct and contain no space. |
| `Calendar.MonthYearInjective` | js/script.js:151 | Two different (month, year) pairs never produce the same label. |
| `Decimal.NatText` | js/script.js:151 | The text of a non-negative number is a non-empty string of digits with no leading zero: it starts with '0' only when it is "0" itself, and never for a positive number. |
| `Decimal.IntText` | js/script.js:151 | The year's text starts with a minus sign exactly when the year is negative, and what follows the sign is a numeral without leading zeros. |
| `Decimal.NatTextUnique` | js/script.js:151 | Any numeral without leading zeros that reads as n is exactly NatText(n), so the year's text is the one shortest numeral JavaScript prints and not merely some text that parses back. |
| `Decimal.IntTextRoundTrip` | js/script.js:151 | The year's text is well formed (digits, with a minus sign first when negative), and parsing it gives the year back. |
| `CalendarPage.Page.constructor` | js/script.js:87 | The page starts with the current date set to the clock's reading at load time, and with whatever its grid and label held. |
| `CalendarPage.Page.Render` | js/script.js:137-201 | If the grid or the label element is missing, nothing changes. Otherwise the label becomes `MonthYear` of the current month and the grid becomes `Grid` of the inputs. The grid is emptied first, so the result ignores what it held before, and rendering the same month again reproduces it. The current date is left unchanged. |
| `CalendarPage.Page.FillGrid` | js/script.js:159-200 | Starting from the emptied grid, the three loops in order leave exactly `Grid` of the inputs: the leading run, then the month run, then the trailing run that pads to 42. |
| `CalendarPage.Page.AppendPrevMonthDays` | js/script.js:162-168 | The countdown loop appends exactly the leading run for startDay to the grid. |
| `CalendarPage.Page.AppendMonthDays` | js/script.js:170-190 | The day loop appends exactly the shown month's run, with today's marks taken from the current date, to the grid. |
| `CalendarPage.Page.AppendNextMonthDays` | js/script.js:192-200 | The padding loop reads the grid's size and appends exactly the trailing run that brings it to 42 cells. |
| `CalendarPage.Page.ShowToday` | js/script.js:114-117 | The "today" button sets the current date to the clock's reading and renders. When both clock readings are the same date and that day is in the shown month, the rebuilt grid has 42 cells and exactly one of them is marked today: the cell at startDay + day - 1. |

The functions that define the model are stated through the lemma rows
above: `Calendar.MonthYear` by `MonthYearRoundTrip` and
`MonthYearInjective`; `Calendar.LeadingCells`, `Calendar.MonthCells` and
`Calendar.TrailingCells` by `LeadingCellsAt`, `MonthCellsAt` and
`TrailingCellsAt`; `Calendar.Grid` by `GridLayout`, `GridRuns` and
`TodayMarker`; `Decimal.ParseInt` by `IntTextRoundTrip`.

## Left out

- The Date library's computation of the first weekday, the month's length and
  the previous month's length (js/script.js:155-157). These are parameters
  with their known ranges. The model does not re-derive the Gregorian
  calendar, so it does not tie them to the year and month.
- The previous/next month buttons (js/script.js:104-112). They go through
  `Date.setMonth`, whose day overflow moves the date on (from January 31,
  "next" lands in March). The model does not have that normalisation.
  Only the "today" button is modelled.
- Update in one body: the source's single `renderCalendar` is split here.
  `Render` keeps the element check, the clear and the label update. It calls
  `FillGrid`, which runs the three loops as three methods, in the same order
  on the same grid. The result is the same.
- CalendarPage.Page.ShowToday: the clock is read twice in the source
  (js/script.js:115 and 171), so the model takes two dates. The "exactly one
  marked cell" conclusion is stated only when the two readings are the same
  date.
- Every cell also carries the `calendar-day` class (js/script.js:165, 174,
  197). It is the same on all 42 cells, so `Cell` keeps only the number and
  the two classes that vary.
- The click listener on each day cell, which only logs (js/script.js:185-187).
- The rest of `initializeCalendar` (js/script.js:89-135): element lookups,
  filter badges and search logging. These are DOM wiring and console output.
- Navigation smooth scrolling, the IntersectionObserver animations,
  performance logging, the hero fade and the login button stub
  (js/script.js:18-82, 206-239). These are browser APIs, floating-point
  opacity and console output, with nothing to state about values.
- The authentication/session store (register, login, logout) is not part of
  this model: its source is not in js/script.js.
- Year text: JavaScript uses exponent notation only above 10^21. Date years
  are far below that, so plain decimal text is modelled.
