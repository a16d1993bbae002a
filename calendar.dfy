/**
 * The month view of `renderCalendar`: six weeks of day cells starting on
 * the Sunday on or before the first of the month, each cell keyed by its
 * ISO date and previewing that date's events.
 */
module Calendar {

  import opened Dates
  import opened Events
  import opened Records

  /** One day cell: its date and key, whether it belongs to the month shown
      and is today, the names of the events it previews, and the count of
      the "+N" marker (0 when the marker is absent). */
  datatype Cell = Cell(date: Date, key: string, isCurrentMonth: bool, isToday: bool,
                       preview: seq<string>, more: nat)

  /** `events.map(event => event.name)`. */
  function Names(es: seq<Event>): (names: seq<string>)
    ensures |names| == |es| && forall j :: 0 <= j < |es| ==> names[j] == es[j].name
  {
    seq(|es|, j requires 0 <= j < |es| => es[j].name)
  }

  /** The cell of `date` when `month` is shown: the names of the day's first
      two events (or fewer, when the day has fewer) are previewed in the
      day's order, and the "+N" marker counts the rest, shown only when
      there are more than two. */
  function DayCell(date: Date, month: int, today: Date, events: EventMap): (c: Cell)
    requires Valid(date)
    ensures c.date == date && c.key == IsoDate(date)
    ensures c.isCurrentMonth <==> date.month == month
    ensures c.isToday <==> date == today
    ensures var dayEvents := EventsOn(events, c.key);
      && |c.preview| == (if |dayEvents| < 2 then |dayEvents| else 2)
      && c.more == (if |dayEvents| > 2 then |dayEvents| - 2 else 0)
      && |c.preview| + c.more == |dayEvents|
      && (c.more > 0 <==> |dayEvents| > 2)
      && forall j :: 0 <= j < |c.preview| ==> c.preview[j] == dayEvents[j].name
  {
    var key := IsoDate(date);
    var dayEvents := EventsOn(events, key);
    var shown := if |dayEvents| < 2 then |dayEvents| else 2;
    Cell(date, key, date.month == month, date == today,
         Names(dayEvents[..shown]), if |dayEvents| > 2 then |dayEvents| - 2 else 0)
  }

  /** `new Date(year, month, 1)`. */
  function FirstOfMonth(year: int, month: int): (d: Date)
    requires 0 <= month < 12
    ensures Valid(d)
  {
    Date(FullYear(year), month, 1)
  }

  /** The first cell: the first of the month moved back by its weekday. */
  function GridStart(year: int, month: int): (d: Date)
    requires 0 <= month < 12
    ensures Valid(d)
  {
    var first := FirstOfMonth(year, month);
    SubDays(first, Weekday(first))
  }

  /** The cell of the `i`-th day after `start`, for every `i`. */
  function CellMaker(start: Date, month: int, today: Date, events: EventMap): nat -> Cell
    requires Valid(start)
  {
    (i: nat) => DayCell(AddDays(start, i), month, today, events)
  }

  /** The first `n` cells of a grid starting at `start`, in reading order. */
  function GridPrefix(start: Date, month: int, today: Date, events: EventMap, n: nat): (cells: seq<Cell>)
    requires Valid(start)
    ensures |cells| == n
  {
    Tabulate(CellMaker(start, month, today, events), n)
  }

  /** 42 cells of consecutive days from `start`, in reading order. */
  function GridFrom(start: Date, month: int, today: Date, events: EventMap): (cells: seq<Cell>)
    requires Valid(start)
    ensures |cells| == 42
  {
    Table(CellMaker(start, month, today, events), 42)
  }

  /** The 42 cells of the view of `month` of `year`. */
  function MonthGrid(year: int, month: int, today: Date, events: EventMap): (cells: seq<Cell>)
    requires 0 <= month < 12
    ensures |cells| == 42
  {
    GridFrom(GridStart(year, month), month, today, events)
  }

  /** The grid starts on the Sunday on or before the first of the month. */
  lemma GridStartSunday(year: int, month: int)
    requires 0 <= month < 12
    ensures Weekday(GridStart(year, month)) == 0
    ensures var first := DayNumber(FirstOfMonth(year, month));
      first - 6 <= DayNumber(GridStart(year, month)) <= first
  {
    var first := FirstOfMonth(year, month);
    DayNumberSubDays(first, Weekday(first));
    SubDaysWeekday(first);
  }

  /** The cells are 42 consecutive days, so cell `i` falls on weekday
      `i % 7`: every row of the grid runs from Sunday to Saturday. */
  lemma GridConsecutive(year: int, month: int, today: Date, events: EventMap, i: int)
    requires 0 <= month < 12 && 0 <= i < 42
    ensures DayNumber(MonthGrid(year, month, today, events)[i].date) == DayNumber(GridStart(year, month)) + i
    ensures Weekday(MonthGrid(year, month, today, events)[i].date) == i % 7
  {
    GridCell(year, month, today, events, i);
    GridStartSunday(year, month);
    SundayRun(GridStart(year, month), i);
  }

  /** Cell `firstDay.getDay() + k` is day `k + 1` of the month shown, for
      every day of that month. */
  lemma GridMonthDays(year: int, month: int, today: Date, events: EventMap, k: int)
    requires 0 <= month < 12 && 0 <= k < DaysInMonth(FullYear(year), month)
    ensures var w := Weekday(FirstOfMonth(year, month));
      w + k < 42 && MonthGrid(year, month, today, events)[w + k].date == Date(FullYear(year), month, k + 1)
  {
    var w := Weekday(FirstOfMonth(year, month));
    InMonth(year, month, k);
    GridCell(year, month, today, events, w + k);
  }

  /** A cell is marked as belonging to the month shown exactly when it lies
      in the run of that month's days; the cells before are the end of the
      previous month and the cells after the start of the next. */
  lemma GridCurrentMonth(year: int, month: int, today: Date, events: EventMap, i: int)
    requires 0 <= month < 12 && 0 <= i < 42
    ensures var w := Weekday(FirstOfMonth(year, month));
      MonthGrid(year, month, today, events)[i].isCurrentMonth
      <==> w <= i < w + DaysInMonth(FullYear(year), month)
  {
    GridCell(year, month, today, events, i);
    MonthRun(year, month, i);
  }

  /** The grid's day `i` is in the month shown exactly when it lies in the
      run of that month's days. */
  lemma MonthRun(year: int, month: int, i: nat)
    requires 0 <= month < 12 && i < 42
    ensures var w := Weekday(FirstOfMonth(year, month));
      AddDays(GridStart(year, month), i).month == month
      <==> w <= i < w + DaysInMonth(FullYear(year), month)
  {
    var w := Weekday(FirstOfMonth(year, month));
    var n := DaysInMonth(FullYear(year), month);
    if i < w {
      BeforeMonth(year, month, i);
    } else if i < w + n {
      InMonth(year, month, i - w);
    } else {
      AfterMonth(year, month, i);
    }
  }

  lemma InMonth(year: int, month: int, k: nat)
    requires 0 <= month < 12 && k < DaysInMonth(FullYear(year), month)
    ensures var w := Weekday(FirstOfMonth(year, month));
      w + k < 42 && AddDays(GridStart(year, month), w + k) == Date(FullYear(year), month, k + 1)
  {
    var first := FirstOfMonth(year, month);
    var w := Weekday(first);
    AddDaysCompose(SubDays(first, w), w, k);
    AddDaysAfterSubDays(first, w, w);
    AddDaysInMonth(first, k);
  }

  lemma BeforeMonth(year: int, month: int, i: nat)
    requires 0 <= month < 12 && i < Weekday(FirstOfMonth(year, month))
    ensures AddDays(GridStart(year, month), i).month != month
  {
    var first := FirstOfMonth(year, month);
    var w := Weekday(first);
    AddDaysAfterSubDays(first, w, i);
    SubDaysIntoPrevMonth(FullYear(year), month, w - i);
  }

  lemma AfterMonth(year: int, month: int, i: nat)
    requires 0 <= month < 12 && i < 42
    requires Weekday(FirstOfMonth(year, month)) + DaysInMonth(FullYear(year), month) <= i
    ensures AddDays(GridStart(year, month), i).month != month
  {
    var first := FirstOfMonth(year, month);
    var w := Weekday(first);
    AddDaysCompose(SubDays(first, w), w, i - w);
    AddDaysAfterSubDays(first, w, w);
    AddDaysIntoNextMonth(FullYear(year), month, i - w);
  }

  /** `renderCalendar`'s loop over the 42 cells, with the year and month
      already read from the form and `today` read from the clock: the cells
      it builds are the month view. */
  method RenderCalendar(year: int, month: int, today: Date, events: EventMap) returns (cells: seq<Cell>)
    requires 0 <= month < 12
    ensures cells == MonthGrid(year, month, today, events)
  {
    var firstDay := Date(FullYear(year), month, 1);
    var startDate := SubDays(firstDay, Weekday(firstDay));
    cells := [];
    for i := 0 to 42
      invariant cells == GridPrefix(startDate, month, today, events, i)
    {
      var currentDate := AddDays(startDate, i);
      var cell := DayCell(currentDate, month, today, events);
      GridPrefixStep(startDate, month, today, events, i);
      cells := cells + [cell];
    }
    assert startDate == GridStart(year, month);
    GridPrefixFull(year, month, today, events);
  }

  lemma GridPrefixStep(start: Date, month: int, today: Date, events: EventMap, i: nat)
    requires Valid(start)
    ensures GridPrefix(start, month, today, events, i + 1)
         == GridPrefix(start, month, today, events, i) + [DayCell(AddDays(start, i), month, today, events)]
  {
  }

  lemma GridPrefixFull(year: int, month: int, today: Date, events: EventMap)
    requires 0 <= month < 12
    ensures GridPrefix(GridStart(year, month), month, today, events, 42) == MonthGrid(year, month, today, events)
  {
    TabulateIsTable(CellMaker(GridStart(year, month), month, today, events), 42);
  }

  /** Cell `i` of the month view is the cell of the `i`-th day after the
      grid's first Sunday. */
  lemma GridCell(year: int, month: int, today: Date, events: EventMap, i: int)
    requires 0 <= month < 12 && 0 <= i < 42
    ensures MonthGrid(year, month, today, events)[i] == DayCell(AddDays(GridStart(year, month), i), month, today, events)
  {
  }

  lemma SundayRun(start: Date, i: nat)
    requires Valid(start) && Weekday(start) == 0
    ensures DayNumber(AddDays(start, i)) == DayNumber(start) + i
    ensures Weekday(AddDays(start, i)) == i % 7
  {
    DayNumberAddDays(start, i);
    WeekdayAddDays(start, i);
  }

  /** `new Date(year, month, 1)` reads a two-digit year as a year of the
      1900s: typing 25 in the year box shows the grid of 1925. */
  lemma TwoDigitYear(year: int, month: int, today: Date, events: EventMap)
    requires 0 <= year <= 99 && 0 <= month < 12
    ensures MonthGrid(year, month, today, events) == MonthGrid(1900 + year, month, today, events)
  {
    assert FirstOfMonth(year, month) == FirstOfMonth(1900 + year, month);
  }

  /** The grid of August 2025 starts on Sunday 2025-07-27, since
      2025-08-01 was a Friday. */
  lemma August2025Start()
    ensures GridStart(2025, 7) == Date(2025, 6, 27)
  {
    AugustFirst2025Friday();
  }
}
