/** The month view of the schedule tab: a grid of 42 consecutive days (six weeks,
    Sunday first) that starts on the Sunday on or before the 1st of the shown
    month, each day carrying the schedules stored under its `YYYY-MM-DD` key.
    A day shows at most three of them, then a "+n" entry for the rest. */
module Calendar {
  import opened Lists
  import opened Records
  import opened Dates

  /** What the renderer shows for one day's schedules: the first three, and the
      number of the others when there are any. */
  datatype DayView = DayView(shown: seq<Schedule>, more: Option<nat>)

  /** One day of the grid. `events` is the whole bucket of the day. */
  datatype Cell = Cell(
    date: Date, key: string, events: seq<Schedule>, view: DayView, isOtherMonth: bool, isToday: bool)

  /** `schedules.filter(s => s.date === dateStr)`. */
  function DayEvents(schedules: seq<Schedule>, key: string): (r: seq<Schedule>)
    ensures forall s | s in r :: s in schedules && s.date == key
    ensures forall s | s in schedules && s.date == key :: s in r
    ensures forall s | s in schedules :: multiset(r)[s] == if s.date == key then multiset(schedules)[s] else 0
    ensures IsSubsequence(r, schedules)
  {
    FilterIsSubsequence(schedules, (s: Schedule) => s.date == key);
    Filter(schedules, (s: Schedule) => s.date == key)
  }

  /** `daySchedules.slice(0, 3)` and, when there are more than three, `+${length - 3}`. */
  function DayDisplay(events: seq<Schedule>): (v: DayView)
    ensures |v.shown| == (if |events| < 3 then |events| else 3) && v.shown == events[..|v.shown|]
    ensures v.more.Some? <==> |events| > 3
    ensures v.more.Some? ==> v.more.value == |events| - 3
  {
    if |events| > 3 then DayView(events[..3], Some(|events| - 3)) else DayView(events, None)
  }

  /** isTodayDate: same day of the month, month and year as the clock's date. */
  function IsToday(d: Date, today: Date): (b: bool)
    ensures b <==> d == today
  {
    d.day == today.day && d.month == today.month && d.year == today.year
  }

  /** The first cell: the 1st of the month moved back by its weekday. */
  function GridStart(year: int, month: int): Date
    requires 0 <= month < 12
  {
    var first := Date(year, month, 1);
    AddDays(first, -Weekday(first))
  }

  /** The cell the loop emits for day `d` while `month` is shown. */
  function CellFor(schedules: seq<Schedule>, d: Date, month: int, today: Date): Cell
    requires d.Valid()
  {
    var key := FormatDate(d);
    var events := DayEvents(schedules, key);
    Cell(d, key, events, DayDisplay(events), d.month != month, IsToday(d, today))
  }

  /** The grid renderScheduleCalendar builds: 42 consecutive valid days from the
      grid start, each cell being the one the loop emits for its day. */
  ghost predicate IsGrid(cells: seq<Cell>, schedules: seq<Schedule>, year: int, month: int, today: Date)
    requires 0 <= month < 12
  {
    |cells| == 42 &&
    cells[0].date == GridStart(FullYear(year), month) &&
    (forall k :: 0 <= k < 42 ==>
      cells[k].date.Valid() && DayNumber(cells[k].date) == DayNumber(cells[0].date) + k) &&
    (forall k :: 0 <= k < 42 ==> cells[k] == CellFor(schedules, cells[k].date, month, today))
  }

  /** The cells built so far: consecutive valid days from `start`, each the cell
      the loop emits for its day. */
  ghost predicate GridPrefix(cells: seq<Cell>, start: Date, schedules: seq<Schedule>, month: int,
                             today: Date)
    requires start.Valid()
  {
    forall k :: 0 <= k < |cells| ==>
      cells[k].date.Valid() && DayNumber(cells[k].date) == DayNumber(start) + k &&
      cells[k] == CellFor(schedules, cells[k].date, month, today)
  }

  /** Appending the cell of the next day extends a grid prefix. */
  lemma ExtendGrid(cells: seq<Cell>, c: Cell, start: Date, schedules: seq<Schedule>, month: int,
                   today: Date)
    requires start.Valid() && GridPrefix(cells, start, schedules, month, today)
    requires c.date.Valid() && DayNumber(c.date) == DayNumber(start) + |cells|
    requires c == CellFor(schedules, c.date, month, today)
    ensures GridPrefix(cells + [c], start, schedules, month, today)
  {
    forall k | 0 <= k < |cells| + 1
      ensures (cells + [c])[k].date.Valid() &&
        DayNumber((cells + [c])[k].date) == DayNumber(start) + k &&
        (cells + [c])[k] == CellFor(schedules, (cells + [c])[k].date, month, today)
    {
      if k < |cells| {
        assert (cells + [c])[k] == cells[k];
      }
    }
  }

  /** A full prefix of 42 cells from the grid start is the grid. */
  lemma PrefixIsGrid(cells: seq<Cell>, schedules: seq<Schedule>, year: int, month: int, today: Date)
    requires 0 <= month < 12 && |cells| == 42
    requires GridPrefix(cells, GridStart(FullYear(year), month), schedules, month, today)
    ensures IsGrid(cells, schedules, year, month, today)
  {
    DayNumberInjective(cells[0].date, GridStart(FullYear(year), month));
  }

  /** The grid loop of renderScheduleCalendar for the 0-based `month` of the shown
      `year`; the first day is built with the Date constructor, so a shown year from
      0 to 99 yields the grid of 1900 + year. `today` stands for the clock reading
      isTodayDate makes. */
  method RenderCalendar(schedules: seq<Schedule>, year: int, month: int, today: Date)
    returns (cells: seq<Cell>)
    requires 0 <= month < 12
    ensures IsGrid(cells, schedules, year, month, today)
  {
    var start := GridStart(FullYear(year), month);
    var current := start;
    cells := [];
    for i := 0 to 42
      invariant current.Valid() && DayNumber(current) == DayNumber(start) + i
      invariant |cells| == i
      invariant GridPrefix(cells, start, schedules, month, today)
    {
      var dateStr := FormatDate(current);
      var daySchedules := DayEvents(schedules, dateStr);
      var isOtherMonth := current.month != month;
      var cell := Cell(current, dateStr, daySchedules, DayDisplay(daySchedules), isOtherMonth,
                       IsToday(current, today));
      ExtendGrid(cells, cell, start, schedules, month, today);
      cells := cells + [cell];
      NextDayNumber(current);
      current := NextDay(current);
    }
    PrefixIsGrid(cells, schedules, year, month, today);
  }

  /** The grid's first cell is a Sunday, on the 1st of the month or fewer than
      seven days before it. */
  lemma GridFirstCell(cells: seq<Cell>, schedules: seq<Schedule>, year: int, month: int, today: Date)
    requires 0 <= month < 12 && IsGrid(cells, schedules, year, month, today)
    ensures Weekday(cells[0].date) == 0
    ensures var first := Date(FullYear(year), month, 1);
      DayNumber(first) - 7 < DayNumber(cells[0].date) <= DayNumber(first)
  {
    GridStartIsSundayBefore(FullYear(year), month);
  }

  /** Every day of the shown month is in the grid, day `day` at cell
      `Weekday(1st) + day - 1`. */
  lemma GridShowsWholeMonth(cells: seq<Cell>, schedules: seq<Schedule>, year: int, month: int,
                            today: Date, day: int)
    requires 0 <= month < 12 && IsGrid(cells, schedules, year, month, today)
    requires 1 <= day <= DaysInMonth(FullYear(year), month)
    ensures 0 <= Weekday(Date(FullYear(year), month, 1)) + day - 1 < 42
    ensures cells[Weekday(Date(FullYear(year), month, 1)) + day - 1].date ==
      Date(FullYear(year), month, day)
  {
    var k := Weekday(Date(FullYear(year), month, 1)) + day - 1;
    GridCoversMonth(FullYear(year), month, day);
    DayNumberInjective(cells[k].date, Date(FullYear(year), month, day));
  }

  /** A cell is marked as belonging to another month exactly when its day lies
      outside the shown month of the shown year. */
  lemma GridOtherMonthFlags(cells: seq<Cell>, schedules: seq<Schedule>, year: int, month: int,
                            today: Date, k: int)
    requires 0 <= month < 12 && IsGrid(cells, schedules, year, month, today)
    requires 0 <= k < 42
    ensures cells[k].isOtherMonth <==>
      !(cells[k].date.year == FullYear(year) && cells[k].date.month == month)
  {
    OtherMonthFlagExact(FullYear(year), month, cells[k].date);
  }

  /** No two cells of the grid share a date key, so no schedule is shown twice. */
  lemma GridKeysDistinct(cells: seq<Cell>, schedules: seq<Schedule>, year: int, month: int,
                         today: Date, i: int, j: int)
    requires 0 <= month < 12 && IsGrid(cells, schedules, year, month, today)
    requires 0 <= i < j < 42
    ensures cells[i].key != cells[j].key
  {
    DistinctDaysDistinctKeys(cells[i].date, cells[j].date);
  }

  /** A cell holds exactly the stored schedules dated with its key, in stored
      order, and shows the first three of them with a "+n" count for the rest. */
  lemma GridCellEvents(cells: seq<Cell>, schedules: seq<Schedule>, year: int, month: int,
                       today: Date, k: int, s: Schedule)
    requires 0 <= month < 12 && IsGrid(cells, schedules, year, month, today)
    requires 0 <= k < 42
    ensures cells[k].events == DayEvents(schedules, cells[k].key)
    ensures s in cells[k].events <==> s in schedules && s.date == cells[k].key
    ensures multiset(cells[k].events)[s] == if s.date == cells[k].key then multiset(schedules)[s] else 0
    ensures IsSubsequence(cells[k].events, schedules)
    ensures cells[k].key == FormatDate(cells[k].date)
    ensures cells[k].view.shown == cells[k].events[..|cells[k].view.shown|]
    ensures |cells[k].view.shown| == if |cells[k].events| < 3 then |cells[k].events| else 3
    ensures cells[k].view.more.Some? <==> |cells[k].events| > 3
    ensures cells[k].view.more.Some? ==> cells[k].view.more.value == |cells[k].events| - 3
  {
  }

  /** When today falls within the grid, exactly one cell, the one `k` days after
      the first, is marked as today; otherwise no cell is. */
  lemma GridToday(cells: seq<Cell>, schedules: seq<Schedule>, year: int, month: int,
                  today: Date, k: int)
    requires 0 <= month < 12 && IsGrid(cells, schedules, year, month, today)
    requires today.Valid() && 0 <= k < 42
    ensures cells[k].isToday <==> DayNumber(today) == DayNumber(cells[0].date) + k
  {
    if DayNumber(today) == DayNumber(cells[0].date) + k {
      DayNumberInjective(cells[k].date, today);
    }
  }

  /** The grid starts on a Sunday, on the 1st of the month or fewer than seven
      days before it. */
  lemma GridStartIsSundayBefore(year: int, month: int)
    requires 0 <= month < 12
    ensures Weekday(GridStart(year, month)) == 0
    ensures DayNumber(Date(year, month, 1)) - 7 < DayNumber(GridStart(year, month))
    ensures DayNumber(GridStart(year, month)) <= DayNumber(Date(year, month, 1))
  {
    var n := DayNumber(Date(year, month, 1));
    assert Weekday(Date(year, month, 1)) == (n + 1) % 7;
    assert DayNumber(GridStart(year, month)) == n - (n + 1) % 7;
    BackToSunday(n);
  }

  /** Moving day `n` back by its weekday lands on a Sunday. */
  lemma BackToSunday(n: int)
    ensures (n - (n + 1) % 7 + 1) % 7 == 0
  {
  }

  /** Comparing the month number alone is enough: a day of the grid with the shown
      month's number lies in the shown year, since the grid spans 42 days. */
  lemma OtherMonthFlagExact(year: int, month: int, d: Date)
    requires 0 <= month < 12 && d.Valid()
    requires DayNumber(GridStart(year, month)) <= DayNumber(d) < DayNumber(GridStart(year, month)) + 42
    ensures d.month == month ==> d.year == year
  {
    var first := Date(year, month, 1);
    GridStartIsSundayBefore(year, month);
    if d.month == month && d.year < year {
      SameMonthOtherYearFarApart(d, first);
    } else if d.month == month && d.year > year {
      SameMonthOtherYearFarApart(first, d);
    }
  }

  /** Day `day` of the shown month is the grid's cell `Weekday(1st) + day - 1`,
      which is below 42: six weeks always cover the month. */
  lemma GridCoversMonth(year: int, month: int, day: int)
    requires 0 <= month < 12 && 1 <= day <= DaysInMonth(year, month)
    ensures var k := Weekday(Date(year, month, 1)) + day - 1;
      0 <= k < 42 && DayNumber(Date(year, month, day)) == DayNumber(GridStart(year, month)) + k
  {
  }

  /** A schedule dated 2024-03-15 is in the bucket of 15 March 2024, which is cell
      19 of the March 2024 grid (March 2024 begins on a Friday), and in the bucket
      of no other day. */
  lemma March2024Example(s: Schedule, today: Date, d: Date)
    requires s.date == "2024-03-15" && d.Valid()
    ensures DayNumber(Date(2024, 2, 15)) == DayNumber(GridStart(2024, 2)) + 19
    ensures s in CellFor([s], d, 2, today).events <==> d == Date(2024, 2, 15)
  {
    March2024StartsOnFriday();
    GridCoversMonth(2024, 2, 15);
    March15Key();
    if d != Date(2024, 2, 15) && FormatDate(d) == "2024-03-15" {
      FormatDateInjective(d, Date(2024, 2, 15));
    }
  }

  lemma March15Key()
    ensures FormatDate(Date(2024, 2, 15)) == "2024-03-15"
  {
  }
}
