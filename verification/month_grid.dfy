/**
 * The month view (src/components/CalendarGrid.tsx): the days from the Sunday on or
 * before the first of the month to the Saturday on or after its last day, one cell
 * per day, each cell listing the events that start on it and flagged when it lies in
 * the reference month.
 */
module MonthGrid {
  import opened CivilDate
  import opened LocalTime
  import opened Events

  /** `count` consecutive days from `start`. */
  function DaysFrom(start: Date, count: nat): (days: seq<Date>)
    ensures |days| == count
    ensures forall i :: 0 <= i < count ==> days[i].dayNumber == start.dayNumber + i
  {
    seq(count, i => AddDays(start, i))
  }

  /** `startOfWeek(startOfMonth(currentDate))`. */
  function CalendarStart(ref: Date): Date {
    StartOfWeek(StartOfMonth(ref))
  }

  /** `endOfWeek(endOfMonth(monthStart))`. */
  function CalendarEnd(ref: Date): Date {
    EndOfWeek(EndOfMonth(StartOfMonth(ref)))
  }

  /** The last day of the month of `ref`, reached through its first day as the source does. */
  lemma EndOfMonthOfStart(ref: Date)
    ensures EndOfMonth(StartOfMonth(ref)) == EndOfMonth(ref)
    ensures MonthLength(StartOfMonth(ref)) == MonthLength(ref)
  {
  }

  /** Days from the first to the last cell of a Sunday-to-Saturday span come in whole weeks. */
  lemma WholeWeeks(first: Date, last: Date)
    requires Weekday(first) == Sunday && Weekday(last) == Saturday
    ensures (last.dayNumber - first.dayNumber + 1) % 7 == 0
  {
    var a := (first.dayNumber + 4) / 7;
    var b := (last.dayNumber + 4) / 7;
    assert first.dayNumber + 4 == 7 * a;
    assert last.dayNumber + 4 == 7 * b + 6;
    assert last.dayNumber - first.dayNumber + 1 == 7 * (b - a + 1);
  }

  /** A whole number of weeks covering a month of 28 to 31 days and under a week on each side. */
  lemma WeeksCoveringMonth(n: int)
    requires n % 7 == 0 && 28 <= n < 31 + 13
    ensures n == 28 || n == 35 || n == 42
  {
    var w := n / 7;
    assert n == 7 * w;
  }

  /** The first and last day the grid shows, and how they frame the month. */
  lemma CalendarSpan(ref: Date)
    ensures var first := CalendarStart(ref);
      var last := CalendarEnd(ref);
      var n := last.dayNumber - first.dayNumber + 1;
      && Weekday(first) == Sunday && Weekday(last) == Saturday
      && first.dayNumber <= StartOfMonth(ref).dayNumber < first.dayNumber + 7
      && last.dayNumber - 7 < EndOfMonth(ref).dayNumber <= last.dayNumber
      && (n == 28 || n == 35 || n == 42)
  {
    var first := CalendarStart(ref);
    var last := CalendarEnd(ref);
    EndOfMonthOfStart(ref);
    var s := StartOfMonth(ref).dayNumber;
    var e := EndOfMonth(ref).dayNumber;
    assert e == s + MonthLength(ref) - 1;
    WholeWeeks(first, last);
    WeeksCoveringMonth(last.dayNumber - first.dayNumber + 1);
  }

  /** The days the month grid shows for reference date `ref`, in display order. */
  function MonthCells(ref: Date): (cells: seq<Date>)
    ensures |cells| == 28 || |cells| == 35 || |cells| == 42
    ensures cells[0] == CalendarStart(ref) && cells[|cells| - 1] == CalendarEnd(ref)
    ensures Weekday(cells[0]) == Sunday
    ensures cells[0].dayNumber <= StartOfMonth(ref).dayNumber < cells[0].dayNumber + 7
    ensures Weekday(cells[|cells| - 1]) == Saturday
    ensures cells[|cells| - 1].dayNumber - 7 < EndOfMonth(ref).dayNumber <= cells[|cells| - 1].dayNumber
    ensures forall i :: 0 < i < |cells| ==> cells[i] == AddDays(cells[i - 1], 1)
    ensures forall i :: 0 <= i < |cells| ==> cells[i].dayNumber == cells[0].dayNumber + i
  {
    var first := CalendarStart(ref);
    var last := CalendarEnd(ref);
    CalendarSpan(ref);
    var cells := DaysFrom(first, last.dayNumber - first.dayNumber + 1);
    assert cells[0] == first && cells[|cells| - 1] == last;
    cells
  }

  /** The `while (day <= calendarEnd)` loop of the source: every day from `first` through `last`. */
  method DaysThrough(first: Date, last: Date) returns (days: seq<Date>)
    requires first.dayNumber <= last.dayNumber + 1
    ensures days == DaysFrom(first, last.dayNumber - first.dayNumber + 1)
  {
    days := [];
    var day := first;
    while day.dayNumber <= last.dayNumber
      invariant day.dayNumber == first.dayNumber + |days|
      invariant day.dayNumber <= last.dayNumber + 1
      invariant forall i :: 0 <= i < |days| ==> days[i] == AddDays(first, i)
      decreases last.dayNumber - day.dayNumber
    {
      days := days + [day];
      day := AddDays(day, 1);
    }
  }

  /** The source's construction of the cells, from `startOfMonth` through `endOfWeek`. */
  method BuildMonthCells(ref: Date) returns (days: seq<Date>)
    ensures days == MonthCells(ref)
  {
    var monthStart := StartOfMonth(ref);
    var monthEnd := EndOfMonth(monthStart);
    var calendarStart := StartOfWeek(monthStart);
    var calendarEnd := EndOfWeek(monthEnd);
    CalendarSpan(ref);
    days := DaysThrough(calendarStart, calendarEnd);
  }

  /** The cells are pairwise distinct days. */
  lemma MonthCellsDistinct(ref: Date, i: int, j: int)
    requires 0 <= i < j < |MonthCells(ref)|
    ensures MonthCells(ref)[i] != MonthCells(ref)[j]
  {
  }

  /** Every day of the reference month, the reference date among them, is a cell, at a known index. */
  lemma MonthCellsCoverMonth(ref: Date, d: Date)
    requires SameMonth(d, ref)
    ensures var cells := MonthCells(ref);
      var k := d.dayNumber - cells[0].dayNumber;
      0 <= k < |cells| && cells[k] == d
  {
    SameMonthIffWithinMonth(d, ref);
  }

  /** The reference date is one of the cells. */
  lemma ReferenceDateShown(ref: Date)
    ensures ref in MonthCells(ref)
  {
    MonthCellsCoverMonth(ref, ref);
  }

  /** A rendered cell of the month grid. */
  datatype Cell = Cell(date: Date, inMonth: bool, events: seq<Event>)

  /** `getEventsForDay(date)`: the events whose local start date is `date`, in input order. */
  function EventsForDay(events: seq<Event>, date: Date, offset: int): (r: seq<Event>)
    ensures forall e :: e in r <==> e in events && LocalStart(e, offset).date == date
    ensures |r| <= |events|
  {
    Select(events, OnDay(date), offset)
  }

  /** `getEventsForDay` keeps input order: the events of a concatenation are those of each part in turn. */
  lemma {:induction false} EventsForDayAppend(a: seq<Event>, b: seq<Event>, date: Date, offset: int)
    ensures EventsForDay(a + b, date, offset) == EventsForDay(a, date, offset) + EventsForDay(b, date, offset)
  {
    SelectAppend(a, b, OnDay(date), offset);
  }

  /** A day's list holds each event starting that day as often as the input does, and no other event. */
  lemma {:induction false} EventsForDayCount(events: seq<Event>, date: Date, offset: int, e: Event)
    ensures multiset(EventsForDay(events, date, offset))[e] ==
      if LocalStart(e, offset).date == date then multiset(events)[e] else 0
  {
    SelectCount(events, OnDay(date), offset, e);
  }

  /** The grid as rendered: each day with its `isSameMonth` flag and its events. */
  function MonthLayout(ref: Date, events: seq<Event>, offset: int): (cells: seq<Cell>)
    ensures |cells| == |MonthCells(ref)|
    ensures forall i :: 0 <= i < |cells| ==> cells[i].date == MonthCells(ref)[i]
  {
    var days := MonthCells(ref);
    seq(|days|, i requires 0 <= i < |days| =>
      Cell(days[i], SameMonth(days[i], ref), EventsForDay(events, days[i], offset)))
  }

  /** A cell lists exactly the events that start on its day, whatever its month flag. */
  lemma CellEventsExact(ref: Date, events: seq<Event>, offset: int, i: int, e: Event)
    requires 0 <= i < |MonthLayout(ref, events, offset)|
    ensures var cell := MonthLayout(ref, events, offset)[i];
      e in cell.events <==> e in events && LocalStart(e, offset).date == cell.date
  {
  }

  /** A cell's events are a single in-order filter of the input by the cell's day. */
  lemma CellKeepsInputOrder(ref: Date, events: seq<Event>, offset: int, i: int)
    requires 0 <= i < |MonthLayout(ref, events, offset)|
    ensures MonthLayout(ref, events, offset)[i].events == Select(events, OnDay(MonthCells(ref)[i]), offset)
  {
  }

  /** The in-month flag marks exactly the run of cells from the first to the last day of the month. */
  lemma InMonthFlagPositions(ref: Date, events: seq<Event>, offset: int, i: int)
    requires 0 <= i < |MonthLayout(ref, events, offset)|
    ensures var lead := StartOfMonth(ref).dayNumber - MonthCells(ref)[0].dayNumber;
      MonthLayout(ref, events, offset)[i].inMonth <==> lead <= i < lead + MonthLength(ref)
  {
    SameMonthIffWithinMonth(MonthCells(ref)[i], ref);
  }

  /** An event is listed in at most one cell. */
  lemma EventInAtMostOneCell(ref: Date, events: seq<Event>, offset: int, e: Event, i: int, j: int)
    requires 0 <= i < |MonthLayout(ref, events, offset)| && 0 <= j < |MonthLayout(ref, events, offset)|
    requires e in MonthLayout(ref, events, offset)[i].events && e in MonthLayout(ref, events, offset)[j].events
    ensures i == j
  {
  }

  /** An event is listed in some cell exactly when it is an input event starting between the first and last cell. */
  lemma EventShownIffInGrid(ref: Date, events: seq<Event>, offset: int, e: Event)
    ensures var cells := MonthLayout(ref, events, offset);
      var days := MonthCells(ref);
      (exists i :: 0 <= i < |cells| && e in cells[i].events) <==>
        e in events && days[0].dayNumber <= LocalStart(e, offset).date.dayNumber <= days[|days| - 1].dayNumber
  {
    var cells := MonthLayout(ref, events, offset);
    var days := MonthCells(ref);
    var start := LocalStart(e, offset).date;
    if e in events && days[0].dayNumber <= start.dayNumber <= days[|days| - 1].dayNumber {
      var k := start.dayNumber - days[0].dayNumber;
      assert days[k] == start;
      assert e in cells[k].events;
    }
  }

  /** Events starting outside the reference month but inside the grid still show, in an unflagged cell. */
  lemma OutOfMonthCellsHostEvents(ref: Date, events: seq<Event>, offset: int, e: Event)
    requires e in events
    requires !SameMonth(LocalStart(e, offset).date, ref)
    requires MonthCells(ref)[0].dayNumber <= LocalStart(e, offset).date.dayNumber <= MonthCells(ref)[|MonthCells(ref)| - 1].dayNumber
    ensures exists i :: (0 <= i < |MonthLayout(ref, events, offset)| &&
      !MonthLayout(ref, events, offset)[i].inMonth && e in MonthLayout(ref, events, offset)[i].events)
  {
    var days := MonthCells(ref);
    var k := LocalStart(e, offset).date.dayNumber - days[0].dayNumber;
    assert days[k] == LocalStart(e, offset).date;
    assert e in MonthLayout(ref, events, offset)[k].events;
  }

  /** Clicking a cell reports its day at midnight, as the cell's `Date` carries no time of day. */
  function CellClick(cell: Cell): (t: DateTime)
    ensures t.Valid() && t.date == cell.date && t.hour == 0 && t.minute == 0
  {
    AtHour(cell.date, 0)
  }

  /** 15 March 2024: 31 March is a Sunday, so the grid runs from 25 February to 6 April, six weeks. */
  lemma March2024Grid(ref: Date)
    requires ToCivil(ref) == Civil(2024, 3, 15)
    ensures |MonthCells(ref)| == 42
    ensures ToCivil(MonthCells(ref)[0]) == Civil(2024, 2, 25)
    ensures ToCivil(MonthCells(ref)[|MonthCells(ref)| - 1]) == Civil(2024, 4, 6)
  {
    var first := StartOfMonth(ref);
    assert first == FromCivil(Civil(2024, 3, 1));
    assert first.dayNumber == 19783;
    var last := EndOfMonth(first);
    assert last == FromCivil(Civil(2024, 3, 31));
    assert last.dayNumber == 19813;
    assert CalendarStart(ref) == Date(19778);
    assert CalendarEnd(ref) == Date(19819);
    assert FromCivil(Civil(2024, 2, 25)) == Date(19778);
    assert FromCivil(Civil(2024, 4, 6)) == Date(19819);
  }

  /** 10 February 2015: the month starts on a Sunday and ends on a Saturday, so exactly four weeks. */
  lemma February2015Grid(ref: Date)
    requires ToCivil(ref) == Civil(2015, 2, 10)
    ensures |MonthCells(ref)| == 28
    ensures ToCivil(MonthCells(ref)[0]) == Civil(2015, 2, 1)
    ensures ToCivil(MonthCells(ref)[|MonthCells(ref)| - 1]) == Civil(2015, 2, 28)
  {
    var first := StartOfMonth(ref);
    assert first == FromCivil(Civil(2015, 2, 1));
    assert first.dayNumber == 16467;
    var last := EndOfMonth(first);
    assert last == FromCivil(Civil(2015, 2, 28));
    assert last.dayNumber == 16494;
    assert CalendarStart(ref) == first;
    assert CalendarEnd(ref) == last;
  }
}
