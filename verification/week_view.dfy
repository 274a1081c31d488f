/**
 * The week view (src/components/WeekView.tsx): seven day columns from the Sunday on or
 * before the reference date, 24 hour rows, and in the slot of day `d` and hour `h` the
 * events whose local start falls on `d` in hour `h`.
 */
module WeekView {
  import opened CivilDate
  import opened LocalTime
  import opened Events
  import opened MonthGrid

  /** `Array.from({ length: 7 }, (_, i) => addDays(weekStart, i))`. */
  function WeekColumns(ref: Date): (days: seq<Date>)
    ensures |days| == 7
    ensures Weekday(days[0]) == Sunday
    ensures days[0].dayNumber <= ref.dayNumber < days[0].dayNumber + 7
    ensures forall i :: 0 <= i < 7 ==> days[i].dayNumber == days[0].dayNumber + i
  {
    DaysFrom(StartOfWeek(ref), 7)
  }

  /** The reference date is a column, at the position of its day of the week. */
  lemma ReferenceDateIsColumn(ref: Date)
    ensures WeekColumns(ref)[Weekday(ref)] == ref
  {
    var days := WeekColumns(ref);
    var k := ref.dayNumber - days[0].dayNumber;
    var x := days[0].dayNumber + 4;
    assert x % 7 == 0;
    assert (x + k) % 7 == k by {
      assert x + k == 7 * (x / 7) + k;
    }
  }

  /** A grid of whole weeks holding position `k` in the week-row `row` holds that whole row. */
  lemma RowWithinGrid(k: int, row: int, n: int)
    requires 0 <= k < n && (n == 28 || n == 35 || n == 42)
    requires 7 * row <= k < 7 * row + 7
    ensures 0 <= row && 7 * row + 7 <= n
  {
  }

  /** The week's columns are the row of the month grid that holds the reference date. */
  lemma WeekIsMonthGridRow(ref: Date, row: int)
    requires 7 * row <= ref.dayNumber - MonthCells(ref)[0].dayNumber < 7 * row + 7
    ensures var cells := MonthCells(ref);
      0 <= row && 7 * row + 7 <= |cells| && WeekColumns(ref) == cells[7 * row .. 7 * row + 7]
  {
    var cells := MonthCells(ref);
    var k := ref.dayNumber - cells[0].dayNumber;
    MonthCellsCoverMonth(ref, ref);
    RowWithinGrid(k, row, |cells|);
    var sunday := cells[7 * row];
    assert sunday == AddWeeks(cells[0], row);
    StartOfWeekUnique(ref, sunday);
    var days := WeekColumns(ref);
    assert forall i :: 0 <= i < 7 ==> days[i] == cells[7 * row + i];
  }

  /** One slot of the grid: a day column at an hour row, with the events shown in it. */
  datatype Slot = Slot(date: Date, hour: int, events: seq<Event>)

  /** The events of slot (`day`, `hour`): the day's events, then those starting in `hour`. */
  function SlotEvents(events: seq<Event>, day: Date, hour: int, offset: int): (r: seq<Event>)
    ensures forall e :: e in r <==>
      e in events && LocalStart(e, offset).date == day && LocalStart(e, offset).hour == hour
  {
    Select(Select(events, OnDay(day), offset), InHour(hour), offset)
  }

  /** The grid as rendered: row `h` holds the seven slots of hour `h`, one per column. */
  function WeekLayout(ref: Date, events: seq<Event>, offset: int): (rows: seq<seq<Slot>>)
    ensures |rows| == 24
    ensures forall h :: 0 <= h < 24 ==> |rows[h]| == 7
    ensures forall h, c :: 0 <= h < 24 && 0 <= c < 7 ==>
      rows[h][c].date == WeekColumns(ref)[c] && rows[h][c].hour == h
  {
    var days := WeekColumns(ref);
    var hours := HourRows();
    seq(24, h requires 0 <= h < 24 =>
      seq(7, c requires 0 <= c < 7 =>
        Slot(days[c], hours[h], SlotEvents(events, days[c], hours[h], offset))))
  }

  /** An event is in slot (`h`, `c`) exactly when it starts on that column's day in hour `h`. */
  lemma SlotMembership(ref: Date, events: seq<Event>, offset: int, e: Event, h: int, c: int)
    requires 0 <= h < 24 && 0 <= c < 7
    ensures e in WeekLayout(ref, events, offset)[h][c].events <==>
      e in events && LocalStart(e, offset).date == WeekColumns(ref)[c] && LocalStart(e, offset).hour == h
  {
  }

  /** An event is listed in at most one slot. */
  lemma EventInAtMostOneSlot(ref: Date, events: seq<Event>, offset: int, e: Event, h1: int, c1: int, h2: int, c2: int)
    requires 0 <= h1 < 24 && 0 <= c1 < 7 && 0 <= h2 < 24 && 0 <= c2 < 7
    requires e in WeekLayout(ref, events, offset)[h1][c1].events
    requires e in WeekLayout(ref, events, offset)[h2][c2].events
    ensures h1 == h2 && c1 == c2
  {
    var days := WeekColumns(ref);
    assert days[c1].dayNumber == days[0].dayNumber + c1;
    assert days[c2].dayNumber == days[0].dayNumber + c2;
  }

  /** An event is listed somewhere exactly when it is an input event starting within the week. */
  lemma EventShownIffInWeek(ref: Date, events: seq<Event>, offset: int, e: Event)
    ensures var rows := WeekLayout(ref, events, offset);
      var first := WeekColumns(ref)[0].dayNumber;
      (exists h, c :: 0 <= h < 24 && 0 <= c < 7 && e in rows[h][c].events) <==>
        e in events && first <= LocalStart(e, offset).date.dayNumber < first + 7
  {
    var rows := WeekLayout(ref, events, offset);
    var days := WeekColumns(ref);
    var start := LocalStart(e, offset);
    if e in events && days[0].dayNumber <= start.date.dayNumber < days[0].dayNumber + 7 {
      var c := start.date.dayNumber - days[0].dayNumber;
      var slot: Slot := rows[start.hour][c];
      assert days[c] == start.date;
      assert e in slot.events;
    }
  }

  /** A slot lists its events in input order: it is a single filter of the event list. */
  lemma SlotKeepsInputOrder(ref: Date, events: seq<Event>, offset: int, h: int, c: int)
    requires 0 <= h < 24 && 0 <= c < 7
    ensures WeekLayout(ref, events, offset)[h][c].events == Select(events, InSlot(WeekColumns(ref)[c], h), offset)
  {
    SelectDayThenHour(events, WeekColumns(ref)[c], h, offset);
  }

  /** Clicking a slot reports its day at its hour, minute 0. */
  function SlotClick(slot: Slot): (t: DateTime)
    requires 0 <= slot.hour < 24
    ensures t.Valid() && t.date == slot.date && t.hour == slot.hour && t.minute == 0
  {
    AtHour(slot.date, slot.hour)
  }

  /** Friday 15 March 2024 is day 19797. */
  lemma FifteenthOfMarch2024(ref: Date)
    requires ToCivil(ref) == Civil(2024, 3, 15)
    ensures ref == Date(19797) && Weekday(ref) == 5
  {
    assert ref == FromCivil(Civil(2024, 3, 15));
  }

  /** 2024-03-15T14:00Z is 14:00 on day 19797 on a UTC wall clock. */
  lemma FridayAfternoonStart(e: Event)
    requires e.startTime == Instant(1710511200000)
    ensures LocalStart(e, 0) == DateTime(Date(19797), 14, 0)
  {
    var t := DateTime(Date(19797), 14, 0);
    MinuteNumberRoundTrip(t);
    assert e.startTime.millis / 60000 == 28508520 == MinuteNumber(t);
  }

  /**
   * An event starting at 2024-03-15T14:00Z, on a UTC wall clock, is drawn in the week of
   * Friday 15 March 2024 in hour row 14 of the Friday column (column 5).
   */
  lemma FridayAfternoonSlot(ref: Date, events: seq<Event>, e: Event)
    requires ToCivil(ref) == Civil(2024, 3, 15)
    requires e in events && e.startTime == Instant(1710511200000)
    ensures e in WeekLayout(ref, events, 0)[14][5].events
  {
    FifteenthOfMarch2024(ref);
    FridayAfternoonStart(e);
    ReferenceDateIsColumn(ref);
    SlotMembership(ref, events, 0, e, 14, 5);
  }
}
