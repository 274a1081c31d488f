/**
 * The day view (src/components/DayView.tsx): the events whose local start falls on the
 * reference date, spread over 24 hour rows by their local start hour.
 */
module DayView {
  import opened Wrappers
  import opened CivilDate
  import opened LocalTime
  import opened Events

  /** `dayEvents`: the events starting on the reference date, in input order. */
  function DayEvents(ref: Date, events: seq<Event>, offset: int): (r: seq<Event>)
    ensures forall e :: e in r <==> e in events && LocalStart(e, offset).date == ref
  {
    Select(events, OnDay(ref), offset)
  }

  /** The day's events keep input order: those of a concatenation are those of each part in turn. */
  lemma {:induction false} DayEventsAppend(ref: Date, a: seq<Event>, b: seq<Event>, offset: int)
    ensures DayEvents(ref, a + b, offset) == DayEvents(ref, a, offset) + DayEvents(ref, b, offset)
  {
    SelectAppend(a, b, OnDay(ref), offset);
  }

  /** The day's events hold each event starting on the reference date as often as the input does, and no other. */
  lemma {:induction false} DayEventsCount(ref: Date, events: seq<Event>, offset: int, e: Event)
    ensures multiset(DayEvents(ref, events, offset))[e] ==
      if LocalStart(e, offset).date == ref then multiset(events)[e] else 0
  {
    SelectCount(events, OnDay(ref), offset, e);
  }

  /** One hour row of the view and the events drawn in it. */
  datatype Row = Row(hour: int, events: seq<Event>)

  /** The view as rendered: row `h` holds the day's events that start in hour `h`. */
  function DayLayout(ref: Date, events: seq<Event>, offset: int): (rows: seq<Row>)
    ensures |rows| == 24
    ensures forall h :: 0 <= h < 24 ==> rows[h].hour == h
  {
    var hours := HourRows();
    var shown := DayEvents(ref, events, offset);
    seq(24, h requires 0 <= h < 24 => Row(hours[h], Select(shown, InHour(hours[h]), offset)))
  }

  /** An event is in row `h` exactly when it starts on the reference date in hour `h`. */
  lemma RowMembership(ref: Date, events: seq<Event>, offset: int, e: Event, h: int)
    requires 0 <= h < 24
    ensures e in DayLayout(ref, events, offset)[h].events <==>
      e in events && LocalStart(e, offset).date == ref && LocalStart(e, offset).hour == h
  {
  }

  /** Each event of the day is in exactly one row: the row of its start hour. */
  lemma ShownEventInExactlyOneRow(ref: Date, events: seq<Event>, offset: int, e: Event)
    requires e in DayEvents(ref, events, offset)
    ensures var h := LocalStart(e, offset).hour;
      0 <= h < 24 && e in DayLayout(ref, events, offset)[h].events
    ensures forall h :: 0 <= h < 24 && e in DayLayout(ref, events, offset)[h].events ==>
      h == LocalStart(e, offset).hour
  {
  }

  /** The rows list the day's events in input order, each row being a single filter of the input. */
  lemma RowKeepsInputOrder(ref: Date, events: seq<Event>, offset: int, h: int)
    requires 0 <= h < 24
    ensures DayLayout(ref, events, offset)[h].events == Select(events, InSlot(ref, h), offset)
  {
    SelectDayThenHour(events, ref, h, offset);
  }

  /**
   * Clicking row `h` reports the reference date at `h`:00. The source sets the hours of
   * the reference date in place; only its time of day changes.
   */
  function RowClick(ref: Date, h: int): (t: DateTime)
    requires 0 <= h < 24
    ensures t.Valid() && t.date == ref && t.hour == h && t.minute == 0
  {
    AtHour(ref, h)
  }

  /** `event.description && ...`: the description block is drawn only for a non-empty description. */
  predicate ShowsDescription(e: Event)
    ensures ShowsDescription(e) <==> e.description != None && e.description != Some("")
  {
    e.description.Some? && e.description.value != ""
  }
}
