/**
 * Calendar events as the store returns them, and the filter every view uses to pick
 * the events of one cell: `events.filter(...)` on the event's local start date
 * (`isSameDay(new Date(event.start_time), day)`) or on its local start hour
 * (`new Date(event.start_time).getHours() === hour`).
 */
module Events {
  import opened Wrappers
  import opened CivilDate
  import opened LocalTime

  datatype Event = Event(
    id: string,
    title: string,
    description: Option<string>,
    startTime: Instant,
    endTime: Instant,
    color: Option<string>)

  /** The event's start read on the local wall clock of a zone `offset` minutes east of UTC. */
  function LocalStart(e: Event, offset: int): (t: DateTime)
    ensures t.Valid()
  {
    ToLocal(e.startTime, offset)
  }

  /** `event.color || "#1a73e8"`: the colour an event is drawn in. */
  const DefaultColor := "#1a73e8"

  function DisplayColor(e: Event): (c: string)
    ensures c != ""
    ensures c == DefaultColor <==> e.color.None? || e.color.value == "" || e.color.value == DefaultColor
    ensures c != DefaultColor ==> e.color == Some(c)
  {
    match e.color
    case Some(c) => if c != "" then c else DefaultColor
    case None => DefaultColor
  }

  /** The hour rows of the week and day views: `Array.from({ length: 24 }, (_, i) => i)`. */
  function HourRows(): (hours: seq<int>)
    ensures |hours| == 24
    ensures forall i :: 0 <= i < 24 ==> hours[i] == i
  {
    seq(24, i => i)
  }

  /**
   * What a cell asks of an event: a start on a given day, a start in a given hour, or
   * both at once (one slot of the week view).
   */
  datatype Criterion = OnDay(date: Date) | InHour(hour: int) | InSlot(slotDate: Date, slotHour: int)

  predicate Matches(e: Event, c: Criterion, offset: int) {
    match c
    case OnDay(d) => LocalStart(e, offset).date == d
    case InHour(h) => LocalStart(e, offset).hour == h
    case InSlot(d, h) => LocalStart(e, offset).date == d && LocalStart(e, offset).hour == h
  }

  /** `events.filter(...)`: the events meeting `c`, in input order. */
  function Select(events: seq<Event>, c: Criterion, offset: int): (r: seq<Event>)
    ensures |r| <= |events|
    ensures forall e :: e in r <==> e in events && Matches(e, c, offset)
  {
    if |events| == 0 then []
    else
      var rest := Select(events[1..], c, offset);
      assert forall e :: e in events <==> e == events[0] || e in events[1..];
      if Matches(events[0], c, offset) then [events[0]] + rest else rest
  }

  /** Filtering distributes over concatenation: the filter keeps the input order. */
  lemma {:induction false} SelectAppend(a: seq<Event>, b: seq<Event>, c: Criterion, offset: int)
    ensures Select(a + b, c, offset) == Select(a, c, offset) + Select(b, c, offset)
  {
    if |a| == 0 {
      assert a + b == b;
    } else {
      assert (a + b)[1..] == a[1..] + b;
      SelectAppend(a[1..], b, c, offset);
    }
  }

  /** Each occurrence of a matching event is kept, and no other. */
  lemma {:induction false} SelectCount(events: seq<Event>, c: Criterion, offset: int, e: Event)
    ensures multiset(Select(events, c, offset))[e] == if Matches(e, c, offset) then multiset(events)[e] else 0
  {
    if |events| != 0 {
      SelectCount(events[1..], c, offset, e);
      assert events == [events[0]] + events[1..];
    }
  }

  /** Events in ascending order of start instant, the order in which the store lists them. */
  predicate SortedByStart(events: seq<Event>) {
    forall i, j :: 0 <= i < j < |events| ==> events[i].startTime.millis <= events[j].startTime.millis
  }

  /** The events of a cell of a sorted list are sorted too. */
  lemma {:induction false} SelectSorted(events: seq<Event>, c: Criterion, offset: int)
    requires SortedByStart(events)
    ensures SortedByStart(Select(events, c, offset))
  {
    if |events| != 0 {
      var rest := Select(events[1..], c, offset);
      SelectSorted(events[1..], c, offset);
      if Matches(events[0], c, offset) {
        forall j | 0 <= j < |rest|
          ensures events[0].startTime.millis <= rest[j].startTime.millis
        {
          assert rest[j] in events[1..];
        }
      }
    }
  }

  /**
   * Filtering by day and then by hour, as the hourly views do, is one filter by the slot:
   * the slot lists its events in input order.
   */
  lemma {:induction false} SelectDayThenHour(events: seq<Event>, d: Date, h: int, offset: int)
    ensures Select(Select(events, OnDay(d), offset), InHour(h), offset) == Select(events, InSlot(d, h), offset)
  {
    if |events| != 0 {
      SelectDayThenHour(events[1..], d, h, offset);
    }
  }
}
