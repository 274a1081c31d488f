/**
 * Wall-clock date-times at minute granularity and absolute instants.
 *
 * An instant is a count of milliseconds since 1970-01-01T00:00Z, the value a JavaScript
 * `Date` holds. The browser's time zone is a fixed offset in minutes east of UTC.
 * `ToLocal` reads an instant on the local wall clock, dropping seconds and milliseconds
 * (the `yyyy-MM-dd'T'HH:mm` form of a datetime-local field), and `FromLocal` turns
 * such a wall-clock value back into an instant (`new Date(value).toISOString()`).
 */
module LocalTime {
  import opened CivilDate

  datatype DateTime = DateTime(date: Date, hour: int, minute: int) {
    predicate Valid() {
      0 <= hour < 24 && 0 <= minute < 60
    }
  }

  datatype Instant = Instant(millis: int)

  /** Minutes since 1970-01-01T00:00 on the same wall clock. */
  function MinuteNumber(t: DateTime): int {
    t.date.dayNumber * 1440 + t.hour * 60 + t.minute
  }

  /** The wall-clock date-time `n` minutes after 1970-01-01T00:00. */
  function FromMinuteNumber(n: int): (t: DateTime)
    ensures t.Valid()
    ensures MinuteNumber(t) == n
  {
    var rest := n % 1440;
    DateTime(Date(n / 1440), rest / 60, rest % 60)
  }

  /** A valid date-time is determined by its minute number. */
  lemma {:induction false} MinuteNumberRoundTrip(t: DateTime)
    requires t.Valid()
    ensures FromMinuteNumber(MinuteNumber(t)) == t
  {
    var n := MinuteNumber(t);
    var inDay := t.hour * 60 + t.minute;
    assert n / 1440 == t.date.dayNumber && n % 1440 == inDay;
    assert inDay / 60 == t.hour && inDay % 60 == t.minute;
  }

  /** The instant read on the local wall clock of a zone `offset` minutes east of UTC. */
  function ToLocal(i: Instant, offset: int): (t: DateTime)
    ensures t.Valid()
    ensures MinuteNumber(t) == i.millis / 60000 + offset
  {
    FromMinuteNumber(i.millis / 60000 + offset)
  }

  /** The instant a local wall-clock value denotes. */
  function FromLocal(t: DateTime, offset: int): (i: Instant)
    ensures i.millis % 60000 == 0
    ensures i.millis / 60000 + offset == MinuteNumber(t)
  {
    Instant((MinuteNumber(t) - offset) * 60000)
  }

  /** An instant with its seconds and milliseconds dropped. */
  function TruncateToMinute(i: Instant): (r: Instant)
    ensures r.millis % 60000 == 0
    ensures r.millis <= i.millis < r.millis + 60000
  {
    Instant(i.millis / 60000 * 60000)
  }

  /** Reading back the instant of a valid wall-clock value gives that value. */
  lemma {:induction false} LocalRoundTrip(t: DateTime, offset: int)
    requires t.Valid()
    ensures ToLocal(FromLocal(t, offset), offset) == t
  {
    MinuteNumberRoundTrip(t);
  }

  /** Converting an instant to wall-clock form and back loses only what lies below the minute. */
  lemma {:induction false} InstantRoundTrip(i: Instant, offset: int)
    ensures FromLocal(ToLocal(i, offset), offset) == TruncateToMinute(i)
  {
  }

  /** `setHours(hour, 0)` applied to a day: the same calendar day at `hour`:00. */
  function AtHour(d: Date, hour: int): (t: DateTime)
    requires 0 <= hour < 24
    ensures t.Valid() && t.date == d && t.hour == hour && t.minute == 0
  {
    DateTime(d, hour, 0)
  }
}
