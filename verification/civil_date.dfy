/**
 * Proleptic-Gregorian civil dates and the date-fns primitives the calendar views use:
 * a day-number conversion (days since 1970-01-01), day of the week with Sunday first,
 * startOfMonth / endOfMonth, startOfWeek / endOfWeek (weeks start on Sunday),
 * addDays and addMonths (which clamps the day of the month).
 *
 * Day numbers are computed through "March-based" years: the shifted year Y runs from
 * 1 March of Y to the end of February of Y + 1, so the leap day is the last day of it.
 */
module CivilDate {

  datatype Civil = Civil(year: int, month: int, day: int) {
    predicate Valid() {
      1 <= month <= 12 && 1 <= day <= DaysInMonth(year, month)
    }
  }

  predicate IsLeapYear(y: int) {
    y % 4 == 0 && (y % 100 != 0 || y % 400 == 0)
  }

  function DaysInMonth(y: int, m: int): (n: int)
    requires 1 <= m <= 12
    ensures 28 <= n <= 31
    ensures n == 29 <==> m == 2 && IsLeapYear(y)
  {
    if m == 2 then (if IsLeapYear(y) then 29 else 28)
    else if m == 4 || m == 6 || m == 9 || m == 11 then 30
    else 31
  }

  /** Days from 1 March to the first day of month `mp`, months counted from March = 0. */
  function DaysBeforeMarchMonth(mp: int): int
    requires 0 <= mp < 12
  {
    if mp == 0 then 0 else if mp == 1 then 31 else if mp == 2 then 61
    else if mp == 3 then 92 else if mp == 4 then 122 else if mp == 5 then 153
    else if mp == 6 then 184 else if mp == 7 then 214 else if mp == 8 then 245
    else if mp == 9 then 275 else if mp == 10 then 306 else 337
  }

  /** The civil month (1..12) of March-based month `mp`. */
  function CivilMonth(mp: int): int
    requires 0 <= mp < 12
  {
    if mp < 10 then mp + 3 else mp - 9
  }

  /** The March-based month (0..11) of civil month `m`. */
  function MarchMonth(m: int): (mp: int)
    requires 1 <= m <= 12
    ensures 0 <= mp < 12 && CivilMonth(mp) == m
  {
    if m >= 3 then m - 3 else m + 9
  }

  /** The month lengths, read from the table of month starts. */
  lemma MarchMonthLength(mp: int, y: int)
    requires 0 <= mp < 12
    ensures mp < 11 ==> DaysBeforeMarchMonth(mp + 1) - DaysBeforeMarchMonth(mp) == DaysInMonth(y, CivilMonth(mp))
    ensures mp == 11 ==> DaysBeforeMarchMonth(mp) + DaysInMonth(y, 2) == if IsLeapYear(y) then 366 else 365
  {
  }

  /** The shifted (March-based) year of a date: January and February belong to the year before. */
  function ShiftedYear(d: Civil): int {
    if d.month <= 2 then d.year - 1 else d.year
  }

  /** Days from 0000-03-01 to 1 March of shifted year `y`. */
  function YearStart(y: int): int {
    365 * y + y / 4 - y / 100 + y / 400
  }

  /** Days from 0000-03-01 to 1970-01-01. */
  const EpochShift := 719468

  lemma YearStartApprox(y: int)
    ensures -699 <= 400 * YearStart(y) - 146097 * y <= 396
  {
  }

  lemma YearLength(y: int)
    ensures YearStart(y + 1) - YearStart(y) == if IsLeapYear(y + 1) then 366 else 365
  {
    DivStep(y, 4);
    DivStep(y, 100);
    DivStep(y, 400);
  }

  /** Floor division by `c` steps up exactly when the next number is a multiple of `c`. */
  lemma DivStep(y: int, c: int)
    requires c == 4 || c == 100 || c == 400
    ensures (y + 1) / c == y / c + (if (y + 1) % c == 0 then 1 else 0)
  {
    var q := y / c;
    var r := y % c;
    assert y == c * q + r && 0 <= r < c;
    if r == c - 1 {
      assert y + 1 == c * (q + 1) + 0;
    } else {
      assert y + 1 == c * q + (r + 1);
    }
  }

  lemma YearStartMonotone(a: int, b: int)
    requires a < b
    ensures YearStart(a + 1) <= YearStart(b)
  {
    YearStartApprox(a + 1);
    YearStartApprox(b);
  }

  /** The shifted year containing day `z` (counted from 0000-03-01). */
  function ShiftedYearOf(z: int): (y: int)
    ensures YearStart(y) <= z < YearStart(y + 1)
  {
    var y0 := (400 * z) / 146097;
    YearStartApprox(y0 - 1);
    YearStartApprox(y0 + 2);
    YearLength(y0 - 1);
    YearLength(y0);
    YearLength(y0 + 1);
    if z < YearStart(y0) then y0 - 1
    else if z < YearStart(y0 + 1) then y0
    else y0 + 1
  }

  lemma ShiftedYearUnique(z: int, a: int, b: int)
    requires YearStart(a) <= z < YearStart(a + 1)
    requires YearStart(b) <= z < YearStart(b + 1)
    ensures a == b
  {
    if a < b {
      YearStartMonotone(a, b);
    } else if b < a {
      YearStartMonotone(b, a);
    }
  }

  /** The March-based month containing day `doy` of a shifted year. */
  function MarchMonthOf(doy: int): (mp: int)
    requires 0 <= doy < 366
    ensures 0 <= mp < 12
    ensures DaysBeforeMarchMonth(mp) <= doy
    ensures mp < 11 ==> doy < DaysBeforeMarchMonth(mp + 1)
  {
    if doy < 31 then 0 else if doy < 61 then 1 else if doy < 92 then 2
    else if doy < 122 then 3 else if doy < 153 then 4 else if doy < 184 then 5
    else if doy < 214 then 6 else if doy < 245 then 7 else if doy < 275 then 8
    else if doy < 306 then 9 else if doy < 337 then 10 else 11
  }

  lemma MarchMonthUnique(doy: int, a: int, b: int)
    requires 0 <= a < 12 && 0 <= b < 12
    requires DaysBeforeMarchMonth(a) <= doy && (a < 11 ==> doy < DaysBeforeMarchMonth(a + 1))
    requires DaysBeforeMarchMonth(b) <= doy && (b < 11 ==> doy < DaysBeforeMarchMonth(b + 1))
    ensures a == b
  {
  }

  /** Day of the shifted year (0 = 1 March). */
  function DayOfShiftedYear(d: Civil): (doy: int)
    requires d.Valid()
    ensures 0 <= doy < YearStart(ShiftedYear(d) + 1) - YearStart(ShiftedYear(d))
  {
    var mp := MarchMonth(d.month);
    MarchMonthLength(mp, d.year);
    YearLength(ShiftedYear(d));
    DaysBeforeMarchMonth(mp) + d.day - 1
  }

  /** Days since 1970-01-01 (negative before it); the value date-fns compares dates by. */
  function DaysFromCivil(d: Civil): int
    requires d.Valid()
  {
    YearStart(ShiftedYear(d)) + DayOfShiftedYear(d) - EpochShift
  }

  /** The date on day `doy` of shifted year `y`. */
  function FromShiftedYear(y: int, doy: int): (d: Civil)
    requires 0 <= doy < YearStart(y + 1) - YearStart(y)
    ensures d.Valid()
    ensures ShiftedYear(d) == y && DayOfShiftedYear(d) == doy
  {
    YearLength(y);
    var mp := MarchMonthOf(doy);
    var civilYear := if mp < 10 then y else y + 1;
    MarchMonthLength(mp, civilYear);
    Civil(civilYear, CivilMonth(mp), doy - DaysBeforeMarchMonth(mp) + 1)
  }

  /** A date is determined by its shifted year and its day in that year. */
  lemma {:induction false} FromShiftedYearOfCivil(d: Civil)
    requires d.Valid()
    ensures FromShiftedYear(ShiftedYear(d), DayOfShiftedYear(d)) == d
  {
    var doy := DayOfShiftedYear(d);
    var mp := MarchMonth(d.month);
    MarchMonthLength(mp, d.year);
    MarchMonthUnique(doy, MarchMonthOf(doy), mp);
  }

  /** The date with day number `n`. */
  function CivilFromDays(n: int): (d: Civil)
    ensures d.Valid()
    ensures DaysFromCivil(d) == n
  {
    var z := n + EpochShift;
    var y := ShiftedYearOf(z);
    FromShiftedYear(y, z - YearStart(y))
  }

  /** Any shifted year whose span holds day `n` is the one CivilFromDays picks. */
  lemma CivilFromDaysInYear(n: int, y: int)
    requires YearStart(y) <= n + EpochShift < YearStart(y + 1)
    ensures CivilFromDays(n) == FromShiftedYear(y, n + EpochShift - YearStart(y))
  {
    ShiftedYearUnique(n + EpochShift, ShiftedYearOf(n + EpochShift), y);
  }

  /** Every valid date is recovered from its day number. */
  lemma {:induction false} CivilRoundTrip(d: Civil)
    requires d.Valid()
    ensures CivilFromDays(DaysFromCivil(d)) == d
  {
    CivilFromDaysInYear(DaysFromCivil(d), ShiftedYear(d));
    FromShiftedYearOfCivil(d);
  }

  /** Distinct valid dates have distinct day numbers. */
  lemma DaysFromCivilInjective(a: Civil, b: Civil)
    requires a.Valid() && b.Valid()
    ensures DaysFromCivil(a) == DaysFromCivil(b) <==> a == b
  {
    if DaysFromCivil(a) == DaysFromCivil(b) {
      CivilRoundTrip(a);
      CivilRoundTrip(b);
    }
  }


  /** Within one month, day numbers advance with the day of the month. */
  lemma DaysFromCivilInMonth(c: Civil)
    requires c.Valid()
    ensures DaysFromCivil(c) == DaysFromCivil(Civil(c.year, c.month, 1)) + c.day - 1
  {
  }

  /**
   * A calendar day, identified by its day number (days since 1970-01-01). This is the
   * quantity date-fns compares and steps; the year, month and day of the month are read
   * through `ToCivil`.
   */
  datatype Date = Date(dayNumber: int)

  /**
   * The year-month-day triple of a day: the one valid triple naming it. `CivilFromDays`
   * computes it; defining it by its property keeps that computation out of every proof
   * about days that only needs the property.
   */
  function ToCivil(d: Date): (c: Civil)
    ensures c.Valid()
    ensures DaysFromCivil(c) == d.dayNumber
  {
    CivilFromDaysNames(d.dayNumber);
    forall a: Civil, b: Civil | a.Valid() && b.Valid() && DaysFromCivil(a) == d.dayNumber && DaysFromCivil(b) == d.dayNumber
      ensures a == b
    {
      DaysFromCivilInjective(a, b);
    }
    var c: Civil :| c.Valid() && DaysFromCivil(c) == d.dayNumber;
    c
  }

  /** Some valid triple names each day: the one `CivilFromDays` computes. */
  lemma CivilFromDaysNames(n: int)
    ensures exists c: Civil :: c.Valid() && DaysFromCivil(c) == n
  {
    var c := CivilFromDays(n);
    assert c.Valid() && DaysFromCivil(c) == n;
  }

  /** `ToCivil` is the computation `CivilFromDays`. */
  lemma ToCivilComputed(d: Date)
    ensures ToCivil(d) == CivilFromDays(d.dayNumber)
  {
    DaysFromCivilInjective(ToCivil(d), CivilFromDays(d.dayNumber));
  }

  /** The day a valid year-month-day triple names. */
  function FromCivil(c: Civil): (d: Date)
    requires c.Valid()
    ensures ToCivil(d) == c
  {
    var d := Date(DaysFromCivil(c));
    DaysFromCivilInjective(ToCivil(d), c);
    d
  }

  /** Reading a day's civil triple and naming it again gives back the day. */
  lemma CivilOfDateRoundTrip(d: Date)
    ensures FromCivil(ToCivil(d)) == d
  {
  }

  const Sunday := 0
  const Saturday := 6

  /** Day of the week, 0 = Sunday .. 6 = Saturday (1970-01-01 was a Thursday). */
  function Weekday(d: Date): (w: int)
    ensures 0 <= w < 7
  {
    (d.dayNumber + 4) % 7
  }

  /** date-fns `addDays`: the day `k` days later (earlier for negative `k`). */
  function AddDays(d: Date, k: int): (r: Date)
    ensures r.dayNumber - d.dayNumber == k
    ensures Weekday(r) == (Weekday(d) + k) % 7
  {
    Date(d.dayNumber + k)
  }

  lemma ShiftMod7(x: int, q: int)
    ensures (x + 7 * q) % 7 == x % 7
  {
    var a := x / 7;
    assert x == 7 * a + x % 7;
    assert x + 7 * q == 7 * (a + q) + x % 7;
  }

  /** date-fns `addWeeks`: whole weeks keep the day of the week. */
  function AddWeeks(d: Date, k: int): (r: Date)
    ensures Weekday(r) == Weekday(d)
    ensures r.dayNumber - d.dayNumber == 7 * k
  {
    ShiftMod7(d.dayNumber + 4, k);
    AddDays(d, 7 * k)
  }

  /** Adding then subtracting the same number of days restores the day. */
  lemma AddDaysInverse(d: Date, k: int)
    ensures AddDays(AddDays(d, k), -k) == d
  {
  }

  /** date-fns `startOfWeek` with weeks starting on Sunday: the Sunday on or before `d`. */
  function StartOfWeek(d: Date): (r: Date)
    ensures Weekday(r) == Sunday
    ensures r.dayNumber <= d.dayNumber < r.dayNumber + 7
  {
    var x := d.dayNumber + 4;
    assert x - x % 7 == 7 * (x / 7) + 0;
    ShiftMod7(0, x / 7);
    AddDays(d, Sunday - Weekday(d))
  }

  /** date-fns `endOfWeek` with weeks starting on Sunday: the Saturday on or after `d`. */
  function EndOfWeek(d: Date): (r: Date)
    ensures Weekday(r) == Saturday
    ensures r.dayNumber - 7 < d.dayNumber <= r.dayNumber
  {
    var x := d.dayNumber + 4;
    assert x - x % 7 + 6 == 7 * (x / 7) + 6;
    ShiftMod7(6, x / 7);
    AddDays(d, Saturday - Weekday(d))
  }

  /** Two Sundays less than a week apart are the same day. */
  lemma SundaysAWeekApart(a: Date, b: Date)
    requires Weekday(a) == Sunday && Weekday(b) == Sunday
    requires -7 < a.dayNumber - b.dayNumber < 7
    ensures a == b
  {
    assert a.dayNumber + 4 == 7 * ((a.dayNumber + 4) / 7);
    assert b.dayNumber + 4 == 7 * ((b.dayNumber + 4) / 7);
  }

  /** The Sunday of a week is the start of the week of each of its seven days. */
  lemma StartOfWeekUnique(d: Date, s: Date)
    requires Weekday(s) == Sunday
    requires s.dayNumber <= d.dayNumber < s.dayNumber + 7
    ensures StartOfWeek(d) == s
  {
    SundaysAWeekApart(StartOfWeek(d), s);
  }

  /** date-fns `isSameMonth`. */
  predicate SameMonth(a: Date, b: Date) {
    ToCivil(a).year == ToCivil(b).year && ToCivil(a).month == ToCivil(b).month
  }

  /** The number of days in the month of `d`. */
  function MonthLength(d: Date): (n: int)
    ensures 28 <= n <= 31
  {
    DaysInMonth(ToCivil(d).year, ToCivil(d).month)
  }

  /** date-fns `startOfMonth`. */
  function StartOfMonth(d: Date): (r: Date)
    ensures SameMonth(r, d) && ToCivil(r).day == 1
    ensures r.dayNumber == d.dayNumber - (ToCivil(d).day - 1)
  {
    var c := ToCivil(d);
    DaysFromCivilInMonth(c);
    FromCivil(Civil(c.year, c.month, 1))
  }

  /** date-fns `endOfMonth`. */
  function EndOfMonth(d: Date): (r: Date)
    ensures SameMonth(r, d) && ToCivil(r).day == MonthLength(d)
    ensures r.dayNumber == StartOfMonth(d).dayNumber + MonthLength(d) - 1
  {
    var c := ToCivil(d);
    var last := Civil(c.year, c.month, DaysInMonth(c.year, c.month));
    DaysFromCivilInMonth(last);
    FromCivil(last)
  }

  /** A month is exactly the run of days from its first to its last day. */
  lemma {:induction false} SameMonthIffWithinMonth(x: Date, d: Date)
    ensures SameMonth(x, d) <==> StartOfMonth(d).dayNumber <= x.dayNumber <= EndOfMonth(d).dayNumber
  {
    var c := ToCivil(d);
    var cx := ToCivil(x);
    var first := StartOfMonth(d).dayNumber;
    if SameMonth(x, d) {
      DaysFromCivilInMonth(cx);
    }
    if first <= x.dayNumber <= EndOfMonth(d).dayNumber {
      var k := x.dayNumber - first + 1;
      var named := Civil(c.year, c.month, k);
      DaysFromCivilInMonth(named);
      DaysFromCivilInjective(named, cx);
    }
  }

  /** Months since January of year 0: the quantity addMonths shifts. */
  function MonthIndex(c: Civil): int {
    12 * c.year + c.month - 1
  }

  function Min(a: int, b: int): int {
    if a <= b then a else b
  }

  /**
   * date-fns `addMonths`: the same day of the month `k` months later, clamped to the
   * last day of the target month when that month is shorter.
   */
  function AddMonths(d: Date, k: int): (r: Date)
    ensures MonthIndex(ToCivil(r)) == MonthIndex(ToCivil(d)) + k
    ensures ToCivil(r).day == Min(ToCivil(d).day, MonthLength(r))
  {
    var c := ToCivil(d);
    var target := MonthIndex(c) + k;
    var y := target / 12;
    var m := target % 12 + 1;
    FromCivil(Civil(y, m, Min(c.day, DaysInMonth(y, m))))
  }
}
