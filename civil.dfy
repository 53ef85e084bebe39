/**
 * Naive (zone-less) dates, times and datetimes as Python's `datetime` module
 * handles them: civil records, the proleptic Gregorian day count behind
 * `toordinal()`, the microsecond timeline that `datetime` subtraction and
 * `timedelta.total_seconds()` measure, the tuple comparison behind `<`, and the
 * `date(...)` constructor and `replace(year=...)`, which raise `ValueError` on
 * an impossible calendar date.
 */
module Civil {
  import opened Wrappers

  const MinYear := 1
  const MaxYear := 9999

  const MicrosPerSecond := 1_000_000
  const MicrosPerMinute := 60 * MicrosPerSecond
  const MicrosPerDay := 86_400 * MicrosPerSecond

  datatype Date = Date(year: int, month: int, day: int)
  datatype Time = Time(hour: int, minute: int, second: int, micro: int)
  datatype DateTime = DateTime(date: Date, time: Time)

  predicate IsLeap(y: int) {
    y % 4 == 0 && (y % 100 != 0 || y % 400 == 0)
  }

  function DaysInMonth(y: int, m: int): int
    requires 1 <= m <= 12
  {
    if m == 2 then (if IsLeap(y) then 29 else 28)
    else if m == 4 || m == 6 || m == 9 || m == 11 then 30
    else 31
  }

  predicate ValidDate(d: Date) {
    && MinYear <= d.year <= MaxYear
    && 1 <= d.month <= 12
    && 1 <= d.day <= DaysInMonth(d.year, d.month)
  }

  predicate ValidTime(t: Time) {
    && 0 <= t.hour < 24
    && 0 <= t.minute < 60
    && 0 <= t.second < 60
    && 0 <= t.micro < MicrosPerSecond
  }

  predicate ValidDateTime(dt: DateTime) {
    ValidDate(dt.date) && ValidTime(dt.time)
  }

  /** The values Python's `date`, `time` and `datetime` objects can hold. */
  type CivilDate = d: Date | ValidDate(d) witness Date(1, 1, 1)
  type CivilTime = t: Time | ValidTime(t) witness Time(0, 0, 0, 0)
  type CivilDateTime = dt: DateTime | ValidDateTime(dt) witness DateTime(Date(1, 1, 1), Time(0, 0, 0, 0))

  /** `date(y, m, d)`: `None` stands for the `ValueError` Python raises. */
  function MakeDate(y: int, m: int, d: int): Option<CivilDate> {
    if ValidDate(Date(y, m, d)) then Some(Date(y, m, d)) else None
  }

  /** `dt.replace(year=y)`: same month, day and time of day, or `ValueError`. */
  function ReplaceYear(dt: CivilDateTime, y: int): Option<CivilDateTime> {
    match MakeDate(y, dt.date.month, dt.date.day)
    case None => None
    case Some(d) => Some(DateTime(d, dt.time))
  }

  /** For a year in range, `replace(year=y)` fails only for February 29 of a common year. */
  lemma ReplaceYearFailsOnlyOnLeapDay(dt: CivilDateTime, y: int)
    requires MinYear <= y <= MaxYear
    ensures ReplaceYear(dt, y).None? <==> dt.date.month == 2 && dt.date.day == 29 && !IsLeap(y)
    ensures ReplaceYear(dt, y).Some? ==>
              ReplaceYear(dt, y).value == DateTime(Date(y, dt.date.month, dt.date.day), dt.time)
  {
  }

  // ---------------------------------------------------------------------------
  // Day count and timeline

  /** Days before January 1 of year `y` (Python's `_days_before_year`). */
  function DaysBeforeYear(y: int): int
    requires y >= 1
  {
    var a := y - 1;
    365 * a + a / 4 - a / 100 + a / 400
  }

  /** Days in the months of `y` before month `m` (Python's `_days_before_month`). */
  function DaysBeforeMonth(y: int, m: int): int
    requires 1 <= m <= 12
  {
    var common :=
      if m == 1 then 0 else if m == 2 then 31 else if m == 3 then 59
      else if m == 4 then 90 else if m == 5 then 120 else if m == 6 then 151
      else if m == 7 then 181 else if m == 8 then 212 else if m == 9 then 243
      else if m == 10 then 273 else if m == 11 then 304 else 334;
    common + (if m > 2 && IsLeap(y) then 1 else 0)
  }

  /** `date.toordinal()`: January 1 of year 1 is day 1. */
  function Ordinal(d: CivilDate): int {
    DaysBeforeYear(d.year) + DaysBeforeMonth(d.year, d.month) + d.day
  }

  function TimeMicros(t: Time): int {
    ((t.hour * 60 + t.minute) * 60 + t.second) * MicrosPerSecond + t.micro
  }

  /**
   * Position of a datetime on the microsecond timeline. The difference of two
   * such positions is what `(a - b).total_seconds()` reports, in microseconds.
   */
  function Micros(dt: CivilDateTime): int {
    Ordinal(dt.date) * MicrosPerDay + TimeMicros(dt.time)
  }

  // ---------------------------------------------------------------------------
  // Python's comparison operators: field tuples compared lexicographically

  predicate DateBefore(a: Date, b: Date) {
    || a.year < b.year
    || (a.year == b.year && a.month < b.month)
    || (a.year == b.year && a.month == b.month && a.day < b.day)
  }

  predicate TimeBefore(a: Time, b: Time) {
    || a.hour < b.hour
    || (a.hour == b.hour && a.minute < b.minute)
    || (a.hour == b.hour && a.minute == b.minute && a.second < b.second)
    || (a.hour == b.hour && a.minute == b.minute && a.second == b.second && a.micro < b.micro)
  }

  /** `a < b` on naive datetimes. */
  predicate Before(a: DateTime, b: DateTime) {
    DateBefore(a.date, b.date) || (a.date == b.date && TimeBefore(a.time, b.time))
  }

  // ---------------------------------------------------------------------------
  // Lemmas about the day count

  /** A year adds 366 days to the count exactly when it is a leap year. */
  lemma {:induction false} YearLength(y: int)
    requires y >= 1
    ensures DaysBeforeYear(y + 1) - DaysBeforeYear(y) == if IsLeap(y) then 366 else 365
  {
    var a := y - 1;
    assert y / 4 - a / 4 == if y % 4 == 0 then 1 else 0;
    assert y / 100 - a / 100 == if y % 100 == 0 then 1 else 0;
    assert y / 400 - a / 400 == if y % 400 == 0 then 1 else 0;
  }

  lemma {:induction false} DaysBeforeYearGrows(y: int, y': int)
    requires 1 <= y < y'
    ensures DaysBeforeYear(y) + 365 <= DaysBeforeYear(y')
    decreases y' - y
  {
    YearLength(y);
    if y + 1 < y' {
      DaysBeforeYearGrows(y + 1, y');
    }
  }

  /** Python's `toordinal` is strictly increasing in Python's date order. */
  lemma OrdinalIncreasing(a: CivilDate, b: CivilDate)
    requires DateBefore(a, b)
    ensures Ordinal(a) < Ordinal(b)
  {
    if a.year < b.year {
      YearLength(a.year);
      if a.year + 1 < b.year {
        DaysBeforeYearGrows(a.year + 1, b.year);
      }
    }
  }

  /** Whole days dominate the time of day on the timeline. */
  lemma MicrosOrderedByDay(a: CivilDateTime, b: CivilDateTime)
    requires Ordinal(a.date) < Ordinal(b.date)
    ensures Micros(a) < Micros(b)
  {
    TimeMicrosIncreasing(a.time, b.time);
    var oa, ob := Ordinal(a.date), Ordinal(b.date);
    assert oa * MicrosPerDay + MicrosPerDay <= ob * MicrosPerDay by {
      assert (ob - oa) * MicrosPerDay >= MicrosPerDay;
    }
  }

  lemma TimeMicrosIncreasing(a: CivilTime, b: CivilTime)
    ensures 0 <= TimeMicros(a) < MicrosPerDay
    ensures TimeBefore(a, b) ==> TimeMicros(a) < TimeMicros(b)
  {
  }

  /**
   * Python's `<` on valid naive datetimes agrees with the timeline that
   * subtraction measures, in both directions.
   */
  lemma BeforeIsEarlier(a: CivilDateTime, b: CivilDateTime)
    ensures Before(a, b) <==> Micros(a) < Micros(b)
  {
    TimeMicrosIncreasing(a.time, b.time);
    TimeMicrosIncreasing(b.time, a.time);
    if DateBefore(a.date, b.date) {
      OrdinalIncreasing(a.date, b.date);
      MicrosOrderedByDay(a, b);
    } else if DateBefore(b.date, a.date) {
      OrdinalIncreasing(b.date, a.date);
      MicrosOrderedByDay(b, a);
    } else {
      assert a.date == b.date;
    }
  }

  /**
   * `datetime.min`, 0001-01-01 00:00, is day 1 on the timeline, and every
   * valid datetime is at or after it. An instant below it is what
   * `datetime - timedelta` refuses with `OverflowError`.
   */
  const FirstMicros := MicrosPerDay

  /** No valid date comes before day 1 of the count. */
  lemma FirstDay(d: CivilDate)
    ensures 1 <= Ordinal(d)
  {
    if d.year > MinYear {
      DaysBeforeYearGrows(MinYear, d.year);
    }
    assert DaysBeforeYear(d.year) >= 0;
    assert DaysBeforeMonth(d.year, d.month) >= 0;
  }

  lemma FirstInstant(dt: CivilDateTime)
    ensures FirstMicros <= Micros(dt)
  {
    FirstDay(dt.date);
    TimeMicrosIncreasing(dt.time, dt.time);
    var o := Ordinal(dt.date);
    assert o * MicrosPerDay == MicrosPerDay + (o - 1) * MicrosPerDay;
  }

  /**
   * Moving a valid datetime to the same month, day and time one year later
   * moves it 365 days along the timeline, or 366 when the year crossed
   * contains a February 29.
   */
  lemma RolloverSpan(dt: CivilDateTime, next: CivilDateTime)
    requires ReplaceYear(dt, dt.date.year + 1) == Some(next)
    ensures Micros(next) - Micros(dt) ==
              (if (if dt.date.month > 2 then IsLeap(dt.date.year + 1) else IsLeap(dt.date.year))
               then 366 else 365) * MicrosPerDay
  {
    var y := dt.date.year;
    YearLength(y);
    var days := Ordinal(next.date) - Ordinal(dt.date);
    assert days == if (if dt.date.month > 2 then IsLeap(y + 1) else IsLeap(y)) then 366 else 365;
    assert Micros(next) - Micros(dt) == days * MicrosPerDay;
  }
}
