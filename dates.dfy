/**
 * Calendar dates, the wall-clock instant `hoje` and the year substitution
 * `replace(year=...)` that the dashboard uses to move a birth date into
 * another year.
 *
 * A birth date is parsed from a `%d/%m/%Y` string, so it is a proleptic
 * Gregorian date at midnight. `hoje` is read from the clock, so it also
 * carries a time of day; it is kept here as a date plus the microseconds
 * elapsed since midnight.
 */
module Dates {

  /** A calendar date. Validity is the separate predicate ValidDate. */
  datatype Date = Date(year: int, month: int, day: int)

  /** An instant: a date plus the time of day in microseconds since midnight. */
  datatype Instant = Instant(date: Date, micros: int)

  /** The one error `replace(year=...)` raises for a valid date: the day does
      not exist in the target month (February 29 of a common year). */
  datatype DateError = DayOutOfRange

  datatype Result<T> = Ok(value: T) | Err(error: DateError)

  const MICROS_PER_DAY: int := 86_400_000_000

  predicate IsLeapYear(y: int) {
    y % 4 == 0 && (y % 100 != 0 || y % 400 == 0)
  }

  function DaysInMonth(y: int, m: int): (n: int)
    requires 1 <= m <= 12
    ensures 28 <= n <= 31
    ensures n == 29 <==> m == 2 && IsLeapYear(y)
  {
    if m == 2 then (if IsLeapYear(y) then 29 else 28)
    else if m == 4 || m == 6 || m == 9 || m == 11 then 30
    else 31
  }

  predicate ValidDate(d: Date) {
    1 <= d.month <= 12 && 1 <= d.day <= DaysInMonth(d.year, d.month)
  }

  predicate ValidInstant(t: Instant) {
    ValidDate(t.date) && 0 <= t.micros < MICROS_PER_DAY
  }

  predicate IsLeapDay(d: Date) {
    d.month == 2 && d.day == 29
  }

  /** Strictly earlier, lexicographically on (year, month, day). */
  predicate Before(a: Date, b: Date) {
    a.year < b.year
    || (a.year == b.year && (a.month < b.month || (a.month == b.month && a.day < b.day)))
  }

  /** The order `sort_values` uses on a date column: at or before. */
  predicate DateLe(a: Date, b: Date) {
    !Before(b, a)
  }

  /** The timestamp a parsed `%d/%m/%Y` date stands for. */
  function Midnight(d: Date): Instant {
    Instant(d, 0)
  }

  /** `a <= b` on instants: by date, then by time of day. */
  predicate InstantLe(a: Instant, b: Instant) {
    Before(a.date, b.date) || (a.date == b.date && a.micros <= b.micros)
  }

  /** `d.replace(year=y)`: the same month and day in year y, or an error when
      that day does not exist in year y. */
  function ReplaceYear(d: Date, y: int): Result<Date> {
    if 1 <= d.month <= 12 && 1 <= d.day <= DaysInMonth(y, d.month)
    then Ok(Date(y, d.month, d.day))
    else Err(DayOutOfRange)
  }

  /** For a valid date, replacing the year fails exactly for February 29 moved
      into a common year; otherwise the result is a valid date with the same
      month and day. */
  lemma ReplaceYearFailsOnlyOnLeapDay(d: Date, y: int)
    requires ValidDate(d)
    ensures ReplaceYear(d, y).Err? <==> IsLeapDay(d) && !IsLeapYear(y)
    ensures ReplaceYear(d, y).Ok? ==>
      var r := ReplaceYear(d, y).value;
      ValidDate(r) && r.year == y && r.month == d.month && r.day == d.day
  {
    if !IsLeapDay(d) && d.month == 2 {
      assert d.day <= 28;
    }
  }

  /** DateLe is a total order on dates. */
  lemma DateLeTotalOrder(a: Date, b: Date, c: Date)
    ensures DateLe(a, a)
    ensures DateLe(a, b) || DateLe(b, a)
    ensures DateLe(a, b) && DateLe(b, a) ==> a == b
    ensures DateLe(a, b) && DateLe(b, c) ==> DateLe(a, c)
  {
  }
}
