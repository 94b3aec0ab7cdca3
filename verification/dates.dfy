/** Calendar dates at day precision, and the clock instant the services read.

    A date-only string such as "2000-01-15" denotes midnight at the start of that
    day, so comparing it with the clock comes down to comparing the day and then
    the time elapsed since midnight. Time zones are not part of this model. */
module Dates {

  datatype Date = Date(year: int, month: int, day: int)

  /** Proleptic Gregorian leap years. */
  predicate IsLeapYear(y: int) {
    y % 4 == 0 && (y % 100 != 0 || y % 400 == 0)
  }

  function DaysInMonth(year: int, month: int): (n: int)
    requires 1 <= month <= 12
    ensures 28 <= n <= 31
    ensures month == 2 ==> (n == 29 <==> IsLeapYear(year))
  {
    if month == 2 then (if IsLeapYear(year) then 29 else 28)
    else if month == 4 || month == 6 || month == 9 || month == 11 then 30
    else 31
  }

  /** A triple that names a day that exists (months are numbered 1 to 12). */
  predicate IsValid(d: Date) {
    1 <= d.month <= 12 && 1 <= d.day <= DaysInMonth(d.year, d.month)
  }

  type CalendarDate = d: Date | IsValid(d) witness Date(1970, 1, 1)

  /** Chronological order on triples: year, then month, then day. */
  predicate Before(a: Date, b: Date) {
    || a.year < b.year
    || (a.year == b.year && a.month < b.month)
    || (a.year == b.year && a.month == b.month && a.day < b.day)
  }

  const MillisPerDay: int := 86_400_000

  /** Milliseconds elapsed since midnight. */
  type TimeOfDay = t: int | 0 <= t < MillisPerDay

  /** A reading of the clock: a day and the time elapsed within it. */
  datatype Instant = Instant(date: CalendarDate, time: TimeOfDay)

  predicate InstantBefore(a: Instant, b: Instant) {
    Before(a.date, b.date) || (a.date == b.date && a.time < b.time)
  }

  /** Midnight at the start of `d`, the instant a date-only string parses to. */
  function StartOf(d: CalendarDate): Instant {
    Instant(d, 0)
  }

  /** Whether the day `d` has begun strictly before the instant `now`: an earlier
      day, or the same day once any time has passed since its midnight. */
  lemma StartOfBeforeIff(d: CalendarDate, now: Instant)
    ensures InstantBefore(StartOf(d), now)
            <==> Before(d, now.date) || (d == now.date && now.time > 0)
  {
  }

  /** A day that began before `now` is not after the day of `now`. */
  lemma StartOfBeforeNotAfter(d: CalendarDate, now: Instant)
    requires InstantBefore(StartOf(d), now)
    ensures !Before(now.date, d)
  {
  }
}
