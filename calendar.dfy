/** Calendar dates as the pipeline holds them once its two date columns are
    parsed: midnight timestamps, identified by (year, month, day) in the
    proleptic Gregorian calendar that pandas uses. */
module Calendar {

  datatype Date = Date(year: int, month: int, day: int)

  predicate IsLeapYear(y: int) {
    y % 4 == 0 && (y % 100 != 0 || y % 400 == 0)
  }

  /** Length of month `m` of year `y`. */
  function DaysInMonth(y: int, m: int): (n: int)
    requires 1 <= m <= 12
    ensures 28 <= n <= 31
    ensures n == 29 <==> m == 2 && IsLeapYear(y)
    ensures n == 28 <==> m == 2 && !IsLeapYear(y)
  {
    if m == 2 then (if IsLeapYear(y) then 29 else 28)
    else if m == 4 || m == 6 || m == 9 || m == 11 then 30
    else 31
  }

  predicate IsValid(d: Date) {
    1 <= d.month <= 12 && 1 <= d.day <= DaysInMonth(d.year, d.month)
  }

  /** A day that exists in the calendar. */
  type CalendarDate = d: Date | IsValid(d) witness Date(1970, 1, 1)

  /** Strict chronological order of midnight timestamps, i.e. `a < b`. */
  predicate Precedes(a: Date, b: Date) {
    a.year < b.year
    || (a.year == b.year && (a.month < b.month || (a.month == b.month && a.day < b.day)))
  }

  /** The first and last midnights that pandas' nanosecond timestamps can hold
      (the type spans 1677-09-21 00:12:43 to 2262-04-11 23:47:16). */
  const FirstTimestampDay: Date := Date(1677, 9, 22)
  const LastTimestampDay: Date := Date(2262, 4, 11)

  predicate InTimestampRange(d: Date) {
    !Precedes(d, FirstTimestampDay) && !Precedes(LastTimestampDay, d)
  }

  /** A date that `pd.to_datetime` can produce. */
  type Timestamp = d: Date | IsValid(d) && InTimestampRange(d) witness Date(1970, 1, 1)

  lemma TimestampYearHasFourDigits(d: Timestamp)
    ensures 1000 <= d.year <= 9999
  {
  }

  /** `d + pd.DateOffset(years=n)`: the year moves by `n`, the month stays, and
      a day that does not exist in the target month is clamped to the month's
      last day (which only happens to 29 February in a non-leap target year). */
  function ShiftYears(d: CalendarDate, n: int): (r: CalendarDate)
    ensures r.year == d.year + n && r.month == d.month
    ensures r.day == if d.month == 2 && d.day == 29 && !IsLeapYear(r.year) then 28 else d.day
  {
    var y := d.year + n;
    var last := DaysInMonth(y, d.month);
    Date(y, d.month, if d.day <= last then d.day else last)
  }

  /** Shifting back undoes a shift that did not clamp the day. */
  lemma ShiftYearsRoundTrip(d: CalendarDate, n: int)
    requires !(d.month == 2 && d.day == 29 && !IsLeapYear(d.year + n))
    ensures ShiftYears(ShiftYears(d, n), -n) == d
  {
  }
}
