/** Calendar dates as Python's `datetime.date` sees them: validity of a
    (year, month, day) triple and the ordinal day of the year
    (`timetuple().tm_yday`), which drives the duty rotation. */
module Calendar {

  datatype Date = Date(year: int, month: int, day: int)

  /** Gregorian leap years, as `calendar.isleap`. */
  predicate IsLeapYear(y: int) {
    y % 4 == 0 && (y % 100 != 0 || y % 400 == 0)
  }

  function DaysInMonth(y: int, m: int): (n: int)
    requires 1 <= m <= 12
    ensures 28 <= n <= 31
    ensures n == 29 <==> m == 2 && IsLeapYear(y)
  {
    if m == 2 then (if IsLeapYear(y) then 29 else 28)
    else if m == 4 || m == 6 || m == 9 || m == 11 then 30
    else 31
  }

  /** The triples `date(year, month, day)` accepts without raising ValueError. */
  predicate ValidDate(d: Date) {
    1 <= d.year <= 9999 && 1 <= d.month <= 12 && 1 <= d.day <= DaysInMonth(d.year, d.month)
  }

  function DaysInYear(y: int): int {
    if IsLeapYear(y) then 366 else 365
  }

  /** Days in the months before `m`, from the cumulative table the Python
      runtime keeps (with one more day after February in a leap year). */
  function DaysBeforeMonth(y: int, m: int): (n: int)
    requires 1 <= m <= 12
    ensures 0 <= n <= 335
  {
    var table := [0, 31, 59, 90, 120, 151, 181, 212, 243, 273, 304, 334];
    table[m - 1] + (if m > 2 && IsLeapYear(y) then 1 else 0)
  }

  /** `d.timetuple().tm_yday`: 1 on the first of January. */
  function DayOfYear(d: Date): (n: int)
    requires ValidDate(d)
    ensures 1 <= n <= DaysInYear(d.year)
    ensures d.month == 1 ==> n == d.day
  {
    DaysBeforeMonth(d.year, d.month) + d.day
  }

  /** The calendar day after `d`. */
  function NextDay(d: Date): (e: Date)
    requires ValidDate(d)
    ensures e.year == d.year || (e.year == d.year + 1 && e.month == 1 && e.day == 1)
  {
    if d.day < DaysInMonth(d.year, d.month) then Date(d.year, d.month, d.day + 1)
    else if d.month < 12 then Date(d.year, d.month + 1, 1)
    else Date(d.year + 1, 1, 1)
  }

  /** The day-of-year table agrees with the month lengths: each day of the
      year has the ordinal one more than the day before, and the year
      restarts at 1 after the 31st of December. */
  lemma DayOfYearCounts(d: Date)
    requires ValidDate(d) && d.year < 9999
    ensures ValidDate(NextDay(d))
    ensures DayOfYear(NextDay(d)) == if d.month == 12 && d.day == 31 then 1 else DayOfYear(d) + 1
  {
    if d.day == DaysInMonth(d.year, d.month) && d.month < 12 {
      assert DaysBeforeMonth(d.year, d.month + 1) == DaysBeforeMonth(d.year, d.month) + DaysInMonth(d.year, d.month);
    }
  }
}
