/** The proleptic Gregorian calendar, as Appendix C of RFC 3339 states its leap-year rule.
    Nothing here refers to Julian day numbers: these definitions are the reference that the
    arithmetic of `base/date.cpp` is measured against. */
module Gregorian {

  datatype YearMonthDay = YearMonthDay(year: int, month: int, day: int)

  predicate IsLeap(year: int) {
    year % 4 == 0 && (year % 100 != 0 || year % 400 == 0)
  }

  function DaysInMonth(year: int, month: int): int
    requires 1 <= month <= 12
  {
    if month == 2 then (if IsLeap(year) then 29 else 28)
    else if month in {4, 6, 9, 11} then 30
    else 31
  }

  predicate ValidDate(d: YearMonthDay) {
    1 <= d.month <= 12 && 1 <= d.day <= DaysInMonth(d.year, d.month)
  }

  function NextDay(d: YearMonthDay): YearMonthDay
    requires ValidDate(d)
  {
    if d.day < DaysInMonth(d.year, d.month) then d.(day := d.day + 1)
    else if d.month < 12 then YearMonthDay(d.year, d.month + 1, 1)
    else YearMonthDay(d.year + 1, 1, 1)
  }

  /** Lexicographic order on (year, month, day). */
  predicate Before(c: YearMonthDay, d: YearMonthDay) {
    || c.year < d.year
    || (c.year == d.year && (c.month < d.month || (c.month == d.month && c.day < d.day)))
  }

  /** The summed lengths of the months of `year` that precede `month`. */
  function DaysBeforeMonth(year: int, month: int): int
    requires 1 <= month <= 13
    decreases month
  {
    if month == 1 then 0
    else DaysBeforeMonth(year, month - 1) + DaysInMonth(year, month - 1)
  }

  function DaysInYear(year: int): int {
    if IsLeap(year) then 366 else 365
  }

  /** The first day for which the arithmetic of `base/date.cpp` is a calendar: 1 March -4800. */
  const FIRST_DATE := YearMonthDay(-4800, 3, 1)

  predicate InCalendar(d: YearMonthDay) {
    ValidDate(d) && !Before(d, FIRST_DATE)
  }
}
