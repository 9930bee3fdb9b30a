/** Calendar dates as java.time uses them: the proleptic Gregorian calendar,
    with the two operations the converter needs, YearMonth.atDay(1) and
    LocalDate.minusDays(1), and the far-future date 9999-12-31 that marks an
    open-ended span. */
module Dates {

  /** A month number, January = 1. */
  type MonthOfYear = m: int | 1 <= m <= 12 witness 1

  /** A year and a month (java.time.YearMonth): what a header label names. */
  datatype YearMonth = YearMonth(year: int, month: MonthOfYear)

  /** A calendar day (java.time.LocalDate). The day field is checked by ValidDate. */
  datatype Date = Date(year: int, month: MonthOfYear, day: int)

  /** Gregorian leap-year rule (IsoChronology.isLeapYear). */
  predicate IsLeapYear(y: int) {
    y % 4 == 0 && (y % 100 != 0 || y % 400 == 0)
  }

  function DaysInMonth(y: int, m: MonthOfYear): (n: int)
    ensures 28 <= n <= 31
    ensures n == 29 <==> m == 2 && IsLeapYear(y)
  {
    if m == 2 then (if IsLeapYear(y) then 29 else 28)
    else if m == 4 || m == 6 || m == 9 || m == 11 then 30
    else 31
  }

  predicate ValidDate(d: Date) {
    1 <= d.day <= DaysInMonth(d.year, d.month)
  }

  /** Chronological order: LocalDate.isBefore. */
  predicate Before(a: Date, b: Date) {
    || a.year < b.year
    || (a.year == b.year && a.month < b.month)
    || (a.year == b.year && a.month == b.month && a.day < b.day)
  }

  /** a is on or before b. */
  predicate NotAfter(a: Date, b: Date) {
    Before(a, b) || a == b
  }

  /** The first day of a month: YearMonth.atDay(1). */
  function AtDay1(ym: YearMonth): (d: Date)
    ensures ValidDate(d) && d.day == 1
    ensures d.year == ym.year && d.month == ym.month
  {
    Date(ym.year, ym.month, 1)
  }

  /** LocalDate.of(9999, 12, 31), the end date of a span still in effect. */
  const Sentinel: Date := Date(9999, 12, 31)

  /** LocalDate.minusDays(1): the day before d, crossing month and year boundaries. */
  function PrevDay(d: Date): (r: Date)
    ensures Before(r, d)
    ensures ValidDate(d) ==> ValidDate(r)
  {
    if d.day > 1 then Date(d.year, d.month, d.day - 1)
    else if d.month == 1 then Date(d.year - 1, 12, 31)
    else Date(d.year, d.month - 1, DaysInMonth(d.year, d.month - 1))
  }

  /** No valid date lies strictly between PrevDay(d) and d: a date is before d
      exactly when it is on or before the day before d. */
  lemma PrevDayIsPredecessor(d: Date, e: Date)
    requires ValidDate(d) && ValidDate(e)
    ensures Before(e, d) <==> NotAfter(e, PrevDay(d))
  {
  }

  /** Distinct valid dates have distinct predecessors. */
  lemma PrevDayInjective(a: Date, b: Date)
    requires ValidDate(a) && ValidDate(b)
    requires PrevDay(a) == PrevDay(b)
    ensures a == b
  {
    if Before(a, b) {
      PrevDayIsPredecessor(b, a);
    } else if Before(b, a) {
      PrevDayIsPredecessor(a, b);
    }
  }

  lemma BeforeTransitive(a: Date, b: Date, c: Date)
    requires NotAfter(a, b) && Before(b, c)
    ensures Before(a, c)
  {
  }

  /** The first day of March of a leap year is preceded by February 29th. */
  lemma LeapFebruaryEnd()
    ensures PrevDay(Date(2024, 3, 1)) == Date(2024, 2, 29)
    ensures PrevDay(Date(2023, 3, 1)) == Date(2023, 2, 28)
    ensures PrevDay(Date(2024, 1, 1)) == Date(2023, 12, 31)
  {
  }
}
