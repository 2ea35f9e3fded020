/** The part of Python's `datetime.date` that the battery rule relies on:
    proleptic Gregorian dates in years 1..9999, `replace(year=...)`, and the
    ordering `<`. */
module Calendar {
  import opened Outcomes

  const MinYear: int := 1
  const MaxYear: int := 9999

  datatype Date = Date(year: int, month: int, day: int)

  /** Why `date.replace` raises `ValueError`. */
  datatype DateError = YearOutOfRange | DayOutOfRange

  /** Gregorian rule: every fourth year, except centuries not divisible by 400. */
  predicate IsLeapYear(y: int) {
    y % 4 == 0 && (y % 100 != 0 || y % 400 == 0)
  }

  function DaysInMonth(y: int, m: int): (n: int)
    requires 1 <= m <= 12
    ensures 28 <= n <= 31
    ensures n == 29 <==> m == 2 && IsLeapYear(y)
    ensures m != 2 ==> n >= 30
  {
    if m == 2 then (if IsLeapYear(y) then 29 else 28)
    else if m == 4 || m == 6 || m == 9 || m == 11 then 30
    else 31
  }

  /** The dates a Python `date` object can hold. */
  predicate IsValid(d: Date) {
    && MinYear <= d.year <= MaxYear
    && 1 <= d.month <= 12
    && 1 <= d.day <= DaysInMonth(d.year, d.month)
  }

  type CalendarDate = d: Date | IsValid(d) witness Date(1, 1, 1)

  /** `a < b` on dates: lexicographic on (year, month, day). */
  predicate Before(a: Date, b: Date)
    ensures Before(a, b) ==> a != b && a.year <= b.year
  {
    || a.year < b.year
    || (a.year == b.year && a.month < b.month)
    || (a.year == b.year && a.month == b.month && a.day < b.day)
  }

  /** `d.replace(year=y)`: the same month and day in year `y`, or the
      `ValueError` the date constructor raises. The year is checked before the
      day, so an out-of-range year is reported as such. */
  function ReplaceYear(d: CalendarDate, y: int): (r: Result<CalendarDate, DateError>)
    ensures r.Success? <==> MinYear <= y <= MaxYear && d.day <= DaysInMonth(y, d.month)
    ensures !(MinYear <= y <= MaxYear) ==> r == Failure(YearOutOfRange)
    ensures MinYear <= y <= MaxYear && DaysInMonth(y, d.month) < d.day ==> r == Failure(DayOutOfRange)
    ensures r.Success? ==> r.value.year == y && r.value.month == d.month && r.value.day == d.day
  {
    if y < MinYear || MaxYear < y then Failure(YearOutOfRange)
    else if DaysInMonth(y, d.month) < d.day then Failure(DayOutOfRange)
    else Success(Date(y, d.month, d.day))
  }

  lemma BeforeIsStrictTotalOrder(a: Date, b: Date, c: Date)
    ensures !Before(a, a)
    ensures Before(a, b) ==> !Before(b, a)
    ensures Before(a, b) && Before(b, c) ==> Before(a, c)
    ensures a == b || Before(a, b) || Before(b, a)
  {
  }

  /** Only 29 February depends on the year: every other valid month and day
      exists in every year of the range. */
  lemma DayExistsInEveryYear(d: CalendarDate, y: int)
    requires MinYear <= y <= MaxYear
    requires !(d.month == 2 && d.day == 29)
    ensures ReplaceYear(d, y) == Success(Date(y, d.month, d.day))
  {
    if d.month == 2 {
      assert d.day <= 28;
    }
  }

  /** A leap year plus a number of years that is not a multiple of four is
      never a leap year, so 29 February cannot be carried over. */
  lemma LeapDayLostUnlessMultipleOfFour(d: CalendarDate, k: int)
    requires d.month == 2 && d.day == 29
    requires k % 4 != 0
    ensures ReplaceYear(d, d.year + k).Failure?
  {
    assert IsLeapYear(d.year);
    assert (d.year + k) % 4 != 0;
  }

  /** Two leap years lie a multiple of four years apart. */
  lemma LeapYearsFourApart(y: int, k: int)
    requires IsLeapYear(y) && IsLeapYear(y + k)
    ensures k % 4 == 0
  {
    assert y % 4 == 0 && (y + k) % 4 == 0;
  }
}
