/** The Nubbin battery (battery/nubbin_battery.py): due for service once the
    date two years after its last service lies strictly before the current
    date. */
module Battery {
  import opened Outcomes
  import opened Calendar

  /** The year offset written into the threshold computation. */
  const ServiceIntervalYears: int := 2

  /** The service rule for an arbitrary year offset: move the last-service
      date forward by `years` with `replace(year=...)`, then compare the
      threshold strictly with the current date. A threshold that does not
      exist is the `ValueError` of `replace`. */
  function DueAfterYears(years: int, current: CalendarDate, last: CalendarDate): (r: Result<bool, DateError>)
    ensures r.Failure? <==>
              !(MinYear <= last.year + years <= MaxYear && last.day <= DaysInMonth(last.year + years, last.month))
    ensures !(MinYear <= last.year + years <= MaxYear) ==> r == Failure(YearOutOfRange)
    ensures (MinYear <= last.year + years <= MaxYear && DaysInMonth(last.year + years, last.month) < last.day) ==>
              r == Failure(DayOutOfRange)
    ensures r.Success? ==> (r.value <==> Before(Date(last.year + years, last.month, last.day), current))
  {
    match ReplaceYear(last, last.year + years)
    case Failure(e) => Failure(e)
    case Success(threshold) =>
      if Before(threshold, current) then Success(true) else Success(false)
  }

  class NubbinBattery {
    var lastServiceDate: CalendarDate
    var currentDate: CalendarDate

    constructor (currentDate: CalendarDate, lastServiceDate: CalendarDate)
      ensures this.currentDate == currentDate
      ensures this.lastServiceDate == lastServiceDate
    {
      this.lastServiceDate := lastServiceDate;
      this.currentDate := currentDate;
    }

    /** The last-service date moved forward by the service interval. */
    function ServiceThresholdDate(): (r: Result<CalendarDate, DateError>)
      reads this
      ensures r.Success? <==>
                lastServiceDate.year + ServiceIntervalYears <= MaxYear
                && lastServiceDate.day <= DaysInMonth(lastServiceDate.year + ServiceIntervalYears, lastServiceDate.month)
      ensures lastServiceDate.year + ServiceIntervalYears > MaxYear ==> r == Failure(YearOutOfRange)
      ensures (&& lastServiceDate.year + ServiceIntervalYears <= MaxYear
               && DaysInMonth(lastServiceDate.year + ServiceIntervalYears, lastServiceDate.month) < lastServiceDate.day) ==>
                r == Failure(DayOutOfRange)
      ensures r.Success? ==>
                && r.value.year == lastServiceDate.year + ServiceIntervalYears
                && r.value.month == lastServiceDate.month
                && r.value.day == lastServiceDate.day
    {
      ReplaceYear(lastServiceDate, lastServiceDate.year + ServiceIntervalYears)
    }

    /** A function of the two stored dates: it reads them and changes
        neither. */
    function NeedsService(): (r: Result<bool, DateError>)
      reads this
      ensures r.Failure? <==> ServiceThresholdDate().Failure?
      ensures r.Failure? ==> r.error == ServiceThresholdDate().error
      ensures r.Success? ==> (r.value <==> Before(ServiceThresholdDate().value, currentDate))
    {
      DueAfterYears(ServiceIntervalYears, currentDate, lastServiceDate)
    }
  }

  /** A last service on 29 February never has a threshold: two years after a
      leap year is not a leap year. */
  lemma LeapDayServiceFails(b: NubbinBattery)
    requires b.lastServiceDate.month == 2 && b.lastServiceDate.day == 29
    ensures b.ServiceThresholdDate() == Failure(DayOutOfRange)
    ensures b.NeedsService() == Failure(DayOutOfRange)
  {
    var y := b.lastServiceDate.year;
    assert IsLeapYear(y);
    assert y <= 9996;
    assert !IsLeapYear(y + ServiceIntervalYears) by {
      assert (y + ServiceIntervalYears) % 4 == 2;
    }
  }

  /** A last-service year within the interval of year 9999 has no threshold. */
  lemma NearEndOfCalendarFails(b: NubbinBattery)
    requires b.lastServiceDate.year > MaxYear - ServiceIntervalYears
    ensures b.NeedsService() == Failure(YearOutOfRange)
  {
  }

  /** The comparison is strict: on the threshold date itself the battery is
      not yet due. */
  lemma NotDueOnThresholdDate(b: NubbinBattery)
    requires b.ServiceThresholdDate() == Success(b.currentDate)
    ensures b.NeedsService() == Success(false)
  {
  }

  /** Once due, a battery with the same last-service date stays due at every
      later current date. */
  lemma DueIsMonotoneInCurrentDate(b: NubbinBattery, later: NubbinBattery)
    requires later.lastServiceDate == b.lastServiceDate
    requires !Before(later.currentDate, b.currentDate)
    requires b.NeedsService() == Success(true)
    ensures later.NeedsService() == Success(true)
  {
  }

  /** A last service `k` years before today (same month and day) with a
      threshold `years` after it, `years < k`, is due. */
  lemma ServicedYearsAgo(years: int, k: int, today: CalendarDate, last: CalendarDate)
    requires 0 <= years < k
    requires k % 4 != 0
    requires ReplaceYear(today, today.year - k) == Success(last)
    ensures DueAfterYears(years, today, last) == Success(true)
  {
    if today.month == 2 && today.day == 29 {
      LeapYearsFourApart(last.year, k);
      assert false;
    }
    DayExistsInEveryYear(last, last.year + years);
  }

  /** The battery whose last service was five years ago (same month and day)
      is due. */
  lemma FiveYearsAgoIsDue(b: NubbinBattery)
    requires ReplaceYear(b.currentDate, b.currentDate.year - 5) == Success(b.lastServiceDate)
    ensures b.NeedsService() == Success(true)
  {
    ServicedYearsAgo(ServiceIntervalYears, 5, b.currentDate, b.lastServiceDate);
  }

  /** The battery whose last service was three years ago (same month and day)
      is due as well, with the two-year interval. */
  lemma ThreeYearsAgoIsDue(b: NubbinBattery)
    requires ReplaceYear(b.currentDate, b.currentDate.year - 3) == Success(b.lastServiceDate)
    ensures b.NeedsService() == Success(true)
  {
    ServicedYearsAgo(ServiceIntervalYears, 3, b.currentDate, b.lastServiceDate);
  }

  /** With a last service three years ago and the threshold year in range,
      the rule reports "not due" exactly when the interval is three years or
      more and "due" below three; outside the range it fails. */
  lemma ThreeYearsAgoNotDueIff(years: int, today: CalendarDate, last: CalendarDate)
    requires ReplaceYear(today, today.year - 3) == Success(last)
    ensures DueAfterYears(years, today, last) ==
              if MinYear <= last.year + years <= MaxYear then Success(years < 3) else Failure(YearOutOfRange)
  {
    if today.month == 2 && today.day == 29 {
      LeapYearsFourApart(last.year, 3);
      assert false;
    }
    if MinYear <= last.year + years <= MaxYear {
      DayExistsInEveryYear(last, last.year + years);
    }
  }
}
