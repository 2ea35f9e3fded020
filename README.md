# Nubbin battery and Carrigan tires service rules

A Dafny model of two component service-due rules of a small car-maintenance
system, each a class whose state is set once by its constructor and queried
by `NeedsService`:

- **Nubbin battery** (`Battery.NubbinBattery`): stores a current date and a
  last-service date. The service threshold is the last-service date with its
  year increased by `ServiceIntervalYears` (Python's `date.replace(year=...)`);
  the battery is due exactly when that threshold lies strictly before the
  current date. `replace` raises `ValueError` when the target year is outside
  1..9999 or the day does not exist in it (29 February into a non-leap year);
  the model returns `Failure(YearOutOfRange)` or `Failure(DayOutOfRange)`.
- **Carrigan tires** (`Tires.CarriganTires`): stores a list of wear ratios and
  is due exactly when the largest ratio is at least 0.9. `max` of an empty list
  raises `ValueError`; the model returns `Failure(EmptyWearList)`.

Dates are modelled in `Calendar` as Python `date` values: a `(year, month,
day)` triple restricted to valid proleptic Gregorian dates in years 1..9999
(`CalendarDate`), ordered lexicographically.

Points where the code and its tests disagree:

- The interval is taken from the code: 2 years (battery/nubbin_battery.py:11),
  so `ServiceIntervalYears == 2`.
- `needs_service` is declared as `needs_service(current_date,
  last_service_date)` without `self` (battery/nubbin_battery.py:10) while its
  body uses `self` and compares against the parameter `current_date`, so the
  method cannot be called as written. The model follows the evident intent: a
  parameterless query over the two fields set by the constructor.
- The test at test/test_car.py:20-24 expects a battery serviced three years ago
  not to be due. Under the two-year interval it is due
  (`Battery.ThreeYearsAgoIsDue`), and `Battery.ThreeYearsAgoNotDueIff` shows
  that the expectation holds exactly for intervals of three years or more,
  while the threshold year stays within 9999.

## Model

| member | source | states |
|---|---|---|
| Calendar.ReplaceYear | battery/nubbin_battery.py:11 | `replace(year=y)` succeeds exactly when y is in 1..9999 and the day exists in that month of year y; an out-of-range year is reported as YearOutOfRange before a missing day, which is reported as DayOutOfRange; on success month and day are kept and the year is y |
| Calendar.DaysInMonth | battery/nubbin_battery.py:11 | the day table `replace` checks against: 28 to 31 days; 29 exactly for February of a Gregorian leap year; every month other than February has at least 30 |
| Calendar.Before | battery/nubbin_battery.py:12 | `a < b` on dates is lexicographic on (year, month, day); a date is never before itself, nor before a date of an earlier year |
| Calendar.BeforeIsStrictTotalOrder | battery/nubbin_battery.py:12 | date `<` is irreflexive, asymmetric, transitive and total on distinct dates |
| Calendar.DayExistsInEveryYear | battery/nubbin_battery.py:11 | every valid month and day other than 29 February can be moved to any year in range |
| Calendar.LeapDayLostUnlessMultipleOfFour | battery/nubbin_battery.py:11 | moving 29 February by a number of years not divisible by four always fails |
| Calendar.LeapYearsFourApart | test/test_car.py:16 | two leap years differ by a multiple of four, so a same-day date 3 or 5 years back never starts from 29 February |
| Battery.DueAfterYears | battery/nubbin_battery.py:11-15 | for any year offset: failure exactly when the shifted date is out of range (YearOutOfRange) or does not exist (DayOutOfRange); otherwise due exactly when the shifted date (same month and day) is strictly before the current date |
| Battery.NubbinBattery.constructor | battery/nubbin_battery.py:6-8 | stores the current and last-service dates unchanged |
| Battery.NubbinBattery.ServiceThresholdDate | battery/nubbin_battery.py:11 | the threshold keeps month and day and adds exactly the interval (2) to the year; it exists exactly when that year is at most 9999 and the day exists in it, otherwise the failure is YearOutOfRange or DayOutOfRange respectively |
| Battery.NubbinBattery.NeedsService | battery/nubbin_battery.py:10-15 | fails exactly when the threshold does not exist, with the same error as the threshold computation; otherwise due exactly when the threshold is strictly before the current date; reads the stored dates and changes nothing |
| Battery.LeapDayServiceFails | battery/nubbin_battery.py:11 | a last service on 29 February always yields the day-out-of-range failure |
| Battery.NearEndOfCalendarFails | battery/nubbin_battery.py:11 | a last-service year of 9998 or 9999 yields the year-out-of-range failure |
| Battery.NotDueOnThresholdDate | battery/nubbin_battery.py:12-15 | a current date equal to the threshold is not due (strict comparison) |
| Battery.DueIsMonotoneInCurrentDate | battery/nubbin_battery.py:12 | if due at a current date, due at every later or equal current date with the same last-service date |
| Battery.ServicedYearsAgo | battery/nubbin_battery.py:11-15 | a last service k years before today (same month and day, k not a multiple of four) is due for every offset 0 ≤ years < k |
| Battery.FiveYearsAgoIsDue | test/test_car.py:14-18 | a battery serviced five years before its current date is due |
| Battery.ThreeYearsAgoIsDue | test/test_car.py:20-24 | a battery serviced three years before its current date is due under the two-year interval, contrary to the test's expectation |
| Battery.ThreeYearsAgoNotDueIff | test/test_car.py:20-24 | with a last service three years back and the threshold year in 1..9999, the rule answers "not due" exactly when the offset is at least 3 and "due" when it is below 3; with the threshold year outside 1..9999 it fails with YearOutOfRange |
| Tires.Max | tires/carrigan_tires.py:9 | the maximum of a non-empty list is one of its elements and no element exceeds it |
| Tires.CarriganTires.constructor | tires/carrigan_tires.py:5-6 | stores the wear list unchanged, with no length or range check |
| Tires.CarriganTires.NeedsService | tires/carrigan_tires.py:8-9 | fails exactly on an empty list; otherwise due exactly when some wear value is at least 0.9 (inclusive); changes nothing |
| Tires.MaxAtLeast | tires/carrigan_tires.py:9 | max(wear) >= x exactly when some element is >= x |
| Tires.MaxOfPermutation | tires/carrigan_tires.py:9 | two lists with the same multiset of values have the same maximum |
| Tires.NeedsServiceIgnoresOrder | tires/carrigan_tires.py:9 | reordering the wear list leaves the result (including the empty-list failure) unchanged |
| Tires.MaxGrowsWhenRaised | tires/carrigan_tires.py:9 | raising one element never lowers the maximum |
| Tires.RaisingWearKeepsDue | tires/carrigan_tires.py:9 | raising one tire's wear never turns due into not due |
| Tires.ExactlyAtThresholdIsDue | test/test_car.py:76-79 | [0.1, 0, 0, 0.9] is due: the 0.9 boundary is inclusive |
| Tires.AllBelowThresholdIsNotDue | test/test_car.py:81-84 | [0.8, 0.89, 0.7, 0.6] is not due |

## Left out

- The shared `Serviceable` capability (car.py:2-4) is not modelled as a common interface: each class carries its own `NeedsService` with the same shape.
- `Car` (car.py) is an abstract holder whose `needs_service` is abstract; the OR-aggregation over components and the factory are in files that are not part of this model, as are the Spindler battery, the Capulet, Willoughby and Sternman engines and the Octoprime tires.
- The wall clock: the tests read today's date; the model takes the current date as a value.
- Time of day: the integration tests pass `datetime` values; only plain calendar dates are modelled.
- Floating point: wear ratios are exact reals, so IEEE-754 rounding of the 0.9 comparison is not modelled.
- Dynamic typing: the constructors accept any Python object; the model accepts only valid dates and lists of reals.
- Tires.CarriganTires.constructor: the wear list is stored as a value (`seq<real>`), not as a reference to the caller's list, so changes the caller makes to its list after construction (which `needs_service` would see in the original) are not modelled.
- Battery.NubbinBattery.NeedsService: models the evident intent of the method, not the call failure its missing `self` parameter causes.
