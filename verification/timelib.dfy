/**
 The parts of the Arduino TimeLib library that the time core calls. The
 library itself is not part of this model; these definitions state the
 behaviour the core relies on: `LEAP_YEAR(Y)` is the Gregorian rule applied
 to the year 1970 + Y, and `weekday(t)` numbers the days 1 (Sunday) to
 7 (Saturday), computed by `breakTime` from the uint32_t view of `t`
 (1 January 1970 was a Thursday).
 */
module TimeLib {
  import opened Machine

  const SECS_PER_MIN: int := 60
  const SECS_PER_HOUR: int := 3600
  const SECS_PER_DAY: int := 86400

  /** LEAP_YEAR(y), where y counts years since 1970. */
  predicate LeapYear(y: int) {
    var year := 1970 + y;
    year > 0 && year % 4 == 0 && (year % 100 != 0 || year % 400 == 0)
  }

  /** Day of the week of day number `days` since 1 January 1970, 0 = Sunday. */
  function DayOfWeek(days: int): (r: int)
    ensures 0 <= r < 7
  {
    (days + 4) % 7
  }

  /** weekday(t): 1 = Sunday, ..., 7 = Saturday. */
  function Weekday(t: int): (r: int)
    ensures 1 <= r <= 7
    ensures 0 <= t < TWO_32 ==> r == DayOfWeek(t / SECS_PER_DAY) + 1
  {
    DayOfWeek(Wrap32(t) / SECS_PER_DAY) + 1
  }
}
