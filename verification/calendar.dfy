/**
 Calendar arithmetic of the time core: days before a year and a month,
 `my_mktime` (years since 1970, 0-based months), `calcYear` (seconds to
 years since 1970, in a uint8_t) and `TimeStructToTimeStamp` (a `datum_t`
 whose year is an offset from 2000, 1-based months, clamped fields, a +30
 year bias kept in a uint8_t and a uint32_t result).

 The functions give the meaning; the methods follow the loops of the C code
 statement by statement and are proved to compute the same values.
 */
module Calendar {
  import opened Machine
  import opened TimeLib

  function DaysInYear(y: int): (n: int)
    ensures n == 365 || n == 366
    ensures n == 366 <==> LeapYear(y)
  {
    if LeapYear(y) then 366 else 365
  }

  /** Day number (days since 1 January 1970) of 1 January of year 1970 + y. */
  function DaysBeforeYear(y: nat): nat
  {
    if y == 0 then 0 else DaysBeforeYear(y - 1) + DaysInYear(y - 1)
  }

  /** The `monthDays` table of the source. */
  function MonthDays(i: int): int
    requires 0 <= i < 12
  {
    [31, 28, 31, 30, 31, 30, 31, 31, 30, 31, 30, 31][i]
  }

  /** Length of month i (0 = January) of year 1970 + y. */
  function MonthLength(y: int, i: int): int
    requires 0 <= i < 12
  {
    if i == 1 && LeapYear(y) then 29 else MonthDays(i)
  }

  /** Days from 1 January to the first of month `mon` (0-based). */
  function DaysBeforeMonth(y: int, mon: nat): nat
    requires mon <= 12
  {
    if mon == 0 then 0 else DaysBeforeMonth(y, mon - 1) + MonthLength(y, mon - 1)
  }

  lemma {:induction false} DaysBeforeYearBounds(y: nat)
    ensures 365 * y <= DaysBeforeYear(y) <= 366 * y
  {
    if y > 0 {
      DaysBeforeYearBounds(y - 1);
    }
  }

  lemma {:induction false} DaysBeforeYearMonotone(a: nat, b: nat)
    requires a <= b
    ensures DaysBeforeYear(a) <= DaysBeforeYear(b)
    decreases b - a
  {
    if a < b {
      DaysBeforeYearMonotone(a, b - 1);
    }
  }

  /** Between 1970 and 2099 every fourth year, starting with 1972, is a leap year; 2100 is not. */
  lemma {:induction false} DaysBeforeYearClosedForm(y: nat)
    requires y <= 136
    ensures DaysBeforeYear(y) == 365 * y + (y + 1) / 4 - (if y > 130 then 1 else 0)
  {
    if y > 0 {
      DaysBeforeYearClosedForm(y - 1);
      LeapYearsFrom1970(y - 1);
      QuarterStep(y);
    }
  }

  /** Years 1970 + k for k < 136: leap exactly when k % 4 == 2, except 2100 (k = 130). */
  lemma LeapYearsFrom1970(k: nat)
    requires k < 136
    ensures LeapYear(k) <==> k % 4 == 2 && k != 130
  {
    var year := 1970 + k;
    var q := year / 100;
    assert year == 100 * q + year % 100;
    if year % 100 == 0 {
      assert q == 20 || q == 21;
    }
    var p := k / 4;
    assert year == 4 * (p + 492) + k % 4 + 2;
  }

  lemma QuarterStep(y: nat)
    requires y > 0
    ensures (y + 1) / 4 == y / 4 + (if (y - 1) % 4 == 2 then 1 else 0)
  {
    var q := y / 4;
    assert y == 4 * q + y % 4;
    if y % 4 == 3 {
      assert y + 1 == 4 * (q + 1);
    } else {
      assert y + 1 == 4 * q + (y % 4 + 1);
    }
  }

  /** The months of a year add up to the year. */
  lemma DaysBeforeMonthFullYear(y: int)
    ensures DaysBeforeMonth(y, 12) == DaysInYear(y)
  {
    assert DaysBeforeMonth(y, 1) == 31;
    assert DaysBeforeMonth(y, 2) == 31 + MonthLength(y, 1);
    assert DaysBeforeMonth(y, 3) == DaysBeforeMonth(y, 2) + 31;
    assert DaysBeforeMonth(y, 4) == DaysBeforeMonth(y, 2) + 61;
    assert DaysBeforeMonth(y, 5) == DaysBeforeMonth(y, 2) + 92;
    assert DaysBeforeMonth(y, 6) == DaysBeforeMonth(y, 2) + 122;
    assert DaysBeforeMonth(y, 7) == DaysBeforeMonth(y, 2) + 153;
    assert DaysBeforeMonth(y, 8) == DaysBeforeMonth(y, 2) + 184;
    assert DaysBeforeMonth(y, 9) == DaysBeforeMonth(y, 2) + 214;
    assert DaysBeforeMonth(y, 10) == DaysBeforeMonth(y, 2) + 245;
    assert DaysBeforeMonth(y, 11) == DaysBeforeMonth(y, 2) + 275;
    assert DaysBeforeMonth(y, 12) == DaysBeforeMonth(y, 2) + 306;
  }

  lemma {:induction false} DaysBeforeMonthMonotone(y: int, a: nat, b: nat)
    requires a <= b <= 12
    ensures DaysBeforeMonth(y, a) <= DaysBeforeMonth(y, b)
    decreases b - a
  {
    if a < b {
      DaysBeforeMonthMonotone(y, a, b - 1);
    }
  }

  /** The fields of a `struct tm` that `my_mktime` reads. */
  datatype Tm = Tm(year: nat, mon: nat, mday: int, hour: int, min: int, sec: int)

  /** A `struct tm` naming an existing second: a month 0..11, a day of that month, a time of day. */
  predicate ValidTm(tm: Tm) {
    && tm.mon <= 11
    && 1 <= tm.mday <= MonthLength(tm.year, tm.mon)
    && 0 <= tm.hour <= 23 && 0 <= tm.min <= 59 && 0 <= tm.sec <= 59
  }

  /** Seconds since 1970 of the broken-down time `tm` (tm_year counts years since 1970). */
  function MkTime(tm: Tm): int
    requires tm.mon <= 12
  {
    (DaysBeforeYear(tm.year) + DaysBeforeMonth(tm.year, tm.mon) + tm.mday - 1) * SECS_PER_DAY
    + tm.hour * SECS_PER_HOUR + tm.min * SECS_PER_MIN + tm.sec
  }

  /** my_mktime as written: 365-day years plus one day per leap year, then the month table. */
  method MyMktime(tm: Tm) returns (seconds: int)
    requires tm.mon <= 12
    ensures seconds == MkTime(tm)
  {
    seconds := tm.year * (SECS_PER_DAY * 365);
    var i := 0;
    while i < tm.year
      invariant 0 <= i <= tm.year
      invariant seconds == tm.year * (SECS_PER_DAY * 365) + (DaysBeforeYear(i) - 365 * i) * SECS_PER_DAY
    {
      if LeapYear(i) {
        seconds := seconds + SECS_PER_DAY;
      }
      i := i + 1;
    }
    ghost var yearStart := seconds;
    i := 0;
    while i < tm.mon
      invariant 0 <= i <= tm.mon
      invariant seconds == yearStart + DaysBeforeMonth(tm.year, i) * SECS_PER_DAY
    {
      if i == 1 && LeapYear(tm.year) {
        seconds := seconds + SECS_PER_DAY * 29;
      } else {
        seconds := seconds + SECS_PER_DAY * MonthDays(i);
      }
      i := i + 1;
    }
    seconds := seconds + (tm.mday - 1) * SECS_PER_DAY;
    seconds := seconds + tm.hour * SECS_PER_HOUR;
    seconds := seconds + tm.min * SECS_PER_MIN;
    seconds := seconds + tm.sec;
  }

  /** Two year counts whose years both contain day `d` are equal. */
  lemma YearUnique(d: int, a: nat, b: nat)
    requires DaysBeforeYear(a) <= d < DaysBeforeYear(a + 1)
    requires DaysBeforeYear(b) <= d < DaysBeforeYear(b + 1)
    ensures a == b
  {
    if a < b {
      DaysBeforeYearMonotone(a + 1, b);
    } else if b < a {
      DaysBeforeYearMonotone(b + 1, a);
    }
  }

  /** The year (counted from 1970) that contains day `days`, searching upwards from y. */
  function YearContaining(days: int, y: nat): (r: nat)
    requires DaysBeforeYear(y) <= days
    ensures y <= r
    ensures DaysBeforeYear(r) <= days < DaysBeforeYear(r + 1)
    decreases days - DaysBeforeYear(y)
  {
    if DaysBeforeYear(y + 1) <= days then YearContaining(days, y + 1) else y
  }

  /** The largest argument GetLocalTime can hand to calcYear: a uint32_t clock plus an int32_t offset. */
  const CALC_YEAR_LIMIT: int := 0x1_8000_0000

  /** calcYear: the number of whole years since 1970 before `time`; 0 for instants before 1970. */
  function CalcYear(time: int): (r: u8)
    requires time < CALC_YEAR_LIMIT
    ensures time < 0 ==> r == 0
    ensures time >= 0 ==> DaysBeforeYear(r) * SECS_PER_DAY <= time < DaysBeforeYear(r + 1) * SECS_PER_DAY
  {
    if time < 0 then 0
    else
      var y := YearContaining(time / SECS_PER_DAY, 0);
      DaysBeforeYearBounds(y);
      y
  }

  /** calcYear as written: add whole years to a day counter while it stays at or below the day number. */
  method CalcYearLoop(time: int) returns (year: u8)
    requires time < CALC_YEAR_LIMIT
    ensures year == CalcYear(time)
  {
    var t := CDiv(time, SECS_PER_DAY);
    var y: nat := 0;
    var days: nat := DaysInYear(y);
    while days <= t
      invariant days == DaysBeforeYear(y + 1)
      invariant t >= 0 ==> DaysBeforeYear(y) <= t
      invariant t < 0 ==> y == 0
      invariant y <= 204
      decreases t - days
    {
      y := y + 1;
      DaysBeforeYearBounds(y);
      days := days + DaysInYear(y);
    }
    if time >= 0 {
      YearUnique(t, y, CalcYear(time));
    }
    year := y;
  }

  /** calcYear recovers tm_year from any valid broken-down time my_mktime accepts. */
  lemma CalcYearOfMkTime(tm: Tm)
    requires ValidTm(tm)
    requires MkTime(tm) < CALC_YEAR_LIMIT
    ensures CalcYear(MkTime(tm)) == tm.year
  {
    var t := MkTime(tm);
    DaysBeforeMonthMonotone(tm.year, tm.mon + 1, 12);
    DaysBeforeMonthFullYear(tm.year);
    var dayInYear := DaysBeforeMonth(tm.year, tm.mon) + tm.mday - 1;
    assert 0 <= dayInYear < DaysInYear(tm.year);
    var d := DaysBeforeYear(tm.year) + dayInYear;
    assert t == d * SECS_PER_DAY + tm.hour * SECS_PER_HOUR + tm.min * SECS_PER_MIN + tm.sec;
    assert t / SECS_PER_DAY == d;
    YearUnique(d, tm.year, CalcYear(t));
  }

  /** datum_t: a calendar date and time of day. */
  datatype Datum = Datum(year: u16, month: u8, day: u8, dow: u8, hour: u8, minute: u8, second: u8)

  /** No field is above the limit TimeStructToTimeStamp checks it against. */
  predicate InRange(d: Datum) {
    d.month <= 12 && d.day <= 31 && d.hour <= 23 && d.minute <= 59 && d.second <= 59
  }

  /** The clamping step: a field above its limit is reset to its least value, the others are kept. */
  function Clamp(d: Datum): (c: Datum)
    ensures InRange(c)
    ensures InRange(d) ==> c == d
    ensures c.year == d.year && c.dow == d.dow
    ensures c.month == (if d.month > 12 then 1 else d.month)
    ensures c.day == (if d.day > 31 then 1 else d.day)
    ensures c.hour == (if d.hour > 23 then 0 else d.hour)
    ensures c.minute == (if d.minute > 59 then 0 else d.minute)
    ensures c.second == (if d.second > 59 then 0 else d.second)
  {
    d.(month := if d.month > 12 then 1 else d.month,
       day := if d.day > 31 then 1 else d.day,
       hour := if d.hour > 23 then 0 else d.hour,
       minute := if d.minute > 59 then 0 else d.minute,
       second := if d.second > 59 then 0 else d.second)
  }

  /** The years since 1970 that TimeStructToTimeStamp uses: the low byte of the year field plus 30, in a uint8_t. */
  function StampYear(year: u16): u8
  {
    Wrap8(Wrap8(year) + 30)
  }

  /** Days before the 1-based `month`, summed the way the 1-based loop of TimeStructToTimeStamp sums them. */
  function DaysBeforeMonthFrom1(y: int, month: nat): nat
    requires month <= 12
  {
    if month <= 1 then 0
    else DaysBeforeMonthFrom1(y, month - 1) + (if month - 1 == 2 && LeapYear(y) then 29 else MonthDays(month - 2))
  }

  /** The 1-based month sum counts the same days as the 0-based one of my_mktime. */
  lemma {:induction false} DaysBeforeMonthFrom1Shift(y: int, month: nat)
    requires 1 <= month <= 12
    ensures DaysBeforeMonthFrom1(y, month) == DaysBeforeMonth(y, month - 1)
  {
    if month > 1 {
      DaysBeforeMonthFrom1Shift(y, month - 1);
    }
  }

  /** TimeStructToTimeStamp: seconds since 1970, modulo 2^32, of the clamped datum. */
  function TimeStructToTimeStamp(d: Datum): u32
  {
    var c := Clamp(d);
    Wrap32(StampSum(StampYear(d.year), c.month, c.day, c.hour, c.minute, c.second))
  }

  /** The exact (unreduced) sum TimeStructToTimeStamp accumulates for already clamped fields. */
  function StampSum(year: u8, month: u8, day: u8, hour: u8, minute: u8, second: u8): int
    requires month <= 12
  {
    (DaysBeforeYear(year) + DaysBeforeMonthFrom1(year, month) + day - 1) * SECS_PER_DAY
    + hour * SECS_PER_HOUR + minute * SECS_PER_MIN + second
  }

  /** TimeStructToTimeStamp as written: uint8_t copies of the fields, clamping, the uint8_t year bias,
      then the accumulation loops. */
  method TimeStructToTimeStampLoop(d: Datum) returns (stamp: u32)
    ensures stamp == TimeStructToTimeStamp(d)
  {
    var year: u8 := Wrap8(d.year);
    var month: u8 := d.month;
    var day: u8 := d.day;
    var hour: u8 := d.hour;
    var minute: u8 := d.minute;
    var second: u8 := d.second;
    if month > 12 {
      month := 1;
    }
    if day > 31 {
      day := 1;
    }
    if hour > 23 {
      hour := 0;
    }
    if minute > 59 {
      minute := 0;
    }
    if second > 59 {
      second := 0;
    }
    year := Wrap8(year + 30);
    stamp := AccumulateStamp(year, month, day, hour, minute, second);
  }

  /** The accumulation of TimeStructToTimeStamp in a uint32_t, reduced modulo 2^32 after every addition. */
  method AccumulateStamp(year: u8, month: u8, day: u8, hour: u8, minute: u8, second: u8) returns (seconds: u32)
    requires month <= 12
    ensures seconds == Wrap32(StampSum(year, month, day, hour, minute, second))
  {
    seconds := AccumulateYears(year);
    seconds := AccumulateMonths(seconds, DaysBeforeYear(year) * SECS_PER_DAY, year, month);
    ghost var exact := (DaysBeforeYear(year) + DaysBeforeMonthFrom1(year, month)) * SECS_PER_DAY;
    var tail := (day - 1) * SECS_PER_DAY + hour * SECS_PER_HOUR + minute * SECS_PER_MIN + second;
    assert exact + tail == StampSum(year, month, day, hour, minute, second);
    Wrap32Add(exact, tail);
    seconds := Wrap32(seconds + tail);
  }

  /** The year part: `year` 365-day years, then one more day for each leap year before it. */
  method AccumulateYears(year: u8) returns (seconds: u32)
    ensures seconds == Wrap32(DaysBeforeYear(year) * SECS_PER_DAY)
  {
    ghost var exact: int := year * (SECS_PER_DAY * 365);
    seconds := Wrap32(year * (SECS_PER_DAY * 365));
    var i := 0;
    while i < year
      invariant 0 <= i <= year
      invariant exact == year * (SECS_PER_DAY * 365) + (DaysBeforeYear(i) - 365 * i) * SECS_PER_DAY
      invariant seconds == Wrap32(exact)
    {
      if LeapYear(i) {
        Wrap32Add(exact, SECS_PER_DAY);
        seconds := Wrap32(seconds + SECS_PER_DAY);
        exact := exact + SECS_PER_DAY;
      }
      i := i + 1;
    }
  }

  /** The month part: the days of months 1 .. month-1 added to a uint32_t holding `start` modulo 2^32. */
  method AccumulateMonths(seconds0: u32, ghost start: int, year: u8, month: u8) returns (seconds: u32)
    requires month <= 12
    requires seconds0 == Wrap32(start)
    ensures seconds == Wrap32(start + DaysBeforeMonthFrom1(year, month) * SECS_PER_DAY)
  {
    seconds := seconds0;
    ghost var exact := start;
    var i := 1;
    while i < month
      invariant 1 <= i
      invariant i <= month || (month == 0 && i == 1)
      invariant exact == start + DaysBeforeMonthFrom1(year, i) * SECS_PER_DAY
      invariant seconds == Wrap32(exact)
    {
      var add := if i == 2 && LeapYear(year) then SECS_PER_DAY * 29 else SECS_PER_DAY * MonthDays(i - 1);
      Wrap32Add(exact, add);
      seconds := Wrap32(seconds + add);
      exact := exact + add;
      i := i + 1;
    }
  }

  /** The broken-down time TimeStructToTimeStamp describes for an in-range datum with month >= 1. */
  function StampTm(d: Datum): Tm
    requires 1 <= d.month <= 12
  {
    Tm(StampYear(d.year), d.month - 1, d.day, d.hour, d.minute, d.second)
  }

  /** For in-range fields and no 32-bit overflow, TimeStructToTimeStamp is my_mktime with
      tm_year = StampYear(year) and tm_mon = month - 1. */
  lemma TimeStructToTimeStampIsMkTime(d: Datum)
    requires InRange(d) && 1 <= d.month
    requires 0 <= MkTime(StampTm(d)) < TWO_32
    ensures TimeStructToTimeStamp(d) == MkTime(StampTm(d))
  {
    DaysBeforeMonthFrom1Shift(StampYear(d.year), d.month);
  }

  /** Month 0 passes the clamp and, like January, adds no days of earlier months: it stamps as
      month 1 does, which extends TimeStructToTimeStampIsMkTime to month 0. */
  lemma MonthZeroStampsAsJanuary(d: Datum)
    requires d.month == 0
    ensures TimeStructToTimeStamp(d) == TimeStructToTimeStamp(d.(month := 1))
  {
    assert Clamp(d).month == 0 && Clamp(d.(month := 1)).month == 1;
  }

  /** Days from 1970 to the end of 2105: every instant of years 0..135 fits in a uint32_t. */
  lemma DaysBeforeYear136()
    ensures DaysBeforeYear(136) == 49673
    ensures DaysBeforeYear(136) * SECS_PER_DAY < TWO_32
  {
    DaysBeforeYearClosedForm(136);
  }

  /** A valid broken-down time of a year below 136 lies in [0, 2^32). */
  lemma MkTimeFits(tm: Tm)
    requires ValidTm(tm) && tm.year <= 135
    ensures 0 <= MkTime(tm) < DaysBeforeYear(tm.year + 1) * SECS_PER_DAY <= DaysBeforeYear(136) * SECS_PER_DAY < TWO_32
  {
    DaysBeforeMonthMonotone(tm.year, tm.mon + 1, 12);
    DaysBeforeMonthFullYear(tm.year);
    DaysBeforeYearMonotone(tm.year + 1, 136);
    DaysBeforeYear136();
  }

  /** A valid date: a month 1..12 and a day of that month (of the year TimeStructToTimeStamp will use). */
  predicate ValidDate(d: Datum) {
    && InRange(d) && 1 <= d.month
    && 1 <= d.day <= MonthLength(StampYear(d.year), d.month - 1)
  }

  /** The year TimeStructToTimeStamp's result falls in is StampYear: (low byte of the year + 30) mod 256,
      whenever that year is at most 135 (so the seconds fit in 32 bits). */
  lemma CalcYearOfTimeStruct(d: Datum)
    requires ValidDate(d)
    requires StampYear(d.year) <= 135
    ensures CalcYear(TimeStructToTimeStamp(d)) == StampYear(d.year)
  {
    var tm := StampTm(d);
    MkTimeFits(tm);
    TimeStructToTimeStampIsMkTime(d);
    CalcYearOfMkTime(tm);
  }
}
