/**
 Timezone definitions and daylight-saving rules: the `dstRule` and
 `timezone_t` records, the ROM zone table that `LoadTimezone` copies from,
 `calcTime` (the instant a recurring rule names in a given year) and the
 hemisphere-aware test of whether an instant lies in the DST window.

 timezones.h is not part of this model: the table's entries and the
 enumerator value of Europe_London are parameters (`ZoneTable`).
 */
module Dst {
  import opened Machine
  import opened TimeLib
  import opened Calendar

  /** dstRule: week 0 = "Last", 1..4 = First..Fourth; month 0 = January; offset in seconds. */
  datatype DstRule = DstRule(week: u8, dow: u8, month: u8, hour: u8, minute: u8, offset: i32)

  /** timezone_t: the base offset (seconds) and the two DST rules. */
  datatype TimeZoneDef = TimeZoneDef(zone: u32, offset: i32, hasDls: bool, startRule: DstRule, endRule: DstRule)

  /** The ROM table ZoneTable[TIMEZONEENUM_CNT] and the enumerator value Europe_London. */
  datatype ZoneTable = ZoneTable(entries: seq<TimeZoneDef>, europeLondon: u32)

  /** Rule months are taken to be 0..11, months of the year; calcTime itself would also accept 12. */
  predicate RulesOk(z: TimeZoneDef) {
    z.startRule.month <= 11 && z.endRule.month <= 11
  }

  predicate ValidTable(t: ZoneTable) {
    && |t.entries| > 0
    && forall i :: 0 <= i < |t.entries| ==> RulesOk(t.entries[i])
  }

  /** LoadTimezone: an index at or beyond TIMEZONEENUM_CNT selects entry 0; the entry is copied whole. */
  function LoadTimezone(table: ZoneTable, index: u16): (z: TimeZoneDef)
    requires ValidTable(table)
    ensures index < |table.entries| ==> z == table.entries[index]
    ensures index >= |table.entries| ==> z == table.entries[0]
    ensures RulesOk(z)
  {
    var i := if index >= |table.entries| then 0 else index;
    table.entries[i]
  }

  /** The month calcTime builds its first-of-month instant in: the rule month, or for a "Last" rule
      the month after it, where December is followed by January of the same year. */
  function StartMonth(rule: DstRule): (m: nat)
    requires rule.month <= 11
    ensures m <= 11
    ensures rule.week != 0 ==> m == rule.month
    ensures rule.week == 0 ==> m == (rule.month + 1) % 12
  {
    if rule.week == 0 then (if rule.month + 1 > 11 then 0 else rule.month + 1) else rule.month
  }

  /** Seconds after midnight at which the rule fires. */
  function TimeOfDay(rule: DstRule): int
  {
    rule.hour * SECS_PER_HOUR + rule.minute * SECS_PER_MIN
  }

  /** Day number of the first day of the month calcTime starts from. */
  function FirstDay(rule: DstRule, year: nat): nat
    requires rule.month <= 11
  {
    DaysBeforeYear(year) + DaysBeforeMonth(year, StartMonth(rule))
  }

  /** calcTime: the rule's instant in year 1970 + `year` (the DST cache key dstYear). */
  function CalcTime(rule: DstRule, year: u8): int
    requires rule.month <= 11
  {
    var m := StartMonth(rule);
    var w := if rule.week == 0 then 1 else rule.week;
    var t0 := MkTime(Tm(year, m, 1, rule.hour, rule.minute, 0));
    var shift := 7 * (w - 1) + (rule.dow - Weekday(t0) + 7) % 7;
    var t := t0 + shift * SECS_PER_DAY;
    if rule.week == 0 then t - 7 * SECS_PER_DAY else t
  }

  /** The instant calcTime computes is the rule's time of day on a day of the rule's week: days
      7(w-1) .. 7w-1 of the month for weeks 1..4, the seven days before the next month's first day
      for "Last" (week 0). When no uint32_t wrap-around disturbs weekday(), that day's TimeLib
      weekday (1 = Sunday) is congruent to the rule's dow modulo 7. */
  lemma CalcTimeLandsOnRule(rule: DstRule, year: u8)
    requires rule.month <= 11
    ensures var t := CalcTime(rule, year);
      && (t - TimeOfDay(rule)) % SECS_PER_DAY == 0
      && (rule.week > 0 ==>
           (FirstDay(rule, year) + 7 * (rule.week - 1)) * SECS_PER_DAY <= t - TimeOfDay(rule)
                                                                      < (FirstDay(rule, year) + 7 * rule.week) * SECS_PER_DAY)
      && (rule.week == 0 ==>
           (FirstDay(rule, year) - 7) * SECS_PER_DAY <= t - TimeOfDay(rule) < FirstDay(rule, year) * SECS_PER_DAY)
      && (TimeOfDay(rule) < SECS_PER_DAY && FirstDay(rule, year) * SECS_PER_DAY + TimeOfDay(rule) < TWO_32 ==>
           (DayOfWeek((t - TimeOfDay(rule)) / SECS_PER_DAY) + 1) % 7 == rule.dow % 7)
  {
    var m := StartMonth(rule);
    var w := if rule.week == 0 then 1 else rule.week;
    var t0 := MkTime(Tm(year, m, 1, rule.hour, rule.minute, 0));
    var shift := 7 * (w - 1) + (rule.dow - Weekday(t0) + 7) % 7;
    CalcTimeSteps(rule, year, t0, shift, CalcTime(rule, year));
  }

  lemma CalcTimeSteps(rule: DstRule, year: u8, t0: int, shift: int, r: int)
    requires rule.month <= 11
    requires t0 == FirstDay(rule, year) * SECS_PER_DAY + TimeOfDay(rule)
    requires shift == 7 * ((if rule.week == 0 then 1 else rule.week) - 1) + (rule.dow - Weekday(t0) + 7) % 7
    requires r == t0 + shift * SECS_PER_DAY - (if rule.week == 0 then 7 * SECS_PER_DAY else 0)
    ensures (r - TimeOfDay(rule)) % SECS_PER_DAY == 0
    ensures rule.week > 0 ==>
      (FirstDay(rule, year) + 7 * (rule.week - 1)) * SECS_PER_DAY <= r - TimeOfDay(rule)
                                                                   < (FirstDay(rule, year) + 7 * rule.week) * SECS_PER_DAY
    ensures rule.week == 0 ==>
      (FirstDay(rule, year) - 7) * SECS_PER_DAY <= r - TimeOfDay(rule) < FirstDay(rule, year) * SECS_PER_DAY
    ensures TimeOfDay(rule) < SECS_PER_DAY && t0 < TWO_32 ==>
      (DayOfWeek((r - TimeOfDay(rule)) / SECS_PER_DAY) + 1) % 7 == rule.dow % 7
  {
    var f := FirstDay(rule, year);
    var k := (rule.dow - Weekday(t0) + 7) % 7;
    var weeks := (if rule.week == 0 then 1 else rule.week) - 1 - (if rule.week == 0 then 1 else 0);
    var day := f + k + 7 * weeks;
    assert r - TimeOfDay(rule) == day * SECS_PER_DAY;
    DivExact(day, r - TimeOfDay(rule));
    if TimeOfDay(rule) < SECS_PER_DAY && t0 < TWO_32 {
      DivExactPlus(f, TimeOfDay(rule), t0);
      WeekdayAlignment(f, rule.dow, weeks);
    }
  }

  lemma DivExact(day: int, x: int)
    requires x == day * SECS_PER_DAY
    ensures x % SECS_PER_DAY == 0 && x / SECS_PER_DAY == day
  {
  }

  lemma DivExactPlus(f: int, tod: int, x: int)
    requires 0 <= tod < SECS_PER_DAY && x == f * SECS_PER_DAY + tod
    ensures x / SECS_PER_DAY == f
  {
  }

  /** Stepping (dow - weekday(first) + 7) % 7 days, plus whole weeks, from day `f` reaches a day whose
      TimeLib weekday is congruent to `dow`. */
  lemma WeekdayAlignment(f: int, dow: int, weeks: int)
    requires dow >= 0
    ensures var k := (dow - (DayOfWeek(f) + 1) + 7) % 7;
            (DayOfWeek(f + k + 7 * weeks) + 1) % 7 == dow % 7
  {
    var a := DayOfWeek(f);
    var k := (dow - (a + 1) + 7) % 7;
    var q := (f + 4) / 7;
    var p := (dow - a + 6) / 7;
    assert f + 4 == 7 * q + a;
    assert k == dow - a + 6 - 7 * p;
    assert f + k + 7 * weeks + 4 == dow + 6 + 7 * (q - p + weeks);
    assert (f + k + 7 * weeks + 4) % 7 == (dow + 6) % 7;
  }

  /** A "Last" rule in December starts from 1 January of the same year, so the instant falls in
      the last week of the previous year's December. */
  lemma LastDecemberInPreviousYear(rule: DstRule, year: u8)
    requires rule.month == 11 && rule.week == 0
    ensures (DaysBeforeYear(year) - 7) * SECS_PER_DAY <= CalcTime(rule, year) - TimeOfDay(rule)
                                                      < DaysBeforeYear(year) * SECS_PER_DAY
  {
    CalcTimeLandsOnRule(rule, year);
  }

  /** The last Sunday (TimeLib weekday 1) of March 2024 at 01:00: 31 March 2024 01:00,
      1711846800 seconds after the epoch. */
  lemma LastSundayOfMarch2024(rule: DstRule, y: u8)
    requires rule == DstRule(0, 1, 2, 1, 0, 3600) && y == 54
    ensures CalcTime(rule, y) == 1711846800
  {
    AprilFirst2024(y as nat);
    assert StartMonth(rule) == 3;
    var t0 := MkTime(Tm(y as nat, 3, 1, 1, 0, 0));
    assert Weekday(t0) == 2 by {
      assert t0 == 19814 * SECS_PER_DAY + 3600;
    }
    assert (rule.dow - Weekday(t0) + 7) % 7 == 6;
  }

  /** 1 April 2024 01:00, a Monday, the instant calcTime starts from for a "Last" rule in March. */
  lemma AprilFirst2024(y: nat)
    requires y == 54
    ensures MkTime(Tm(y, 3, 1, 1, 0, 0)) == 1711933200
  {
    DaysBeforeYearClosedForm(y);
    assert LeapYear(y);
    assert DaysBeforeMonth(y, 1) == 31;
    assert DaysBeforeMonth(y, 2) == 60;
    assert DaysBeforeMonth(y, 3) == 91;
  }

  /** The hemisphere test as the source writes it: `north` selects between [start, end) and its complement. */
  predicate Membership(now: int, north: bool, start: int, end: int) {
    (north && now >= start && now < end) || (!north && (now < end || now >= start))
  }

  /** Whether `now` lies in the DST window of the year whose start and end instants are given. */
  function InDst(now: int, start: int, end: int): (active: bool)
    ensures start < end ==> (active <==> start <= now < end)
    ensures start > end ==> (active <==> now < end || now >= start)
    ensures start == end ==> active
  {
    Membership(now, end > start, start, end)
  }
}
