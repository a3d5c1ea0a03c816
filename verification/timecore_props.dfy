/**
 Properties relating several Timecore operations: SetLocalTime followed by
 GetLocalTime, repeated conversions, and the agreement between
 GetDLSstatus and GetLocalTime. Where the code compares different clocks
 against the DST window, the lemmas state the behaviour it has.
 */
module TimecoreProperties {
  import opened Machine
  import opened Calendar
  import opened Dst
  import opened TimecoreConfig
  import opened Timecore

  /** Without automatic DST, setting a local time and reading it back gives the same count,
      as long as no uint32_t step wraps and (table zone) the UTC count exceeds the zone offset. */
  lemma RoundTripFixedOffset(c: Core, d: Datum)
    requires Valid(c) && !c.config.automaticDltsEna
    requires var off := if c.config.timeZoneOverride then ToI32(c.config.gmtOffset * 60) else c.zone.offset as int;
             var shift := if c.config.manualDlsEna then ManualDlsShift(c.config.dltsOffsetIdx) else 0;
             && 0 <= LocalCount(d) - off < TWO_32
             && 0 <= LocalCount(d) - off - shift < TWO_32
             && (c.config.timeZoneOverride || LocalCount(d) - off - shift > c.zone.offset)
    ensures GetLocalTime(SetLocalTime(c, d).core).time == LocalCount(d)
  {
    var s := SetLocalTime(c, d).core;
    var off := if c.config.timeZoneOverride then ToI32(c.config.gmtOffset * 60) else c.zone.offset as int;
    var shift := if c.config.manualDlsEna then ManualDlsShift(c.config.dltsOffsetIdx) else 0;
    Wrap32Add(LocalCount(d) - off, -shift);
    assert s.timestamp == LocalCount(d) - off - shift;
  }

  /** That cache holds the window of the datum's year whenever the cache was coherent or named
      another year. */
  lemma CacheForWindow(c: Core, d: Datum)
    requires Valid(c)
    requires c.dstYear as int != LocalDatum(d).year + 30 || Coherent(c)
    ensures var y := Wrap8(LocalDatum(d).year + 30);
            CacheFor(c, d) == c.(dstYear := y, dstStart := WindowStart(c.zone, y), dstEnd := WindowEnd(c.zone, y))
  {
  }

  /** The cache key SetLocalTime sets (CacheFor, kept in the state it leaves) is the year its
      local count falls in, whether the datum carries a four-digit year or years since 2000; for
      a four-digit year up to 2105 it is that calendar year. */
  lemma SetLocalTimeKeysLocalYear(c: Core, d: Datum)
    requires Valid(c)
    requires ValidDate(LocalDatum(d)) && StampYear(LocalDatum(d).year) <= 135
    ensures CacheFor(c, d).dstYear == CalcYear(LocalCount(d))
    ensures 2000 <= d.year <= 2105 ==> CacheFor(c, d).dstYear as int == d.year - 1970
  {
    KeyOfDatum(d, CacheFor(c, d).dstYear);
  }

  lemma KeyOfDatum(d: Datum, key: u8)
    requires key == Wrap8(LocalDatum(d).year + 30)
    requires ValidDate(LocalDatum(d)) && StampYear(LocalDatum(d).year) <= 135
    ensures key == CalcYear(LocalCount(d))
    ensures 2000 <= d.year <= 2105 ==> key as int == d.year - 1970
  {
    KeyIsStampYear(LocalDatum(d).year);
    CalcYearOfTimeStruct(LocalDatum(d));
  }

  lemma KeyIsStampYear(y: u16)
    ensures Wrap8(y + 30) == StampYear(y)
  {
    var q := y / 256;
    assert y == 256 * q + Wrap8(y);
    assert y + 30 == 256 * q + (Wrap8(y) + 30);
  }

  /** Whether SetLocalTime (table zone, automatic DST), having worked with the cache `c1`, takes
      the local count L to be in DST: its test is on the UTC count, with the hemisphere of `c`. */
  predicate SetTestsDst(c: Core, c1: Core, L: int)
  {
    Membership(L - c.zone.offset, c.dstEnd > c.dstStart, c1.dstStart, c1.dstEnd)
  }

  /** The offset SetLocalTime then removes. */
  function RemovedDst(c: Core, c1: Core, L: int): int
  {
    if SetTestsDst(c, c1, L) then c.zone.startRule.offset as int else 0
  }

  /** No uint32_t step of SetLocalTime or GetLocalTime wraps, the UTC count exceeds the zone
      offset, and `c1` names the year of the standard time L - RemovedDst. */
  predicate ReadBackFits(c: Core, c1: Core, L: int)
  {
    var off := c.zone.offset as int;
    var delta := RemovedDst(c, c1, L);
    && 0 <= L - off < TWO_32
    && 0 <= L - off - delta < TWO_32
    && L - off - delta > off
    && CalcYear(L - delta) == c1.dstYear
  }

  /** ReadBackFits, and GetLocalTime's test of the standard time agrees with SetLocalTime's test. */
  predicate ReadBackAgrees(c: Core, c1: Core, L: int)
  {
    && ReadBackFits(c, c1, L)
    && (SetTestsDst(c, c1, L) <==> InDst(L - RemovedDst(c, c1, L), c1.dstStart, c1.dstEnd))
  }

  /** The read-back after SetLocalTime with the cache `c1` it used held abstract: GetLocalTime
      tests the standard time L - RemovedDst against `c1`'s window and adds the DST offset back
      when it lies inside. */
  lemma AutomaticReadBack(c: Core, c1: Core, L: u32)
    requires Valid(c) && c.config.automaticDltsEna && c.zone.hasDls && !c.config.timeZoneOverride
    requires c1 == c.(dstYear := c1.dstYear, dstStart := c1.dstStart, dstEnd := c1.dstEnd)
    requires ReadBackFits(c, c1, L)
    ensures var delta := RemovedDst(c, c1, L);
            GetLocalTime(c1.(timestamp := UndoDst(c, c.dstEnd > c.dstStart, c1, LocalToUtc(c, L)))).time
              == L - delta + (if InDst(L - delta, c1.dstStart, c1.dstEnd) then c.zone.startRule.offset as int else 0)
  {
    var delta := RemovedDst(c, c1, L);
    var s := c1.(timestamp := UndoDst(c, c.dstEnd > c.dstStart, c1, LocalToUtc(c, L)));
    assert s.timestamp == L - c.zone.offset - delta;
    assert StandardTime(s) == L - delta;
  }

  /** With automatic DST (table zone), SetLocalTime then GetLocalTime returns the local count when
      the test SetLocalTime makes (on the UTC count, with the hemisphere of the cache it found)
      agrees with the test GetLocalTime makes (on standard time), nothing wraps, and the
      standard time stays in the year of the cache SetLocalTime left (CacheForWindow says which
      window that cache holds). */
  lemma RoundTripAutomaticDst(c: Core, d: Datum)
    requires Valid(c) && c.config.automaticDltsEna && c.zone.hasDls && !c.config.timeZoneOverride
    requires ReadBackAgrees(c, CacheFor(c, d), LocalCount(d))
    ensures GetLocalTime(SetLocalTime(c, d).core).time == LocalCount(d)
  {
    SetLocalTimeSteps(c, d);
    AutomaticReadBack(c, CacheFor(c, d), LocalCount(d));
  }

  /** The tests disagree near a DST start in a zone west of Greenwich: a local time within |offset|
      before the start is taken as DST (its UTC count is inside the window) and the DST offset is
      removed, so reading it back gives one DST offset less than was set. */
  lemma SetLocalTimeTestsUtcCount(c: Core, d: Datum)
    requires Valid(c) && c.config.automaticDltsEna && c.zone.hasDls && !c.config.timeZoneOverride
    requires JustBeforeStartWest(c, CacheFor(c, d), LocalCount(d))
    ensures GetLocalTime(SetLocalTime(c, d).core).time == LocalCount(d) - c.zone.startRule.offset
  {
    SetLocalTimeSteps(c, d);
    ReadBackBeforeStart(c, CacheFor(c, d), LocalCount(d));
  }

  /** A northern zone west of Greenwich whose window in `c1` is northern too, and a local count L
      before the window's start whose UTC count is inside it, with no uint32_t step wrapping and
      the standard time L - dst in `c1`'s year. */
  predicate JustBeforeStartWest(c: Core, c1: Core, L: int)
  {
    var off := c.zone.offset as int;
    var dst := c.zone.startRule.offset as int;
    && c.dstEnd > c.dstStart && c1.dstStart < c1.dstEnd
    && off < 0 && 0 < dst
    && L < c1.dstStart <= L - off < c1.dstEnd
    && L - off < TWO_32
    && 0 <= L - off - dst
    && CalcYear(L - dst) == c1.dstYear
  }

  lemma ReadBackBeforeStart(c: Core, c1: Core, L: u32)
    requires Valid(c) && c.config.automaticDltsEna && c.zone.hasDls && !c.config.timeZoneOverride
    requires c1 == c.(dstYear := c1.dstYear, dstStart := c1.dstStart, dstEnd := c1.dstEnd)
    requires JustBeforeStartWest(c, c1, L)
    ensures GetLocalTime(c1.(timestamp := UndoDst(c, c.dstEnd > c.dstStart, c1, LocalToUtc(c, L)))).time
              == L - c.zone.startRule.offset
  {
    assert Membership(L - c.zone.offset, c.dstEnd > c.dstStart, c1.dstStart, c1.dstEnd);
    assert !InDst(L - c.zone.startRule.offset, c1.dstStart, c1.dstEnd);
    AutomaticReadBack(c, c1, L);
  }

  /** Right after power-up the cached window is empty (start = end = 0), which SetLocalTime reads
      as a southern-hemisphere zone: a winter time in a northern zone, before the window of its
      year, has the DST offset removed. */
  lemma SetLocalTimeAfterBoot(c: Core, d: Datum)
    requires Valid(c) && c.config.automaticDltsEna && !c.config.timeZoneOverride
    requires c.dstStart == 0 && c.dstEnd == 0
    requires var w := CacheFor(c, d);
             && w.dstStart < w.dstEnd
             && 0 <= LocalCount(d) - c.zone.offset < w.dstStart
    ensures SetLocalTime(c, d).core.timestamp == Wrap32(LocalCount(d) - c.zone.offset - c.zone.startRule.offset)
  {
    SetLocalTimeSteps(c, d);
    UndoAfterBoot(c, CacheFor(c, d), LocalCount(d));
  }

  lemma UndoAfterBoot(c: Core, c1: Core, L: u32)
    requires c.config.automaticDltsEna && !c.config.timeZoneOverride
    requires c.dstStart == 0 && c.dstEnd == 0
    requires c1.dstStart < c1.dstEnd && 0 <= L - c.zone.offset < c1.dstStart
    ensures UndoDst(c, c.dstEnd > c.dstStart, c1, LocalToUtc(c, L)) == Wrap32(L - c.zone.offset - c.zone.startRule.offset)
  {
    Wrap32Add(L - c.zone.offset, -(c.zone.startRule.offset as int));
  }

  /** A second conversion right after the first gives the same local time and leaves the cache alone. */
  lemma GetLocalTimeSettles(c: Core)
    requires Valid(c)
    ensures GetLocalTime(GetLocalTime(c).core) == GetLocalTime(c)
  {
    var r := GetLocalTime(c);
    assert StandardTime(r.core) == StandardTime(c);
  }

  /** For a zone with no base offset whose cache holds the current year, GetDLSstatus reports exactly
      the DST state GetLocalTime applies. */
  lemma DlsStatusMatchesLocalTime(c: Core)
    requires Valid(c) && c.config.automaticDltsEna && c.zone.hasDls && !c.config.timeZoneOverride
    requires c.zone.offset == 0
    requires Coherent(c) && c.dstYear == CalcYear(c.timestamp)
    ensures GetDlsStatus(c) <==> DstActive(c.zone, c.timestamp)
    ensures GetLocalTime(c).time == c.timestamp + (if GetDlsStatus(c) then c.zone.startRule.offset as int else 0)
  {
    assert StandardTime(c) == c.timestamp;
  }

  /** After SetTimeZone the next conversion (of any year but 1970) uses the new zone's window. */
  lemma SetTimeZoneRefreshes(c: Core, zone: u32)
    requires Valid(c)
    requires var s := SetTimeZone(c, zone);
             s.config.automaticDltsEna && s.zone.hasDls && CalcYear(StandardTime(s)) != 0
    ensures var s := SetTimeZone(c, zone);
            GetLocalTime(s).time
              == StandardTime(s) + (if DstActive(s.zone, StandardTime(s)) then s.zone.startRule.offset as int else 0)
  {
  }
}
