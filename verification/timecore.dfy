/**
 The Timecore object: a software RTC counting UTC seconds, fed by several
 time sources of different priority, and the conversion between that UTC
 count and local time (zone offset, automatic or manual daylight saving).

 The object's state is the immutable `Core` record; each member function
 of the class becomes a function from the old record to the new one (and
 its result). The registered sources' callbacks are represented by an
 opaque identity: `SetUtc` returns the `WriteTime` calls it makes instead of
 making them.
 */
module Timecore {
  import opened Machine
  import opened TimeLib
  import opened Calendar
  import opened Dst
  import opened TimecoreConfig
  import Datastore

  /** source_t, in rising priority. RTC_SRC_CNT is the number of kinds and of source slots. */
  datatype Source = NoRtc | RtcClock | NtpClock | GpsClock | UserDefined

  const RTC_SRC_CNT: nat := 5

  function Rank(s: Source): (n: nat)
    ensures n < RTC_SRC_CNT
  {
    match s
    case NoRtc => 0
    case RtcClock => 1
    case NtpClock => 2
    case GpsClock => 3
    case UserDefined => 4
  }

  function OfRank(n: nat): (s: Source)
    requires n < RTC_SRC_CNT
    ensures Rank(s) == n
  {
    if n == 0 then NoRtc else if n == 1 then RtcClock else if n == 2 then NtpClock
    else if n == 3 then GpsClock else UserDefined
  }

  /** rtc_source_t: the source's kind and the identity of its callbacks. */
  datatype TimeSource = TimeSource(kind: Source, id: nat)

  /** One call TimeSources[slot].WriteTime(time). */
  datatype WriteCall = WriteCall(slot: nat, id: nat, time: u32)

  /** The private state of a Timecore object. `rom` is the flash zone table LoadTimezone copies from,
      `zone` is TimeZoneRam, and dstYear/dstStart/dstEnd cache the DST window of one year. */
  datatype Core = Core(
    rom: ZoneTable,
    config: Config,
    zone: TimeZoneDef,
    dstYear: u8,
    dstStart: int,
    dstEnd: int,
    timestamp: u32,
    master: Source,
    sources: seq<TimeSource>,
    degradeTimer: u16)

  /** What every reachable state satisfies: the table and the loaded zone have valid rule months,
      the source table has its RTC_SRC_CNT slots, and the user is never the master source. */
  predicate Valid(c: Core) {
    ValidTable(c.rom) && RulesOk(c.zone) && |c.sources| == RTC_SRC_CNT && c.master != UserDefined
  }

  const INITIAL_DEGRADE_TIMER: u16 := 3600
  /** The value RTC_Tick reloads the degrade timer with. */
  const DEGRADE_RELOAD: u16 := 900

  /** The constructor of the global object: all-zero members except the initialisers of the class,
      then LoadTimezone of the (zero) configured zone. */
  function Init(rom: ZoneTable): (c: Core)
    requires ValidTable(rom)
    ensures Valid(c)
    ensures c.config == ZERO_CONFIG && c.zone == LoadTimezone(rom, 0)
    ensures c.timestamp == 0 && c.master == NoRtc && c.degradeTimer == INITIAL_DEGRADE_TIMER
    ensures c.dstYear == 0 && c.dstStart == 0 && c.dstEnd == 0
    ensures forall i :: 0 <= i < |c.sources| ==> c.sources[i].kind == NoRtc
  {
    Core(rom, ZERO_CONFIG, LoadTimezone(rom, 0), 0, 0, 0, 0, NoRtc,
         seq(RTC_SRC_CNT, i => TimeSource(NoRtc, 0)), INITIAL_DEGRADE_TIMER)
  }

  // ---- source arbitration ----

  /** Slot `j` gets the time an offer from `source` brings: it is registered and of lower priority. */
  predicate Pushed(sources: seq<TimeSource>, source: Source, j: int) {
    0 <= j < |sources| && sources[j].kind != NoRtc && Rank(sources[j].kind) < Rank(source)
  }

  /** The WriteTime calls of the loop over slots i .. RTC_SRC_CNT-1 in SetUTC. */
  function PushWrites(sources: seq<TimeSource>, source: Source, time: u32, i: nat): (w: seq<WriteCall>)
    requires i <= |sources|
    ensures forall k :: 0 <= k < |w| ==>
      i <= w[k].slot && Pushed(sources, source, w[k].slot) && w[k].id == sources[w[k].slot].id && w[k].time == time
    ensures forall k, l :: 0 <= k < l < |w| ==> w[k].slot < w[l].slot
    decreases |sources| - i
  {
    if i == |sources| then []
    else if Pushed(sources, source, i) then [WriteCall(i, sources[i].id, time)] + PushWrites(sources, source, time, i + 1)
    else PushWrites(sources, source, time, i + 1)
  }

  /** The number of slots in i .. j-1 an offer from `source` is written to. */
  function PushedBefore(sources: seq<TimeSource>, source: Source, i: nat, j: nat): nat
    requires i <= j
    decreases j - i
  {
    if i == j then 0 else (if Pushed(sources, source, i) then 1 else 0) + PushedBefore(sources, source, i + 1, j)
  }

  /** No slot that should get the time is skipped: slot `j` gets the write that follows the
      writes to the slots before it. */
  lemma {:induction false} PushWritesCover(sources: seq<TimeSource>, source: Source, time: u32, i: nat, j: nat)
    requires i <= j && Pushed(sources, source, j)
    ensures var w := PushWrites(sources, source, time, i);
            var k := PushedBefore(sources, source, i, j);
            k < |w| && w[k].slot == j
    decreases j - i
  {
    if i < j {
      PushWritesCover(sources, source, time, i + 1, j);
      var w1 := PushWrites(sources, source, time, i + 1);
      var k1 := PushedBefore(sources, source, i + 1, j);
      if Pushed(sources, source, i) {
        var w := [WriteCall(i, sources[i].id, time)] + w1;
        assert PushWrites(sources, source, time, i) == w;
        assert w[k1 + 1] == w1[k1];
      } else {
        assert PushWrites(sources, source, time, i) == w1;
      }
    } else {
      var w1 := PushWrites(sources, source, time, i + 1);
      assert PushWrites(sources, source, time, i) == [WriteCall(i, sources[i].id, time)] + w1;
    }
  }

  /** What SetUTC does: the new state and the WriteTime calls it made. */
  datatype Offer = Offer(core: Core, writes: seq<WriteCall>)

  /** SetUTC(uint32_t, source_t): a source of at least the master's priority sets the clock,
      becomes master unless it is the user, and its time is written to every registered source
      of lower priority; a lower source changes nothing. */
  function SetUtc(c: Core, time: u32, source: Source): (r: Offer)
    requires Valid(c)
    ensures Valid(r.core)
    ensures Rank(source) >= Rank(c.master) ==>
      && r.core.timestamp == time
      && r.core.master == (if source == UserDefined then c.master else source)
      && r.writes == PushWrites(c.sources, source, time, 0)
    ensures Rank(source) < Rank(c.master) ==> r == Offer(c, [])
    ensures Rank(r.core.master) >= Rank(c.master)
    ensures r.core == c.(timestamp := r.core.timestamp, master := r.core.master)
  {
    if Rank(source) >= Rank(c.master) then
      var master := if source != UserDefined then source else c.master;
      Offer(c.(master := master, timestamp := time), PushWrites(c.sources, source, time, 0))
    else
      Offer(c, [])
  }

  /** SetUTC(datum_t, source_t): the datum is converted with TimeStructToTimeStamp as it is,
      with no adjustment of a four-digit year. */
  function SetUtcDatum(c: Core, d: Datum, source: Source): (r: Offer)
    requires Valid(c)
    ensures Valid(r.core)
    ensures Rank(source) >= Rank(c.master) ==>
      && r.core.timestamp == TimeStructToTimeStamp(d)
      && r.core.master == (if source == UserDefined then c.master else source)
      && r.writes == PushWrites(c.sources, source, TimeStructToTimeStamp(d), 0)
    ensures Rank(source) < Rank(c.master) ==> r == Offer(c, [])
    ensures r.core == c.(timestamp := r.core.timestamp, master := r.core.master)
  {
    SetUtc(c, TimeStructToTimeStamp(d), source)
  }

  /** The user's offer is always taken: only the clock changes. */
  lemma UserOfferSetsClock(c: Core, time: u32)
    requires Valid(c)
    ensures SetUtc(c, time, UserDefined).core == c.(timestamp := time)
  {
    assert Rank(UserDefined) >= Rank(c.master);
  }

  /** The user's offer pushes the time into every registered source of lower priority, i.e. every
      source not itself registered as USER_DEFINED. */
  lemma UserOfferAccepted(c: Core, time: u32)
    requires Valid(c)
    ensures forall j :: 0 <= j < |c.sources| && c.sources[j].kind !in {NoRtc, UserDefined} ==>
      exists k :: 0 <= k < |SetUtc(c, time, UserDefined).writes| && SetUtc(c, time, UserDefined).writes[k].slot == j
  {
    forall j | 0 <= j < |c.sources| && c.sources[j].kind !in {NoRtc, UserDefined}
      ensures exists k :: 0 <= k < |SetUtc(c, time, UserDefined).writes| && SetUtc(c, time, UserDefined).writes[k].slot == j
    {
      assert Pushed(c.sources, UserDefined, j) by {
        assert Rank(c.sources[j].kind) < Rank(UserDefined);
      }
      PushWritesCover(c.sources, UserDefined, time, 0, j);
      var w := PushWrites(c.sources, UserDefined, time, 0);
      assert SetUtc(c, time, UserDefined).writes == w;
      var k := PushedBefore(c.sources, UserDefined, 0, j);
      assert SetUtc(c, time, UserDefined).writes[k].slot == j;
    }
  }

  /** A full year given to SetUTC(datum_t) counts from 1970 + (low byte + 30) mod 256:
      2024 is taken as 1976. */
  lemma SetUtcDatumFullYear(c: Core, d: Datum, source: Source)
    requires Valid(c) && Rank(source) >= Rank(c.master)
    requires ValidDate(d) && d.year == 2024
    ensures CalcYear(SetUtcDatum(c, d, source).core.timestamp) == 6
  {
    assert StampYear(d.year) == 6;
    CalcYearOfTimeStruct(d);
  }

  /** The least free slot at or after `i`, or |sources| when none is free. */
  function FirstFree(sources: seq<TimeSource>, i: nat): (j: nat)
    requires i <= |sources|
    ensures i <= j <= |sources|
    ensures forall k :: i <= k < j ==> sources[k].kind != NoRtc
    ensures j < |sources| ==> sources[j].kind == NoRtc
    decreases |sources| - i
  {
    if i == |sources| || sources[i].kind == NoRtc then i else FirstFree(sources, i + 1)
  }

  /** RegisterTimeSource: the source takes the lowest free slot; with no free slot it is dropped. */
  function RegisterTimeSource(c: Core, source: TimeSource): (r: Core)
    requires Valid(c)
    ensures Valid(r)
    ensures r == c.(sources := r.sources)
    ensures forall k :: 0 <= k < |c.sources| && c.sources[k].kind != NoRtc ==> r.sources[k] == c.sources[k]
    ensures (exists k :: 0 <= k < |c.sources| && c.sources[k].kind == NoRtc) ==>
      exists j :: 0 <= j < |c.sources| && r.sources == c.sources[j := source]
                  && c.sources[j].kind == NoRtc && forall k :: 0 <= k < j ==> c.sources[k].kind != NoRtc
    ensures (forall k :: 0 <= k < |c.sources| ==> c.sources[k].kind != NoRtc) ==> r == c
  {
    var j := FirstFree(c.sources, 0);
    if j < |c.sources| then c.(sources := c.sources[j := source]) else c
  }

  // ---- the seconds tick and the degradation of the master source ----

  /** One level lower, or NO_RTC unchanged. */
  function Demote(s: Source): (r: Source)
    ensures Rank(r) == if Rank(s) > 0 then Rank(s) - 1 else 0
  {
    if Rank(s) > 0 then OfRank(Rank(s) - 1) else s
  }

  /** `s` lowered by `k` levels, stopping at NO_RTC. */
  function DemoteBy(s: Source, k: nat): (r: Source)
    ensures Rank(r) == if Rank(s) >= k then Rank(s) - k else 0
  {
    OfRank(if Rank(s) >= k then Rank(s) - k else 0)
  }

  /** RTC_Tick: one second more; the degrade timer counts down, and when it is already zero the
      master source loses one level and the timer is reloaded. */
  function RtcTick(c: Core): (r: Core)
    requires Valid(c)
    ensures Valid(r)
    ensures r.timestamp == Wrap32(c.timestamp + 1)
    ensures c.degradeTimer > 0 ==> r.master == c.master && r.degradeTimer == c.degradeTimer - 1
    ensures c.degradeTimer == 0 ==>
      Rank(r.master) == (if Rank(c.master) > 0 then Rank(c.master) - 1 else 0) && r.degradeTimer == DEGRADE_RELOAD
    ensures r == c.(timestamp := r.timestamp, master := r.master, degradeTimer := r.degradeTimer)
  {
    var c1 := c.(timestamp := Wrap32(c.timestamp + 1));
    if c1.degradeTimer > 0 then c1.(degradeTimer := c1.degradeTimer - 1)
    else c1.(master := Demote(c1.master), degradeTimer := DEGRADE_RELOAD)
  }

  /** `n` calls of RTC_Tick. */
  function Ticks(c: Core, n: nat): (r: Core)
    requires Valid(c)
    ensures Valid(r)
    decreases n
  {
    if n == 0 then c else Ticks(RtcTick(c), n - 1)
  }

  /** After the timer's first run-out, demotions come every DEGRADE_RELOAD + 1 ticks. */
  const DEGRADE_PERIOD: nat := DEGRADE_RELOAD as nat + 1

  /** How many demotions `n` ticks cause when the degrade timer starts at `timer`. */
  function Demotions(timer: nat, n: nat): nat
  {
    if n <= timer then 0 else 1 + (n - timer - 1) / DEGRADE_PERIOD
  }

  /** The degrade timer after `n` ticks from `timer`. */
  function TimerAfter(timer: nat, n: nat): nat
  {
    if n <= timer then timer - n else DEGRADE_RELOAD as nat - (n - timer - 1) % DEGRADE_PERIOD
  }

  lemma PeriodStep(x: nat)
    ensures (x + DEGRADE_PERIOD) / DEGRADE_PERIOD == x / DEGRADE_PERIOD + 1
    ensures (x + DEGRADE_PERIOD) % DEGRADE_PERIOD == x % DEGRADE_PERIOD
  {
  }

  /** One tick's effect on the counts of demotions and on the timer. */
  lemma ScheduleStep(timer: nat, n: nat)
    requires n > 0
    ensures timer > 0 ==> Demotions(timer, n) == Demotions(timer - 1, n - 1) && TimerAfter(timer, n) == TimerAfter(timer - 1, n - 1)
    ensures timer == 0 ==>
      Demotions(0, n) == 1 + Demotions(DEGRADE_RELOAD as nat, n - 1) && TimerAfter(0, n) == TimerAfter(DEGRADE_RELOAD as nat, n - 1)
  {
    if timer == 0 && n - 1 > DEGRADE_RELOAD as nat {
      PeriodStep(n - 1 - DEGRADE_PERIOD);
    }
  }

  lemma DemoteByStep(s: Source, k: nat)
    ensures DemoteBy(Demote(s), k) == DemoteBy(s, k + 1)
  {
  }

  /** `b` is `a` with only the clock, the master source and the degrade timer changed. */
  predicate OnlyClockChanged(a: Core, b: Core) {
    b == a.(timestamp := b.timestamp, master := b.master, degradeTimer := b.degradeTimer)
  }

  /** `n` ticks advance the clock by `n` seconds modulo 2^32 and lower the master source by the
      number of times the degrade timer ran out; nothing else changes. */
  lemma TicksDegrade(c: Core, n: nat)
    requires Valid(c)
    ensures Ticks(c, n).timestamp == Wrap32(c.timestamp + n)
    ensures Ticks(c, n).master == DemoteBy(c.master, Demotions(c.degradeTimer, n))
    ensures Ticks(c, n).degradeTimer == TimerAfter(c.degradeTimer, n)
    ensures OnlyClockChanged(c, Ticks(c, n))
  {
    TicksClock(c, n);
    TicksFrame(c, n);
    TicksSchedule(c, n);
  }

  lemma {:induction false} TicksClock(c: Core, n: nat)
    requires Valid(c)
    ensures Ticks(c, n).timestamp == Wrap32(c.timestamp + n)
    decreases n
  {
    if n > 0 {
      var c1 := RtcTick(c);
      assert Ticks(c, n) == Ticks(c1, n - 1);
      TicksClock(c1, n - 1);
      ClockStep(c.timestamp, c1.timestamp, n, Ticks(c, n).timestamp);
    }
  }

  lemma ClockStep(a: int, b: int, n: int, r: int)
    requires b == Wrap32(a + 1) && r == Wrap32(b + (n - 1))
    ensures r == Wrap32(a + n)
  {
    Wrap32Add(a + 1, n - 1);
  }

  lemma {:induction false} TicksFrame(c: Core, n: nat)
    requires Valid(c)
    ensures OnlyClockChanged(c, Ticks(c, n))
    decreases n
  {
    if n > 0 {
      var c1 := RtcTick(c);
      assert Ticks(c, n) == Ticks(c1, n - 1);
      TicksFrame(c1, n - 1);
    }
  }

  lemma {:induction false} TicksSchedule(c: Core, n: nat)
    requires Valid(c)
    ensures Ticks(c, n).master == DemoteBy(c.master, Demotions(c.degradeTimer, n))
    ensures Ticks(c, n).degradeTimer == TimerAfter(c.degradeTimer, n)
    decreases n
  {
    if n > 0 {
      var c1 := RtcTick(c);
      assert Ticks(c, n) == Ticks(c1, n - 1);
      TicksSchedule(c1, n - 1);
      ScheduleStep(c.degradeTimer, n);
      if c.degradeTimer == 0 {
        DemoteByStep(c.master, Demotions(c1.degradeTimer, n - 1));
      } else {
        assert c1.master == c.master;
      }
    }
  }

  /** Once a source falls silent, every offer is accepted again after at most timer + 1 +
      DEGRADE_PERIOD * (rank - 1) seconds: the master has decayed to NO_RTC. */
  lemma SilentMasterDecays(c: Core, n: nat)
    requires Valid(c)
    requires Rank(c.master) > 0
    requires n >= c.degradeTimer + 1 + DEGRADE_PERIOD * (Rank(c.master) - 1)
    ensures Ticks(c, n).master == NoRtc
  {
    TicksDegrade(c, n);
    DemotionsReach(c.degradeTimer, n, Rank(c.master));
  }

  lemma DemotionsReach(timer: nat, n: nat, r: nat)
    requires r > 0 && n >= timer + 1 + DEGRADE_PERIOD * (r - 1)
    ensures Demotions(timer, n) >= r
  {
    var x := n - timer - 1;
    assert DEGRADE_PERIOD == 901;
    assert x >= 901 * (r - 1);
    var q := x / 901;
    assert x == 901 * q + x % 901;
  }

  /** From power-up, the first demotion happens on tick 3601. */
  lemma FirstDemotionAfterBoot(rom: ZoneTable, master: Source)
    requires ValidTable(rom) && master != UserDefined
    ensures var c := Init(rom).(master := master);
            Ticks(c, 3600).master == master && Rank(Ticks(c, 3601).master) == (if Rank(master) > 0 then Rank(master) - 1 else 0)
  {
    var c := Init(rom).(master := master);
    TicksDegrade(c, 3600);
    TicksDegrade(c, 3601);
  }

  // ---- configuration ----

  function GetConfig(c: Core): Config { c.config }
  function GetDlsOffset(c: Core): u32 { c.config.dltsOffsetIdx }
  function GetGmtOffset(c: Core): i32 { c.config.gmtOffset }
  function GetAutomaticDls(c: Core): bool { c.config.automaticDltsEna }
  function GetManualDlsEna(c: Core): bool { c.config.manualDlsEna }
  function GetTimeZoneManual(c: Core): bool { c.config.timeZoneOverride }
  function GetTimeZone(c: Core): u32 { c.config.timeZone }
  function GetUtc(c: Core): u32 { c.timestamp }

  /** SetDLS_Offset: an index below DLST_OFFSET_CNT is stored, any other is ignored. */
  function SetDlsOffset(c: Core, idx: u32): (r: Core)
    ensures idx < DLST_OFFSET_CNT ==> GetDlsOffset(r) == idx
    ensures idx >= DLST_OFFSET_CNT ==> r == c
    ensures r == c.(config := c.config.(dltsOffsetIdx := GetDlsOffset(r)))
  {
    if idx < DLST_OFFSET_CNT then c.(config := c.config.(dltsOffsetIdx := idx)) else c
  }

  /** SetGMT_Offset: the manual offset in minutes, stored unchecked. */
  function SetGmtOffset(c: Core, minutes: i32): (r: Core)
    ensures GetGmtOffset(r) == minutes
    ensures r == c.(config := c.config.(gmtOffset := GetGmtOffset(r)))
  {
    c.(config := c.config.(gmtOffset := minutes))
  }

  function SetAutomaticDls(c: Core, ena: bool): (r: Core)
    ensures GetAutomaticDls(r) == ena
    ensures r == c.(config := c.config.(automaticDltsEna := GetAutomaticDls(r)))
  {
    c.(config := c.config.(automaticDltsEna := ena))
  }

  function SetManualDlsEna(c: Core, ena: bool): (r: Core)
    ensures GetManualDlsEna(r) == ena
    ensures r == c.(config := c.config.(manualDlsEna := GetManualDlsEna(r)))
  {
    c.(config := c.config.(manualDlsEna := ena))
  }

  function SetTimeZoneManual(c: Core, ena: bool): (r: Core)
    ensures GetTimeZoneManual(r) == ena
    ensures r == c.(config := c.config.(timeZoneOverride := GetTimeZoneManual(r)))
  {
    c.(config := c.config.(timeZoneOverride := ena))
  }

  /** SetConfig: the whole record is copied and its zone loaded (the enum narrowed to the uint16_t
      LoadTimezone takes). The DST cache is left as it was. */
  function SetConfig(c: Core, conf: Config): (r: Core)
    requires Valid(c)
    ensures Valid(r)
    ensures GetConfig(r) == conf
    ensures r.zone == LoadTimezone(c.rom, conf.timeZone % 0x1_0000)
    ensures r == c.(config := conf, zone := r.zone)
  {
    c.(config := conf, zone := LoadTimezone(c.rom, conf.timeZone % 0x1_0000))
  }

  /** SetTimeZone: the zone is stored and loaded, and the cached DST year is cleared (year 0) so
      that the next conversion of a later year recomputes the window. */
  function SetTimeZone(c: Core, zone: u32): (r: Core)
    requires Valid(c)
    ensures Valid(r)
    ensures GetTimeZone(r) == zone && r.zone == LoadTimezone(c.rom, zone % 0x1_0000) && r.dstYear == 0
    ensures r == c.(config := c.config.(timeZone := zone), zone := r.zone, dstYear := 0)
  {
    c.(config := c.config.(timeZone := zone), zone := LoadTimezone(c.rom, zone % 0x1_0000), dstYear := 0)
  }

  /** SaveConfig: write_timecoreconf of the current record; reading it back gives that record, and
      no byte outside the configuration record and its checksum changes. */
  function SaveConfig(c: Core, m: Datastore.Medium): (r: Datastore.Medium)
    ensures forall europeLondon: u32 :: Datastore.ReadTimecoreConf(r, europeLondon).value == c.config
    ensures forall i :: 0 <= i < Datastore.TIMECORECONFIG_START ==> r[i] == m[i]
    ensures forall i :: Datastore.TIMECORECONFIG_START + CONFIG_SIZE + Datastore.CRC_SIZE <= i < Datastore.EEPROM_SIZE ==> r[i] == m[i]
  {
    forall europeLondon: u32 ensures Datastore.ReadTimecoreConf(Datastore.WriteTimecoreConf(m, c.config), europeLondon).value == c.config {
      Datastore.TimecoreConfRoundTrip(m, c.config, europeLondon);
    }
    Datastore.WriteTimecoreConf(m, c.config)
  }

  // ---- daylight saving and local time ----

  /** The DST window of the zone's rules in year 1970 + `year`. */
  function WindowStart(z: TimeZoneDef, year: u8): int requires RulesOk(z) { CalcTime(z.startRule, year) }
  function WindowEnd(z: TimeZoneDef, year: u8): int requires RulesOk(z) { CalcTime(z.endRule, year) }

  /** The cache holds the window of the year it names. */
  predicate Coherent(c: Core)
    requires RulesOk(c.zone)
  {
    c.dstStart == WindowStart(c.zone, c.dstYear) && c.dstEnd == WindowEnd(c.zone, c.dstYear)
  }

  /** Whether the instant `t` (of the zone's standard time) lies in the DST window of its own year:
      the reference the cached computation is compared against. */
  predicate DstActive(z: TimeZoneDef, t: int)
    requires RulesOk(z) && t < CALC_YEAR_LIMIT
  {
    var y := CalcYear(t);
    InDst(t, WindowStart(z, y), WindowEnd(z, y))
  }

  /** Recompute the cache for `year`. */
  function RefreshDst(c: Core, year: u8): (r: Core)
    requires RulesOk(c.zone)
    ensures RulesOk(r.zone) && Coherent(r) && r.dstYear == year
    ensures r == c.(dstYear := year, dstStart := r.dstStart, dstEnd := r.dstEnd)
  {
    c.(dstYear := year, dstStart := WindowStart(c.zone, year), dstEnd := WindowEnd(c.zone, year))
  }

  /** GetDLSstatus: with automatic DST, whether the UTC count lies in the cached window (which is
      not refreshed here); otherwise the manual flag. */
  function GetDlsStatus(c: Core): (active: bool)
    ensures c.config.automaticDltsEna ==> (active <==> InDst(c.timestamp, c.dstStart, c.dstEnd))
    ensures !c.config.automaticDltsEna ==> (active <==> c.config.manualDlsEna)
  {
    if c.config.automaticDltsEna then Membership(c.timestamp, c.dstEnd > c.dstStart, c.dstStart, c.dstEnd)
    else c.config.manualDlsEna
  }

  /** The UTC count moved to the zone's standard time: the zone's offset, added only when the count
      exceeds it, or with the override the manual offset in minutes (times 60 in int32_t). */
  function StandardTime(c: Core): (t: int)
    ensures !c.config.timeZoneOverride && c.timestamp > c.zone.offset ==> t == c.timestamp + c.zone.offset
    ensures !c.config.timeZoneOverride && c.timestamp <= c.zone.offset ==> t == c.timestamp
    ensures c.config.timeZoneOverride ==> t == c.timestamp + ToI32(c.config.gmtOffset * 60)
    ensures t < CALC_YEAR_LIMIT
  {
    var now := c.timestamp as int;
    if !c.config.timeZoneOverride then (if now > c.zone.offset then now + c.zone.offset else now)
    else now + ToI32(c.config.gmtOffset * 60)
  }

  /** GetLocalTime's result and the state after it (it may refresh the DST cache). */
  datatype Local = Local(core: Core, time: int)

  /** GetLocalTime: standard time, then the manual shift, or (automatic DST, zone with DST) the
      start rule's offset when standard time lies in the window of its year. */
  function GetLocalTime(c: Core): (r: Local)
    requires Valid(c)
    ensures Valid(r.core)
    ensures r.core == c.(dstYear := r.core.dstYear, dstStart := r.core.dstStart, dstEnd := r.core.dstEnd)
    ensures !c.config.automaticDltsEna ==>
      r.core == c && r.time == StandardTime(c) + (if c.config.manualDlsEna then ManualDlsShift(c.config.dltsOffsetIdx) else 0)
    ensures c.config.automaticDltsEna && !c.zone.hasDls ==> r.core == c && r.time == StandardTime(c)
    ensures c.config.automaticDltsEna && c.zone.hasDls ==>
      && r.core.dstYear == CalcYear(StandardTime(c))
      && (Coherent(c) ==> Coherent(r.core))
      && (c.dstYear != CalcYear(StandardTime(c)) ==> Coherent(r.core))
    ensures c.config.automaticDltsEna && c.zone.hasDls && c.dstYear == CalcYear(StandardTime(c)) ==> r.core == c
    ensures c.config.automaticDltsEna && c.zone.hasDls ==>
      r.time == StandardTime(c) + (if InDst(StandardTime(c), r.core.dstStart, r.core.dstEnd) then c.zone.startRule.offset as int else 0)
    ensures c.config.automaticDltsEna && c.zone.hasDls && Coherent(r.core) ==>
      r.time == StandardTime(c) + (if DstActive(c.zone, StandardTime(c)) then c.zone.startRule.offset as int else 0)
  {
    var now := StandardTime(c);
    if !c.config.automaticDltsEna then
      Local(c, if c.config.manualDlsEna then now + ManualDlsShift(c.config.dltsOffsetIdx) else now)
    else if !c.zone.hasDls then
      Local(c, now)
    else
      var year := CalcYear(now);
      var c1 := if c.dstYear != year then RefreshDst(c, year) else c;
      var north := c1.dstEnd > c1.dstStart;
      Local(c1, if Membership(now, north, c1.dstStart, c1.dstEnd) then now + c.zone.startRule.offset else now)
  }

  /** The year field SetLocalTime works with: a four-digit year has 2000 taken off. */
  function LocalDatum(d: Datum): (e: Datum)
    ensures d.year >= 2000 ==> e == d.(year := d.year - 2000)
    ensures d.year < 2000 ==> e == d
  {
    if d.year >= 2000 then d.(year := d.year - 2000) else d
  }

  /** SetLocalTime's first step: the local count moved back by the zone offset (or the manual
      offset in minutes), in uint32_t arithmetic. */
  function LocalToUtc(c: Core, local: u32): (u: u32)
    ensures c.config.timeZoneOverride ==> u == Wrap32(local - ToI32(c.config.gmtOffset * 60))
    ensures !c.config.timeZoneOverride ==> u == Wrap32(local - c.zone.offset)
    ensures !c.config.timeZoneOverride && 0 <= local - c.zone.offset < TWO_32 && local - c.zone.offset > c.zone.offset ==>
      StandardTime(c.(timestamp := u)) == local
    ensures c.config.timeZoneOverride && 0 <= local - ToI32(c.config.gmtOffset * 60) < TWO_32 ==>
      StandardTime(c.(timestamp := u)) == local
  {
    if c.config.timeZoneOverride then Wrap32(local - ToI32(c.config.gmtOffset * 60))
    else Wrap32(local - c.zone.offset)
  }

  /** SetLocalTime's cache step: the uint8_t cache key is compared with the int `key` and, when they
      differ, the window is recomputed for the key stored into the uint8_t. */
  function CacheForKey(c: Core, key: int): (r: Core)
    requires RulesOk(c.zone)
    ensures RulesOk(r.zone) && r.zone == c.zone
    ensures r.dstYear == Wrap8(key)
    ensures c.dstYear as int != key || Coherent(c) ==> Coherent(r)
    ensures r == c.(dstYear := r.dstYear, dstStart := r.dstStart, dstEnd := r.dstEnd)
    ensures c.dstYear as int != key ==> r == RefreshDst(c, Wrap8(key))
    ensures c.dstYear as int == key ==> r == c
  {
    if c.dstYear as int != key then RefreshDst(c, Wrap8(key)) else c
  }

  /** SetLocalTime's last step: the DST offset (tested with the hemisphere `north` against the
      window of `c1`) or the manual shift is taken off the UTC count `u`. */
  function UndoDst(c: Core, north: bool, c1: Core, u: u32): (v: u32)
    ensures c.config.automaticDltsEna ==>
      Wrap32(v + (if Membership(u, north, c1.dstStart, c1.dstEnd) then c.zone.startRule.offset as int else 0)) == u
    ensures !c.config.automaticDltsEna && c.config.manualDlsEna ==> Wrap32(v + ManualDlsShift(c.config.dltsOffsetIdx)) == u
    ensures !c.config.automaticDltsEna && !c.config.manualDlsEna ==> v == u
  {
    if c.config.automaticDltsEna then
      (if Membership(u, north, c1.dstStart, c1.dstEnd) then Wrap32(u - c.zone.startRule.offset) else u)
    else if c.config.manualDlsEna then Wrap32(u + ManualDlsUndo(c.config.dltsOffsetIdx))
    else u
  }

  /** The local count SetLocalTime starts from. */
  function LocalCount(d: Datum): u32
  {
    TimeStructToTimeStamp(LocalDatum(d))
  }

  /** The cache SetLocalTime works with for the datum `d`. */
  function CacheFor(c: Core, d: Datum): (r: Core)
    requires Valid(c)
    ensures Valid(r) && r.dstYear == Wrap8(LocalDatum(d).year + 30)
    ensures r == c.(dstYear := r.dstYear, dstStart := r.dstStart, dstEnd := r.dstEnd)
  {
    CacheForKey(c, LocalDatum(d).year + 30)
  }

  /** SetLocalTime: the datum (years since 2000) becomes a local count, the zone offset and the DST
      or manual shift are removed in uint32_t arithmetic, and the result is offered as USER_DEFINED.
      The hemisphere is taken from the cache before it is refreshed for the datum's year, and the
      start rule's offset is removed without looking at has_dls. */
  function SetLocalTime(c: Core, d: Datum): (r: Offer)
    requires Valid(c)
    ensures Valid(r.core)
    ensures r.core.master == c.master
    ensures r.core == c.(timestamp := r.core.timestamp, dstYear := r.core.dstYear,
                         dstStart := r.core.dstStart, dstEnd := r.core.dstEnd)
    ensures r.core.dstYear == Wrap8(LocalDatum(d).year + 30)
  {
    var u1 := LocalToUtc(c, LocalCount(d));
    var c1 := CacheFor(c, d);
    var u2 := UndoDst(c, c.dstEnd > c.dstStart, c1, u1);
    SetUtc(c1, u2, UserDefined)
  }

  /** SetLocalTime, step by step: the state after it is the refreshed cache with the clock set to the
      count with the offsets undone. */
  lemma SetLocalTimeSteps(c: Core, d: Datum)
    requires Valid(c)
    ensures var c1 := CacheFor(c, d);
            SetLocalTime(c, d).core == c1.(timestamp := UndoDst(c, c.dstEnd > c.dstStart, c1, LocalToUtc(c, LocalCount(d))))
  {
    var c1 := CacheFor(c, d);
    UserOfferSetsClock(c1, UndoDst(c, c.dstEnd > c.dstStart, c1, LocalToUtc(c, LocalCount(d))));
  }

  /** SetLocalTime leaves a coherent cache when it recomputed the window or the window was
      already coherent. */
  lemma SetLocalTimeCache(c: Core, d: Datum)
    requires Valid(c)
    ensures c.dstYear as int != LocalDatum(d).year + 30 ==> Coherent(SetLocalTime(c, d).core)
    ensures Coherent(c) ==> Coherent(SetLocalTime(c, d).core)
  {
    SetLocalTimeSteps(c, d);
  }

  /** SetLocalTime's offer is the user's: its time is written to the slots PushWrites selects for
      USER_DEFINED, which UserOfferAccepted shows are all registered sources not themselves
      USER_DEFINED. */
  lemma SetLocalTimePushes(c: Core, d: Datum)
    requires Valid(c)
    ensures var r := SetLocalTime(c, d);
            r.writes == PushWrites(c.sources, UserDefined, r.core.timestamp, 0)
  {
    var c1 := CacheFor(c, d);
    assert Rank(UserDefined) >= Rank(c1.master);
  }
}
