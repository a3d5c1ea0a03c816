# mini-NTP ESP32 time core, modelled in Dafny

This project models the time core and the persistent store of the Elektor
mini-NTP server firmware for the ESP32.

- **Timecore** keeps a software RTC: a uint32_t count of UTC seconds. The
  count is fed by registered time sources of rising priority: RTC, NTP, GPS,
  and the user. A source's offer is accepted only when its priority is at
  least the current master's. An accepted time is pushed to every registered
  source of lower priority. A degrade timer lowers the master one level each
  time it runs out, so a silent source loses its hold on the clock.
- **Local time.** Timecore converts between the UTC count and local time. It
  applies the zone's base offset, and either a manual daylight-saving shift
  or automatic DST. Automatic DST uses the zone's start and end rules ("Last
  Sunday of March at 01:00"), and caches the DST window of one year at a time.
- **Calendar.** The core carries its own calendar arithmetic: `my_mktime`,
  `calcYear`, `calcTime`, and `TimeStructToTimeStamp`.
- **Datastore.** The store keeps fixed-address records in a 4096-byte
  emulated EEPROM. Each record is followed by its CRC-32. Each typed reader
  heals itself: when the checksum fails, it writes a default back.

The model is functional. The object's state is an immutable `Core` record,
and each member function becomes a pure function from the old record to the
new one. The EEPROM is a 4096-byte sequence. Loops that matter are also
written as methods, statement by statement, and proved equal to the
functions.

Module layout:

| file | module | what |
|---|---|---|
| machine.dfy | `Machine` | uint8_t/uint16_t/uint32_t/int32_t, C narrowing and truncating division, little-endian bytes |
| timelib.dfy | `TimeLib` | the TimeLib calls the core makes (`LEAP_YEAR`, `weekday`), stated as assumptions |
| calendar.dfy | `Calendar` | days before a year and month, `my_mktime`, `calcYear`, `TimeStructToTimeStamp` |
| dst.dfy | `Dst` | `dstRule`, `timezone_t`, the zone table, `LoadTimezone`, `calcTime`, the hemisphere test |
| config.dfy | `TimecoreConfig` | `timecoreconf_t`, `GetDefaultConfig`, the manual DST switch, the record's memory image |
| crc.dfy | `Crc` | CRC-32 (IEEE 802.3) as the CRC32 library computes it |
| datastore.dfy | `Datastore` | `eepwrite_struct`/`eepread_struct`, the typed readers and writers, notes, erase, layout |
| timecore.dfy | `Timecore` | the object's state, source arbitration, the tick, the configuration, GetLocalTime, SetLocalTime |
| timecore_props.dfy | `TimecoreProperties` | SetLocalTime followed by GetLocalTime, and the other multi-call properties |

Assumptions about code that is not part of this model:

- **TimeLib.** `LEAP_YEAR(Y)` is the Gregorian rule applied to 1970 + Y.
- **TimeLib.** `weekday(t)` is 1 (Sunday) to 7 (Saturday), computed from the uint32_t view of `t`.
- **CRC32 library.** It computes the reflected IEEE CRC-32: polynomial 0xEDB88320, preset 0xFFFFFFFF, final complement.
- **EEPROM library.** `read` outside the 4096 bytes returns 0, and `write` there does nothing.
- **Integer widths.** `time_t` is 64-bit signed, so it is an unbounded `int`. The enums of timezone_enums.h are 4 bytes wide. The `DLTS_OFFSET_t` values are MINUS_60 = 0 … PLUS_60 = 4 and CNT = 5.

Some points where the model follows the code:

- **Degrade period.** A master holds for 901 ticks per level, not 900. `RTC_Tick` counts the timer from 900 down to 0, and the run-out tick takes one more call. The first run-out comes on tick 3601, because the timer starts at 3600.
- **`SetUTC(datum_t)`.** A four-digit year is passed straight to `TimeStructToTimeStamp`, which keeps only the low byte plus 30. So 2024 is read as 1976.
- **`SetLocalTime` and DST.**
  - It tests the UTC count, not local or standard time, against the window.
  - It takes the hemisphere from the cache as it was before refreshing the cache.
  - It removes the start rule's offset without looking at `has_dls`.
  - Right after power-up the cache is empty (0, 0), which reads as a southern zone.
- **`GetLocalTime`.** It adds the zone offset only when the count exceeds it.
- **`GetDLSstatus`.** It tests the UTC count against the cached window and does not refresh the cache.
- **`SetConfig` and `SetTimeZone`.** `SetConfig` leaves the DST cache alone. `SetTimeZone` clears only the cached year.
- **`calcTime`.** A December "Last" rule starts from 1 January of the same year, so it lands in the previous year's December.
- **Notes.** `eepread_notes` reads at most 501 bytes. `eepwrite_notes` erases a 512-byte window first.

## Model

| member | source | states |
|---|---|---|
| Calendar.DaysBeforeYearBounds | Firmware/src/timecore.cpp:649-654 | the days before year y lie between 365·y and 366·y |
| Calendar.DaysBeforeYearMonotone | Firmware/src/timecore.cpp:586-588 | a later year never starts earlier |
| Calendar.DaysBeforeYearClosedForm | Firmware/src/timecore.cpp:649-654 | up to 2106 the leap days before year y are (y+1)/4, less one once 2100 is passed |
| Calendar.LeapYearsFrom1970 | Firmware/src/timecore.cpp:651 | between 1970 and 2105 LEAP_YEAR holds exactly every fourth year from 1972, except 2100 |
| Calendar.DaysBeforeMonthFullYear | Firmware/src/timecore.cpp:657-663 | the twelve month lengths (February 29 days in a leap year) add up to the year's length |
| Calendar.DaysBeforeMonthMonotone | Firmware/src/timecore.cpp:657-663 | a later month never starts earlier |
| Calendar.MyMktime | Firmware/src/timecore.cpp:642-670 | my_mktime's loops compute the seconds of whole years, leap days, months, day, hour, minute and second (MkTime) |
| Calendar.YearContaining | Firmware/src/timecore.cpp:586-588 | the year found contains the given day |
| Calendar.CalcYear | Firmware/src/timecore.cpp:579-591 | calcYear is the year whose span of seconds contains `time`, and 0 before 1970 |
| Calendar.CalcYearLoop | Firmware/src/timecore.cpp:579-591 | the loop of calcYear, with C division of a signed time, computes CalcYear |
| Calendar.CalcYearOfMkTime | Firmware/src/timecore.cpp:579-591 | calcYear recovers tm_year from any valid broken-down time my_mktime converts |
| Calendar.Clamp | Firmware/src/timecore.cpp:685-703 | month>12 becomes 1, day>31 becomes 1, hour>23, minute>59, second>59 become 0; other fields are kept; in-range data is unchanged |
| Calendar.DaysBeforeMonthFrom1Shift | Firmware/src/timecore.cpp:718-724 | the 1-based month loop counts the same days as my_mktime's 0-based one |
| Calendar.TimeStructToTimeStampLoop | Firmware/src/timecore.cpp:672-732 | the statements of TimeStructToTimeStamp (uint8_t copies, clamping, +30 in a uint8_t, uint32_t sums) compute TimeStructToTimeStamp |
| Calendar.AccumulateStamp | Firmware/src/timecore.cpp:710-728 | reducing modulo 2^32 after every addition gives the exact sum modulo 2^32 |
| Calendar.AccumulateYears | Firmware/src/timecore.cpp:710-715 | the year loop yields the seconds before the year, modulo 2^32 |
| Calendar.AccumulateMonths | Firmware/src/timecore.cpp:718-724 | the month loop adds the seconds of months 1..month-1, modulo 2^32 |
| Calendar.TimeStructToTimeStampIsMkTime | Firmware/src/timecore.cpp:672-732 | for in-range fields without overflow, the stamp is my_mktime with tm_year = StampYear and tm_mon = month-1 |
| Calendar.MonthZeroStampsAsJanuary | Firmware/src/timecore.cpp:685-724 | month 0 is not clamped and stamps exactly as month 1 |
| Calendar.DaysBeforeYear136 | Firmware/src/timecore.cpp:707-710 | 1970 to the end of 2105 is 49673 days, and every second of it fits a uint32_t |
| Calendar.MkTimeFits | Firmware/src/timecore.cpp:642-670 | a valid time of a year up to 2105 lies in [0, 2^32) and before the next year |
| Calendar.CalcYearOfTimeStruct | Firmware/src/timecore.cpp:707 | calcYear of the stamp is the biased uint8_t year (low byte + 30) whenever that year is at most 135 |
| Machine.Wrap32Add | Firmware/src/timecore.cpp:710-728 | storing into a uint32_t after each addition equals storing once at the end |
| Machine.CDiv | Firmware/src/timecore.cpp:584 | C division of a signed time by a day rounds toward zero |
| Machine.FromLeBytesOfLeBytes | Firmware/src/datastore.cpp:243-247 | the four bytes of a uint32_t in memory order read back as the same value |
| Machine.LeBytesOfFromLeBytes | Firmware/src/datastore.cpp:209-213 | four bytes read as a uint32_t and stored again are the same bytes |
| Machine.FromLeBytesInjective | Firmware/src/datastore.cpp:215 | two different trailers never compare equal |
| TimecoreConfig.GetDefaultConfig | Firmware/src/timecore.cpp:114-124 | Europe_London, offset index DLST_OFFSET_0 (no shift), automatic DST on, manual DST and override off, GMT offset 0 |
| TimecoreConfig.ManualDlsShift | Firmware/src/timecore.cpp:498-522 | GetLocalTime's manual shift: −3600, −1800, 0, +1800, +3600 for MINUS_60 … PLUS_60, 0 for any other index |
| TimecoreConfig.ManualDlsUndo | Firmware/src/timecore.cpp:424-448 | SetLocalTime's switch is the exact negation of GetLocalTime's for every index |
| TimecoreConfig.EncodeConfig | Firmware/src/timecore.h:34-41 | the record's image is 16 bytes with the three bools at offsets 8, 9, 10 and the pad byte at offset 11 written as 0 |
| TimecoreConfig.DecodeIgnoresPad | Firmware/src/timecore.h:34-41 | no field is read from the pad byte: any value there decodes to the same record |
| TimecoreConfig.DecodeEncodeConfig | Firmware/src/timecore.h:34-41 | a record's memory image reads back as the same record |
| TimecoreConfig.EncodeConfigInjective | Firmware/src/timecore.h:34-41 | different records have different images |
| Crc.RunAppend | Firmware/src/datastore.cpp:236-240 | updating the CRC byte by byte over two pieces equals updating over their concatenation |
| Crc.UpdateLoop | Firmware/src/datastore.cpp:236-242 | crc.update on every byte in order, then crc.finalize(), gives the CRC-32 of the record; the read loop at lines 200-207 is the same loop |
| Dst.LoadTimezone | Firmware/src/timecore.cpp:768-779 | an index at or beyond the table size loads entry 0, any other loads its entry whole |
| Dst.StartMonth | Firmware/src/timecore.cpp:608-616 | calcTime starts from the rule month, or for "Last" the next month, with December followed by January |
| Dst.CalcTimeLandsOnRule | Firmware/src/timecore.cpp:602-632 | the instant is the rule's time of day on a day in the rule's week (days 7(w−1)..7w−1, or the 7 days before the next month for "Last") whose weekday is congruent to dow mod 7 |
| Dst.CalcTimeSteps | Firmware/src/timecore.cpp:626-629 | the step from the first of the month by whole days lands on the described day |
| Dst.WeekdayAlignment | Firmware/src/timecore.cpp:628 | stepping (dow − weekday + 7) % 7 days plus whole weeks reaches a day of weekday ≡ dow |
| Dst.LastDecemberInPreviousYear | Firmware/src/timecore.cpp:611-614 | a December "Last" rule falls in the last week before 1 January of the same year, i.e. in the previous year |
| Dst.LastSundayOfMarch2024 | Firmware/src/timecore.cpp:602-632 | the last Sunday of March 2024 at 01:00 is 1711846800 |
| Dst.AprilFirst2024 | Firmware/src/timecore.cpp:642-670 | my_mktime of 1 April 2024 01:00 is 1711933200 |
| Dst.InDst | Firmware/src/timecore.cpp:551 | north (start < end): DST in [start, end); south: before end or from start; start = end: always |
| Timecore.Rank | Firmware/src/timecore.h:44-51 | the priority of a source_t is below RTC_SRC_CNT, the number of source slots |
| Timecore.OfRank | Firmware/src/timecore.h:44-51 | the source of each priority level: Rank of it gives the level back |
| Timecore.Init | Firmware/src/timecore.h:394-403 | the initial state: clock 0, master NO_RTC, degrade timer 3600, every slot NO_RTC, zero configuration, zone entry 0 loaded, empty DST cache (year 0, window 0..0) |
| Timecore.PushWrites | Firmware/src/timecore.cpp:143-147 | each WriteTime call goes to a registered slot of lower priority, with that slot's callback and the offered time, in strictly rising slot order |
| Timecore.PushWritesCover | Firmware/src/timecore.cpp:143-147 | every registered slot of lower priority receives a WriteTime call |
| Timecore.SetUtc | Firmware/src/timecore.cpp:134-152 | an offer of at least the master's priority sets the clock, becomes master unless it is the user, and writes PushWrites; a lower offer changes nothing and writes nothing; the degrade timer, slots and configuration never change; GetUTC (lines 50-52) then returns the accepted time |
| Timecore.SetUtcDatum | Firmware/src/timecore.cpp:162-168 | the datum's TimeStructToTimeStamp is offered unchanged: when accepted it sets the clock, becomes master unless it is the user, and is written to PushWrites; a lower offer changes nothing and writes nothing |
| Timecore.UserOfferSetsClock | Firmware/src/timecore.cpp:135-141 | the user's offer is always accepted and changes only the clock |
| Timecore.UserOfferAccepted | Firmware/src/timecore.cpp:143-147 | the user's time is written to every registered slot that is not itself USER_DEFINED |
| Timecore.SetUtcDatumFullYear | Firmware/src/timecore.cpp:162-168 | a datum of 2024 given to SetUTC lands in 1976 |
| Timecore.FirstFree | Firmware/src/timecore.cpp:180-185 | the lowest NO_RTC slot, or the slot count when every slot is taken |
| Timecore.RegisterTimeSource | Firmware/src/timecore.cpp:178-187 | the source takes the lowest free slot and no other slot changes; with no free slot nothing changes |
| Timecore.DemoteBy | Firmware/src/timecore.cpp:203-205 | k demotions lower the priority by k, stopping at NO_RTC |
| Timecore.Demote | Firmware/src/timecore.cpp:203-205 | one level lower, NO_RTC staying NO_RTC |
| Timecore.RtcTick | Firmware/src/timecore.cpp:197-208 | the clock advances by one mod 2^32; a running timer counts down and the master is kept; a run-out timer lowers the master one level (not below NO_RTC) and reloads 900 |
| Timecore.Ticks | Firmware/src/timecore.cpp:197-208 | repeated ticks keep the state valid |
| Timecore.ScheduleStep | Firmware/src/timecore.cpp:199-206 | one tick's effect on the number of demotions and on the timer |
| Timecore.TicksClock | Firmware/src/timecore.cpp:198 | n ticks advance the clock by n mod 2^32 |
| Timecore.TicksFrame | Firmware/src/timecore.cpp:197-208 | ticks change only the clock, the master and the timer |
| Timecore.TicksSchedule | Firmware/src/timecore.cpp:199-206 | after n ticks the master is lowered by the number of run-outs, which come after timer+1 ticks and then every 901 |
| Timecore.TicksDegrade | Firmware/src/timecore.cpp:197-208 | the combined effect of n ticks on clock, master, timer, and nothing else |
| Timecore.DemotionsReach | Firmware/src/timecore.cpp:199-206 | once timer + 1 + 901·(r−1) ticks have passed, at least r run-outs have happened |
| Timecore.SilentMasterDecays | Firmware/src/timecore.cpp:197-208 | without offers, a master of priority r has decayed to NO_RTC after timer + 1 + 901·(r−1) ticks |
| Timecore.FirstDemotionAfterBoot | Firmware/src/timecore.h:403 | from power-up the master is kept for 3600 ticks and lowered on tick 3601 |
| Timecore.SetDlsOffset | Firmware/src/timecore.cpp:220-226 | an index below DLST_OFFSET_CNT is stored, any other is ignored; nothing else changes; GetDLS_Offset (lines 236-238) returns it |
| Timecore.SetGmtOffset | Firmware/src/timecore.cpp:248-251 | GetGMT_Offset (lines 261-263) returns the value set; nothing else changes |
| Timecore.SetAutomaticDls | Firmware/src/timecore.cpp:273-275 | GetAutomacitDLS (lines 285-287) returns the value set; nothing else changes |
| Timecore.SetManualDlsEna | Firmware/src/timecore.cpp:321-323 | GetManualDLSEna (lines 309-311) returns the value set; nothing else changes |
| Timecore.SetTimeZoneManual | Firmware/src/timecore.cpp:356-358 | GetTimeZoneManual (lines 297-299) returns the value set; nothing else changes |
| Timecore.SetConfig | Firmware/src/timecore.cpp:87-91 | GetConfig (lines 102-104) returns the record, the zone of its (uint16_t) index is loaded, the DST cache is kept |
| Timecore.SetTimeZone | Firmware/src/timecore.cpp:368-373 | the zone is stored and loaded and the cached year is cleared; the cached window is kept; GetTimeZone (lines 742-744) returns the zone |
| Timecore.SaveConfig | Firmware/src/timecore.cpp:38-40 | after saving, read_timecoreconf returns the current configuration, and no byte outside the configuration record and its checksum (280..299) changes |
| Timecore.RefreshDst | Firmware/src/timecore.cpp:537-549 | the cache holds the window of the year it names, and nothing else changes |
| Timecore.GetDlsStatus | Firmware/src/timecore.cpp:333-346 | with automatic DST, whether the UTC count lies in the cached window; otherwise the manual flag |
| Timecore.StandardTime | Firmware/src/timecore.cpp:482-491 | the zone offset is added only when the count exceeds it; with the override, the manual minutes times 60 in int32_t |
| Timecore.GetLocalTime | Firmware/src/timecore.cpp:479-568 | standard time plus the manual shift, or (automatic DST, zone with DST) plus the start rule's offset exactly when standard time lies in the cached window, which is first recomputed when it names another year and otherwise left exactly as it was; only the DST cache may change; with a coherent cache that is the window of standard time's own year |
| Timecore.LocalToUtc | Firmware/src/timecore.cpp:393-398 | the zone offset (or the manual minutes times 60 in int32_t) is taken off in uint32_t; when nothing wraps and (table zone) the UTC count exceeds the offset, StandardTime of the result gives the local count back |
| Timecore.CacheForKey | Firmware/src/timecore.cpp:400-412 | afterwards the cache names the key stored into a uint8_t, only the cache changed, and it holds its year's window when it was recomputed or already did |
| Timecore.CacheFor | Firmware/src/timecore.cpp:400-412 | the cache after SetLocalTime's refresh names the datum's biased year, and only the cache differs |
| Timecore.UndoDst | Firmware/src/timecore.cpp:414-450 | adding back the offset it removed (the DST offset when the UTC count passes the test, or the manual shift) gives the UTC count back, modulo 2^32 |
| Timecore.SetLocalTime | Firmware/src/timecore.cpp:384-456 | the master is kept, only the clock and the cache change, and the cache names the datum's biased year |
| Timecore.SetLocalTimeSteps | Firmware/src/timecore.cpp:384-456 | the state after SetLocalTime is the refreshed cache with the clock set to the count with offsets undone |
| Timecore.SetLocalTimeCache | Firmware/src/timecore.cpp:400-412 | the cache after SetLocalTime is coherent when it was refreshed or already coherent |
| Timecore.SetLocalTimePushes | Firmware/src/timecore.cpp:454 | SetLocalTime's time is written to the slots a USER_DEFINED offer reaches |
| TimecoreProperties.RoundTripFixedOffset | Firmware/src/timecore.cpp:384-568 | without automatic DST, GetLocalTime after SetLocalTime returns the local count, when nothing wraps and (table zone) the UTC count exceeds the offset |
| TimecoreProperties.CacheForWindow | Firmware/src/timecore.cpp:400-412 | the cache SetLocalTime leaves holds the window of the datum's year when it was coherent or named another year |
| TimecoreProperties.SetLocalTimeKeysLocalYear | Firmware/src/timecore.cpp:386-403 | the cache key SetLocalTime sets is the year of its local count, for a four-digit year or years since 2000 alike, and for 2000..2105 names that calendar year |
| TimecoreProperties.AutomaticReadBack | Firmware/src/timecore.cpp:529-558 | GetLocalTime after SetLocalTime returns the standard time L − removed offset, plus the DST offset when that lies in the window |
| TimecoreProperties.RoundTripAutomaticDst | Firmware/src/timecore.cpp:384-568 | with automatic DST, GetLocalTime after SetLocalTime returns the local count when SetLocalTime's test (UTC count) and GetLocalTime's test (standard time) agree and nothing wraps |
| TimecoreProperties.SetLocalTimeTestsUtcCount | Firmware/src/timecore.cpp:414-416 | west of Greenwich, a local time within |offset| before the DST start reads back one DST offset early |
| TimecoreProperties.ReadBackBeforeStart | Firmware/src/timecore.cpp:551-556 | that read-back, with the cache held abstract |
| TimecoreProperties.SetLocalTimeAfterBoot | Firmware/src/timecore.cpp:390-416 | right after power-up (empty cache) a winter time before the window has the DST offset removed |
| TimecoreProperties.UndoAfterBoot | Firmware/src/timecore.cpp:414-416 | the empty cache reads as a southern zone, so a UTC count before the start is taken as DST |
| TimecoreProperties.GetLocalTimeSettles | Firmware/src/timecore.cpp:537-549 | a second GetLocalTime gives the same time and leaves the cache as the first left it |
| TimecoreProperties.DlsStatusMatchesLocalTime | Firmware/src/timecore.cpp:333-346 | for a zero-offset zone with a coherent cache of the current year, GetDLSstatus reports exactly the DST GetLocalTime applies |
| TimecoreProperties.SetTimeZoneRefreshes | Firmware/src/timecore.cpp:368-373 | after SetTimeZone the next GetLocalTime (of any year but 1970) uses the new zone's window |
| Datastore.WriteBytes | Firmware/src/datastore.cpp:236-240 | the write loop stores the data from the address on and leaves every other byte |
| Datastore.ReadBytes | Firmware/src/datastore.cpp:200-205 | the read loop collects the bytes from the address on (0 beyond the medium) |
| Datastore.EepWriteStruct | Firmware/src/datastore.cpp:230-250 | the record's bytes from the address, then its CRC-32 in memory order; every other byte unchanged |
| Datastore.EepReadStruct | Firmware/src/datastore.cpp:192-221 | the stored bytes are returned, and the result is true exactly when the trailer is the CRC-32 of them |
| Datastore.ReadAfterWrite | Firmware/src/datastore.cpp:192-250 | a record read right after it was written is intact and passes the test |
| Datastore.ReadFrame | Firmware/src/datastore.cpp:192-221 | a read depends only on the record's bytes and its trailer |
| Datastore.CorruptTrailerDetected | Firmware/src/datastore.cpp:215-218 | a written record whose trailer then has one byte changed fails the test, and its own bytes still read back as written |
| Datastore.ReadOrRestore | Firmware/src/datastore.cpp:146-154 | keep what was read, medium untouched, when the checksum matches; else return the default and store it with eepwrite_struct at the record's address, nothing else written; afterwards the record reads back intact |
| Datastore.EncodeCredentials | Firmware/datastore.h:6-9 | the credentials image is 256 bytes |
| Datastore.DecodeCredentials | Firmware/datastore.h:6-9 | any 256-byte image is the image of the credentials it decodes to |
| Datastore.DecodeEncodeCredentials | Firmware/datastore.h:6-9 | credentials read back from their image are the same |
| Datastore.ReadCredentials | Firmware/src/datastore.cpp:146-154 | stored credentials, or all-zero credentials which are then stored |
| Datastore.CredentialsRoundTrip | Firmware/src/datastore.cpp:135-154 | written credentials read back unchanged, with no repair |
| Datastore.ReadTimecoreConf | Firmware/src/datastore.cpp:89-97 | the stored configuration, or GetDefaultConfig which is then stored |
| Datastore.TimecoreConfRoundTrip | Firmware/src/datastore.cpp:77-97 | a written configuration reads back unchanged, with no repair |
| Datastore.CorruptConfigRestoresDefault | Firmware/src/datastore.cpp:89-97 | a configuration whose stored checksum was damaged reads as GetDefaultConfig, which is stored over it |
| Datastore.ReadTimecoreConfSettles | Firmware/src/datastore.cpp:89-97 | a read right after a repair returns the same configuration and writes nothing |
| Datastore.ReadGpsConfig | Firmware/src/datastore.cpp:117-125 | the stored setting, or sync_on_gps = true which is then stored |
| Datastore.GpsConfigRoundTrip | Firmware/src/datastore.cpp:106-125 | a written GPS setting reads back unchanged |
| Datastore.ReadDisplayConfig | Firmware/src/datastore.cpp:59-67 | the stored setting, or swap_display = false which is then stored |
| Datastore.DisplayConfigRoundTrip | Firmware/src/datastore.cpp:48-67 | a written display setting reads back unchanged |
| Datastore.ReadIpv4Settings | Firmware/src/datastore.cpp:175-183 | the stored image, or zeros which are then stored |
| Datastore.Ipv4SettingsRoundTrip | Firmware/src/datastore.cpp:163-183 | a written ipv4 image reads back unchanged |
| Datastore.Zeros | Firmware/src/datastore.cpp:180 | bzero leaves every byte 0 |
| Datastore.EepWriteNotes | Firmware/src/datastore.cpp:260-266 | the notes and their CRC from 500, 0xFF for the rest of the 512-byte window, every other byte unchanged |
| Datastore.EepReadNotes | Firmware/src/datastore.cpp:276-288 | at most 501 bytes are read; on a checksum failure the notes become zeros and are stored again |
| Datastore.NotesReadAfterWrite | Firmware/src/datastore.cpp:260-288 | notes read right after they were written are intact |
| Datastore.NotesRoundTrip | Firmware/src/datastore.cpp:260-288 | notes of at most 501 bytes read back unchanged with their own length |
| Datastore.EraseEeprom | Firmware/src/datastore.cpp:297-305 | every one of the 4096 bytes becomes 0xFF |
| Datastore.EraseForgets | Firmware/src/datastore.cpp:297-305 | after an erase nothing of the earlier contents is left |
| Datastore.LayoutDisjoint | Firmware/src/datastore.cpp:11-23 | the records at 0, 280, 320, 400, 420, 500 do not overlap and fit the medium, provided ipv4_settings is at most 76 bytes |
| Datastore.StoreKeepsOthers | Firmware/src/datastore.cpp:11-23 | writing one record (notes of any length) leaves the read of every other record (notes with any length) unchanged |

## Left out

- **I/O and concurrency.** Serial logging, the `noInterrupts`/`interrupts` critical section, and `EEPROM.commit` are not modelled: commit is a no-op and the medium is the RAM image. Durability and power loss are left out too.
- **`datastoresetup`.** Not modelled: it only sizes the emulation to 4096 bytes, which is the type of the medium.
- **Callbacks.** The source callbacks are represented by an identity. `SetUtc` returns the `WriteTime` calls it makes instead of calling code that is not part of this model. `SecondTick`, `ReadTime` and the event callbacks are not modelled.
- **`ConvertToDatum` and `GetLocalTimeDate`.** They are left out because they call TimeLib `breakTime`, which is not part of this model.
- **`GetTimeZoneName`.** It is commented out in the source. The private `SetTimeZone(startRule, endRule)` is declared but never defined.
- **timezones.h and timezone_enums.h.** Neither is part of this model. The zone table, its size and the value of `Europe_London` are parameters. The comment in `LoadTimezone` numbers `dow` 0 = Sunday, while TimeLib's `weekday` gives 1 for Sunday. The table's convention is not visible, so `Dst.CalcTimeLandsOnRule` states only congruence modulo 7. `Dst.LastSundayOfMarch2024` uses dow 1 for Sunday.
- **The `timecoreconf_t` image.** It is taken as 16 bytes: two 4-byte enums, three bools, one pad byte and an int32. The comment in datastore.cpp says 24 bytes. The real size depends on timezone_enums.h.
- **`ipv4_settings`.** Its declaration is not part of this model, so it is an opaque byte image of a parameter size.
- **Addresses.** Addresses above 2^32 cannot occur: every address the store uses is below 4096. A caller's notes buffer shorter than the requested size is not modelled, since it is a memory-safety matter of the C caller.
- Datastore.ReadOrRestore: it requires the record to fit the 4096-byte medium, which every fixed record does.
- Datastore.ReadIpv4Settings: it requires the ipv4 image to fit behind its address; an image of more than 3672 bytes is not modelled.
- TimecoreConfig.EncodeConfig: the pad byte at offset 11 of `timecoreconf_t` is indeterminate in the program. GetDefaultConfig fills an uninitialised local (timecore.cpp:115-122), read_timecoreconf stores that record by value, and SetConfig copies whatever padding the caller's record has; unlike the other records it is never zeroed. The model writes 0 there. So the exact byte 291 and the CRC trailer that Datastore.ReadTimecoreConf, Datastore.CorruptConfigRestoresDefault and TimecoreConfig.EncodeConfigInjective pin down are a modelling choice. Every value read back is unaffected (TimecoreConfig.DecodeIgnoresPad).
- Calendar.CalcYear: it requires `time < 0x1_8000_0000`, because no caller can pass more: GetLocalTime passes a uint32_t clock plus an int32_t offset.
- TimecoreProperties.RoundTripFixedOffset: it holds only when no uint32_t step wraps; the wrapped cases are not stated.
- TimecoreProperties.RoundTripAutomaticDst: it holds only when no uint32_t step wraps; the wrapped cases are not stated.
- TimecoreProperties.SetTimeZoneRefreshes: it excludes the year 1970 (cache key 0): there a stale window survives SetTimeZone.
- Dst.RulesOk: every rule of the zone table is taken to have a month of 0..11, which is narrower than the code. calcTime would also take month 12: a "Last" rule with month 12 moves on to month 0, and with week 1..4 my_mktime's month loop sums monthDays[0..11], which is January of the following year. Only a month of 13 or more in a week 1..4 rule would read past monthDays. Month 12 is left out so that StartMonth is always a month of the year, with the next month of a "Last" rule being (month + 1) mod 12, and CalcTimeLandsOnRule can speak of that month's days; timezones.h is not part of this model, so this is an assumption about the table.
