/**
 The persistent store: records in the 4096-byte emulated EEPROM, each
 followed by the CRC-32 of its bytes, read back with a checksum test and
 rewritten with defaults when the test fails.

 The EEPROM library is not part of this model. It is taken to behave as the
 ESP32 EEPROMClass does: `read` of an address outside the emulated size
 returns 0 and `write` there does nothing. `commit` (flushing the RAM image
 to flash) is not modelled: the medium here is the RAM image.
 */
module Datastore {
  import opened Machine
  import opened Crc
  import opened TimecoreConfig

  const EEPROM_SIZE: nat := 4096
  const ERASED: u8 := 0xFF
  const CRC_SIZE: nat := 4

  const CREDENTIALS_START: nat := 0
  const TIMECORECONFIG_START: nat := 280
  const GPSCONFIG_START: nat := 320
  const DISPLAYCONFIG_START: nat := 400
  const IPV4SETTINGS_START: nat := 420
  const NOTES_START: nat := 500
  /** eepwrite_notes erases this many bytes from NOTES_START before storing the notes. */
  const NOTES_WINDOW: nat := 512
  /** eepread_notes never reads more than this many note bytes. */
  const NOTES_MAX: nat := 501

  /** The RAM image of the emulated EEPROM (EEPROM.begin(4096)). */
  type Medium = m: seq<u8> | |m| == EEPROM_SIZE witness seq(EEPROM_SIZE, i => 0)

  function ReadByte(m: Medium, addr: int): u8
  {
    if 0 <= addr < |m| then m[addr] else 0
  }

  function WriteByte(m: Medium, addr: int, v: u8): Medium
  {
    if 0 <= addr < |m| then m[addr := v] else m
  }

  /** The byte writes of a loop storing `data` from `addr` upwards, one at a time. */
  function WriteBytes(m: Medium, addr: int, data: seq<u8>): (r: Medium)
    ensures forall i :: 0 <= i < |r| ==>
      r[i] == (if addr <= i < addr + |data| then data[i - addr] else m[i])
    decreases |data|
  {
    if |data| == 0 then m else WriteBytes(WriteByte(m, addr, data[0]), addr + 1, data[1..])
  }

  /** The bytes a loop reading `n` bytes from `addr` upwards collects. */
  function ReadBytes(m: Medium, addr: int, n: nat): (r: seq<u8>)
    ensures |r| == n
    ensures forall i :: 0 <= i < n ==> r[i] == ReadByte(m, addr + i)
    decreases n
  {
    if n == 0 then [] else [ReadByte(m, addr)] + ReadBytes(m, addr + 1, n - 1)
  }

  /** eepwrite_struct: the record's bytes from `addr`, then its CRC-32 in memory order. */
  function EepWriteStruct(m: Medium, data: seq<u8>, addr: nat): (r: Medium)
    ensures forall i :: 0 <= i < |r| ==>
      r[i] == (if addr <= i < addr + |data| then data[i - addr]
               else if addr + |data| <= i < addr + |data| + CRC_SIZE then LeBytes(Crc32(data))[i - addr - |data|]
               else m[i])
  {
    WriteBytes(WriteBytes(m, addr, data), addr + |data|, LeBytes(Crc32(data)))
  }

  /** What eepread_struct leaves in the caller's buffer, and whether the checksum matched. */
  datatype ReadResult = ReadResult(data: seq<u8>, ok: bool)

  /** eepread_struct: `size` bytes from `addr`, and a test of the four bytes after them against their CRC-32. */
  function EepReadStruct(m: Medium, size: nat, addr: nat): (r: ReadResult)
    ensures |r.data| == size
    ensures forall i :: 0 <= i < size ==> r.data[i] == ReadByte(m, addr + i)
    ensures r.ok <==> ReadBytes(m, addr + size, CRC_SIZE) == LeBytes(Crc32(r.data))
  {
    var data := ReadBytes(m, addr, size);
    var saved := ReadBytes(m, addr + size, CRC_SIZE);
    FromLeBytesOfLeBytes(Crc32(data));
    LeBytesOfFromLeBytes(saved);
    ReadResult(data, FromLeBytes(saved) == Crc32(data))
  }

  /** A record read back right after it was written is intact and passes the checksum test. */
  lemma ReadAfterWrite(m: Medium, data: seq<u8>, addr: nat)
    requires addr + |data| + CRC_SIZE <= EEPROM_SIZE
    ensures EepReadStruct(EepWriteStruct(m, data, addr), |data|, addr) == ReadResult(data, true)
  {
    var w := EepWriteStruct(m, data, addr);
    var r := EepReadStruct(w, |data|, addr);
    assert r.data == data;
    assert ReadBytes(w, addr + |data|, CRC_SIZE) == LeBytes(Crc32(data));
  }

  /** A read depends only on the record's bytes and its trailer. */
  lemma ReadFrame(m1: Medium, m2: Medium, size: nat, addr: nat)
    requires forall i :: addr <= i < addr + size + CRC_SIZE && i < EEPROM_SIZE ==> m1[i] == m2[i]
    ensures EepReadStruct(m1, size, addr) == EepReadStruct(m2, size, addr)
  {
    assert ReadBytes(m1, addr, size) == ReadBytes(m2, addr, size);
    assert ReadBytes(m1, addr + size, CRC_SIZE) == ReadBytes(m2, addr + size, CRC_SIZE);
  }

  /** A stored record whose trailer had one byte changed afterwards fails the checksum test,
      while the record's own bytes still read back as they were written. */
  lemma CorruptTrailerDetected(m: Medium, data: seq<u8>, addr: nat, k: nat, b: u8)
    requires addr + |data| + CRC_SIZE <= EEPROM_SIZE
    requires k < CRC_SIZE && b != LeBytes(Crc32(data))[k]
    ensures var w := WriteByte(EepWriteStruct(m, data, addr), addr + |data| + k, b);
            EepReadStruct(w, |data|, addr) == ReadResult(data, false)
  {
    ReadAfterWrite(m, data, addr);
    CorruptGoodTrailer(EepWriteStruct(m, data, addr), data, addr, k, b);
  }

  lemma CorruptGoodTrailer(w0: Medium, data: seq<u8>, addr: nat, k: nat, b: u8)
    requires addr + |data| + CRC_SIZE <= EEPROM_SIZE
    requires k < CRC_SIZE && b != LeBytes(Crc32(data))[k]
    requires EepReadStruct(w0, |data|, addr) == ReadResult(data, true)
    ensures EepReadStruct(WriteByte(w0, addr + |data| + k, b), |data|, addr) == ReadResult(data, false)
  {
    var w := WriteByte(w0, addr + |data| + k, b);
    TrailerWrite(w0, |data|, addr, k, b);
    ReadStructBytes(w0, |data|, addr);
    ReadStructBytes(w, |data|, addr);
    assert ReadBytes(w, addr + |data|, CRC_SIZE)[k] != LeBytes(Crc32(data))[k];
  }

  /** eepread_struct in terms of the two byte loops. */
  lemma ReadStructBytes(m: Medium, size: nat, addr: nat)
    ensures var data := ReadBytes(m, addr, size);
            EepReadStruct(m, size, addr) == ReadResult(data, ReadBytes(m, addr + size, CRC_SIZE) == LeBytes(Crc32(data)))
  {
  }

  /** Changing byte `k` of a record's trailer keeps the bytes read for the record and puts `b`
      in the trailer read back. */
  lemma TrailerWrite(w0: Medium, size: nat, addr: nat, k: nat, b: u8)
    requires addr + size + CRC_SIZE <= EEPROM_SIZE && k < CRC_SIZE
    ensures var w := WriteByte(w0, addr + size + k, b);
            && ReadBytes(w, addr, size) == ReadBytes(w0, addr, size)
            && ReadBytes(w, addr + size, CRC_SIZE) == ReadBytes(w0, addr + size, CRC_SIZE)[k := b]
  {
    ReadBytesFrame(w0, addr, size, addr + size + k, b);
    var w := WriteByte(w0, addr + size + k, b);
    assert ReadBytes(w, addr + size, CRC_SIZE) == ReadBytes(w0, addr + size, CRC_SIZE)[k := b];
  }

  /** A byte written outside [a, a + n) leaves the bytes read from there unchanged. */
  lemma ReadBytesFrame(w0: Medium, a: nat, n: nat, j: nat, b: u8)
    requires a + n <= j
    ensures ReadBytes(WriteByte(w0, j, b), a, n) == ReadBytes(w0, a, n)
  {
    var w := WriteByte(w0, j, b);
    assert forall i :: 0 <= i < n ==> ReadBytes(w, a, n)[i] == ReadBytes(w0, a, n)[i];
  }

  /** The all-zero image bzero leaves in a buffer of `n` bytes. */
  function Zeros(n: nat): (z: seq<u8>)
    ensures |z| == n && forall i :: 0 <= i < n ==> z[i] == 0
  {
    seq(n, i => 0)
  }

  /** What a typed reader returns: the value, and the medium after any repair it wrote. */
  datatype Read<T> = Read(value: T, rom: Medium)

  /** The pattern every typed reader follows: keep what was read when the checksum matches,
      otherwise store `fallback` and return it. */
  function ReadOrRestore(m: Medium, addr: nat, fallback: seq<u8>): (r: Read<seq<u8>>)
    requires addr + |fallback| + CRC_SIZE <= EEPROM_SIZE
    ensures |r.value| == |fallback|
    ensures EepReadStruct(m, |fallback|, addr).ok ==> r.rom == m && r.value == EepReadStruct(m, |fallback|, addr).data
    ensures !EepReadStruct(m, |fallback|, addr).ok ==> r.value == fallback && r.rom == EepWriteStruct(m, fallback, addr)
    ensures EepReadStruct(r.rom, |fallback|, addr) == ReadResult(r.value, true)
  {
    var got := EepReadStruct(m, |fallback|, addr);
    if got.ok then Read(got.data, m)
    else
      ReadAfterWrite(m, fallback, addr);
      Read(fallback, EepWriteStruct(m, fallback, addr))
  }

  // ---- credentials_t: two 128-byte character arrays ----

  const CREDENTIAL_FIELD: nat := 128
  type Field = s: seq<u8> | |s| == CREDENTIAL_FIELD witness seq(CREDENTIAL_FIELD, i => 0)

  datatype Credentials = Credentials(ssid: Field, pass: Field)

  const CREDENTIALS_SIZE: nat := 2 * CREDENTIAL_FIELD

  function EncodeCredentials(c: Credentials): (b: seq<u8>)
    ensures |b| == CREDENTIALS_SIZE
  {
    c.ssid + c.pass
  }

  function DecodeCredentials(b: seq<u8>): (c: Credentials)
    requires |b| == CREDENTIALS_SIZE
    ensures EncodeCredentials(c) == b
  {
    Credentials(b[..CREDENTIAL_FIELD], b[CREDENTIAL_FIELD..])
  }

  lemma DecodeEncodeCredentials(c: Credentials)
    ensures DecodeCredentials(EncodeCredentials(c)) == c
  {
    assert EncodeCredentials(c)[..CREDENTIAL_FIELD] == c.ssid;
    assert EncodeCredentials(c)[CREDENTIAL_FIELD..] == c.pass;
  }

  const EMPTY_CREDENTIALS := Credentials(Zeros(CREDENTIAL_FIELD), Zeros(CREDENTIAL_FIELD))

  function WriteCredentials(m: Medium, c: Credentials): Medium
  {
    EepWriteStruct(m, EncodeCredentials(c), CREDENTIALS_START)
  }

  /** read_credentials: the stored credentials, or all-zero ones (which it then stores). */
  function ReadCredentials(m: Medium): (r: Read<Credentials>)
    ensures EepReadStruct(m, CREDENTIALS_SIZE, CREDENTIALS_START).ok ==>
      r.rom == m && EncodeCredentials(r.value) == EepReadStruct(m, CREDENTIALS_SIZE, CREDENTIALS_START).data
    ensures !EepReadStruct(m, CREDENTIALS_SIZE, CREDENTIALS_START).ok ==>
      r.value == EMPTY_CREDENTIALS && r.rom == WriteCredentials(m, EMPTY_CREDENTIALS)
    ensures EepReadStruct(r.rom, CREDENTIALS_SIZE, CREDENTIALS_START) == ReadResult(EncodeCredentials(r.value), true)
  {
    var l := ReadOrRestore(m, CREDENTIALS_START, EncodeCredentials(EMPTY_CREDENTIALS));
    DecodeEncodeCredentials(EMPTY_CREDENTIALS);
    Read(DecodeCredentials(l.value), l.rom)
  }

  lemma CredentialsRoundTrip(m: Medium, c: Credentials)
    ensures ReadCredentials(WriteCredentials(m, c)) == Read(c, WriteCredentials(m, c))
  {
    ReadAfterWrite(m, EncodeCredentials(c), CREDENTIALS_START);
    DecodeEncodeCredentials(c);
  }

  // ---- timecoreconf_t ----

  function WriteTimecoreConf(m: Medium, c: Config): Medium
  {
    EepWriteStruct(m, EncodeConfig(c), TIMECORECONFIG_START)
  }

  /** read_timecoreconf: the stored configuration, or GetDefaultConfig (which it then stores). */
  function ReadTimecoreConf(m: Medium, europeLondon: u32): (r: Read<Config>)
    ensures EepReadStruct(m, CONFIG_SIZE, TIMECORECONFIG_START).ok ==>
      r.rom == m && r.value == DecodeConfig(EepReadStruct(m, CONFIG_SIZE, TIMECORECONFIG_START).data)
    ensures !EepReadStruct(m, CONFIG_SIZE, TIMECORECONFIG_START).ok ==>
      r.value == GetDefaultConfig(europeLondon) && r.rom == WriteTimecoreConf(m, GetDefaultConfig(europeLondon))
    ensures EepReadStruct(r.rom, CONFIG_SIZE, TIMECORECONFIG_START).ok
  {
    var l := ReadOrRestore(m, TIMECORECONFIG_START, EncodeConfig(GetDefaultConfig(europeLondon)));
    DecodeEncodeConfig(GetDefaultConfig(europeLondon));
    Read(DecodeConfig(l.value), l.rom)
  }

  lemma TimecoreConfRoundTrip(m: Medium, c: Config, europeLondon: u32)
    ensures ReadTimecoreConf(WriteTimecoreConf(m, c), europeLondon) == Read(c, WriteTimecoreConf(m, c))
  {
    ReadAfterWrite(m, EncodeConfig(c), TIMECORECONFIG_START);
    DecodeEncodeConfig(c);
  }

  /** A second read after a repair returns the same configuration and writes nothing. */
  lemma ReadTimecoreConfSettles(m: Medium, europeLondon: u32)
    ensures var r := ReadTimecoreConf(m, europeLondon);
            ReadTimecoreConf(r.rom, europeLondon) == r
  {
    var r := ReadTimecoreConf(m, europeLondon);
    if !EepReadStruct(m, CONFIG_SIZE, TIMECORECONFIG_START).ok {
      TimecoreConfRoundTrip(m, GetDefaultConfig(europeLondon), europeLondon);
    }
  }

  /** read_timecoreconf of a configuration whose stored checksum was damaged afterwards returns
      GetDefaultConfig and stores it over the damaged record. */
  lemma CorruptConfigRestoresDefault(m: Medium, c: Config, k: nat, b: u8, europeLondon: u32)
    requires k < CRC_SIZE && b != LeBytes(Crc32(EncodeConfig(c)))[k]
    ensures var w := WriteByte(WriteTimecoreConf(m, c), TIMECORECONFIG_START + CONFIG_SIZE + k, b);
            ReadTimecoreConf(w, europeLondon) == Read(GetDefaultConfig(europeLondon), WriteTimecoreConf(w, GetDefaultConfig(europeLondon)))
  {
    CorruptTrailerDetected(m, EncodeConfig(c), TIMECORECONFIG_START, k, b);
  }

  // ---- gps_settings_t and display_settings_t: one bool each ----

  datatype GpsSettings = GpsSettings(syncOnGps: bool)
  datatype DisplaySettings = DisplaySettings(swapDisplay: bool)

  function WriteGpsConfig(m: Medium, c: GpsSettings): Medium
  {
    EepWriteStruct(m, [BoolByte(c.syncOnGps)], GPSCONFIG_START)
  }

  /** read_gps_config: the stored setting, or sync_on_gps = true (which it then stores). */
  function ReadGpsConfig(m: Medium): (r: Read<GpsSettings>)
    ensures EepReadStruct(m, 1, GPSCONFIG_START).ok ==>
      r.rom == m && (r.value.syncOnGps <==> EepReadStruct(m, 1, GPSCONFIG_START).data[0] != 0)
    ensures !EepReadStruct(m, 1, GPSCONFIG_START).ok ==>
      r.value == GpsSettings(true) && r.rom == WriteGpsConfig(m, GpsSettings(true))
    ensures EepReadStruct(r.rom, 1, GPSCONFIG_START).ok
  {
    var l := ReadOrRestore(m, GPSCONFIG_START, [BoolByte(true)]);
    Read(GpsSettings(l.value[0] != 0), l.rom)
  }

  lemma GpsConfigRoundTrip(m: Medium, c: GpsSettings)
    ensures ReadGpsConfig(WriteGpsConfig(m, c)) == Read(c, WriteGpsConfig(m, c))
  {
    ReadAfterWrite(m, [BoolByte(c.syncOnGps)], GPSCONFIG_START);
  }

  function WriteDisplayConfig(m: Medium, c: DisplaySettings): Medium
  {
    EepWriteStruct(m, [BoolByte(c.swapDisplay)], DISPLAYCONFIG_START)
  }

  /** read_display_config: the stored setting, or swap_display = false (which it then stores). */
  function ReadDisplayConfig(m: Medium): (r: Read<DisplaySettings>)
    ensures EepReadStruct(m, 1, DISPLAYCONFIG_START).ok ==>
      r.rom == m && (r.value.swapDisplay <==> EepReadStruct(m, 1, DISPLAYCONFIG_START).data[0] != 0)
    ensures !EepReadStruct(m, 1, DISPLAYCONFIG_START).ok ==>
      r.value == DisplaySettings(false) && r.rom == WriteDisplayConfig(m, DisplaySettings(false))
    ensures EepReadStruct(r.rom, 1, DISPLAYCONFIG_START).ok
  {
    var l := ReadOrRestore(m, DISPLAYCONFIG_START, [BoolByte(false)]);
    Read(DisplaySettings(l.value[0] != 0), l.rom)
  }

  lemma DisplayConfigRoundTrip(m: Medium, c: DisplaySettings)
    ensures ReadDisplayConfig(WriteDisplayConfig(m, c)) == Read(c, WriteDisplayConfig(m, c))
  {
    ReadAfterWrite(m, [BoolByte(c.swapDisplay)], DISPLAYCONFIG_START);
  }

  // ---- ipv4_settings: its declaration is not part of this model, so it is an opaque byte image ----

  function WriteIpv4Settings(m: Medium, image: seq<u8>): Medium
  {
    EepWriteStruct(m, image, IPV4SETTINGS_START)
  }

  /** read_ipv4_settings for a record of `size` bytes: the stored image, or zeros (which it then stores). */
  function ReadIpv4Settings(m: Medium, size: nat): (r: Read<seq<u8>>)
    requires IPV4SETTINGS_START + size + CRC_SIZE <= EEPROM_SIZE
    ensures EepReadStruct(m, size, IPV4SETTINGS_START).ok ==>
      r.rom == m && r.value == EepReadStruct(m, size, IPV4SETTINGS_START).data
    ensures !EepReadStruct(m, size, IPV4SETTINGS_START).ok ==>
      r.value == Zeros(size) && r.rom == WriteIpv4Settings(m, Zeros(size))
    ensures EepReadStruct(r.rom, size, IPV4SETTINGS_START) == ReadResult(r.value, true)
  {
    ReadOrRestore(m, IPV4SETTINGS_START, Zeros(size))
  }

  lemma Ipv4SettingsRoundTrip(m: Medium, image: seq<u8>)
    requires IPV4SETTINGS_START + |image| + CRC_SIZE <= EEPROM_SIZE
    ensures ReadIpv4Settings(WriteIpv4Settings(m, image), |image|) == Read(image, WriteIpv4Settings(m, image))
  {
    ReadAfterWrite(m, image, IPV4SETTINGS_START);
  }

  // ---- notes ----

  /** eepwrite_notes: erase the 512-byte notes window, then store the notes as a record at NOTES_START. */
  function EepWriteNotes(m: Medium, data: seq<u8>): (r: Medium)
    ensures forall i :: 0 <= i < |r| ==>
      r[i] == (if NOTES_START <= i < NOTES_START + |data| then data[i - NOTES_START]
               else if NOTES_START + |data| <= i < NOTES_START + |data| + CRC_SIZE
                 then LeBytes(Crc32(data))[i - NOTES_START - |data|]
               else if NOTES_START <= i < NOTES_START + NOTES_WINDOW then ERASED
               else m[i])
  {
    EepWriteStruct(WriteBytes(m, NOTES_START, seq(NOTES_WINDOW, i => ERASED)), data, NOTES_START)
  }

  /** eepread_notes: at most NOTES_MAX bytes; when their checksum fails, the notes become zeros
      and are stored again. */
  function EepReadNotes(m: Medium, size: u32): (r: Read<seq<u8>>)
    ensures |r.value| == if size > NOTES_MAX then NOTES_MAX else size
    ensures EepReadStruct(m, |r.value|, NOTES_START).ok ==>
      r.rom == m && r.value == EepReadStruct(m, |r.value|, NOTES_START).data
    ensures !EepReadStruct(m, |r.value|, NOTES_START).ok ==>
      (forall i :: 0 <= i < |r.value| ==> r.value[i] == 0) && r.rom == EepWriteNotes(m, r.value)
    ensures EepReadStruct(r.rom, |r.value|, NOTES_START) == ReadResult(r.value, true)
  {
    var n := if size > NOTES_MAX then NOTES_MAX else size;
    var got := EepReadStruct(m, n, NOTES_START);
    if got.ok then Read(got.data, m)
    else
      var zeros := Zeros(n);
      NotesReadAfterWrite(m, zeros);
      Read(zeros, EepWriteNotes(m, zeros))
  }

  lemma NotesReadAfterWrite(m: Medium, data: seq<u8>)
    requires NOTES_START + |data| + CRC_SIZE <= EEPROM_SIZE
    ensures EepReadStruct(EepWriteNotes(m, data), |data|, NOTES_START) == ReadResult(data, true)
  {
    var w := EepWriteNotes(m, data);
    var r := EepReadStruct(w, |data|, NOTES_START);
    assert r.data == data;
    assert ReadBytes(w, NOTES_START + |data|, CRC_SIZE) == LeBytes(Crc32(data));
  }

  /** Notes of at most NOTES_MAX bytes, written and read back with their own length, come back intact. */
  lemma NotesRoundTrip(m: Medium, data: seq<u8>)
    requires |data| <= NOTES_MAX
    ensures EepReadNotes(EepWriteNotes(m, data), |data|) == Read(data, EepWriteNotes(m, data))
  {
    NotesReadAfterWrite(m, data);
  }

  /** erase_eeprom: every byte becomes 0xFF. */
  function EraseEeprom(m: Medium): (r: Medium)
    ensures forall i :: 0 <= i < |r| ==> r[i] == ERASED
  {
    WriteBytes(m, 0, seq(EEPROM_SIZE, i => ERASED))
  }

  /** After an erase nothing of the earlier contents is left. */
  lemma EraseForgets(m1: Medium, m2: Medium)
    ensures EraseEeprom(m1) == EraseEeprom(m2)
  {
    assert forall i :: 0 <= i < EEPROM_SIZE ==> EraseEeprom(m1)[i] == EraseEeprom(m2)[i];
  }

  // ---- layout ----

  /** The records of the store, in address order. */
  datatype Record = CredentialsRecord | ConfigRecord | GpsRecord | DisplayRecord | Ipv4Record | NotesRecord

  function Start(r: Record): nat
  {
    match r
    case CredentialsRecord => CREDENTIALS_START
    case ConfigRecord => TIMECORECONFIG_START
    case GpsRecord => GPSCONFIG_START
    case DisplayRecord => DISPLAYCONFIG_START
    case Ipv4Record => IPV4SETTINGS_START
    case NotesRecord => NOTES_START
  }

  /** The number of data bytes each writer stores; the ipv4_settings size is a parameter. */
  function Size(r: Record, ipv4Size: nat): nat
  {
    match r
    case CredentialsRecord => CREDENTIALS_SIZE
    case ConfigRecord => CONFIG_SIZE
    case GpsRecord => 1
    case DisplayRecord => 1
    case Ipv4Record => ipv4Size
    case NotesRecord => NOTES_MAX
  }

  /** One past the last byte a write of the record touches. */
  function End(r: Record, ipv4Size: nat): nat
  {
    if r == NotesRecord then NOTES_START + NOTES_WINDOW else Start(r) + Size(r, ipv4Size) + CRC_SIZE
  }

  /** The writer of each record. */
  function Store(m: Medium, r: Record, data: seq<u8>): Medium
  {
    if r == NotesRecord then EepWriteNotes(m, data) else EepWriteStruct(m, data, Start(r))
  }

  /** The records do not overlap, provided ipv4_settings is at most 76 bytes. */
  lemma LayoutDisjoint(a: Record, b: Record, ipv4Size: nat)
    requires a != b && ipv4Size + CRC_SIZE <= NOTES_START - IPV4SETTINGS_START
    ensures End(a, ipv4Size) <= Start(b) || End(b, ipv4Size) <= Start(a)
    ensures End(a, ipv4Size) <= EEPROM_SIZE
  {
  }

  /** Storing one record leaves every other record, and its checksum, as it was. Notes of any length
      may be written, and read back with any length, since they lie above every other record. */
  lemma StoreKeepsOthers(m: Medium, a: Record, b: Record, data: seq<u8>, n: nat, ipv4Size: nat)
    requires a != b && ipv4Size + CRC_SIZE <= NOTES_START - IPV4SETTINGS_START
    requires a != NotesRecord ==> |data| == Size(a, ipv4Size)
    requires b != NotesRecord ==> n == Size(b, ipv4Size)
    ensures EepReadStruct(Store(m, a, data), n, Start(b)) == EepReadStruct(m, n, Start(b))
  {
    if a == NotesRecord {
      LayoutDisjoint(b, a, ipv4Size);
    } else {
      LayoutDisjoint(a, b, ipv4Size);
    }
    ReadFrame(Store(m, a, data), m, n, Start(b));
  }
}
