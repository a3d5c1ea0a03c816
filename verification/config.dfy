/**
 The time core's configuration record `timecoreconf_t`, its factory default,
 the manual daylight-saving shift that `DLTS_OffsetIDX` selects, and the
 memory image of the record that the datastore checksums and stores.

 timezone_enums.h is not part of this model. The DLTS_OFFSET_t enumerators
 are taken in declaration order (MINUS_60 = 0 ... PLUS_60 = 4, CNT = 5), and
 both enums are taken to be 4-byte values, so the record lies in memory as
 TimeZone (4 bytes), DLTS_OffsetIDX (4), the three bools (1 each), one pad
 byte, and GMTOffset (4): 16 bytes. The pad byte is written as 0; in the
 program it holds whatever the record's storage held.
 */
module TimecoreConfig {
  import opened Machine

  const DLST_OFFSET_MINUS_60: u32 := 0
  const DLST_OFFSET_MINUS_30: u32 := 1
  const DLST_OFFSET_0: u32 := 2
  const DLST_OFFSET_PLUS_30: u32 := 3
  const DLST_OFFSET_PLUS_60: u32 := 4
  const DLST_OFFSET_CNT: u32 := 5

  /** timecoreconf_t. `gmtOffset` is in minutes. */
  datatype Config = Config(
    timeZone: u32,
    dltsOffsetIdx: u32,
    manualDlsEna: bool,
    automaticDltsEna: bool,
    timeZoneOverride: bool,
    gmtOffset: i32)

  /** The configuration of a core that was never configured: every field zero. */
  const ZERO_CONFIG := Config(0, 0, false, false, false, 0)

  /** GetDefaultConfig: Europe/London, automatic daylight saving, no manual shift, no override. */
  function GetDefaultConfig(europeLondon: u32): (c: Config)
    ensures c.timeZone == europeLondon
    ensures c.dltsOffsetIdx == DLST_OFFSET_0 && ManualDlsShift(c.dltsOffsetIdx) == 0
    ensures c.automaticDltsEna && !c.manualDlsEna && !c.timeZoneOverride
    ensures c.gmtOffset == 0
  {
    Config(europeLondon, DLST_OFFSET_0, false, true, false, 0)
  }

  /** Seconds GetLocalTime adds for a manual daylight-saving index; unknown indices add nothing. */
  function ManualDlsShift(idx: u32): (shift: int)
    ensures idx == DLST_OFFSET_MINUS_60 ==> shift == -3600
    ensures idx == DLST_OFFSET_MINUS_30 ==> shift == -1800
    ensures idx == DLST_OFFSET_0 ==> shift == 0
    ensures idx == DLST_OFFSET_PLUS_30 ==> shift == 1800
    ensures idx == DLST_OFFSET_PLUS_60 ==> shift == 3600
    ensures idx >= DLST_OFFSET_CNT ==> shift == 0
    ensures idx < DLST_OFFSET_CNT ==> (shift == 0 <==> idx == DLST_OFFSET_0)
    ensures -3600 <= shift <= 3600 && shift % 1800 == 0
  {
    if idx == DLST_OFFSET_MINUS_60 then -3600
    else if idx == DLST_OFFSET_MINUS_30 then -1800
    else if idx == DLST_OFFSET_0 then 0
    else if idx == DLST_OFFSET_PLUS_30 then 1800
    else if idx == DLST_OFFSET_PLUS_60 then 3600
    else 0
  }

  /** Seconds SetLocalTime adds to undo the manual daylight-saving index. The source writes a
      second switch; it cancels the first for every index. */
  function ManualDlsUndo(idx: u32): (undo: int)
    ensures undo == -ManualDlsShift(idx)
  {
    if idx == DLST_OFFSET_MINUS_60 then 3600
    else if idx == DLST_OFFSET_MINUS_30 then 1800
    else if idx == DLST_OFFSET_0 then 0
    else if idx == DLST_OFFSET_PLUS_30 then -1800
    else if idx == DLST_OFFSET_PLUS_60 then -3600
    else 0
  }

  const CONFIG_SIZE: nat := 16

  function BoolByte(b: bool): u8 { if b then 1 else 0 }

  /** The bytes of `c` in memory order. */
  function EncodeConfig(c: Config): (bytes: seq<u8>)
    ensures |bytes| == CONFIG_SIZE
    ensures bytes[8] == BoolByte(c.manualDlsEna) && bytes[9] == BoolByte(c.automaticDltsEna)
    ensures bytes[10] == BoolByte(c.timeZoneOverride) && bytes[11] == 0
  {
    LeBytes(c.timeZone) + LeBytes(c.dltsOffsetIdx)
      + [BoolByte(c.manualDlsEna), BoolByte(c.automaticDltsEna), BoolByte(c.timeZoneOverride), 0]
      + LeBytes(Wrap32(c.gmtOffset))
  }

  /** The record a 16-byte memory image holds. */
  function DecodeConfig(bytes: seq<u8>): Config
    requires |bytes| == CONFIG_SIZE
  {
    Config(
      FromLeBytes(bytes[0..4]),
      FromLeBytes(bytes[4..8]),
      bytes[8] != 0,
      bytes[9] != 0,
      bytes[10] != 0,
      ToI32(FromLeBytes(bytes[12..16])))
  }

  lemma ToI32OfWrap32(x: i32)
    ensures ToI32(Wrap32(x)) == x
  {
    if x < 0 {
      assert Wrap32(x) == x + TWO_32;
    }
  }

  /** The pad byte at offset 11 is never read: whatever it holds, the image decodes to the same
      record, so the 0 EncodeConfig puts there decides only the stored image and its checksum. */
  lemma DecodeIgnoresPad(bytes: seq<u8>, pad: u8)
    requires |bytes| == CONFIG_SIZE
    ensures DecodeConfig(bytes[11 := pad]) == DecodeConfig(bytes)
  {
  }

  /** Storing a record and reading the image back gives the same record. */
  lemma DecodeEncodeConfig(c: Config)
    ensures DecodeConfig(EncodeConfig(c)) == c
  {
    var b := EncodeConfig(c);
    assert b[0..4] == LeBytes(c.timeZone);
    assert b[4..8] == LeBytes(c.dltsOffsetIdx);
    assert b[12..16] == LeBytes(Wrap32(c.gmtOffset));
    FromLeBytesOfLeBytes(c.timeZone);
    FromLeBytesOfLeBytes(c.dltsOffsetIdx);
    FromLeBytesOfLeBytes(Wrap32(c.gmtOffset));
    ToI32OfWrap32(c.gmtOffset);
  }

  /** Different records have different images. */
  lemma EncodeConfigInjective(c: Config, d: Config)
    requires EncodeConfig(c) == EncodeConfig(d)
    ensures c == d
  {
    DecodeEncodeConfig(c);
    DecodeEncodeConfig(d);
  }
}
