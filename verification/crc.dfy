/**
 The CRC-32 of IEEE 802.3 that the Arduino CRC32 library computes:
 reflected polynomial 0xEDB88320, register preset to 0xFFFFFFFF, bytes fed
 least significant bit first, final complement. The library itself is not
 part of this model; this is the standard bitwise definition of the same
 checksum.
 */
module Crc {
  import opened Machine

  const POLY: bv32 := 0xEDB8_8320

  /** One bit step of the reflected shift register. */
  function Shift(c: bv32): bv32
  {
    if c & 1 == 1 then (c >> 1) ^ POLY else c >> 1
  }

  function ShiftN(c: bv32, n: nat): bv32
    decreases n
  {
    if n == 0 then c else ShiftN(Shift(c), n - 1)
  }

  /** crc.update(b): one byte into the register. */
  function Update(c: bv32, b: u8): bv32
  {
    ShiftN(c ^ (b as bv32), 8)
  }

  /** The register after feeding `data` in order, starting from `c`. */
  function Run(c: bv32, data: seq<u8>): bv32
    decreases |data|
  {
    if |data| == 0 then c else Run(Update(c, data[0]), data[1..])
  }

  /** crc.finalize() after updating with every byte of `data`. */
  function Crc32(data: seq<u8>): u32
  {
    Finalized(Run(0xFFFF_FFFF, data))
  }

  /** crc.finalize(): the register complemented. */
  function Finalized(c: bv32): u32
  {
    (c ^ 0xFFFF_FFFF) as int
  }

  /** Feeding two pieces one after the other is feeding their concatenation. */
  lemma {:induction false} RunAppend(c: bv32, a: seq<u8>, b: seq<u8>)
    ensures Run(c, a + b) == Run(Run(c, a), b)
    decreases |a|
  {
    if |a| == 0 {
      assert a + b == b;
    } else {
      assert (a + b)[0] == a[0];
      assert (a + b)[1..] == a[1..] + b;
      RunAppend(Update(c, a[0]), a[1..], b);
    }
  }

  /** One more byte at the end is one more update. */
  lemma RunSnoc(c: bv32, a: seq<u8>, b: u8)
    ensures Run(c, a + [b]) == Update(Run(c, a), b)
  {
    RunAppend(c, a, [b]);
    assert [b][1..] == [];
  }

  /** Once every byte has been fed, the register is that of the whole record. */
  lemma RunAll(c: bv32, data: seq<u8>, i: nat)
    requires i == |data| && c == Run(0xFFFF_FFFF, data[..i])
    ensures c == Run(0xFFFF_FFFF, data)
  {
    assert data[..i] == data;
  }

  /** The byte loop of eepwrite_struct and eepread_struct: crc.update on every byte in order, then
      crc.finalize(), yields the CRC-32 of the whole record. */
  method UpdateLoop(data: seq<u8>) returns (crc: u32)
    ensures crc == Crc32(data)
  {
    var c: bv32 := 0xFFFF_FFFF;
    var i := 0;
    while i < |data|
      invariant 0 <= i <= |data|
      invariant c == Run(0xFFFF_FFFF, data[..i])
    {
      assert data[..i + 1] == data[..i] + [data[i]];
      RunSnoc(0xFFFF_FFFF, data[..i], data[i]);
      c := Update(c, data[i]);
      i := i + 1;
    }
    RunAll(c, data, i);
    crc := Finalized(c);
  }
}
