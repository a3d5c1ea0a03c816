/**
 The integer widths of the ESP32 target (uint8_t, uint16_t, uint32_t,
 int32_t), the conversions C applies when a wider value is stored into a
 narrower variable, C's truncating division, and the little-endian order in
 which a uint32_t lies in memory.
 */
module Machine {

  const TWO_8: int := 0x100
  const TWO_32: int := 0x1_0000_0000

  type u8 = x: int | 0 <= x < 0x100
  type u16 = x: int | 0 <= x < 0x1_0000
  type u32 = x: int | 0 <= x < 0x1_0000_0000
  type i32 = x: int | -0x8000_0000 <= x < 0x8000_0000

  /** Storing an integer into a uint32_t: reduction modulo 2^32. */
  function Wrap32(x: int): (r: u32)
    ensures (x - r) % TWO_32 == 0
    ensures 0 <= x < TWO_32 ==> r == x
  {
    x % TWO_32
  }

  /** Storing an integer into a uint8_t: reduction modulo 2^8. */
  function Wrap8(x: int): (r: u8)
    ensures (x - r) % TWO_8 == 0
    ensures 0 <= x < TWO_8 ==> r == x
  {
    x % TWO_8
  }

  /** Storing an integer into an int32_t (two's complement narrowing). */
  function ToI32(x: int): (r: i32)
    ensures (x - r) % TWO_32 == 0
    ensures -0x8000_0000 <= x < 0x8000_0000 ==> r == x
  {
    (x + 0x8000_0000) % TWO_32 - 0x8000_0000
  }

  /** C division of a signed value by a positive constant: rounds toward zero. */
  function CDiv(a: int, b: int): (q: int)
    requires b > 0
    ensures a >= 0 ==> q == a / b
    ensures a < 0 ==> q <= 0 && q * b >= a && a > (q - 1) * b
  {
    if a >= 0 then a / b else -((-a) / b)
  }

  /** Reducing modulo 2^32 once at the end equals reducing after every step. */
  lemma Wrap32Add(a: int, b: int)
    ensures Wrap32(Wrap32(a) + b) == Wrap32(a + b)
  {
    var k := a / TWO_32;
    assert a == k * TWO_32 + Wrap32(a);
    assert a + b == Wrap32(a) + b + k * TWO_32;
  }

  /** The four bytes of a uint32_t in memory order (least significant first). */
  function LeBytes(x: u32): (b: seq<u8>)
    ensures |b| == 4
  {
    [x % 0x100, (x / 0x100) % 0x100, (x / 0x1_0000) % 0x100, x / 0x100_0000]
  }

  /** The uint32_t whose memory image is the four bytes `b`. */
  function FromLeBytes(b: seq<u8>): (x: u32)
    requires |b| == 4
  {
    b[0] as int + 0x100 * (b[1] as int) + 0x1_0000 * (b[2] as int) + 0x100_0000 * (b[3] as int)
  }

  /** Storing a uint32_t and reading it back gives the same value. */
  lemma FromLeBytesOfLeBytes(x: u32)
    ensures FromLeBytes(LeBytes(x)) == x
  {
    var q1 := x / 0x100;
    var q2 := q1 / 0x100;
    var q3 := q2 / 0x100;
    assert x == x % 0x100 + 0x100 * q1;
    assert q1 == q1 % 0x100 + 0x100 * q2;
    assert q2 == q2 % 0x100 + 0x100 * q3;
    assert x / 0x1_0000 == q2;
    assert x / 0x100_0000 == q3;
  }

  /** Reading a uint32_t back and storing it again gives the same four bytes,
      so two different memory images never read as the same value. */
  lemma LeBytesOfFromLeBytes(b: seq<u8>)
    requires |b| == 4
    ensures LeBytes(FromLeBytes(b)) == b
  {
    var x := FromLeBytes(b);
    var h1 := b[1] as int + 0x100 * (b[2] as int + 0x100 * (b[3] as int));
    var h2 := b[2] as int + 0x100 * (b[3] as int);
    SplitByte(x, b[0], h1);
    SplitByte(h1, b[1], h2);
    SplitByte(h2, b[2], b[3]);
    SplitHalf(x, b[0] as int + 0x100 * (b[1] as int), h2);
    SplitTop(x, b[0] as int + 0x100 * (b[1] as int) + 0x1_0000 * (b[2] as int), b[3]);
  }

  /** `lo + 256 * hi` with a byte `lo` splits back into `lo` and `hi`. */
  lemma SplitByte(x: int, lo: int, hi: int)
    requires 0 <= lo < 0x100 && x == lo + 0x100 * hi
    ensures x % 0x100 == lo && x / 0x100 == hi
  {
  }

  lemma SplitHalf(x: int, lo: int, hi: int)
    requires 0 <= lo < 0x1_0000 && x == lo + 0x1_0000 * hi
    ensures x / 0x1_0000 == hi
  {
  }

  lemma SplitTop(x: int, lo: int, hi: int)
    requires 0 <= lo < 0x100_0000 && x == lo + 0x100_0000 * hi
    ensures x / 0x100_0000 == hi
  {
  }

  lemma FromLeBytesInjective(b: seq<u8>, c: seq<u8>)
    requires |b| == 4 && |c| == 4
    requires FromLeBytes(b) == FromLeBytes(c)
    ensures b == c
  {
    LeBytesOfFromLeBytes(b);
    LeBytesOfFromLeBytes(c);
  }
}
