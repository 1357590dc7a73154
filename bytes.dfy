/** Octets, Java `int` values and the little-endian 4-byte groups that
    `ByteBuffer.putInt`/`getInt` write and read once the buffer's order is
    set to `LITTLE_ENDIAN`. */
module Bytes {

  /** One octet on the wire (Java's signed `byte` read as 0..255). */
  type byte = b: int | 0 <= b < 0x100

  /** A Java `int`: 32-bit two's complement. */
  type int32 = v: int | -0x8000_0000 <= v < 0x8000_0000

  const MaxInt32: int := 0x7FFF_FFFF
  const Two32: int := 0x1_0000_0000

  /** Java's `int` addition and multiplication keep the low 32 bits of the
      exact result: the unique `int32` congruent to `v` modulo 2^32. */
  function Wrap32(v: int): (r: int32)
    ensures (r - v) % Two32 == 0
    ensures -0x8000_0000 <= v <= MaxInt32 ==> r == v
  {
    var u := v % Two32;
    if u < 0x8000_0000 then u else u - Two32
  }

  /** The unsigned reading of the 32 bits of `v`. */
  function Unsigned(v: int32): (u: nat)
    ensures u < Two32
    ensures (u - v) % Two32 == 0
  {
    if v < 0 then v + Two32 else v
  }

  /** The four bytes `putInt(v)` writes: least significant first. */
  function LittleEndian(v: int32): (r: seq<byte>)
    ensures |r| == 4
  {
    var u := Unsigned(v);
    [u % 0x100, (u / 0x100) % 0x100, (u / 0x1_0000) % 0x100, u / 0x100_0000]
  }

  /** The unsigned number four bytes stand for, least significant first. */
  function Weighted(b: seq<byte>): nat
    requires |b| == 4
  {
    b[0] as int + 0x100 * (b[1] as int) + 0x1_0000 * (b[2] as int) + 0x100_0000 * (b[3] as int)
  }

  /** The value `getInt()` reads from four bytes, least significant first. */
  function FromLittleEndian(b: seq<byte>): (v: int32)
    requires |b| == 4
  {
    var u := Weighted(b);
    if u < 0x8000_0000 then u else u - Two32
  }

  /** The weighted sum of the four bytes written for `v` is the unsigned
      reading of `v`. */
  lemma LittleEndianDigits(v: int32)
    ensures Weighted(LittleEndian(v)) == Unsigned(v)
  {
    var u := Unsigned(v);
    var q1 := u / 0x100;
    var q2 := u / 0x1_0000;
    assert u == q1 * 0x100 + u % 0x100;
    assert q1 == q2 * 0x100 + q1 % 0x100 by {
      assert q2 == q1 / 0x100;
    }
    assert q2 == (u / 0x100_0000) * 0x100 + q2 % 0x100 by {
      assert u / 0x100_0000 == q2 / 0x100;
    }
  }

  /** Reading back a group written from any 32-bit `v` yields `v`. */
  lemma ReadWritten(v: int32)
    ensures FromLittleEndian(LittleEndian(v)) == v
  {
    LittleEndianDigits(v);
  }

  /** Quotient and remainder by 256 are determined by any decomposition
      with a remainder in range. */
  lemma DivMod256(n: int, q: int, r: int)
    requires 0 <= r < 0x100 && n == q * 0x100 + r
    ensures n / 0x100 == q && n % 0x100 == r
  {
  }

  /** Writing the value read from any four bytes reproduces those bytes. */
  lemma WriteRead(b: seq<byte>)
    requires |b| == 4
    ensures LittleEndian(FromLittleEndian(b)) == b
  {
    var u := Weighted(b);
    assert Unsigned(FromLittleEndian(b)) == u;
    var u1 := b[1] as int + 0x100 * (b[2] as int) + 0x1_0000 * (b[3] as int);
    var u2 := b[2] as int + 0x100 * (b[3] as int);
    DivMod256(u, u1, b[0]);
    DivMod256(u1, u2, b[1]);
    DivMod256(u2, b[3], b[2]);
    assert u / 0x1_0000 == u2;
    assert u / 0x100_0000 == b[3];
  }

  /** `LittleEndian` is injective: distinct values give distinct groups. */
  lemma LittleEndianInjective(v: int32, w: int32)
    requires LittleEndian(v) == LittleEndian(w)
    ensures v == w
  {
    ReadWritten(v);
    ReadWritten(w);
  }
}
