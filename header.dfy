/** The four-byte frame header of the pipe: a signed 32-bit length stored in
    the byte buffer, with two values reserved as sentinels. The source loads
    and stores it through an int32 pointer cast in the byte order of the
    target; here it is an explicit little-endian encoding, the order of
    little-endian targets such as x86. */
module Int32Header {

  /** A byte of the pipe's buffer (the source's char). */
  newtype byte = b: int | 0 <= b < 0x100

  const HEADER_SIZE: int := 4

  /** Header value marking the write frontier: no committed frame starts here. */
  const STOP: int := 0
  /** Header value telling the reader to continue at offset 0. */
  const LOOP: int := -1

  const INT32_MIN: int := -0x8000_0000
  const INT32_MAX: int := 0x7fff_ffff

  predicate IsInt32(x: int) {
    INT32_MIN <= x <= INT32_MAX
  }

  /** Two's-complement little-endian bytes of x (the store macro). */
  function EncodeInt32(x: int): (b: seq<byte>)
    requires IsInt32(x)
    ensures |b| == HEADER_SIZE
  {
    var u := if x < 0 then x + 0x1_0000_0000 else x;
    var r1 := u / 0x100;
    var r2 := r1 / 0x100;
    [(u % 0x100) as byte, (r1 % 0x100) as byte, (r2 % 0x100) as byte, (r2 / 0x100) as byte]
  }

  /** 0x100 to the power k. */
  function Radix(k: nat): nat {
    if k == 0 then 1 else 0x100 * Radix(k - 1)
  }

  /** The unsigned little-endian number that bytes b hold. */
  function Unsigned(b: seq<byte>): (u: nat)
    ensures u < Radix(|b|)
  {
    if |b| == 0 then 0 else (b[0] as int) + 0x100 * Unsigned(b[1..])
  }

  /** The int32 that four bytes hold (the load macro). */
  function DecodeInt32(b: seq<byte>): (x: int)
    requires |b| == HEADER_SIZE
    ensures IsInt32(x)
  {
    var u := Unsigned(b);
    assert Radix(HEADER_SIZE) == 0x1_0000_0000;
    if u <= INT32_MAX then u else u - 0x1_0000_0000
  }

  /** The four digits of a header, written out. */
  lemma UnsignedOfFour(b: seq<byte>)
    requires |b| == HEADER_SIZE
    ensures Unsigned(b) == (b[0] as int) + 0x100 * (b[1] as int)
                           + 0x1_0000 * (b[2] as int) + 0x100_0000 * (b[3] as int)
  {
    var t1 := b[1..];
    var t2 := t1[1..];
    var t3 := t2[1..];
    assert t3[1..] == [];
    assert Unsigned(t3) == b[3] as int;
    assert Unsigned(t2) == (b[2] as int) + 0x100 * (b[3] as int);
    assert Unsigned(t1) == (b[1] as int) + 0x100 * Unsigned(t2);
  }

  /** One step of base-256 positional notation. */
  lemma Digit(a: int, q: int)
    requires 0 <= a < 0x100
    ensures (a + 0x100 * q) % 0x100 == a && (a + 0x100 * q) / 0x100 == q
  {
  }

  /** A stored header reads back as the value stored. */
  lemma DecodeEncode(x: int)
    requires IsInt32(x)
    ensures DecodeInt32(EncodeInt32(x)) == x
  {
    var u := if x < 0 then x + 0x1_0000_0000 else x;
    var r1 := u / 0x100;
    var r2 := r1 / 0x100;
    var c0, c1, c2, c3 := u % 0x100, r1 % 0x100, r2 % 0x100, r2 / 0x100;
    assert u == c0 + 0x100 * r1;
    assert r1 == c1 + 0x100 * r2;
    assert r2 == c2 + 0x100 * c3;
    var b := EncodeInt32(x);
    UnsignedOfFour(b);
    assert b[0] as int == c0 && b[1] as int == c1 && b[2] as int == c2 && b[3] as int == c3;
    assert c0 + 0x100 * c1 + 0x1_0000 * c2 + 0x100_0000 * c3 == u;
  }

  /** Base-256 digits of a four-digit number are read back by division. */
  lemma Digits(b0: int, b1: int, b2: int, b3: int)
    requires 0 <= b0 < 0x100 && 0 <= b1 < 0x100 && 0 <= b2 < 0x100 && 0 <= b3 < 0x100
    ensures var u := b0 + 0x100 * b1 + 0x1_0000 * b2 + 0x100_0000 * b3;
            u % 0x100 == b0 && u / 0x100 % 0x100 == b1
            && u / 0x100 / 0x100 % 0x100 == b2 && u / 0x100 / 0x100 / 0x100 == b3
  {
    var r2 := b2 + 0x100 * b3;
    var r1 := b1 + 0x100 * r2;
    Digit(b0, r1);
    Digit(b1, r2);
    Digit(b2, b3);
  }

  /** Every four bytes are the encoding of the header they hold. */
  lemma EncodeDecode(b: seq<byte>)
    requires |b| == HEADER_SIZE
    ensures EncodeInt32(DecodeInt32(b)) == b
  {
    var b0, b1, b2, b3 := b[0] as int, b[1] as int, b[2] as int, b[3] as int;
    var u := b0 + 0x100 * b1 + 0x1_0000 * b2 + 0x100_0000 * b3;
    var x := DecodeInt32(b);
    UnsignedOfFour(b);
    assert (if x < 0 then x + 0x1_0000_0000 else x) == u;
    assert u % 0x100 == b0 && u / 0x100 % 0x100 == b1
           && u / 0x100 / 0x100 % 0x100 == b2 && u / 0x100 / 0x100 / 0x100 == b3 by {
      Digits(b0, b1, b2, b3);
    }
    assert EncodeInt32(x) == [b0 as byte, b1 as byte, b2 as byte, b3 as byte];
  }

  /** STOP is the header of four zero bytes, and only of them: a zeroed buffer
      reads as an empty pipe. */
  lemma StopIsZeroBytes(b: seq<byte>)
    requires |b| == HEADER_SIZE
    ensures DecodeInt32(b) == STOP <==> b == [0, 0, 0, 0]
  {
    UnsignedOfFour(b);
    if DecodeInt32(b) == STOP {
      EncodeDecode(b);
    }
  }
}
