/**
 * Bit-level view of a byte buffer, as the section decoder reads it: bits are
 * numbered from the most significant bit of byte 0, and an n-bit field is
 * read most significant bit first.
 */
module Bits {

  /** One byte of the buffer, as its unsigned 8-bit pattern. */
  type Byte = x: int | 0 <= x < 256

  function Pow2(n: nat): (p: nat)
    ensures p >= 1
  {
    if n == 0 then 1 else 2 * Pow2(n - 1)
  }

  /** The powers of two the header layout uses. */
  lemma Pow2Values()
    ensures Pow2(0) == 1 && Pow2(1) == 2 && Pow2(2) == 4 && Pow2(3) == 8
    ensures Pow2(4) == 16 && Pow2(5) == 32 && Pow2(6) == 64 && Pow2(7) == 128
    ensures Pow2(8) == 256 && Pow2(12) == 4096
    ensures Pow2(32) == 0x1_0000_0000 && Pow2(33) == 0x2_0000_0000
  {
    assert Pow2(4) == 16;
    assert Pow2(8) == 256;
    assert Pow2(12) == 4096;
    assert Pow2(16) == 0x1_0000;
    assert Pow2(20) == 0x10_0000;
    assert Pow2(24) == 0x100_0000;
    assert Pow2(28) == 0x1000_0000;
    assert Pow2(32) == 0x1_0000_0000;
  }

  /** Bit j of an 8-bit value, counting from its most significant bit (j = 0). */
  function ByteBit(x: nat, j: nat): (b: nat)
    requires j < 8
    ensures b < 2
    decreases 7 - j
  {
    if j == 7 then x % 2 else ByteBit(x / 2, j + 1)
  }

  /** Bit number i of the buffer (0 is the most significant bit of data[0]). */
  function BitAt(data: seq<Byte>, i: nat): (b: nat)
    requires i < 8 * |data|
    ensures b < 2
  {
    ByteBit(data[i / 8], i % 8)
  }

  /** The unsigned value of the n bits starting at bit pos, most significant first. */
  function BitsValue(data: seq<Byte>, pos: nat, n: nat): nat
    requires pos + n <= 8 * |data|
  {
    if n == 0 then 0 else 2 * BitsValue(data, pos, n - 1) + BitAt(data, pos + n - 1)
  }

  /** The unsigned big-endian value of four bytes. */
  function BigEndian32(b0: Byte, b1: Byte, b2: Byte, b3: Byte): nat
  {
    ((b0 as nat * 256 + b1) * 256 + b2) * 256 + b3
  }

  /** The four big-endian bytes of a 32-bit number. */
  function Be32Bytes(w: nat): (r: seq<Byte>)
    requires w < 0x1_0000_0000
    ensures |r| == 4
  {
    [((w / 256) / 256) / 256, ((w / 256) / 256) % 256, (w / 256) % 256, w % 256]
  }

  // ---------------------------------------------------------------------
  // Arithmetic helpers.

  lemma MulMonotone(a: nat, b: nat, d: nat)
    requires a <= b
    ensures a * d <= b * d
  {
  }

  lemma MulSucc(a: nat, d: nat)
    ensures (a + 1) * d == a * d + d
  {
  }

  lemma MulTwice(q: nat, a: nat)
    ensures 2 * (q * a) == q * (2 * a)
  {
  }

  /** Euclidean division is determined by its quotient and remainder. */
  lemma DivUnique(x: nat, d: nat, q: nat, r: nat)
    requires d > 0 && x == q * d + r && r < d
    ensures x / d == q && x % d == r
  {
    var q', r' := x / d, x % d;
    assert x == q' * d + r';
    if q' < q {
      MulMonotone(q' + 1, q, d);
      MulSucc(q', d);
    } else if q' > q {
      MulMonotone(q + 1, q', d);
      MulSucc(q, d);
    }
  }

  /** Halving, then dividing by a, is dividing by 2 * a. */
  lemma HalveThenDivide(x: nat, a: nat)
    requires a > 0
    ensures (x / 2) / a == x / (2 * a)
  {
    var q, r := x / 2, x % 2;
    var q2, r2 := q / a, q % a;
    assert q == q2 * a + r2;
    assert x == 2 * (q2 * a) + (2 * r2 + r);
    MulTwice(q2, a);
    DivUnique(x, 2 * a, q2, 2 * r2 + r);
  }

  lemma Regroup(q: nat, s: nat, a: nat, r: nat)
    ensures (2 * q + s) * a + r == q * (2 * a) + (s * a + r)
  {
  }

  lemma BelowDouble(s: nat, a: nat, r: nat)
    requires s < 2 && r < a
    ensures s * a + r < 2 * a
  {
  }

  /** Dividing by a, then halving, is dividing by 2 * a. */
  lemma DivideThenHalve(x: nat, a: nat)
    requires a > 0
    ensures (x / a) / 2 == x / (2 * a)
  {
    var q, r := x / a, x % a;
    var q2, s := q / 2, q % 2;
    Regroup(q2, s, a, r);
    BelowDouble(s, a, r);
    DivUnique(x, 2 * a, q2, s * a + r);
  }

  // ---------------------------------------------------------------------
  // Properties of bit fields.

  /** Bit j of an 8-bit value is the last bit of that value shifted right by 7 - j. */
  lemma {:induction false} ByteBitIsShift(x: nat, j: nat)
    requires j < 8
    ensures ByteBit(x, j) == (x / Pow2(7 - j)) % 2
    decreases 7 - j
  {
    if j < 7 {
      ByteBitIsShift(x / 2, j + 1);
      HalveThenDivide(x, Pow2(6 - j));
    }
  }

  /** An n-bit field holds a value below 2^n. */
  lemma {:induction false} BitsValueBound(data: seq<Byte>, pos: nat, n: nat)
    requires pos + n <= 8 * |data|
    ensures BitsValue(data, pos, n) < Pow2(n)
  {
    if n > 0 {
      BitsValueBound(data, pos, n - 1);
    }
  }

  lemma ShiftStep(v: nat, p: nat, w: nat, bit: nat)
    ensures 2 * (v * p + w) + bit == v * (2 * p) + (2 * w + bit)
  {
  }

  lemma SplitStep(data: seq<Byte>, pos: nat, a: nat, b: nat)
    requires pos + a + b <= 8 * |data| && b > 0
    requires BitsValue(data, pos, a + b - 1)
          == BitsValue(data, pos, a) * Pow2(b - 1) + BitsValue(data, pos + a, b - 1)
    ensures BitsValue(data, pos, a + b) == BitsValue(data, pos, a) * Pow2(b) + BitsValue(data, pos + a, b)
  {
    ShiftStep(BitsValue(data, pos, a), Pow2(b - 1), BitsValue(data, pos + a, b - 1), BitAt(data, pos + a + b - 1));
  }

  /** Reading a + b bits is reading a bits, then b more bits. */
  lemma {:induction false} BitsValueSplit(data: seq<Byte>, pos: nat, a: nat, b: nat)
    requires pos + a + b <= 8 * |data|
    ensures BitsValue(data, pos, a + b) == BitsValue(data, pos, a) * Pow2(b) + BitsValue(data, pos + a, b)
  {
    if b > 0 {
      BitsValueSplit(data, pos, a, b - 1);
      SplitStep(data, pos, a, b);
    }
  }

  /** Bit 8 * k + j of the buffer is bit j of byte k. */
  lemma BitOfByte(data: seq<Byte>, k: nat, j: nat)
    requires k < |data| && j < 8
    ensures BitAt(data, 8 * k + j) == ByteBit(data[k], j)
  {
    assert (8 * k + j) / 8 == k && (8 * k + j) % 8 == j;
  }

  lemma LeadingBitsStep(data: seq<Byte>, k: nat, j: nat)
    requires k < |data| && 0 < j <= 8
    requires BitsValue(data, 8 * k, j - 1) == data[k] / Pow2(9 - j)
    ensures BitsValue(data, 8 * k, j) == data[k] / Pow2(8 - j)
  {
    var x: nat := data[k];
    DivideThenHalve(x, Pow2(8 - j));
    BitOfByte(data, k, j - 1);
    ByteBitIsShift(x, j - 1);
  }

  /** The first j bits of a byte are its value divided by 2^(8 - j). */
  lemma {:induction false} LeadingBitsOfByte(data: seq<Byte>, k: nat, j: nat)
    requires k < |data| && j <= 8
    ensures BitsValue(data, 8 * k, j) == data[k] / Pow2(8 - j)
  {
    if j == 0 {
      Pow2Values();
    } else {
      LeadingBitsOfByte(data, k, j - 1);
      LeadingBitsStep(data, k, j);
    }
  }

  /** All eight bits of a byte read back that byte. */
  lemma ByteBits(data: seq<Byte>, k: nat)
    requires k < |data|
    ensures BitsValue(data, 8 * k, 8) == data[k]
  {
    LeadingBitsOfByte(data, k, 8);
  }

  /** A byte is its first j bits followed by its last 8 - j bits. */
  lemma ByteSplit(data: seq<Byte>, k: nat, j: nat)
    requires k < |data| && j <= 8
    ensures data[k] == BitsValue(data, 8 * k, j) * Pow2(8 - j) + BitsValue(data, 8 * k + j, 8 - j)
  {
    BitsValueSplit(data, 8 * k, j, 8 - j);
    ByteBits(data, k);
  }

  /** The last four bits of a byte are its value modulo 16. */
  lemma LowNibble(data: seq<Byte>, k: nat)
    requires k < |data|
    ensures BitsValue(data, 8 * k + 4, 4) == data[k] % 16
  {
    ByteSplit(data, k, 4);
    BitsValueBound(data, 8 * k + 4, 4);
    assert Pow2(4) == 16;
    DivUnique(data[k], 16, BitsValue(data, 8 * k, 4), BitsValue(data, 8 * k + 4, 4));
  }

  /** The last bit of a byte is its value modulo 2. */
  lemma LastBit(data: seq<Byte>, k: nat)
    requires k < |data|
    ensures BitsValue(data, 8 * k + 7, 1) == data[k] % 2
  {
  }

  /** Reading one more byte-aligned byte shifts the value read so far by eight bits. */
  lemma AppendByte(data: seq<Byte>, pos: nat, n: nat, k: nat)
    requires pos + n == 8 * k && k < |data|
    ensures BitsValue(data, pos, n + 8) == BitsValue(data, pos, n) * 256 + data[k]
  {
    BitsValueSplit(data, pos, n, 8);
    ByteBits(data, k);
    assert Pow2(8) == 256;
  }

  /** Four whole bytes starting at byte k read back as their big-endian value. */
  lemma FourBytes(data: seq<Byte>, k: nat)
    requires k + 4 <= |data|
    ensures BitsValue(data, 8 * k, 32) == BigEndian32(data[k], data[k + 1], data[k + 2], data[k + 3])
  {
    ByteBits(data, k);
    AppendByte(data, 8 * k, 8, k + 1);
    AppendByte(data, 8 * k, 16, k + 2);
    AppendByte(data, 8 * k, 24, k + 3);
  }

  /** Splitting a 32-bit number into bytes and reading them back gives the number. */
  lemma Be32BytesValue(w: nat)
    requires w < 0x1_0000_0000
    ensures BigEndian32(Be32Bytes(w)[0], Be32Bytes(w)[1], Be32Bytes(w)[2], Be32Bytes(w)[3]) == w
  {
  }

  /** Reading four bytes as a number and splitting it again gives the bytes. */
  lemma BigEndian32Bytes(b0: Byte, b1: Byte, b2: Byte, b3: Byte)
    ensures BigEndian32(b0, b1, b2, b3) < 0x1_0000_0000
    ensures Be32Bytes(BigEndian32(b0, b1, b2, b3)) == [b0, b1, b2, b3]
  {
  }
}
