/**
 * The PTS composition as the Java statement computes it. readBits returns a
 * Java int, so a 32-bit field whose top bit is set arrives as a negative
 * int; OR-ing it into the long `ptsAdjustment << 32` first widens it to a
 * long, which copies its sign bit into bits 32..63. Those bits then hide the
 * one-bit high part and make the long negative.
 */
module PtsFinding {
  import opened Bits
  import opened Scte35

  /** A Java long as its upper and lower 32-bit halves. */
  datatype Long = Long(upper: bv32, lower: bv32)

  const SIGN_BIT: bv32 := 0x8000_0000

  /** A 32-bit pattern read as a Java int. */
  function IntValue(x: bv32): int
  {
    if x & SIGN_BIT == 0 then x as int else x as int - 0x1_0000_0000
  }

  /** A Java long's two's-complement value. */
  function LongValue(x: Long): int
  {
    IntValue(x.upper) * 0x1_0000_0000 + x.lower as int
  }

  /** Java's int-to-long widening: the sign bit of the int fills the upper half. */
  function WidenInt(x: bv32): Long
  {
    Long(if x & SIGN_BIT == 0 then 0 else 0xFFFF_FFFF, x)
  }

  /** Widening keeps the int's value. */
  lemma WidenIntValue(x: bv32)
    ensures LongValue(WidenInt(x)) == IntValue(x)
  {
    if x & SIGN_BIT == 0 {
      assert WidenInt(x) == Long(0, x);
    } else {
      assert WidenInt(x) == Long(0xFFFF_FFFF, x);
      assert IntValue(0xFFFF_FFFF) == -1;
    }
  }

  function ShiftLeft32(x: Long): Long
  {
    Long(x.lower, 0)
  }

  function Or(a: Long, b: Long): Long
  {
    Long(a.upper | b.upper, a.lower | b.lower)
  }

  /** `(high << 32) | readBits(32)` evaluated on Java longs, high being the 0/1 read before. */
  function AsWrittenPts(high: bv32, low: bv32): Long
  {
    Or(ShiftLeft32(Long(0, high)), WidenInt(low))
  }

  /**
   * Whenever bit 31 of the low part is set, the as-written result has its
   * upper half all ones whatever the high bit, so it is negative.
   */
  lemma AsWrittenLosesHighBit(high: bv32, low: bv32)
    requires high < 2 && low & SIGN_BIT != 0
    ensures AsWrittenPts(high, low) == Long(0xFFFF_FFFF, low)
    ensures LongValue(AsWrittenPts(high, low)) < 0
  {
  }

  /** With bit 31 of the low part clear, the as-written result is the intended composition. */
  lemma AsWrittenAgreesBelow(high: bv32, low: bv32)
    requires high < 2 && low & SIGN_BIT == 0
    ensures AsWrittenPts(high, low) == Long(high, low)
  {
  }

  /**
   * Any section whose bytes 4..8 are 00 80 00 00 00: the two reads give 0
   * and 2^31, so the intended adjustment is 2^31, but the as-written
   * statement gives -2^31.
   */
  lemma AsWrittenCounterexample(data: seq<Byte>)
    requires HEADER_BYTES <= |data|
    requires data[4] == 0 && data[5] == 0x80 && data[6] == 0 && data[7] == 0 && data[8] == 0
    ensures BitsValue(data, PTS_HIGH_BIT, 1) == 0 && BitsValue(data, PTS_LOW_BITS, 32) == 0x8000_0000
    ensures HeaderAt(data).ptsAdjustment == 0x8000_0000
    ensures LongValue(AsWrittenPts(0, 0x8000_0000)) == -0x8000_0000
  {
    LastBit(data, 4);
    FourBytes(data, 5);
    PtsField(data);
    AsWrittenLosesHighBit(0, 0x8000_0000);
  }
}
