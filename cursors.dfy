/**
 * The two reusable cursors the splice-info decoder keeps on its instance:
 * a bit reader and a byte reader, each bound to a prefix data[0..limit) of a
 * caller-supplied buffer. Only the operations the decoder uses are modelled;
 * running past the limit is excluded by preconditions.
 */
module Cursors {
  import opened Bits

  /** Sequential big-endian bit reader (ParsableBitArray). */
  class ParsableBitArray {
    var data: seq<Byte>
    var byteLimit: nat
    /** Number of bits consumed so far. */
    var position: nat

    ghost predicate Valid()
      reads this
    {
      byteLimit <= |data| && position <= 8 * byteLimit
    }

    /** A bit array over no data. */
    constructor ()
      ensures Valid()
      ensures data == [] && byteLimit == 0 && position == 0
    {
      data := [];
      byteLimit := 0;
      position := 0;
    }

    /** Rebinds the reader to data[0..limit) and rewinds it. */
    method Reset(newData: seq<Byte>, limit: nat)
      requires limit <= |newData|
      modifies this
      ensures Valid()
      ensures data == newData && byteLimit == limit && position == 0
    {
      data := newData;
      byteLimit := limit;
      position := 0;
    }

    /** Bits still available before the limit. */
    function BitsLeft(): (r: nat)
      reads this
      requires Valid()
      ensures position + r == 8 * byteLimit
    {
      8 * byteLimit - position
    }

    /** Advances past n bits without reading them. */
    method SkipBits(n: nat)
      requires Valid() && n <= BitsLeft()
      modifies this`position
      ensures Valid()
      ensures position == old(position) + n
    {
      position := position + n;
    }

    /**
     * Reads the next n bits (n <= 32) as an unsigned number, most
     * significant bit first, crossing byte boundaries as needed. The value
     * is below 2^n (Bits.BitsValueBound).
     */
    method ReadBits(n: nat) returns (v: nat)
      requires Valid() && n <= 32 && n <= BitsLeft()
      modifies this`position
      ensures Valid()
      ensures position == old(position) + n
      ensures v == BitsValue(data, old(position), n)
    {
      var start := position;
      v := 0;
      var i := 0;
      while i < n
        invariant 0 <= i <= n
        invariant position == start + i
        invariant v == BitsValue(data, start, i)
      {
        v := 2 * v + BitAt(data, position);
        position := position + 1;
        i := i + 1;
      }
    }
  }

  /** Sequential byte reader (ParsableByteArray). */
  class ParsableByteArray {
    var data: seq<Byte>
    var limit: nat
    /** Number of bytes consumed so far. */
    var position: nat

    ghost predicate Valid()
      reads this
    {
      limit <= |data| && position <= limit
    }

    /** A byte array over no data. */
    constructor ()
      ensures Valid()
      ensures data == [] && limit == 0 && position == 0
    {
      data := [];
      limit := 0;
      position := 0;
    }

    /** Rebinds the reader to data[0..newLimit) and rewinds it. */
    method Reset(newData: seq<Byte>, newLimit: nat)
      requires newLimit <= |newData|
      modifies this
      ensures Valid()
      ensures data == newData && limit == newLimit && position == 0
    {
      data := newData;
      limit := newLimit;
      position := 0;
    }

    /** Bytes still available before the limit. */
    function BytesLeft(): (r: nat)
      reads this
      requires Valid()
      ensures position + r == limit
    {
      limit - position
    }

    /** The bytes a command parser handed this reader would see: data[position..limit). */
    function Remaining(): (r: seq<Byte>)
      reads this
      requires Valid()
      ensures |r| == BytesLeft()
      ensures forall i :: 0 <= i < |r| ==> r[i] == data[position + i]
    {
      data[position..limit]
    }

    /** Advances past n bytes. */
    method SkipBytes(n: nat)
      requires Valid() && n <= BytesLeft()
      modifies this`position
      ensures Valid()
      ensures position == old(position) + n
    {
      position := position + n;
    }
  }
}
