/**
 * SCTE-35 splice_info_section decoding (ANSI/SCTE 35, section 9.6, and the
 * splice_command_type dispatch of section 9.7).
 *
 * The fixed 112-bit header is read through a bit cursor; the command that
 * follows is handed to one of five command parsers through a byte cursor that
 * is advanced by 14 bytes on its own. The command parsers' byte layouts are not
 * part of this model: a parsed command records the inputs its parser receives.
 */
module Scte35 {
  import opened Bits
  import opened Wrappers
  import opened Cursors

  const TYPE_SPLICE_NULL: nat := 0x00
  const TYPE_SPLICE_SCHEDULE: nat := 0x04
  const TYPE_SPLICE_INSERT: nat := 0x05
  const TYPE_TIME_SIGNAL: nat := 0x06
  const TYPE_PRIVATE_COMMAND: nat := 0xFF

  /** A content type is never the empty string. */
  type MimeType = s: string | |s| > 0 witness "*"

  /** The content type this decoder handles; only its being non-empty matters here. */
  const APPLICATION_SCTE35: MimeType

  /** Header layout: bit offsets and widths of the fields the decoder reads. */
  const PTS_HIGH_BIT: nat := 39         // the 39 header bits before pts_adjustment are not used
  const PTS_LOW_BITS: nat := 40
  const COMMAND_LENGTH_BITS: nat := 92   // 72 + the 20 unused bits that follow pts_adjustment
  const COMMAND_TYPE_BITS: nat := 104
  /** Bytes of header before the command payload. */
  const HEADER_BYTES: nat := 14

  const TWO_32: nat := 0x1_0000_0000
  const TWO_33: nat := 0x2_0000_0000

  /**
   * A decoded splice command. The four parsed kinds keep the bytes their
   * parser can read (from the byte cursor's position to its limit) and the
   * further arguments the decoder passes to that parser.
   */
  datatype SpliceCommand =
    | SpliceNullCommand
    | SpliceScheduleCommand(section: seq<Byte>)
    | SpliceInsertCommand(section: seq<Byte>, ptsAdjustment: int)
    | TimeSignalCommand(section: seq<Byte>, ptsAdjustment: int)
    | PrivateCommand(section: seq<Byte>, commandLength: nat, ptsAdjustment: int)

  /** The metadata container returned by decode: zero or more entries. */
  datatype Metadata = Metadata(entries: seq<SpliceCommand>)

  /** The three header fields the decoder keeps. */
  datatype SectionHeader = SectionHeader(ptsAdjustment: nat, spliceCommandLength: nat, spliceCommandType: nat)

  /** splice_command_type values that select a parser. */
  predicate IsKnownCommandType(t: nat)
  {
    t == TYPE_SPLICE_NULL || t == TYPE_SPLICE_SCHEDULE || t == TYPE_SPLICE_INSERT
    || t == TYPE_TIME_SIGNAL || t == TYPE_PRIVATE_COMMAND
  }

  /** The splice_command_type under which each kind of command is decoded. */
  function CommandType(c: SpliceCommand): (t: nat)
    ensures IsKnownCommandType(t)
  {
    match c
    case SpliceNullCommand => TYPE_SPLICE_NULL
    case SpliceScheduleCommand(_) => TYPE_SPLICE_SCHEDULE
    case SpliceInsertCommand(_, _) => TYPE_SPLICE_INSERT
    case TimeSignalCommand(_, _) => TYPE_TIME_SIGNAL
    case PrivateCommand(_, _, _) => TYPE_PRIVATE_COMMAND
  }

  /**
   * PTS composition `(high << 32) | low`, the 32-bit part taken as unsigned:
   * for a one-bit high part and a 32-bit low part the two occupy disjoint
   * bits, so the OR is their sum. The result is then a 33-bit number from
   * which both parts can be recovered.
   */
  function ComposePts(high: nat, low: nat): (r: nat)
    ensures high < 2 && low < TWO_32 ==> r < TWO_33 && r / TWO_32 == high && r % TWO_32 == low
  {
    high * TWO_32 + low
  }

  /** Every 33-bit number is the composition of its top bit and its low 32 bits. */
  lemma ComposePtsSplit(v: nat)
    requires v < TWO_33
    ensures v / TWO_32 < 2
    ensures ComposePts(v / TWO_32, v % TWO_32) == v
  {
  }

  /** The header fields, read by the bit cursor at their fixed offsets. */
  function HeaderAt(data: seq<Byte>): (h: SectionHeader)
    requires HEADER_BYTES <= |data|
    ensures ValidHeader(h)
  {
    BitsValueBound(data, PTS_HIGH_BIT, 1);
    BitsValueBound(data, PTS_LOW_BITS, 32);
    BitsValueBound(data, COMMAND_LENGTH_BITS, 12);
    BitsValueBound(data, COMMAND_TYPE_BITS, 8);
    Pow2Values();
    SectionHeader(
      ComposePts(BitsValue(data, PTS_HIGH_BIT, 1), BitsValue(data, PTS_LOW_BITS, 32)),
      BitsValue(data, COMMAND_LENGTH_BITS, 12),
      BitsValue(data, COMMAND_TYPE_BITS, 8))
  }

  /** The header fields as the section layout places them in whole bytes. */
  function PtsFromBytes(data: seq<Byte>): nat
    requires HEADER_BYTES <= |data|
  {
    ComposePts(data[4] % 2, BigEndian32(data[5], data[6], data[7], data[8]))
  }

  function CommandLengthFromBytes(data: seq<Byte>): nat
    requires HEADER_BYTES <= |data|
  {
    (data[11] as nat % 16) * 256 + data[12]
  }

  /** Header field values the layout can carry: 33, 12 and 8 bits wide. */
  predicate ValidHeader(h: SectionHeader)
  {
    h.ptsAdjustment < TWO_33 && h.spliceCommandLength < 0x1000 && h.spliceCommandType < 0x100
  }

  /** Bit 39 is the last bit of byte 4 and bits 40..71 are bytes 5..8. */
  lemma PtsField(data: seq<Byte>)
    requires HEADER_BYTES <= |data|
    ensures HeaderAt(data).ptsAdjustment == PtsFromBytes(data)
  {
    LastBit(data, 4);
    FourBytes(data, 5);
  }

  /** Bits 92..103 are the low nibble of byte 11 followed by byte 12. */
  lemma CommandLengthField(data: seq<Byte>)
    requires HEADER_BYTES <= |data|
    ensures HeaderAt(data).spliceCommandLength == CommandLengthFromBytes(data)
  {
    BitsValueSplit(data, COMMAND_LENGTH_BITS, 4, 8);
    LowNibble(data, 11);
    AppendByte(data, COMMAND_LENGTH_BITS, 4, 12);
  }

  /** Bits 104..111 are byte 13. */
  lemma CommandTypeField(data: seq<Byte>)
    requires HEADER_BYTES <= |data|
    ensures HeaderAt(data).spliceCommandType == data[13]
  {
    ByteBits(data, 13);
  }

  /** The three fields read from bits equal their byte-level definitions, so always fit their widths. */
  lemma HeaderFromBytes(data: seq<Byte>)
    requires HEADER_BYTES <= |data|
    ensures HeaderAt(data) == SectionHeader(PtsFromBytes(data), CommandLengthFromBytes(data), data[13])
    ensures ValidHeader(HeaderAt(data))
  {
    PtsField(data);
    CommandLengthField(data);
    CommandTypeField(data);
  }

  /**
   * Writes the three header fields into a buffer at their places in the
   * layout, keeping every other bit: the inverse of HeaderAt.
   */
  function WithHeader(data: seq<Byte>, h: SectionHeader): (r: seq<Byte>)
    requires HEADER_BYTES <= |data| && ValidHeader(h)
    ensures |r| == |data|
    ensures forall k :: 0 <= k < |data| && !(4 <= k <= 8) && !(11 <= k <= 13) ==> r[k] == data[k]
    ensures r[4] / 2 == data[4] / 2 && r[11] / 16 == data[11] / 16
  {
    var low := Be32Bytes(h.ptsAdjustment % TWO_32);
    data[4 := data[4] - data[4] % 2 + h.ptsAdjustment / TWO_32]
        [5 := low[0]][6 := low[1]][7 := low[2]][8 := low[3]]
        [11 := data[11] - data[11] % 16 + h.spliceCommandLength / 256]
        [12 := h.spliceCommandLength % 256]
        [13 := h.spliceCommandType]
  }

  /** A header written into any buffer reads back unchanged. */
  lemma HeaderRoundTrip(data: seq<Byte>, h: SectionHeader)
    requires HEADER_BYTES <= |data| && ValidHeader(h)
    ensures HeaderAt(WithHeader(data, h)) == h
  {
    var r := WithHeader(data, h);
    var high, low := h.ptsAdjustment / TWO_32, h.ptsAdjustment % TWO_32;
    HeaderFromBytes(r);
    assert r[4] % 2 == high;
    Be32BytesValue(low);
    ComposePtsSplit(h.ptsAdjustment);
  }

  /** Writing back the header a buffer already holds leaves it unchanged. */
  lemma HeaderWriteBack(data: seq<Byte>)
    requires HEADER_BYTES <= |data|
    ensures ValidHeader(HeaderAt(data))
    ensures WithHeader(data, HeaderAt(data)) == data
  {
    var h := HeaderAt(data);
    HeaderFromBytes(data);
    BigEndian32Bytes(data[5], data[6], data[7], data[8]);
    var r := WithHeader(data, h);
    var len := CommandLengthFromBytes(data);
    assert len / 256 == data[11] % 16 && len % 256 == data[12];
    assert r[4] == data[4] && r[11] == data[11] && r[12] == data[12] && r[13] == data[13];
    assert r[5..9] == data[5..9];
    assert forall k | 0 <= k < |data| :: r[k] == data[k];
  }

  /**
   * The command dispatch on splice_command_type. `section` is what the byte
   * cursor still holds once it has skipped the header.
   */
  function Dispatch(h: SectionHeader, section: seq<Byte>): (r: Option<SpliceCommand>)
    ensures r.None? <==> !IsKnownCommandType(h.spliceCommandType)
    ensures r.Some? ==> CommandType(r.value) == h.spliceCommandType
  {
    if h.spliceCommandType == TYPE_SPLICE_NULL then Some(SpliceNullCommand)
    else if h.spliceCommandType == TYPE_SPLICE_SCHEDULE then Some(SpliceScheduleCommand(section))
    else if h.spliceCommandType == TYPE_SPLICE_INSERT then Some(SpliceInsertCommand(section, h.ptsAdjustment))
    else if h.spliceCommandType == TYPE_TIME_SIGNAL then Some(TimeSignalCommand(section, h.ptsAdjustment))
    else if h.spliceCommandType == TYPE_PRIVATE_COMMAND then
      Some(PrivateCommand(section, h.spliceCommandLength, h.ptsAdjustment))
    else None
  }

  /** Wraps the command, if any, into the container decode returns. */
  function Wrap(command: Option<SpliceCommand>): (m: Metadata)
    ensures |m.entries| <= 1
    ensures |m.entries| == 1 <==> command.Some?
    ensures command.Some? ==> m.entries[0] == command.value
  {
    if command.None? then Metadata([]) else Metadata([command.value])
  }

  /** What decode(data, size) returns. */
  function DecodeSection(data: seq<Byte>, size: nat): (m: Metadata)
    requires HEADER_BYTES <= size <= |data|
    ensures |m.entries| <= 1
    ensures |m.entries| == 1 <==> IsKnownCommandType(data[13])
    ensures data[13] == TYPE_SPLICE_NULL ==> m.entries == [SpliceNullCommand]
    ensures |m.entries| == 1 ==> CommandType(m.entries[0]) == data[13]
  {
    CommandTypeField(data);
    Wrap(Dispatch(HeaderAt(data), data[HEADER_BYTES..size]))
  }

  /**
   * The dispatch table end to end: for each splice_command_type in byte 13,
   * the one command decode builds, from the bytes after the header and the
   * byte-level header fields; any other type gives an empty container.
   */
  lemma DecodeTable(data: seq<Byte>, size: nat)
    requires HEADER_BYTES <= size <= |data|
    ensures data[13] == TYPE_SPLICE_NULL ==> DecodeSection(data, size).entries == [SpliceNullCommand]
    ensures data[13] == TYPE_SPLICE_SCHEDULE ==>
      DecodeSection(data, size).entries == [SpliceScheduleCommand(data[HEADER_BYTES..size])]
    ensures data[13] == TYPE_SPLICE_INSERT ==>
      DecodeSection(data, size).entries == [SpliceInsertCommand(data[HEADER_BYTES..size], PtsFromBytes(data))]
    ensures data[13] == TYPE_TIME_SIGNAL ==>
      DecodeSection(data, size).entries == [TimeSignalCommand(data[HEADER_BYTES..size], PtsFromBytes(data))]
    ensures data[13] == TYPE_PRIVATE_COMMAND ==>
      DecodeSection(data, size).entries
      == [PrivateCommand(data[HEADER_BYTES..size], CommandLengthFromBytes(data), PtsFromBytes(data))]
    ensures !IsKnownCommandType(data[13]) ==> DecodeSection(data, size) == Metadata([])
  {
    HeaderFromBytes(data);
  }

  /** Every timestamp a command receives is a 33-bit number. */
  lemma DecodedPtsInRange(data: seq<Byte>, size: nat)
    requires HEADER_BYTES <= size <= |data|
    ensures forall c :: c in DecodeSection(data, size).entries && !c.SpliceNullCommand? && !c.SpliceScheduleCommand?
              ==> 0 <= c.ptsAdjustment < TWO_33
  {
    HeaderFromBytes(data);
  }

  /** Android's null-safe TextUtils.equals, for the case of two strings. */
  function TextEquals(a: Option<string>, b: Option<string>): (r: bool)
    ensures r <==> a == b
  {
    match a
    case None => b.None?
    case Some(x) => b.Some? && x == b.value
  }

  class SpliceInfoDecoder {
    const sectionData: ParsableByteArray
    const sectionHeader: ParsableBitArray

    constructor ()
      ensures fresh(sectionData) && fresh(sectionHeader)
      ensures sectionData.Valid() && sectionHeader.Valid()
    {
      sectionData := new ParsableByteArray();
      sectionHeader := new ParsableBitArray();
    }

    /** Whether this decoder handles the given (possibly null) content type. */
    function CanDecode(mimeType: Option<string>): (r: bool)
      ensures r <==> mimeType == Option<string>.Some(APPLICATION_SCTE35)
      ensures mimeType.None? ==> !r
      ensures mimeType == Some("") ==> !r
    {
      TextEquals(mimeType, Option<string>.Some(APPLICATION_SCTE35))
    }

    /**
     * Reads the fixed header through the bit cursor, which must stand at the
     * start of a buffer of at least 14 bytes; it consumes exactly 112 bits.
     */
    method ReadSectionHeader() returns (header: SectionHeader)
      requires sectionHeader.Valid() && sectionHeader.position == 0
      requires HEADER_BYTES <= sectionHeader.byteLimit
      modifies sectionHeader`position
      ensures sectionHeader.Valid()
      ensures sectionHeader.position == 8 * HEADER_BYTES
      ensures header == HeaderAt(sectionHeader.data)
    {
      // Bits 0..38 come before pts_adjustment and are not used.
      ghost var data := sectionHeader.data;
      sectionHeader.SkipBits(39);
      var ptsHigh := sectionHeader.ReadBits(1);
      var ptsLow := sectionHeader.ReadBits(32);
      assert ptsHigh < 2 && ptsLow < TWO_32 by {
        BitsValueBound(data, PTS_HIGH_BIT, 1);
        BitsValueBound(data, PTS_LOW_BITS, 32);
        Pow2Values();
      }
      var ptsAdjustment := ComposePts(ptsHigh, ptsLow);
      assert ptsAdjustment == HeaderAt(data).ptsAdjustment;
      // Bits 72..91 are not used either.
      sectionHeader.SkipBits(20);
      var spliceCommandLength := sectionHeader.ReadBits(12);
      assert spliceCommandLength == HeaderAt(data).spliceCommandLength;
      var spliceCommandType := sectionHeader.ReadBits(8);
      assert spliceCommandType == HeaderAt(data).spliceCommandType;
      header := SectionHeader(ptsAdjustment, spliceCommandLength, spliceCommandType);
    }

    /**
     * Decodes the splice info section held in data[0..size). Both cursors are
     * rebound to that range; afterwards the bit cursor has consumed exactly
     * the 14 header bytes the byte cursor skipped.
     */
    method Decode(data: seq<Byte>, size: nat) returns (m: Metadata)
      requires HEADER_BYTES <= size <= |data|
      modifies sectionData, sectionHeader
      ensures m == DecodeSection(data, size)
      ensures sectionHeader.Valid() && sectionData.Valid()
      ensures sectionHeader.data == data && sectionHeader.byteLimit == size
      ensures sectionData.data == data && sectionData.limit == size
      ensures sectionHeader.position == 8 * HEADER_BYTES == 8 * sectionData.position
    {
      sectionData.Reset(data, size);
      sectionHeader.Reset(data, size);
      var header := ReadSectionHeader();
      var command: Option<SpliceCommand> := None;
      // The command starts right after splice_command_type.
      sectionData.SkipBytes(14);
      var section := sectionData.Remaining();
      if header.spliceCommandType == TYPE_SPLICE_NULL {
        command := Some(SpliceNullCommand);
      } else if header.spliceCommandType == TYPE_SPLICE_SCHEDULE {
        command := Some(SpliceScheduleCommand(section));
      } else if header.spliceCommandType == TYPE_SPLICE_INSERT {
        command := Some(SpliceInsertCommand(section, header.ptsAdjustment));
      } else if header.spliceCommandType == TYPE_TIME_SIGNAL {
        command := Some(TimeSignalCommand(section, header.ptsAdjustment));
      } else if header.spliceCommandType == TYPE_PRIVATE_COMMAND {
        command := Some(PrivateCommand(section, header.spliceCommandLength, header.ptsAdjustment));
      }
      m := if command.None? then Metadata([]) else Metadata([command.value]);
    }
  }
}
