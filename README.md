# SCTE-35 splice info section decoder

A Dafny model of `SpliceInfoDecoder`, the metadata decoder that turns an
SCTE-35 `splice_info_section` into at most one splice command.

`decode(data, size)` works as follows:

- It rebinds two reusable cursors to `data[0..size)`: a bit reader
  (`ParsableBitArray`) and a byte reader (`ParsableByteArray`).
- On the bit reader it reads the fixed 112-bit header:
  - it skips 39 bits;
  - it reads a 1-bit and a 32-bit part of `pts_adjustment` and combines them as `(high << 32) | low`;
  - it skips 20 bits;
  - it reads the 12-bit `splice_command_length` and the 8-bit `splice_command_type`.
- It skips the same 14 bytes on the byte reader.
- It dispatches on the command type:
  - 0x00 gives a splice_null command;
  - 0x04 a splice_schedule, 0x05 a splice_insert, 0x06 a time_signal and 0xFF a private command, each built by its parser from the byte reader;
  - any other type gives an empty metadata container.

`canDecode` accepts exactly the SCTE-35 content type. A null content type is
rejected.

The files are:

- `bits.dfy` (module `Bits`) has the bit view of a byte buffer and its arithmetic:
  - `BitsValue` is the unsigned value of an n-bit field, read most significant bit first;
  - further lemmas relate bit fields to whole bytes, nibbles and big-endian words.
- `cursors.dfy` (module `Cursors`) has the two cursor classes:
  - their fields are updated in place;
  - `ReadBits` is a loop proved against `BitsValue`.
- `splice_info_decoder.dfy` (module `Scte35`) has the decoder:
  - the type constants and the command and header datatypes;
  - the class `SpliceInfoDecoder` with `Decode`, `ReadSectionHeader` and `CanDecode`;
  - the pure specification `DecodeSection` that `Decode` is proved against;
  - the lemmas about the header layout, the header round trip and the dispatch table.
- `findings.dfy` (module `PtsFinding`) computes the PTS statement on Java's signed
  types (see "Findings").
- `wrappers.dfy` (module `Wrappers`) has the option type for Java's null.

The bytes of the buffer are modelled as their unsigned 8-bit patterns. That is what
the bit reader interprets.

ANSI/SCTE 35 (section 9.6, splice_info_section) defines `pts_adjustment` as a
33-bit unsigned field. The code at line 61 assigns `readBits` results to an
`int`, so `readBits(32)` is a Java int and can be negative, and line 58 then
sign-extends it (see "Findings"). The decoder model (`Cursors`, `Scte35`) uses
the unsigned 33-bit composition the standard defines; only `PtsFinding`
computes the statement as written.

## Model

| member | source | states |
|---|---|---|
| Scte35.CommandType | TMessagesProj/src/main/java/ir/avageram/com/exoplayer2/metadata/scte35/SpliceInfoDecoder.java:31-35 | each command kind has its type code, and that code is one of the five dispatched codes |
| Scte35.ComposePts | TMessagesProj/src/main/java/ir/avageram/com/exoplayer2/metadata/scte35/SpliceInfoDecoder.java:57-58 | the unsigned composition of a 1-bit high part and a 32-bit low part is a number below 2^33, from which division and remainder by 2^32 recover both parts |
| Scte35.ComposePtsSplit | TMessagesProj/src/main/java/ir/avageram/com/exoplayer2/metadata/scte35/SpliceInfoDecoder.java:57-58 | every number below 2^33 is the composition of its top bit and its low 32 bits |
| Scte35.HeaderAt | TMessagesProj/src/main/java/ir/avageram/com/exoplayer2/metadata/scte35/SpliceInfoDecoder.java:56-62 | the header fields the bit reader produces: bit 39 composed with bits 40..71, bits 92..103 and bits 104..111; its values always fit 33, 12 and 8 bits |
| Scte35.PtsField | TMessagesProj/src/main/java/ir/avageram/com/exoplayer2/metadata/scte35/SpliceInfoDecoder.java:56-58 | the PTS adjustment read from bits 39..71 is the last bit of byte 4 times 2^32 plus bytes 5..8 big-endian |
| Scte35.CommandLengthField | TMessagesProj/src/main/java/ir/avageram/com/exoplayer2/metadata/scte35/SpliceInfoDecoder.java:60-61 | splice_command_length, read from bits 92..103, is the low nibble of byte 11 times 256 plus byte 12 |
| Scte35.CommandTypeField | TMessagesProj/src/main/java/ir/avageram/com/exoplayer2/metadata/scte35/SpliceInfoDecoder.java:62 | splice_command_type, read from bits 104..111, is byte 13 |
| Scte35.HeaderFromBytes | TMessagesProj/src/main/java/ir/avageram/com/exoplayer2/metadata/scte35/SpliceInfoDecoder.java:54-62 | the header read from bits equals its byte-level definition; the PTS is below 2^33, the length below 4096 and the type below 256 |
| Scte35.WithHeader | TMessagesProj/src/main/java/ir/avageram/com/exoplayer2/metadata/scte35/SpliceInfoDecoder.java:54-62 | writing a header into a buffer changes only the bits of the three fields and keeps the length of the buffer |
| Scte35.HeaderRoundTrip | TMessagesProj/src/main/java/ir/avageram/com/exoplayer2/metadata/scte35/SpliceInfoDecoder.java:56-62 | any header with fields of 33, 12 and 8 bits, written into any buffer of at least 14 bytes, reads back unchanged |
| Scte35.HeaderWriteBack | TMessagesProj/src/main/java/ir/avageram/com/exoplayer2/metadata/scte35/SpliceInfoDecoder.java:56-62 | writing back the header a buffer already holds gives the same buffer |
| Scte35.Dispatch | TMessagesProj/src/main/java/ir/avageram/com/exoplayer2/metadata/scte35/SpliceInfoDecoder.java:63-82 | a command is built exactly when the type is one of the five codes, and the command's kind matches the type |
| Scte35.Wrap | TMessagesProj/src/main/java/ir/avageram/com/exoplayer2/metadata/scte35/SpliceInfoDecoder.java:83 | the container holds no entry for a null command, or exactly that one command |
| Scte35.DecodeSection | TMessagesProj/src/main/java/ir/avageram/com/exoplayer2/metadata/scte35/SpliceInfoDecoder.java:51-84 | decode returns at most one entry; it returns one exactly when byte 13 is a dispatched type, and that entry has that type; type 0 gives the splice_null command |
| Scte35.DecodeTable | TMessagesProj/src/main/java/ir/avageram/com/exoplayer2/metadata/scte35/SpliceInfoDecoder.java:63-83 | for types 0, 4, 5, 6 and 0xFF, the single entry is the matching command over bytes 14..size with the byte-level PTS and length; any other type gives an empty container and no error |
| Scte35.DecodedPtsInRange | TMessagesProj/src/main/java/ir/avageram/com/exoplayer2/metadata/scte35/SpliceInfoDecoder.java:57-58 | every PTS adjustment handed to a command parser is within [0, 2^33) |
| Scte35.SpliceInfoDecoder.constructor | TMessagesProj/src/main/java/ir/avageram/com/exoplayer2/metadata/scte35/SpliceInfoDecoder.java:40-43 | both cursors are fresh and in a valid state |
| Scte35.TextEquals | TMessagesProj/src/main/java/ir/avageram/com/exoplayer2/metadata/scte35/SpliceInfoDecoder.java:47 | null-safe string equality: true exactly when both are null or both are the same string |
| Scte35.SpliceInfoDecoder.CanDecode | TMessagesProj/src/main/java/ir/avageram/com/exoplayer2/metadata/scte35/SpliceInfoDecoder.java:46-48 | true exactly when the content type is present and equal to the SCTE-35 type; false for null and for the empty string |
| Scte35.SpliceInfoDecoder.ReadSectionHeader | TMessagesProj/src/main/java/ir/avageram/com/exoplayer2/metadata/scte35/SpliceInfoDecoder.java:54-62 | starting at bit 0, the method reads HeaderAt of the buffer and leaves the bit cursor at bit 112 = 8 * 14 |
| Scte35.SpliceInfoDecoder.Decode | TMessagesProj/src/main/java/ir/avageram/com/exoplayer2/metadata/scte35/SpliceInfoDecoder.java:51-84 | the method returns DecodeSection(data, size); both cursors are bound to data[0..size); the bit cursor has consumed exactly the 14 bytes the byte cursor skipped |
| Cursors.ParsableBitArray.constructor | TMessagesProj/src/main/java/ir/avageram/com/exoplayer2/metadata/scte35/SpliceInfoDecoder.java:42 | a bit reader over no data, at position 0 |
| Cursors.ParsableBitArray.Reset | TMessagesProj/src/main/java/ir/avageram/com/exoplayer2/metadata/scte35/SpliceInfoDecoder.java:53 | the reader is bound to the new data and limit and rewound |
| Cursors.ParsableBitArray.SkipBits | TMessagesProj/src/main/java/ir/avageram/com/exoplayer2/metadata/scte35/SpliceInfoDecoder.java:56 | skipping advances the bit position by exactly n |
| Cursors.ParsableBitArray.ReadBits | TMessagesProj/src/main/java/ir/avageram/com/exoplayer2/metadata/scte35/SpliceInfoDecoder.java:57-62 | reading n bits returns the big-endian value of bits position..position+n and advances by n |
| Cursors.ParsableByteArray.constructor | TMessagesProj/src/main/java/ir/avageram/com/exoplayer2/metadata/scte35/SpliceInfoDecoder.java:41 | a byte reader over no data, at position 0 |
| Cursors.ParsableByteArray.Reset | TMessagesProj/src/main/java/ir/avageram/com/exoplayer2/metadata/scte35/SpliceInfoDecoder.java:52 | the reader is bound to the new data and limit and rewound |
| Cursors.ParsableByteArray.SkipBytes | TMessagesProj/src/main/java/ir/avageram/com/exoplayer2/metadata/scte35/SpliceInfoDecoder.java:65 | skipping advances the byte position by exactly n |
| Bits.BitsValue | TMessagesProj/src/main/java/ir/avageram/com/exoplayer2/metadata/scte35/SpliceInfoDecoder.java:57-62 | the value readBits(n) returns: the n bits from the current position, most significant first (its properties are the lemmas below) |
| Bits.BitsValueBound | TMessagesProj/src/main/java/ir/avageram/com/exoplayer2/metadata/scte35/SpliceInfoDecoder.java:57-62 | an n-bit read is below 2^n |
| Bits.BitsValueSplit | TMessagesProj/src/main/java/ir/avageram/com/exoplayer2/metadata/scte35/SpliceInfoDecoder.java:56-62 | reading a + b bits is reading a bits, shifting them left by b and adding the next b bits |
| Bits.ByteBits | TMessagesProj/src/main/java/ir/avageram/com/exoplayer2/metadata/scte35/SpliceInfoDecoder.java:62 | a byte-aligned 8-bit read is that byte |
| Bits.LowNibble | TMessagesProj/src/main/java/ir/avageram/com/exoplayer2/metadata/scte35/SpliceInfoDecoder.java:61 | the last four bits of a byte are the byte modulo 16 |
| Bits.LastBit | TMessagesProj/src/main/java/ir/avageram/com/exoplayer2/metadata/scte35/SpliceInfoDecoder.java:57 | the last bit of a byte is the byte modulo 2 |
| Bits.FourBytes | TMessagesProj/src/main/java/ir/avageram/com/exoplayer2/metadata/scte35/SpliceInfoDecoder.java:58 | a byte-aligned 32-bit read is the big-endian value of those four bytes |
| Bits.BigEndian32Bytes | TMessagesProj/src/main/java/ir/avageram/com/exoplayer2/metadata/scte35/SpliceInfoDecoder.java:58 | four bytes read as a big-endian number give a number below 2^32 that splits back into the same bytes |
| Bits.Be32BytesValue | TMessagesProj/src/main/java/ir/avageram/com/exoplayer2/metadata/scte35/SpliceInfoDecoder.java:58 | splitting a 32-bit number into big-endian bytes and reading them back gives the number |
| PtsFinding.IntValue | TMessagesProj/src/main/java/ir/avageram/com/exoplayer2/metadata/scte35/SpliceInfoDecoder.java:58-61 | a 32-bit pattern read as a Java int, the type readBits returns (lines 61-62 store its results in ints) |
| PtsFinding.AsWrittenPts | TMessagesProj/src/main/java/ir/avageram/com/exoplayer2/metadata/scte35/SpliceInfoDecoder.java:57-58 | the long that line 58 computes from the 1-bit and 32-bit reads, on Java's two's-complement types: shift, int-to-long widening and OR (its properties are the lemmas below) |
| PtsFinding.WidenIntValue | TMessagesProj/src/main/java/ir/avageram/com/exoplayer2/metadata/scte35/SpliceInfoDecoder.java:58 | widening a Java int to a long keeps its signed value |
| PtsFinding.AsWrittenLosesHighBit | TMessagesProj/src/main/java/ir/avageram/com/exoplayer2/metadata/scte35/SpliceInfoDecoder.java:58 | when bit 31 of the low part is set, the as-written composition has its upper half all ones, whatever the high bit, and is negative |
| PtsFinding.AsWrittenAgreesBelow | TMessagesProj/src/main/java/ir/avageram/com/exoplayer2/metadata/scte35/SpliceInfoDecoder.java:58 | when bit 31 of the low part is clear, the as-written composition is the high bit followed by the low part |
| PtsFinding.AsWrittenCounterexample | TMessagesProj/src/main/java/ir/avageram/com/exoplayer2/metadata/scte35/SpliceInfoDecoder.java:58 | for bytes 4..8 = 00 80 00 00 00, the two reads give 0 and 2^31; the corrected adjustment is 2^31 and the as-written one is -2^31 |

## Left out

- The command parsers' byte layouts are not modelled (`SpliceScheduleCommand`, `SpliceInsertCommand`, `TimeSignalCommand`, `PrivateCommand.parseFromSection`). A decoded command records what its parser receives: the bytes from the byte cursor's position to its limit, plus the PTS adjustment and command length passed to it.
- Scte35.SpliceInfoDecoder.Decode: because the parsers are not modelled, they do not advance the byte cursor. The ensures `8 * sectionData.position == 112` therefore describes the cursor right after `skipBytes(14)` at line 65; the Java parsers called at lines 71-80 move it further.
- Scte35.SpliceInfoDecoder.Decode: it passes the parsers the unsigned 33-bit adjustment, high * 2^32 + low. For a section whose byte 5 is 0x80 or more and whose type is 5, 6 or 0xFF, line 58 as written passes low - 2^32 instead. The Findings row and `PtsFinding` state that case.
- Cursors.ParsableBitArray.ReadBits: it returns the n bits as an unsigned number. For n = 32 the Java returns them as a signed int; `PtsFinding.IntValue` models that reading.
- Only the cursor operations `decode` calls are modelled (reset, skipBits, readBits, skipBytes), with the contracts their use at lines 52-65 implies.
- Reading or skipping past the limit is not modelled. `Decode` requires 14 <= size <= |data|; on shorter input the Java cursors would fail.
- The concrete text of the SCTE-35 content type is not modelled. It is an abstract constant of type `MimeType`, a non-empty string, so `CanDecode` rejects the empty string; `canDecode` compares against it.
- `CanDecode` compares whole strings, as Android's `TextUtils.equals` does for two strings.
- CRC_32 validation is not modelled, because `decode` does not perform it.
- `decode` itself never throws `MetadataDecoderException`; exceptions the parsers might raise are not modelled.
- Scte35.SpliceInfoDecoder.ReadSectionHeader: the Java reads the header inline in `decode`. The model moves those reads into a separate method of the same class; the order of the reads is unchanged.
- The bytes of the Java `byte[]` are modelled as their unsigned bit patterns, which is how the cursors read them.

## Findings

| source | as written | input that shows it | evidently intended | confidence | as-written member | corrected member |
|---|---|---|---|---|---|---|
| TMessagesProj/src/main/java/ir/avageram/com/exoplayer2/metadata/scte35/SpliceInfoDecoder.java:58 | `(ptsAdjustment << 32) \| sectionHeader.readBits(32)`: the 32-bit read is a Java int, so a set bit 31 is sign-extended into bits 32..63 | bytes 4..8 of the section = 00 80 00 00 00: the as-written adjustment is -2^31 | the unsigned 33-bit composition, 2^31 for this input, always in [0, 2^33) | not executed | PtsFinding.AsWrittenCounterexample | Scte35.ComposePts |
