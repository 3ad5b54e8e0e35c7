# rapidetf encoder, modelled in Dafny

rapidetf serialises C++ values into Erlang's External Term Format (ETF). This project models its
encoding half.

- **Writer** (`Writer.h`, `Writer.cpp`) holds a growing byte buffer. Each of its primitives
  appends one framed item: the version byte 131, a small integer, a 32-bit integer, a
  SMALL_BIG, a float, an atom, a binary, a string, a tuple, list or map header, or the NIL
  terminator.
- **Size checks.** The atom, binary, string and header primitives check a size limit. When a
  size is over the limit they throw `std::length_error` before writing anything.
- **Encoder** (`Encoder.h`, `Encoder.cpp`) owns a Writer. Its constructor writes the version
  byte. Its `Write` overload set maps each C++ value onto Writer calls.
- **Constants** (`Constants.h`) holds the tag byte of each term and `AsBigEndian`.

## Files

- `ints.dfy` (module `CppIntegers`): the fixed-width integer types. It also covers the C++
  integer rules the encoder's range checks rely on:
  - integral conversion, modulo 2^N;
  - integral promotion and the usual arithmetic conversions, applied to the operands of `<=`.
- `constants.dfy` (module `EtfConstants`):
  - the tag bytes and their decoding;
  - big-endian images of a number;
  - `AsBigEndian` for a host of either endianness.
- `writer.dfy` (module `EtfWriter`):
  - **Frames.** A `Frame` is one item a Writer primitive appends. `Serialize` gives its bytes.
  - **Frame choosers.** A function per primitive chooses the frame or the `length_error`:
    `UInt64Frame`, `AtomFrame`, `TupleHeaderFrame`, …
  - **Class `Writer`.** Each method appends the bytes piece by piece, as the source does. Each
    is proved to append exactly `Serialize` of its frame, or to leave the buffer untouched and
    report the error.
  - **Buffer.** `Get` is the buffer itself.
- `encoder.dfy` (module `EtfEncoder`):
  - **`Value`** has one constructor per `Write` overload family.
  - **`Encode(v)`** gives the frames the overloads append for `v`. It also says whether a
    `length_error` ended the call.
  - **Class `Encoder`** makes the same calls on its Writer. `Encoder.Write` is proved to append
    exactly `SerializeAll(Encode(v).frames)` and to report the same outcome.
- `framing.dfy` (module `EtfFraming`): a reader for the frames. It is an independent
  definition, not part of the source, and the layout of every frame is checked against it.
  Serialising any list of frames whose lengths fit their fields and reading it back gives the
  same list. A term-counting function (`SkipTerms`) then states when a list of frames is a
  complete sequence of terms.
- `encoder_properties.dfy` (module `EtfEncoderProperties`): what the encoder writes, overload
  by overload, and its behaviour on containers.

## Behaviour of the code as written that the model keeps

- **`uint32_t` and `uint64_t` never produce INTEGER_EXT.** `DoesOverlap<int32_t>` on an
  unsigned argument converts `INT32_MIN` to an unsigned value of at least 2^31, so the test
  never holds. Every value above 255 therefore goes to `WriteUInt64`.
- **`int64_t` never calls `WriteInt64`.** `DoesOverlap<uint64_t>` holds for every `int64_t`.
  A value below the `int32_t` range is written as the SMALL_BIG of its two's-complement
  pattern, with sign 0.
- **SMALL_BIG digits are the leading bytes of the big-endian image.** `WriteUInt64` appends
  the first ByteCount bytes of the value's 8-byte big-endian image. For a value below 2^32
  those bytes are all zero. As a result every `uint32_t` from 256 to 65535 is written as the
  same five bytes, `110 2 0 0 0`.
- **`std::pair` writes no header.** Its two halves are written one after the other. A pair
  inside a vector therefore counts as two elements against a list header of one.
- **`WriteString` reports an oversized string with the binary's message.**
- **Small atoms are strictly below 255 bytes.** An atom uses the small form only when its size
  is below 255. An atom of exactly 255 bytes takes the two-byte-length form.
- **An empty `std::array` or `std::vector` writes only NIL_EXT.** An `std::unordered_map`
  always writes a map header, even when it is empty.

## Model

| member | source | states |
|---|---|---|
| CppIntegers.Convert | deps/rapidetf/rapidetf/Encoder.cpp:79-81 | an integral conversion yields a value of the target type and leaves a value already in range unchanged; congruence modulo 2^N is ConvertCongruent |
| CppIntegers.ConvertCongruent | deps/rapidetf/rapidetf/Encoder.cpp:79-81 | the converted value is v plus a whole multiple of 2^N; with Convert's range clause, it is the unique value of the target type congruent to v modulo 2^N |
| CppIntegers.LessEqual | deps/rapidetf/rapidetf/Encoder.cpp:24 | definition of the built-in `<=` on two integer types: promote both, convert to the common type, compare; its meaning is stated by LessEqualIsExact and NegativeAgainstUnsignedWraps |
| CppIntegers.Int64AsUInt64 | deps/rapidetf/rapidetf/Encoder.cpp:99-101 | passing an `int64_t` to a `uint64_t` parameter adds 2^64 to a negative value and keeps a non-negative one |
| CppIntegers.LessEqualIsExact | deps/rapidetf/rapidetf/Encoder.cpp:21-25 | `<=` is the mathematical comparison when both operands are values of their common type |
| CppIntegers.NegativeAgainstUnsignedWraps | deps/rapidetf/rapidetf/Encoder.cpp:21-25 | against an unsigned operand at least 32 bits wide and at least as wide as its own type, a negative operand compares as itself plus 2^N |
| EtfConstants.FromByte | deps/rapidetf/rapidetf/Constants.h:8-26 | a byte decoded to a tag is that tag's value |
| EtfConstants.ToByte | deps/rapidetf/rapidetf/Constants.h:8-26 | definition of the tag byte of each enumerator; TagValues, FromByteToByte and TagsDistinct state its values and that it is injective |
| EtfConstants.TagValues | deps/rapidetf/rapidetf/Constants.h:8-26 | the sixteen tag bytes: Version 131, NEW_FLOAT 'F', SMALL_INTEGER 'a', … SMALL_ATOM_UTF8 'w' |
| EtfConstants.FromByteToByte | deps/rapidetf/rapidetf/Constants.h:8-26 | every tag decodes from its own byte |
| EtfConstants.TagsDistinct | deps/rapidetf/rapidetf/Constants.h:8-26 | distinct tags have distinct bytes |
| EtfConstants.BEValueOfBE | deps/rapidetf/rapidetf/Constants.h:28-36 | a w-byte big-endian image of a value below 256^w reads back as that value |
| EtfConstants.BEOfBEValue | deps/rapidetf/rapidetf/Constants.h:28-36 | reading a byte string and re-imaging it at its own width gives back the string |
| EtfConstants.AsBigEndianImage | deps/rapidetf/rapidetf/Constants.h:28-36 | on either host, the in-memory image of `AsBigEndian(v)` is the big-endian image of v |
| EtfConstants.AsBigEndianInvolution | deps/rapidetf/rapidetf/Constants.h:28-36 | applying `AsBigEndian` twice gives back the value |
| EtfConstants.AsBigEndian | deps/rapidetf/rapidetf/Constants.h:28-36 | the byte swap on a little-endian host and the identity on a big-endian one; the result stays below 256^w, and AsBigEndianImage states what it is for |
| EtfWriter.Serialize | deps/rapidetf/rapidetf/Writer.cpp:22-215 | every item the Writer appends starts with its tag byte |
| EtfWriter.Fields | deps/rapidetf/rapidetf/Writer.cpp:22-215 | definition of the bytes after each tag: lengths and counts big-endian at the width each primitive writes; ParseSerialize and SerializeInjective show the layout is read back unambiguously |
| EtfWriter.SerializeAllAppend | deps/rapidetf/rapidetf/Writer.cpp:229-234 | appending two runs of frames appends their bytes in order |
| EtfWriter.FixedAtomBytes | deps/rapidetf/rapidetf/Writer.cpp:27-46 | the fixed arrays for nil, true and false are the SMALL_ATOM_EXT frames of those names |
| EtfWriter.BitWidth | deps/rapidetf/rapidetf/Writer.cpp:60-65 | `std::bit_width`: 0 for 0, v < 2^n, and 2^(n-1) <= v for v > 0 |
| EtfWriter.GetByteCount | deps/rapidetf/rapidetf/Writer.cpp:60-65 | the byte count is at most 8, is 0 exactly for 0, and is the least n with v < 256^n |
| EtfWriter.ByteCountIsMinimal | deps/rapidetf/rapidetf/Writer.cpp:60-65 | the cast to `uint8_t` changes nothing, and ceil(width/8) bytes hold v while one byte fewer does not |
| EtfWriter.UInt64Frame | deps/rapidetf/rapidetf/Writer.cpp:67-76 | a SMALL_BIG with sign 0 and ByteCount digits, whose lengths fit their fields |
| EtfWriter.Abs | deps/rapidetf/rapidetf/Writer.cpp:80 | `std::abs` gives the magnitude of every value except INT64_MIN |
| EtfWriter.Int64Frame | deps/rapidetf/rapidetf/Writer.cpp:78-89 | a SMALL_BIG whose sign byte is the sign bit and which has ByteCount(\|v\|) digits |
| EtfWriter.AtomFrame | deps/rapidetf/rapidetf/Writer.cpp:103-141 | succeeds exactly when the name has at most 65535 bytes; the small form is used exactly when the name is below 255 bytes; the name and the encoding are kept |
| EtfWriter.BinaryFrame | deps/rapidetf/rapidetf/Writer.cpp:143-154 | succeeds exactly when the data has at most 2^32-1 bytes, and then carries the data |
| EtfWriter.StringFrame | deps/rapidetf/rapidetf/Writer.cpp:156-166 | succeeds exactly when the string has at most 65535 bytes, and then carries the string |
| EtfWriter.TupleHeaderFrame | deps/rapidetf/rapidetf/Writer.cpp:168-184 | succeeds exactly up to 2^32-1; the small header is used exactly up to 255; the arity is the size |
| EtfWriter.ListHeaderFrame | deps/rapidetf/rapidetf/Writer.cpp:191-202 | succeeds exactly up to 2^32-1, with the size as the length |
| EtfWriter.MapHeaderFrame | deps/rapidetf/rapidetf/Writer.cpp:204-215 | succeeds exactly up to 2^32-1, with the size as the pair count |
| EtfWriter.SmallBigFields | deps/rapidetf/rapidetf/Writer.cpp:67-89 | the count byte, sign byte and digit bytes the Writer appends are the fields of the SMALL_BIG frame |
| EtfWriter.Writer.constructor | deps/rapidetf/rapidetf/Writer.cpp:7-10 | a new Writer has an empty buffer |
| EtfWriter.Writer.Reset | deps/rapidetf/rapidetf/Writer.cpp:17-20 | the buffer is emptied |
| EtfWriter.Writer.WriteBytes | deps/rapidetf/rapidetf/Writer.cpp:229-234 | the data is appended to the buffer |
| EtfWriter.Writer.WriteByte | deps/rapidetf/rapidetf/Writer.cpp:217-221 | one byte is appended |
| EtfWriter.Writer.WriteAsBigEndian | deps/rapidetf/rapidetf/Writer.cpp:217-221 | writing `AsBigEndian(v)` appends the big-endian image of v on either host |
| EtfWriter.Writer.WriteVersion | deps/rapidetf/rapidetf/Writer.cpp:22-25 | appends the version byte |
| EtfWriter.Writer.WriteNil | deps/rapidetf/rapidetf/Writer.cpp:27-32 | appends the atom `nil` |
| EtfWriter.Writer.WriteFalse | deps/rapidetf/rapidetf/Writer.cpp:34-39 | appends the atom `false` |
| EtfWriter.Writer.WriteTrue | deps/rapidetf/rapidetf/Writer.cpp:41-46 | appends the atom `true` |
| EtfWriter.Writer.WriteUInt8 | deps/rapidetf/rapidetf/Writer.cpp:48-52 | appends SMALL_INTEGER_EXT of v |
| EtfWriter.Writer.WriteInt32 | deps/rapidetf/rapidetf/Writer.cpp:54-58 | appends INTEGER_EXT of v, as four big-endian bytes |
| EtfWriter.Writer.WriteUInt64 | deps/rapidetf/rapidetf/Writer.cpp:67-76 | appends exactly the bytes of `UInt64Frame(v)` |
| EtfWriter.Writer.WriteInt64 | deps/rapidetf/rapidetf/Writer.cpp:78-89 | appends exactly the bytes of `Int64Frame(v)` |
| EtfWriter.Writer.WriteDouble | deps/rapidetf/rapidetf/Writer.cpp:91-95 | appends NEW_FLOAT_EXT with the 8 big-endian bytes of the bit pattern |
| EtfWriter.Writer.WriteAtom | deps/rapidetf/rapidetf/Writer.cpp:103-121 | either appends the bytes of the frame AtomFrame chooses and passes, or leaves the buffer unchanged and reports that frame's error |
| EtfWriter.Writer.WriteAtomUtf8 | deps/rapidetf/rapidetf/Writer.cpp:123-141 | the same for the UTF-8 atom tags |
| EtfWriter.Writer.WriteBinary | deps/rapidetf/rapidetf/Writer.cpp:143-154 | appends BINARY_EXT, or leaves the buffer unchanged and reports the error |
| EtfWriter.Writer.WriteString | deps/rapidetf/rapidetf/Writer.cpp:156-166 | appends STRING_EXT, or leaves the buffer unchanged and reports the error |
| EtfWriter.Writer.WriteTupleHeader | deps/rapidetf/rapidetf/Writer.cpp:168-184 | appends the small or large tuple header, or leaves the buffer unchanged and reports the error |
| EtfWriter.Writer.WriteNilExt | deps/rapidetf/rapidetf/Writer.cpp:186-189 | appends NIL_EXT |
| EtfWriter.Writer.WriteListHeader | deps/rapidetf/rapidetf/Writer.cpp:191-202 | appends LIST_EXT with the length, or leaves the buffer unchanged and reports the error |
| EtfWriter.Writer.WriteMapHeader | deps/rapidetf/rapidetf/Writer.cpp:204-215 | appends MAP_EXT with the pair count, or leaves the buffer unchanged and reports the error |
| EtfEncoder.KindOf | deps/rapidetf/rapidetf/Encoder.h:18-32 | an integer value is in the range of its overload's parameter type |
| EtfEncoder.DoesOverlap | deps/rapidetf/rapidetf/Encoder.cpp:21-25 | definition: both comparisons of the template, each under the usual arithmetic conversions; UInt8OverlapIsExact, Int32OverlapOnUnsignedIsFalse, Int32OverlapOnInt64IsExact and OverlapsUInt64 state what it decides |
| EtfEncoder.IntegerFrame | deps/rapidetf/rapidetf/Encoder.cpp:27-123 | definition of the frame each integer overload writes; IntegerFrameFits and the classification lemmas state its cases |
| EtfEncoder.MidFrame | deps/rapidetf/rapidetf/Encoder.cpp:37-71 | definition of the shared `int16_t`/`uint16_t`/`int32_t` body; MidClassification states it |
| EtfEncoder.UnsignedFrame | deps/rapidetf/rapidetf/Encoder.cpp:73-87 | definition of the shared `uint32_t`/`uint64_t` body; UnsignedClassification states it |
| EtfEncoder.Int64ValueFrame | deps/rapidetf/rapidetf/Encoder.cpp:89-107 | definition of the `int64_t` body, whose `WriteInt64` branch is proved dead; Int64SmallRange, Int64IntegerRange and Int64BeyondInt32 state it |
| EtfEncoder.Encode | deps/rapidetf/rapidetf/Encoder.h:46-109 | definition of the frames each overload appends and whether a `length_error` ended it; EncodeFits, EncodedBytesParse, EncodeSkips and the layout lemmas state its properties |
| EtfEncoder.EncodeAll | deps/rapidetf/rapidetf/Encoder.h:86-89 | definition of the element loop, stopping at the first exception; EncodeAllStops, ElementFailureKeepsPrefix and EncodeAllSkips state it |
| EtfEncoder.EncodeEntry | deps/rapidetf/rapidetf/Encoder.h:94-99 | definition of one map entry through the pair overload: key, then value |
| EtfEncoder.EncodeEntries | deps/rapidetf/rapidetf/Encoder.h:105-108 | definition of the entry loop, stopping at the first exception; EncodeEntriesStops and EncodeEntriesSkips state it |
| EtfEncoder.OverlapsUInt64 | deps/rapidetf/rapidetf/Encoder.cpp:99-106 | `DoesOverlap<uint64_t>` holds for every `int64_t`, so the `WriteInt64` branch is dead |
| EtfEncoder.EncodeAllStops | deps/rapidetf/rapidetf/Encoder.h:86-89 | once an element throws, the later elements write nothing |
| EtfEncoder.EncodeEntriesStops | deps/rapidetf/rapidetf/Encoder.h:105-108 | once an entry throws, the later entries write nothing |
| EtfEncoder.Encoder.constructor | deps/rapidetf/rapidetf/Encoder.cpp:5-9 | a new Encoder's buffer holds just the version byte |
| EtfEncoder.Encoder.Reset | deps/rapidetf/rapidetf/Encoder.cpp:16-19 | the buffer is emptied, with no version byte |
| EtfEncoder.Encoder.Write | deps/rapidetf/rapidetf/Encoder.h:20-109 | appends exactly the bytes of `Encode(v)` and reports its outcome |
| EtfEncoder.Encoder.WriteInteger | deps/rapidetf/rapidetf/Encoder.cpp:27-123 | the eight integer overloads append the bytes of `IntegerFrame(k, x)` and never fail |
| EtfEncoder.Encoder.WriteMid | deps/rapidetf/rapidetf/Encoder.cpp:37-71 | the `int16_t`, `uint16_t` and `int32_t` overloads append the bytes of `MidFrame(k, x)` |
| EtfEncoder.Encoder.WriteUnsigned | deps/rapidetf/rapidetf/Encoder.cpp:73-87 | the `uint32_t` and `uint64_t` overloads append the bytes of `UnsignedFrame(k, x)` |
| EtfEncoder.Encoder.WriteInt64Value | deps/rapidetf/rapidetf/Encoder.cpp:89-107 | the `int64_t` overload appends the bytes of `Int64ValueFrame(x)` |
| EtfEncoder.Encoder.WriteBool | deps/rapidetf/rapidetf/Encoder.cpp:125-135 | appends the bytes of `Encode(Boolean(b))` |
| EtfEncoder.Encoder.WriteDouble | deps/rapidetf/rapidetf/Encoder.cpp:137-140 | appends the bytes of `Encode(Double(bits))` |
| EtfEncoder.Encoder.WriteText | deps/rapidetf/rapidetf/Encoder.cpp:142-150 | appends the bytes of `Encode(Text(bytes))` and reports its outcome |
| EtfEncoder.Encoder.WriteNull | deps/rapidetf/rapidetf/Encoder.cpp:152-160 | appends the bytes of `Encode(Null)` |
| EtfEncoder.Encoder.WriteOptional | deps/rapidetf/rapidetf/Encoder.h:46-57 | appends the bytes of `Encode(Optional(o))` and reports its outcome |
| EtfEncoder.Encoder.WriteTuple | deps/rapidetf/rapidetf/Encoder.h:59-64 | appends the bytes of `Encode(Tuple(fields))` and reports its outcome |
| EtfEncoder.Encoder.WriteSequence | deps/rapidetf/rapidetf/Encoder.h:66-92 | appends the bytes of `Encode(Sequence(elems))` and reports its outcome |
| EtfEncoder.Encoder.WritePair | deps/rapidetf/rapidetf/Encoder.h:94-99 | appends the bytes of `Encode(Pair(first, second))` and reports its outcome |
| EtfEncoder.Encoder.WriteMap | deps/rapidetf/rapidetf/Encoder.h:101-109 | appends the bytes of `Encode(Mapping(entries))` and reports its outcome |
| EtfEncoder.Encoder.WriteAll | deps/rapidetf/rapidetf/Encoder.h:86-89 | the element loop appends the bytes of `EncodeAll(xs)` and stops at the first exception |
| EtfEncoder.Encoder.WriteEntry | deps/rapidetf/rapidetf/Encoder.h:94-99 | a map entry appends the bytes of its key, then of its value |
| EtfEncoder.Encoder.WriteEntries | deps/rapidetf/rapidetf/Encoder.h:105-108 | the entry loop appends the bytes of `EncodeEntries(es)` and stops at the first exception |
| EtfEncoderProperties.UInt8OverlapIsExact | deps/rapidetf/rapidetf/Encoder.cpp:21-25 | `DoesOverlap<uint8_t>` holds exactly for 0..255, for every argument type |
| EtfEncoderProperties.Int32OverlapOnUnsignedIsFalse | deps/rapidetf/rapidetf/Encoder.cpp:79-81 | `DoesOverlap<int32_t>` never holds for a `uint32_t` or `uint64_t` argument |
| EtfEncoderProperties.Int32OverlapOnInt64IsExact | deps/rapidetf/rapidetf/Encoder.cpp:95-98 | `DoesOverlap<int32_t>` on an `int64_t` holds exactly for the `int32_t` range |
| EtfEncoderProperties.Int8IsAlwaysInteger | deps/rapidetf/rapidetf/Encoder.cpp:27-30 | every `int8_t` is written as a five-byte INTEGER_EXT, including 0..127 |
| EtfEncoderProperties.UInt8IsAlwaysSmallInteger | deps/rapidetf/rapidetf/Encoder.cpp:32-35 | every `uint8_t` is written as the two bytes 97, v |
| EtfEncoderProperties.MidClassification | deps/rapidetf/rapidetf/Encoder.cpp:37-71 | for `int16_t`, `uint16_t` and `int32_t`, values 0..255 become SMALL_INTEGER_EXT of the value and all others INTEGER_EXT of the value |
| EtfEncoderProperties.UnsignedClassification | deps/rapidetf/rapidetf/Encoder.cpp:73-87 | for `uint32_t` and `uint64_t`, values 0..255 become SMALL_INTEGER_EXT and all others `UInt64Frame` of the value; INTEGER_EXT never occurs |
| EtfEncoderProperties.Int64SmallRange | deps/rapidetf/rapidetf/Encoder.cpp:91-94 | an `int64_t` in 0..255 becomes SMALL_INTEGER_EXT |
| EtfEncoderProperties.Int64IntegerRange | deps/rapidetf/rapidetf/Encoder.cpp:95-98 | any other `int64_t` in the `int32_t` range becomes INTEGER_EXT |
| EtfEncoderProperties.Int64BeyondInt32 | deps/rapidetf/rapidetf/Encoder.cpp:99-102 | an `int64_t` outside the `int32_t` range becomes `UInt64Frame` of its `uint64_t` conversion |
| EtfEncoderProperties.NegativeInt64IsPositiveBig | deps/rapidetf/rapidetf/Encoder.cpp:99-102 | an `int64_t` below the `int32_t` range becomes a SMALL_BIG with sign 0 and 8 digits |
| EtfEncoderProperties.IntegerFrameFits | deps/rapidetf/rapidetf/Encoder.cpp:27-123 | every integer frame fits its fields, is a complete term and is not the version byte |
| EtfEncoderProperties.SmallBigBytes | deps/rapidetf/rapidetf/Writer.cpp:72-75 | a SMALL_BIG is the bytes 110, digit count, sign, then the digits |
| EtfEncoderProperties.UInt64FrameBytes | deps/rapidetf/rapidetf/Writer.cpp:67-76 | `WriteUInt64` appends 110, ByteCount, 0, then the first ByteCount bytes of the 8-byte big-endian image |
| EtfEncoderProperties.Int64FrameBytes | deps/rapidetf/rapidetf/Writer.cpp:78-89 | `WriteInt64` appends 110, ByteCount, the sign bit, then the leading bytes of the magnitude's big-endian image |
| EtfEncoderProperties.UInt64DigitsZeroBelow2To32 | deps/rapidetf/rapidetf/Writer.cpp:67-76 | below 2^32 every SMALL_BIG digit is zero |
| EtfEncoderProperties.SameDigitsBelow2To32 | deps/rapidetf/rapidetf/Writer.cpp:67-76 | below 2^32, two values with the same byte count get the same SMALL_BIG frame |
| EtfEncoderProperties.TwoByteCount | deps/rapidetf/rapidetf/Writer.cpp:60-65 | 256..65535 take two bytes |
| EtfEncoderProperties.UInt32SameByteCountSameBytes | deps/rapidetf/rapidetf/Encoder.cpp:73-87 | two `uint32_t` values above 255 with the same byte count are encoded identically |
| EtfEncoderProperties.UInt32EncodingLosesValue | deps/rapidetf/rapidetf/Encoder.cpp:73-87 | any two `uint32_t` values in 256..65535 are encoded identically |
| EtfEncoderProperties.UInt32TwoByteBytes | deps/rapidetf/rapidetf/Encoder.cpp:73-87 | a `uint32_t` in 256..65535 is written as 110 2 0 0 0 |
| EtfEncoderProperties.UInt64TwoByteBytes | deps/rapidetf/rapidetf/Writer.cpp:67-76 | `WriteUInt64` of a value in 256..65535 appends 110 2 0 0 0 |
| EtfEncoderProperties.BooleanIsAtom | deps/rapidetf/rapidetf/Encoder.cpp:125-135 | true and false are written as the small atoms `true` and `false` |
| EtfEncoderProperties.NullIsNilAtom | deps/rapidetf/rapidetf/Encoder.cpp:152-160 | nullptr and nullopt are written as the small atom `nil`, and so is an empty optional |
| EtfEncoderProperties.OptionalIsTransparent | deps/rapidetf/rapidetf/Encoder.h:46-57 | an engaged optional is written exactly as its value |
| EtfEncoderProperties.TextIsBinary | deps/rapidetf/rapidetf/Encoder.cpp:142-150 | a string passes exactly when it has at most 2^32-1 bytes, is then one BINARY_EXT of its bytes, and otherwise writes nothing |
| EtfEncoderProperties.ScalarIsOneFrame | deps/rapidetf/rapidetf/Encoder.cpp:27-160 | every non-container overload that passes writes exactly one frame, which fits and is a complete term |
| EtfEncoderProperties.EmptySequenceIsNil | deps/rapidetf/rapidetf/Encoder.h:80-92 | an empty vector is written as the single byte 106 |
| EtfEncoderProperties.OversizedContainersWriteNothing | deps/rapidetf/rapidetf/Writer.cpp:168-215 | a tuple, vector or map with more than 2^32-1 elements writes nothing and fails with the header's error |
| EtfEncoderProperties.ElementFailureKeepsPrefix | deps/rapidetf/rapidetf/Encoder.h:86-89 | when element i is the first that throws, the loop has written the earlier elements and what element i wrote before throwing, and fails with its error |
| EtfEncoderProperties.NonEmptySequenceLayout | deps/rapidetf/rapidetf/Encoder.h:80-92 | a non-empty vector is a list header with its size, its elements, then NIL_EXT |
| EtfEncoderProperties.ContainerHeaderBytes | deps/rapidetf/rapidetf/Writer.cpp:191-215 | list and map headers are their tag and then a four-byte big-endian count |
| EtfEncoderProperties.TupleLayout | deps/rapidetf/rapidetf/Encoder.h:59-64 | a tuple is its header, then its fields in order, with their outcome |
| EtfEncoderProperties.TupleHeaderCountsFields | deps/rapidetf/rapidetf/Writer.cpp:168-184 | the tuple header announces exactly as many terms as the tuple has fields |
| EtfEncoderProperties.EncodeFits | deps/rapidetf/rapidetf/Encoder.h:20-109 | every frame any value's encoding writes fits its length fields |
| EtfEncoderProperties.EncodeAllFits | deps/rapidetf/rapidetf/Encoder.h:86-89 | the same for the frames of a run of elements |
| EtfEncoderProperties.EncodeEntriesFits | deps/rapidetf/rapidetf/Encoder.h:105-108 | the same for the frames of a run of map entries |
| EtfEncoderProperties.EncodedBytesParse | deps/rapidetf/rapidetf/Encoder.h:20-109 | the bytes written for any value read back as exactly the frames `Encode` gives |
| EtfEncoderProperties.EncodeSkips | deps/rapidetf/rapidetf/Encoder.h:20-109 | a value with no pair directly inside a container is encoded as exactly Width(v) complete terms |
| EtfEncoderProperties.EncodeAllSkips | deps/rapidetf/rapidetf/Encoder.h:86-89 | elements that are each one term make up as many terms as there are elements |
| EtfEncoderProperties.EncodeEntriesSkips | deps/rapidetf/rapidetf/Encoder.h:105-108 | n map entries are 2n terms, matching the map header's count of pairs |
| EtfEncoderProperties.EncodedTermIsComplete | deps/rapidetf/rapidetf/Encoder.h:20-109 | such a value of width one is exactly one complete term |
| EtfEncoderProperties.PairInSequenceIsMisframed | deps/rapidetf/rapidetf/Encoder.h:80-99 | a vector holding one pair writes a list header of 1, then the pair's two halves, then NIL_EXT; read as terms, the list takes the first half as its element and the second half as its tail (the improper list [a \| b]), and NIL_EXT is left over after the term |
| EtfFraming.LengthPrefixedRoundTrip | deps/rapidetf/rapidetf/Writer.cpp:103-166 | a big-endian length followed by its payload reads back as that payload |
| EtfFraming.CountRoundTrip | deps/rapidetf/rapidetf/Writer.cpp:168-215 | a big-endian count reads back as that count |
| EtfFraming.ParseSerialize | deps/rapidetf/rapidetf/Writer.cpp:22-215 | every frame whose lengths fit reads back from its bytes, leaving the rest of the input |
| EtfFraming.SerializeInjective | deps/rapidetf/rapidetf/Writer.cpp:22-215 | two fitting frames with the same bytes are the same frame |
| EtfFraming.ParseFrameSound | deps/rapidetf/rapidetf/Writer.cpp:22-215 | whatever the reader accepts is the bytes of a fitting frame followed by the rest |
| EtfFraming.ParseFramesRoundTrip | deps/rapidetf/rapidetf/Writer.cpp:22-234 | serialising fitting frames one after another and reading them back gives the same frames |

## Left out

- **Floating point.** `double` is taken as its IEEE-754 bit pattern, the value `std::bit_cast`
  produces. No floating-point arithmetic is involved.
- **`InitialCapacity` and `reserve`.** Both affect only allocation, never the bytes, so they are
  accepted and ignored.
- **Host byte order** (`std::endian::native`) is a parameter of the Writer. The buffer contents
  are proved not to depend on it.
- **Exceptions.** `std::length_error` is modelled as a returned `Outcome`: `Fail` carries the
  message and nothing after it runs. Bytes a container wrote before an element threw stay in the
  buffer, as in the source.
- **Allocation failure** (`std::bad_alloc`) is not modelled, and neither is the call-stack depth
  of deeply nested values.
- **`std::unordered_map` order.** The map is given as the sequence of its entries in iteration
  order. The hash-dependent order itself is not modelled.
- **Template dispatch.** Overload resolution, and the compile-time `Size` of `std::array` and
  the arity of `std::tuple`, become the constructors of `Value`. A `std::array` of size 0 is the
  empty Sequence, which writes only NIL_EXT as the source does.
- **Unreachable overloads.** `WriteAtom`, `WriteAtomUtf8` and `WriteString` are modelled in the
  Writer, but no `Encoder::Write` overload calls them.
- **`EtfWriter.Writer.WriteInt64`** requires the argument not to be INT64_MIN. There `std::abs`
  is undefined behaviour. The encoder never calls `WriteInt64`, as `EtfEncoder.OverlapsUInt64`
  shows.
- **`EtfWriter.Writer.Get`** returns the buffer (`std::span` over it). It is a reads-only
  function with no contract of its own.
- **`EtfEncoder.Encoder.Get`** is the same for the Encoder. It is a reads-only function with no
  contract of its own.
- **`EtfEncoderProperties.EncodeSkips`** is stated only for values in which no `std::pair`, and no
  optional holding one, sits directly in a tuple field, an array or vector element, or a map key
  or value. In those positions the source
  misframes, as `PairInSequenceIsMisframed` shows.
- **Access control.** `Write`, `Write(span)` and `WriteBytes` are private members of the
  Writer (Writer.h:55-63). In the model, `EtfWriter.Writer.WriteBytes`, `WriteByte` and
  `WriteAsBigEndian` are ordinary methods, because the model has no export sets to hide them.
  Nothing outside the Writer calls them.
- **Strings.** `std::string`, `std::string_view` and `std::u8string` are taken as their byte
  sequences. No character encoding is checked, as in the source.
