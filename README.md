# Hardpack in Dafny

Hardpack is a compact binary format for Swift `Codable` values. Its encoding has no field names and no type tags:

- integers are written little-endian at their own width;
- `Float` and `Double` are written as their bit patterns;
- `Bool` is one byte;
- a `String` is its UTF-8 length as a `VarInt`, then the UTF-8 bytes;
- a `UUID` is written by its own `encode(to:)`, as its `uuidString` (a `String`); only the single-value container's `encodeUUID` writes its 16 bytes;
- a `Date` is written by its own `encode(to:)`, as the `Double` `timeIntervalSinceReferenceDate`; only the container's `encodeDate` writes whole milliseconds since 1970, as a `UInt64`;
- an array or dictionary is its count as a `VarInt`, then its elements (a dictionary's as key, value pairs);
- a record is its properties in declaration order;
- an optional value handed to `encode(_:)`, and a `Nullable` property, is a presence byte (0x00 absent, 0x01 present), then for a present one its payload; an optional stored property written by `encodeIfPresent` has no presence byte, and writes nothing when absent.

A `VarInt` is an unsigned 64-bit integer in 7-bit groups, least significant first, with the high bit of every byte but the last set.

This project models:

- the `VarInt` codec;
- the current encoder and decoder;
- the first version of the encoder, which frames arrays differently;
- the `Nullable` property wrapper, which is what makes self-referencing records encodable.

Each part is modelled in the form of its Swift source:

- The encoder and decoder are classes. Their state is the output buffer, and the input with its read offset. Their methods are proved against recursive specification functions:
  - `HardpackEncoder.Emit` says what the encoder writes.
  - `HardpackDecoder.ReadValue` says what the decoder reads and where it stops.
- The round-trip theorem and the comparison of the two encoders are lemmas about those functions.

Modules, one per file:

| file | module | models |
|---|---|---|
| `foundation.dfy` | `Foundation` | `Double` arithmetic for the date conversions, `uuidString` and `UUID(uuidString:)` |
| `wire.dfy` | `Wire` | bytes, powers of two, little-endian byte order, error kinds |
| `utf8.dfy` | `Utf8` | well-formed UTF-8, after the byte-sequence rules of RFC 3629 section 4 |
| `values.dfy` | `Values` | Swift values (`Value`) and static types (`Shape`); two's-complement bit patterns |
| `varint.dfy` | `VarInt` | `VarInt.swift` |
| `encoder.dfy` | `HardpackEncoder` | `HardpackEncoder.swift` |
| `decoder.dfy` | `HardpackDecoder` | `HardpackDecoder.swift` |
| `roundtrip.dfy` | `RoundTrip` | what the decoder makes of the encoder's output |
| `nullable.dfy` | `NullableWrapper` | `Nullable.swift` and the self-referencing `Node` of the library's tests |
| `legacy.dfy` | `OldHardpack` | `OldHardpackEncoder.swift` |

How the decoder models what Swift does:

- **Dispatch on the static type.** The decoder is driven by a `Shape`, standing for the static type handed to `decode(_:from:)`.
- **Traps.** A Swift runtime trap is the error `Trap`. Traps come from `decodeNil()` at the end of the data; a count under `try!` that is malformed, cut off or above `Int.max`; a string length above `Int.max`, or one whose end offset would overflow `Int`; and a repeated dictionary key.
- **Non-termination.** An element decoder that consumes nothing at an array's end would make the source loop forever. The model reports that as the error `NoProgress`.
- **When `isAtEnd` starts.** `AtEndRule` selects the value an unkeyed container's `isAtEnd` starts with:
  - `StartsFalse` is the code as written;
  - `StartsAtCount` is the corrected code (see "## Findings").

## Model

| member | source | states |
|---|---|---|
| VarInt.FromInteger | Sources/VarInt.swift:41-53 | `init(_:)` stores the value and its bytes, which are exactly `Encoding(value)` |
| VarInt.Decode | Sources/VarInt.swift:23-39 | `decode` succeeds exactly when `Read` finds a terminator within 10 bytes, and then returns the value `Read` assembles, wrapped modulo 2^64 |
| VarInt.FromBytes | Sources/VarInt.swift:55-58 | `init?(bytes:)` fails exactly when decoding fails; otherwise it holds the decoded value, with its bytes re-encoded |
| VarInt.ReadOutcomes | Sources/VarInt.swift:23-39 | decoding stops at the first byte below 0x80; it fails as too long after ten continuation bytes, and as truncated when the data ends first |
| VarInt.EncodingContinuation | Sources/VarInt.swift:41-53 | every encoded byte but the last has the high bit set, and the last one does not |
| VarInt.EncodingGroups | Sources/VarInt.swift:41-53 | the 7-bit groups of the encoding, least significant first, add up to the value |
| VarInt.EncodingLength | Sources/VarInt.swift:41-53 | an encoding has at most m bytes exactly when the value is below 2^(7m) |
| VarInt.EncodingAtMostTen | Sources/VarInt.swift:41-53 | a 64-bit value takes 1 to 10 bytes |
| VarInt.ReadEncoding | Sources/VarInt.swift:23-53 | decoding an encoding, followed by any bytes, gives back the value and consumes exactly the encoding |
| VarInt.ReadIgnoresTrailing | Sources/VarInt.swift:23-39 | bytes after a complete `VarInt` do not change what is decoded |
| VarInt.ReadNoShorterThanEncoding | Sources/VarInt.swift:23-39 | a decoded value's canonical encoding is no longer than the bytes read |
| VarInt.EncodingExamples | Sources/VarInt.swift:41-53 | 0, 127, 128, 300 and 123456 encode as in the format's description |
| VarInt.ReadExamples | Sources/VarInt.swift:23-39 | ten 0x80 bytes followed by a terminator are too long; empty data and a lone 0x80 are truncated |
| Wire.LittleEndianRoundTrip | Sources/HardpackEncoder.swift:97-100 | reading back n little-endian bytes gives any value below 2^(8n) |
| Wire.FromLittleEndianRoundTrip | Sources/HardpackDecoder.swift:74-80 | re-encoding the value read from any bytes gives back those bytes |
| Values.PatternRoundTrip | Sources/HardpackDecoder.swift:74-80 | the two's-complement bit pattern of an in-range integer is read back as the same integer |
| Values.FromPatternRoundTrip | Sources/HardpackEncoder.swift:97-100 | every bit pattern of the width is the pattern of the integer it is read as |
| Utf8.ValidExcludesForbiddenOctets | Sources/HardpackDecoder.swift:88-98 | a string the decoder accepts never holds 0xC0, 0xC1 or a byte above 0xF4 |
| Utf8.AsciiIsValid | Sources/HardpackDecoder.swift:88-98 | every all-ASCII byte string is accepted as UTF-8 |
| Utf8.Examples | Sources/HardpackDecoder.swift:88-98 | one- to four-byte characters are accepted; an overlong form, a surrogate and a cut-off character are refused |
| HardpackEncoder.Encoder.EncodeNil | Sources/HardpackEncoder.swift:92 | `encodeNil()` appends 0x00 |
| HardpackEncoder.Encoder.EncodeBool | Sources/HardpackEncoder.swift:94-96 | appends 0x01 for true and 0x00 for false |
| HardpackEncoder.Encoder.EncodeInteger | Sources/HardpackEncoder.swift:97-100 | appends the integer's bit pattern, little-endian, at its own width |
| HardpackEncoder.Encoder.EncodeFloat | Sources/HardpackEncoder.swift:101-104 | appends the 4-byte bit pattern, little-endian |
| HardpackEncoder.Encoder.EncodeDouble | Sources/HardpackEncoder.swift:105-108 | appends the 8-byte bit pattern, little-endian |
| HardpackEncoder.Encoder.EncodeVarInt | Sources/HardpackEncoder.swift:119-121 | appends the `VarInt`'s bytes |
| HardpackEncoder.Encoder.EncodeString | Sources/HardpackEncoder.swift:109-113 | appends the UTF-8 length as a `VarInt`, then the UTF-8 bytes |
| HardpackEncoder.Encoder.EncodeUuid | Sources/HardpackEncoder.swift:114-118 | appends the 16 UUID bytes in order |
| HardpackEncoder.Encoder.EncodeDate | Sources/HardpackEncoder.swift:122-125 | appends the milliseconds since 1970 as an 8-byte little-endian integer |
| Foundation.MillisSince1970 | Sources/HardpackEncoder.swift:122-125 | `UInt64(timeIntervalSince1970 * 1000)` in `Double` arithmetic; where the conversion would trap there is no result, and a result fits in 64 bits |
| Foundation.FromMillisSince1970 | Sources/HardpackDecoder.swift:129-132 | `Date(timeIntervalSince1970: Double(ms) / 1000)` in `Double` arithmetic gives a 64-bit interval pattern |
| Foundation.UuidStringRoundTrip | Sources/HardpackEncoder.swift:43 | `UUID(uuidString:)` of a `uuidString` is the same UUID, the string a `UUID`'s own `encode(to:)` writes |
| Foundation.ParsedUuidString | Sources/HardpackDecoder.swift:44 | the strings `UUID(uuidString:)` accepts are exactly `uuidString`s in upper or lower case |
| Values.LookThrough | Sources/HardpackEncoder.swift:39-42 | an `as` cast sees through every present `Optional` wrapping a value, and nowhere else; the result is no present optional |
| Values.Handed | Sources/HardpackEncoder.swift:43 | a scalar's own `encode(to:)` hands the container a `UUID`'s `uuidString`, which `UUID(uuidString:)` parses back to the same UUID, and a `Date`'s `Double` interval; every other scalar hands over itself |
| HardpackEncoder.Encoder.EncodeSingle | Sources/HardpackEncoder.swift:127-153 | the single-value `encode(_:)` succeeds exactly for the listed scalar types, looking through a present optional, and appends their bytes; any other type throws and appends nothing |
| HardpackEncoder.Encoder.Encode | Sources/HardpackEncoder.swift:28-45 | `encode(_:)` writes 0x00 for an absent `Optional` or `Nullable`, 0x01 and then the switch on the payload for a present one, and the switch for anything else: it appends `Emit(v)` and succeeds exactly when `Emit(v)` does |
| HardpackEncoder.Encoder.Switch | Sources/HardpackEncoder.swift:39-44 | the type switch casts through present optionals (`LookThrough`), so `[T]??` and `Data` go to the array writer and an optional dictionary to the dictionary writer; anything else runs its own `encode(to:)` on the value itself |
| HardpackEncoder.Encoder.EncodeOptional | Sources/HardpackEncoder.swift:50-57 | `encodeOptional`, which nothing in the library calls: an absent optional is 0x00; a present one is 0x01, then the payload through `encode(_:)` |
| HardpackEncoder.Encoder.EncodeArray | Sources/HardpackEncoder.swift:69-74 | appends the count as a `VarInt`, then each element's encoding in order; it stops at the first element that throws |
| HardpackEncoder.Encoder.EncodeElement | Sources/HardpackEncoder.swift:71-72 | one array element goes through `encode(_:)` |
| HardpackEncoder.Encoder.EncodeDictionary | Sources/HardpackEncoder.swift:58-68 | appends the count as a `VarInt`, then each key and its value, in iteration order |
| HardpackEncoder.Encoder.EncodeEntry | Sources/HardpackEncoder.swift:64-66 | one dictionary entry: its key, then its value |
| HardpackEncoder.Encoder.EncodeTo | Sources/HardpackEncoder.swift:43 | a value's own `encode(to:)`: a scalar hands the single-value container what `Handed` gives (a `UUID` its string, a `Date` its `Double`), a record writes its properties, and `Optional` and `Nullable` write their payload alone (0x00 when absent), with no presence tag |
| HardpackEncoder.Encoder.EncodeFields | Sources/HardpackEncoder.swift:156-177 | the keyed container writes the properties in declaration order, with no keys and no count |
| HardpackEncoder.Encoder.EncodeField | Sources/HardpackEncoder.swift:165-168 | one property: a present optional writes its payload bare, an absent one writes nothing |
| HardpackEncoder.EncodeValue | Sources/HardpackEncoder.swift:14-18 | `HardpackEncoder().encode(_:)` returns the bytes of `Encoding(v)`, or throws exactly when that is an error; `Encoding` is `Emit` from an empty buffer, so it carries the optional tag, the look-through casts and the own `encode(to:)` of `UUID` and `Date` |
| HardpackDecoder.ReadInteger | Sources/HardpackDecoder.swift:74-80 | reading an integer succeeds exactly when `Width(k)` bytes remain; then it consumes exactly those bytes and gives an in-range value; otherwise the error is unexpected end of data |
| HardpackDecoder.ReadIntegerBytes | Sources/HardpackDecoder.swift:74-80 | the bytes consumed are the little-endian form of the value's bit pattern |
| HardpackDecoder.ReadVarInt | Sources/HardpackDecoder.swift:99-120 | succeeds exactly when a terminator comes within 10 bytes; it consumes 1 to 10 bytes; it fails as too long or as unexpected end of data |
| HardpackDecoder.ReadStringValid | Sources/HardpackDecoder.swift:88-98 | a decoded string is well-formed UTF-8; its length is the `VarInt` before it; its bytes are the ones that follow it |
| HardpackDecoder.ReadUuid | Sources/HardpackDecoder.swift:121-128 | succeeds exactly when 16 bytes remain, and returns those bytes |
| HardpackDecoder.ReadScalar | Sources/HardpackDecoder.swift:137-156 | a type outside the switch is an error; a success consumes bytes and gives a value of the requested type |
| HardpackDecoder.LenientBool | Sources/HardpackDecoder.swift:133-135 | `decodeBool()` reads one byte and any nonzero byte is `true`, so 0x02 reads as `true`; with no byte left it is unexpected end of data |
| HardpackDecoder.ReadOwnScalar | Sources/HardpackDecoder.swift:40-45 | a scalar's own `init(from:)`: a `UUID` reads a string and succeeds only with what `UUID(uuidString:)` parses from it; a `Date` succeeds exactly when 8 bytes remain; every other scalar is the container's `ReadScalar` |
| HardpackDecoder.ReadNil | Sources/HardpackDecoder.swift:31-38 | traps at the end of the data; a byte above 1 is a corrupted optional; 0 and 1 are consumed and mean absent and present |
| HardpackDecoder.ReadNilLenient | Sources/HardpackDecoder.swift:70-73 | `try?` turns a corrupted tag into "absent" and leaves the byte unread; only the trap remains an error |
| HardpackDecoder.ReadCount | Sources/HardpackDecoder.swift:204-208 | a count is a `VarInt`; a count above `Int.max` traps |
| HardpackDecoder.ReadArray | Sources/HardpackDecoder.swift:197-215 | with `isAtEnd` starting false, a successful read never yields an empty array |
| HardpackDecoder.ReadElements | Sources/HardpackDecoder.swift:210-215 | the element loop yields exactly `count - index` elements, each of the element type; asking past the count without being at the end fails |
| HardpackDecoder.ReadFields | Sources/HardpackDecoder.swift:176-194 | a record yields one value per property, each of its property's type |
| HardpackDecoder.ReadValue | Sources/HardpackDecoder.swift:40-45 | a success reads forwards within the data and yields a value of the requested type |
| HardpackDecoder.ReadDictionary | Sources/HardpackDecoder.swift:244-252 | a dictionary is read as an array of key-value pairs, consumes input only forwards, and gives a dictionary of the key and value types whose keys are distinct; when the pairs read hold a repeated key, `init(uniqueKeysWithValues:)` traps |
| HardpackDecoder.ReadOptionalCorrected | Sources/HardpackDecoder.swift:70-73 | the `Optional.init(from:)` the encoder's tag calls for: an absent tag gives `nil` and consumes one byte; a success gives an optional of the payload type |
| HardpackDecoder.Decoder.constructor | Sources/HardpackDecoder.swift:27-29 | a decoder starts at offset 0 |
| HardpackDecoder.Decoder.DecodeNil | Sources/HardpackDecoder.swift:31-38 | returns what `ReadNil` gives and advances the offset to where it stops |
| HardpackDecoder.Decoder.DecodeNilLenient | Sources/HardpackDecoder.swift:70-73 | returns what `ReadNilLenient` gives and advances the offset to where it stops |
| HardpackDecoder.Decoder.DecodeInteger | Sources/HardpackDecoder.swift:74-80 | returns what `ReadInteger` gives and advances the offset to where it stops |
| HardpackDecoder.Decoder.DecodeVarInt | Sources/HardpackDecoder.swift:99-120 | the byte loop returns what `ReadVarInt` gives; on success the offset moves past the `VarInt`, on failure past the bytes examined |
| HardpackDecoder.Decoder.DecodeString | Sources/HardpackDecoder.swift:88-98 | returns what `ReadString` gives; invalid UTF-8 leaves the offset after the string's bytes |
| HardpackDecoder.Decoder.DecodeUuid | Sources/HardpackDecoder.swift:121-128 | returns what `ReadUuid` gives and advances the offset to where it stops |
| HardpackDecoder.Decoder.DecodeScalar | Sources/HardpackDecoder.swift:137-156 | the type switch returns what `ReadScalar` gives |
| HardpackDecoder.Decoder.DecodeOwnScalar | Sources/HardpackDecoder.swift:40-45 | a scalar's own `init(from:)`, with `UUID` and `Date` going through a `String` and a `Double`, returns what `ReadOwnScalar` gives |
| HardpackDecoder.Decoder.Decode | Sources/HardpackDecoder.swift:40-45 | `decode(_:)` returns what `ReadValue` gives and leaves the offset where it stops: a dictionary type through `init(custom:)`, any other through its own `init(from:)` |
| HardpackDecoder.Decoder.DecodeOwn | Sources/HardpackDecoder.swift:40-45 | a type's own `init(from:)` returns what `ReadOwn` gives; for `UUID` and `Date` that is their own string and `Double` forms, not the container's |
| HardpackDecoder.Decoder.DecodeOptional | Sources/HardpackDecoder.swift:70-73 | `Optional.init(from:)` checks the tag leniently, then reads a scalar payload |
| HardpackDecoder.Decoder.DecodeNullable | Sources/Nullable.swift:17-24 | `Nullable.init(from:)` checks the tag leniently, then runs the payload type's `init(from:)` |
| HardpackDecoder.Decoder.Unkeyed | Sources/HardpackDecoder.swift:204-208 | the unkeyed container reads its count, starts at index 0, and sets `isAtEnd` by the rule in force |
| HardpackDecoder.Decoder.DecodeArray | Sources/HardpackDecoder.swift:197-215 | `Array.init(from:)` returns what `ReadArray` gives |
| HardpackDecoder.Decoder.DecodeElements | Sources/HardpackDecoder.swift:210-215 | the loop `while !isAtEnd` returns what `ReadElements` gives |
| HardpackDecoder.Decoder.DecodeRecord | Sources/HardpackDecoder.swift:176-194 | the property loop returns what `ReadFields` gives |
| HardpackDecoder.Decoder.DecodeField | Sources/HardpackDecoder.swift:176-194 | one property returns what `ReadField` gives |
| HardpackDecoder.Decoder.DecodeDictionary | Sources/HardpackDecoder.swift:244-252 | `Dictionary.init(custom:)` returns what `ReadDictionary` gives |
| HardpackDecoder.UnkeyedContainer.constructor | Sources/HardpackDecoder.swift:204-208 | a container starts at index 0, with `isAtEnd` set by the rule in force |
| HardpackDecoder.UnkeyedContainer.Decode | Sources/HardpackDecoder.swift:210-215 | reads one element, increments the index, and recomputes `isAtEnd` as index == count |
| HardpackDecoder.DecodeValue | Sources/HardpackDecoder.swift:14-17 | `HardpackDecoder().decode(_:from:)` returns what `ReadValue` gives from offset 0, for input whose indices start at 0 (see "## Left out") |
| RoundTrip.EncodeDecode | Sources/HardpackDecoder.swift:14-17 | decoding the encoder's output gives back the value encoded and consumes exactly the encoding, whatever follows it, for every `Codable` type (which leaves out `UUID?` and `Date?`, see "## Findings") with nonempty arrays, under either `AtEndRule` |
| RoundTrip.ValueRoundTrip | Sources/HardpackEncoder.swift:28-45 | the same at any offset of a larger buffer, through `decode(_:)`: the tag, the look-through casts and the own forms of `UUID` and `Date` are read back as written |
| RoundTrip.ArrayRoundTrip | Sources/HardpackEncoder.swift:69-74 | an array's count and elements read back as the same array |
| RoundTrip.DictionaryRoundTrip | Sources/HardpackEncoder.swift:58-68 | a dictionary's count and pairs read back as the same entries |
| RoundTrip.OptionalRoundTrip | Sources/HardpackEncoder.swift:28-37 | a tagged optional scalar other than `UUID` and `Date` reads back as the same optional |
| RoundTrip.NullableRoundTrip | Sources/Nullable.swift:17-32 | a `Nullable` property reads back as the same property |
| RoundTrip.FieldsRoundTrip | Sources/HardpackEncoder.swift:156-177 | a record's properties read back in order |
| RoundTrip.ScalarRoundTrip | Sources/HardpackDecoder.swift:137-156 | every supported scalar but `Date` that the single-value container writes reads back as the same scalar |
| RoundTrip.DateRoundTrip | Sources/HardpackDecoder.swift:129-132 | `decodeDate` reads back the milliseconds `encodeDate` wrote, as the date `FromMillisSince1970` gives |
| RoundTrip.OwnScalarRoundTrip | Sources/HardpackDecoder.swift:40-45 | a scalar's own `init(from:)` reads back what its own `encode(to:)` wrote, `UUID` and `Date` included |
| RoundTrip.OwnUuidRoundTrip | Sources/HardpackEncoder.swift:43 | a `UUID` written as its `uuidString` is parsed back into the same 16 bytes |
| RoundTrip.OwnDateRoundTrip | Sources/HardpackEncoder.swift:43 | a `Date` written as its `Double` interval reads back as the same interval |
| RoundTrip.OptionalUuidAsWritten | Sources/HardpackDecoder.swift:144 | as written, a present `UUID?` is the tag, 0x24 and the 36-character string, and is read back as the UUID made of the 16 bytes after the tag, stopping at byte 17 of 38 |
| RoundTrip.OptionalDateAsWritten | Sources/HardpackDecoder.swift:142 | as written, a present `Date?` is the tag and the `Double` interval's bit pattern, and is read back as that many milliseconds since 1970 |
| RoundTrip.ReferenceDateMisread | Sources/HardpackDecoder.swift:129-132 | the reference date's interval, pattern 0, is read back as 1970-01-01, a negative interval and so another date |
| RoundTrip.OptionalCorrectedRoundTrip | Sources/HardpackDecoder.swift:70-73 | with the payload read by its own `decode(_:)`, every tagged optional scalar, `UUID` and `Date` included, and every optional array or record reads back as itself |
| RoundTrip.EmptyArrayAsWritten | Sources/HardpackDecoder.swift:201 | the empty array encodes as 0x00, yet as written `[Int16]` reads 0x00 as unexpected end of data |
| RoundTrip.EmptyRecordArrayAsWritten | Sources/HardpackDecoder.swift:210-215 | as written, an empty array of property-less records never stops reading |
| RoundTrip.EmptyArrayCorrected | Sources/HardpackDecoder.swift:201 | with `isAtEnd` starting at count == 0, 0x00 reads as the empty `[Int16]` |
| NullableWrapper.Encode | Sources/HardpackEncoder.swift:30-37 | `encode(_:)` unwraps a `Nullable` like an `Optional`: absent is the single byte 0x00; present is 0x01, then the wrapped value's encoding (the wrapper's own `encode(to:)` is not reached) |
| NullableWrapper.Decode | Sources/Nullable.swift:17-24 | tag 0 is consumed as absent; a tag above 1 is absent and left unread; tag 1 is followed by the payload; no byte left traps |
| NullableWrapper.CorruptTagIsReadAgain | Sources/Nullable.swift:19 | a corrupt tag reads as absent, and its byte is read again as the next property |
| NullableWrapper.ChainEncoding | Tests/HardpackTests.swift:145-157 | a chain of nodes encodes as each value, then 0x01 before the next node or 0x00 after the last |
| NullableWrapper.ThreeNodes | Tests/HardpackTests.swift:159-165 | the test's chain 1, 2, 3 encodes as 01 01 02 01 03 00 |
| NullableWrapper.ChainRoundTrip | Tests/HardpackTests.swift:159-165 | a self-referencing chain of any length encodes and decodes back to itself |
| OldHardpack.Encoder.constructor | Sources/OldHardpackEncoder.swift:18-27 | the legacy encoder starts with no data and no pending elements |
| OldHardpack.Encoder.Flush | Sources/OldHardpackEncoder.swift:41-50 | `encodeArray()` writes the pending count and elements, then empties the list; with nothing pending it does nothing |
| OldHardpack.Encoder.EncodeNil | Sources/OldHardpackEncoder.swift:69 | appends 0x00 |
| OldHardpack.Encoder.EncodeSingle | Sources/OldHardpackEncoder.swift:104-124 | the casts in source order: `Bool`, every fixed-width integer (`Int` and `UInt` included), then the other scalars; anything else throws |
| OldHardpack.Encoder.EncodeTo | Sources/OldHardpackEncoder.swift:52-63 | a value's `encode(to:)` first flushes (every container request does), then succeeds exactly when `Run` does and leaves the state `Run` gives; a `UUID` writes its string and a `Date` its `Double`, through `Handed` |
| OldHardpack.Encoder.EncodeElements | Sources/OldHardpackEncoder.swift:163-166 | the elements of an array join the pending list one by one; nothing is written to `data` |
| OldHardpack.Encoder.EncodeElement | Sources/OldHardpackEncoder.swift:163-166 | one element is encoded by a fresh encoder, and its whole output joins the pending list |
| OldHardpack.Encoder.EncodeFields | Sources/OldHardpackEncoder.swift:137-141 | the properties are encoded in order on the same encoder |
| OldHardpack.Encoder.EncodeField | Sources/OldHardpackEncoder.swift:137-141 | one property; an absent optional property is skipped |
| OldHardpack.Encoder.Encode | Sources/OldHardpackEncoder.swift:29-39 | resets both fields, skips a top-level dictionary (one under present optionals too, as the `is` test looks through them), encodes, flushes and returns `Top(v)` |
| OldHardpack.EncodeValue | Sources/OldHardpackEncoder.swift:13-16 | `OldHardpackEncoder().encode(_:)` returns `Top(v)` |
| OldHardpack.FlushIdempotent | Sources/OldHardpackEncoder.swift:41-50 | flushing twice is flushing once, and leaves nothing pending |
| OldHardpack.ContainerRequestFlushes | Sources/OldHardpackEncoder.swift:52-63 | whatever is pending is flushed before a value writes itself |
| OldHardpack.EmptyArrayVanishes | Sources/OldHardpackEncoder.swift:41-42 | an empty array writes nothing at all, where the current encoder writes 0x00 |
| OldHardpack.TopLevelDictionary | Sources/OldHardpackEncoder.swift:32-36 | a top-level dictionary, or a present optional holding one, encodes as no bytes |
| OldHardpack.PlatformIntegers | Sources/OldHardpackEncoder.swift:107 | `Int` and `UInt` are written as 8 bytes, where the current encoder rejects them |
| OldHardpack.OptionalHasNoTag | Sources/OldHardpackEncoder.swift:104-113 | a present optional scalar is written by the container alone, without the 0x01 tag the current encoder writes; a `Date` whose conversion would trap is the only scalar that fails, and only `UUID` and `Date` payloads differ from what the current encoder writes after the tag |
| OldHardpack.PlainRun | Sources/OldHardpackEncoder.swift:29-50 | for values without empty arrays, platform integers, optionals, dictionaries or `Nullable`, the legacy encoder's flushed output is the current encoder's output |
| OldHardpack.EncodersAgree | Sources/OldHardpackEncoder.swift:13-16 | for those values, both encoders return the same bytes |
| OldHardpack.OldOutputDecodes | Sources/OldHardpackEncoder.swift:13-16 | for those values, the current decoder reads the legacy output back as the value encoded |
| OldHardpack.EmptyArrayPropertyIsMisread | Sources/OldHardpackEncoder.swift:41-42 | a record with an empty array property and a `UInt8` 5 encodes as the single byte 05, which the current decoder misreads |

## Left out

- **Floating point.** `Float` and `Double` values are their bit patterns. Only the `Double` arithmetic of the two date conversions is written out (`Foundation`, rounding to nearest, ties to even); no other floating-point operation occurs in the modelled code.
- RoundTrip.DateRoundTrip: does not state that the date read back is the date written. `decodeDate` of what `encodeDate` wrote is `FromMillisSince1970(MillisSince1970(t))`, and that the two `Double` conversions cancel out (to the millisecond) is not proved. No `Codable` type reaches this path: the container writes milliseconds only for the payload of an `Optional`, which `encode(_:)` never hands it.
- **The date conversion trap.** `UInt64(timeIntervalSince1970 * 1000)` traps in Swift when the product is negative, not finite or too large. `MillisSince1970` gives no result there, and the encoders report a thrown `Unsupported` instead of a crash.
- **Dictionary order.** Entries are written in the dictionary's iteration order. That order is taken as a given sequence, since Swift's hashing is not modelled.
- **UTF-8 conversion.** `String(data:encoding:)` and `String.utf8` are Foundation calls. A string is its UTF-8 bytes, and the decoder's check is RFC 3629 validity.
- **Unmodelled container features.**
  - `codingPath` and `userInfo` are not modelled, and neither are error messages.
  - Nested containers and `superEncoder`/`superDecoder` are not modelled; no modelled type uses them.
  - The unkeyed decoding container's `decodeNil()` (Sources/HardpackDecoder.swift:223-226) is not modelled; no modelled type reaches it.
- **`Data`.** `Data` is an array of `UInt8`. The encoder sends both to the array writer. On the decoding side, Foundation's `Data.init(from:)` runs its own loop over an unkeyed container of `UInt8`, which is not part of this model; it is modelled as `Array.init(from:)` of `UInt8`, which reads the same bytes and gives the same outcome.
- **Traps.** A Swift trap is an error value, `Trap`, not a crash. In the class methods it is still a returned error.
- **Foreign types.** `Foreign` stands for a type whose own `encode(to:)` and `init(from:)` hand the single-value container a type on none of its lists; the container throws `Unsupported` for it. Types whose standard conformances hand over a listed type (such as `Float16`, which goes through `Float`, or a `String`-backed enum) are modelled as that listed type.
- **The current encoder's `unkeyedContainer()`** (Sources/HardpackEncoder.swift:80-82) is `fatalError()`. A type on no list whose own `encode(to:)` asks for an unkeyed container (for instance `Set`) traps there; the model has no such value, and `Foreign` stands only for the single-value case above.
- HardpackDecoder.DecodeValue: the input is a sequence indexed from 0. `decode(_:from:)` indexes its `Data` from 0 up to `data.count` (Sources/HardpackDecoder.swift:32, 77, 92, 104, 125 and 177). The model takes the input to start at index 0. A `Data` slice whose `startIndex` is not 0 keeps its parent's indices, so in Swift it traps or reads the wrong bytes; the model does not capture that.
- **The standard library's `Dictionary.init(from:)`.** Only a `Nullable` dictionary would reach it, and the model reports it as `Unsupported`.
- **Optionals of non-scalar types, `UUID?` and `Date?`.** The standard library's `Optional.init(from:)` hands the payload to the single-value container. So only an optional scalar decodes, and a `UUID` or `Date` payload is read in the container's form, not the form its own `encode(to:)` wrote (see "## Findings"). `RoundTrip.Codable` leaves these types out.
- HardpackDecoder.ReadDictionary: a repeated key is found by `DistinctKeys`, which compares keys as model values. Swift's `==` can differ: canonically equivalent strings with different UTF-8 bytes are equal in Swift but distinct here, and so are `0.0` and `-0.0`; a `NaN` key is equal to another `NaN` key here but to nothing in Swift. `init(uniqueKeysWithValues:)` traps on the key `==` finds, and the model may trap, or not, on different keys.
- **Optional properties.** A record property of optional type is written bare by `encodeIfPresent`, but read with a tag by `decodeIfPresent`. Both sides are modelled; the round-trip lemmas exclude such properties.
- **RoundTrip.EncodeDecode: no empty collections under `StartsFalse`.** The lemma assumes every array and dictionary is nonempty (`Populated`), because under the rule as written an empty one does not read back (see "## Findings").
- **The legacy encoder's reach.**
  - A dictionary nested anywhere except the top level or an array element would run the standard library's `Dictionary.encode(to:)`. `OldHardpack.InScope` excludes it.
  - `Data` under an optional is not told apart from `[UInt8]`.
  - The keyed and unkeyed `encodeNil` are `fatalError` (Sources/OldHardpackEncoder.swift:136 and 162), and no modelled path calls them.
  - The debugging `print` calls are not modelled.
- **Casts through `Any`.** The legacy encoder's `as?` casts are not modelled for bridged Foundation types, such as `NSNumber` passing as `Bool`.
- **Integer widths.** `Int` and `UInt` are taken to be 64 bits wide.
- **Unmodelled files.** `Sources/main.swift` is a demonstration program and is not part of this model.

## Findings

| source | as written | input that shows it | evidently intended | confidence | as-written member | corrected member |
|---|---|---|---|---|---|---|
| Sources/HardpackDecoder.swift:201 | `isAtEnd` starts `false`, and the element loop runs until it is true, so a container whose count is 0 still asks for one element | `[]` as `[Int16]` encodes as 0x00; decoding 0x00 as `[Int16]` fails with unexpected end of data. As an array of property-less records it never stops | `isAtEnd` starts at `count == 0`, so the empty array and the empty dictionary read back | not executed | RoundTrip.EmptyArrayAsWritten | RoundTrip.EmptyArrayCorrected |
| Sources/HardpackDecoder.swift:40-45 | `encode(_:)` writes a present optional as 0x01 and then the payload's own `encode(to:)`, which for a `UUID` is its `uuidString`; `decode(_:)` has no matching branch, so `Optional.init(from:)` reads the payload with the single-value container's `decodeUUID`, 16 raw bytes | any present `UUID?`: it encodes as 0x01, 0x24 and 36 characters, and decodes as the UUID made of the 16 bytes after the tag, leaving 21 bytes unread | the payload after the tag is read by its own `init(from:)`, so a `UUID?` reads back | not executed | RoundTrip.OptionalUuidAsWritten | RoundTrip.OptionalCorrectedRoundTrip |
| Sources/HardpackDecoder.swift:40-45 | the same for a `Date?`: the payload is the `Double` `timeIntervalSinceReferenceDate` its own `encode(to:)` writes, and the container's `decodeDate` reads those 8 bytes as milliseconds since 1970 | the reference date 2001-01-01 as `Date?`: it encodes as 0x01 and eight 0x00 bytes, and decodes as 1970-01-01 | the payload after the tag is read by its own `init(from:)`, so a `Date?` reads back | not executed | RoundTrip.OptionalDateAsWritten | RoundTrip.OptionalCorrectedRoundTrip |
