# fc-reflect codecs in Dafny

fc-reflect describes the binary wire format of FC-based blockchains
(Graphene, BitShares and their descendants) with composable serializers. Each
serializer (an `ISerializer`) has four operations:

* `appendToByteBuffer` writes a value's bytes into a growing buffer;
* `readFromBuffer` reads a value at an offset and returns the offset after it;
* `toJSON` and `fromJSON` convert to and from the JSON form.

Two more operations sit on top. `serialize` runs `appendToByteBuffer` on a
fresh buffer and returns its contents. `deserialize` reads at offset 0 and
rejects trailing bytes.

The primitives are the integers of `int.ts`, `bool`, `bytes(size?)`,
`string_t` and `void_t`. The combinators are `optional`, `vector(T, size?)`,
`struct({...})`, `variant(T0, ...)`, `flat_map(K, V)` and `flat_set(T)`.

The model has two layers.

* **Specification layer.** A `Schema` datatype names a serializer
  (`Codec.Schema`). Four mutually recursive functions give what each
  operation does for every schema:
  * `Codec.Append` gives the bytes written and the failure, if any;
  * `Codec.Decode` gives the value read and the offset after it;
  * `Codec.ToJson` and `Codec.FromJson` give the JSON conversions;
  * `Codec.Encode` gives `serialize`.
* **Implementation layer.** For each source file, a module of methods that
  follow the source's statements step by step. Where the source writes, the
  methods append to a `ByteSink` object. Where the source loops, they loop,
  with invariants. Each method is proved equal to its specification function.
  Lemmas then state what the operations promise:
  * the byte layout;
  * the error raised for each bad input, with its path of locators;
  * JSON round trips;
  * canonical order for maps and sets;
  * binary round trips.

A binary round trip is the predicate `RoundTrip.Faithful(s, v, w)`. It says
that three things hold:

* `v` serializes;
* the bytes decode to `w` wherever they sit in a buffer, and the read stops
  right after them;
* `w` serializes to the same bytes.

The combinators' round-trip lemmas assume it of their children and conclude it
of the composite. `Serializer.DeserializeFaithful` turns it into
`deserialize(serialize(v)) == w`.

JavaScript values are the datatype `Values.Value`:

* `undefined` and `null`;
* booleans;
* numbers (integral only) and bigints;
* strings, held as their UTF-8 bytes;
* Buffers;
* arrays;
* plain objects (key order kept);
* Maps and Sets (insertion order kept).

Errors are `Errors.Error`: a kind plus the path of locators that the `_try`
wrappers put in front of the message.

## Where the code and its design differ

The model follows the code. The lemmas below show, on concrete inputs, where
the code departs from the intended format.

* **`bytes(size)` with a fixed size** writes a varint length before the bytes
  (`bytes.ts:30`), but reads exactly `size` bytes with no length
  (`bytes.ts:45`). So the read stops inside the written data.
  `ByteStrings.FixedSizeDecodeStopsShort` and `ByteStrings.FixedSizeExample`
  show this: `[7]` is written as `[1, 7]` and read back as `[1]`.
* **`bytes()` without a size** writes no length (`bytes.ts:30-31`), but reads
  a varint length first (`bytes.ts:46`). So nothing it writes reads back as
  the same bytes. `ByteStrings.VariableSizeWritesNoLength` and
  `ByteStrings.VariableSizeDecodeIsShorter` show this.
* **`string_t`** is built on `bytes()` and inherits the same mismatch.
  `Strings.StringNeverRoundTrips` shows that the read is always shorter than
  the written string, and `Strings.StringExample` shows `"ab"` failing to read
  back.
* **`flat_set`** writes the sorted elements without the element count
  (`flat_set.ts:29`), but reads a varint count first (`flat_set.ts:47`).
  * `FlatSets.EmptySetExample`: the empty set is written as no bytes at all,
    and reading it fails.
  * `FlatSets.ByteSetExample`: `{5, 1}` over `uint8` is written `[1, 5]`,
    which reads back as `{5}`.
  * `FlatSets.RepeatedElementExample`: a buffer that repeats an element reads
    as a set with the element once.
* **`struct`** writes fields in the key order of the object passed in
  (`struct.ts:22`), but reads them in declared order (`struct.ts:45`).
  * `Structs.KeyOrderWritten` and `Structs.KeyOrderRead`: `{b: 2, a: 1}` is
    written `[2, 1]` and read back as `{a: 2, b: 1}`.
  * `Structs.MissingFieldWritten` and `Structs.MissingFieldRead`: a missing
    field is skipped when writing and fails when reading.
* **Unsigned integers** check only the absolute value against `maxAbsValue`
  (`int.ts:29`), so `uint8` accepts `-255` (`Ints.UnsignedAcceptsNegative`).
  Writing then stores the value modulo 2^bits.
* **`int64` decoding** computes the sign from the top byte being non-zero
  rather than from its high bit (`int.ts:43`). So a positive value of 2^56 or
  more decodes as a large negative number, and the range check then fails
  (`Ints.SignedDecodeOfLargePositive`). Values that `appendToByteBuffer`
  accepts (below 2^53 - 1) are unaffected (`RoundTrip.Int64Faithful`).
* **An unterminated varint** fails with the buffer's out-of-range error from
  `readUInt8` (`int.ts:140`) rather than an "unexpected end" error
  (`Ints.VarintExamples`).
* **`flat_map` and `flat_set` reads** do not require the canonical order
  (`flat_map.ts:46-62`):
  * `FlatMaps.FlatMapUnsortedExample`: an unsorted encoding reads back
    successfully;
  * `FlatMaps.FlatMapRepeatedKeyExample`: a repeated key is merged,
    last one wins.

## Model

| member | source | states |
|---|---|---|
| Errors.Prefix | src/vector.ts:51-57 | definition (no property): the rethrown failure is the original kind with the wrapper's locator put in front of its path |
| Errors.Prefixed | src/optional.ts:36-42 | a wrapped call that succeeds passes through unchanged; one that fails comes back with the locator prefixed |
| Sink.ByteSink.constructor | src/ISerializer.ts:13 | a fresh buffer holds no bytes |
| Sink.ByteSink.Append | src/bool.ts:11 | `append` adds the bytes after everything already written and changes nothing else |
| Sink.ByteSink.AppendAll | src/flat_set.ts:29 | appending several buffers in turn adds their concatenation |
| Sink.ConcatSplit | src/vector.ts:20 | the concatenation of two runs of buffers is the concatenation of each run, in order |
| Text.Hex | src/bytes.ts:34 | hex text has two characters per byte |
| Text.FromHex | src/bytes.ts:38 | decoding well-formed hex gives one byte per two characters |
| Text.DigitValue | src/bytes.ts:37 | every lowercase hex digit has a value 0..15 whose digit it is |
| Text.HexRoundTrip | src/bytes.ts:34-38 | the hex of any bytes matches the hex pattern and decodes back to the same bytes |
| Text.HexOfFromHex | src/bytes.ts:37-38 | every string the hex pattern accepts is the hex of what it decodes to |
| Text.HexInjective | src/flat_set.ts:23-24 | different byte strings have different hex strings, so comparing hex strings for duplicates compares the bytes |
| Text.HexOrder | src/flat_map.ts:84 | comparing two hex strings orders them exactly as comparing the bytes lexicographically |
| Text.LessIrreflexive | src/flat_map.ts:84 | no byte string sorts before itself |
| Text.LessTransitive | src/flat_map.ts:84 | the byte order used for sorting is transitive |
| Text.LessTotal | src/flat_map.ts:84 | any two different byte strings are ordered one way or the other |
| Text.LessAsymmetric | src/flat_map.ts:84 | two byte strings are never each before the other |
| Text.DecimalDigits | src/int.ts:68 | `toString()` of a non-negative integer is a non-empty run of decimal digits |
| Text.DecimalRoundTrip | src/int.ts:65-68 | the decimal text of any integer has the `toString()` shape and spells back the same integer |
| Values.IndexOfKey | src/flat_map.ts:40 | a key's position in a Map, and -1 exactly when no entry has that key |
| Values.MapSet | src/flat_map.ts:40 | `Map.set` keeps the keys of a Map distinct |
| Values.MapSetContents | src/flat_map.ts:58 | after `set(k, v)` the Map holds `(k, v)` and every entry with another key, and nothing else |
| Values.NewMapDistinct | src/flat_map.ts:73 | `new Map(pairs)` has distinct keys |
| Values.NewMapOfDistinct | src/flat_map.ts:73 | when the keys of the pairs are distinct, `new Map(pairs)` holds exactly the pairs, in order |
| Values.NewMapLastWins | src/flat_map.ts:73 | the last pair given for a key is the one the Map keeps |
| Values.SetAdd | src/flat_set.ts:54 | `Set.add(x)` leaves exactly the old elements plus `x`, each once |
| Values.NewSetContents | src/flat_set.ts:23 | `new Set(xs)` holds exactly the elements of `xs`, each once |
| Values.NewSetOfDistinct | src/flat_set.ts:42 | when the elements are distinct, `new Set(xs)` keeps them in their order |
| Sorting.Mapped | src/flat_set.ts:29 | definition (no property): `.map(f)`, element by element |
| Sorting.MappedPermutation | src/flat_set.ts:29 | mapping over two permutations of each other gives permutations of each other |
| Sorting.InsertionSortSorts | src/flat_map.ts:84 | the sort's result is in ascending key order and is a permutation of its input |
| Sorting.SortedUnique | src/flat_map.ts:84 | two sorted permutations of the same entries with injective keys are equal |
| Sorting.SortOrderIndependent | src/flat_map.ts:84 | when keys are injective, the sorted result does not depend on the input order |
| Sorting.SortedIsInsertionSort | src/flat_set.ts:29 | any sorted permutation of the input is the sort's result |
| Sorting.SortedDistinctIsStrict | src/flat_map.ts:81-84 | a sorted sequence whose keys were found distinct is strictly ascending |
| Sorting.SortInPlace | src/flat_set.ts:29 | sorting an array in place leaves it in ascending key order and a permutation of what it held |
| Ints.Width | src/int.ts:38 | the byte count is the bit count over 8, between 1 and 8 |
| Ints.CheckBits | src/int.ts:14-20 | the constructor accepts exactly a positive safe integer that is a multiple of 8, and at most 53 for the safe subclass (line 60); it raises the matching error otherwise; `maxAbsValue` is 2^(bits, less 1 if signed) - 1 |
| Ints.KindsConstruct | src/int.ts:72-128 | each of the six exported integer types passes its constructor's checks, with the `maxAbsValue` used by the other operations |
| Ints.MaxAbsValues | src/int.ts:18 | the `maxAbsValue` of uint8, uint16, uint32, uint64, int64 and varint32 |
| Ints.ParseBigInt | src/int.ts:28 | `BigInt(string)` ignores surrounding white space (any of JavaScript's white-space and line-terminator characters) and reads whitespace-only text as 0; it accepts decimal digits after an optional `+` or `-`, giving their value with that sign, and unsigned `0x`, `0o` and `0b` literals in either case, giving their value in base 16, 8 or 2; everything else fails with "not an integer" |
| Ints.ParseDecimalText | src/int.ts:28 | the decimal text `toString()` writes is read back by `BigInt` as the integer it spells |
| Ints.ParsePadded | src/int.ts:28 | one more white-space character before or after the text does not change what `BigInt` returns |
| Ints.ParseDecimalExamples | src/int.ts:28 | `" 5 "` and `"+5"` read as 5, and `" "` reads as 0 |
| Ints.ParseRadixExamples | src/int.ts:28 | `"0x10"` reads as 16 and `"0B11"` as 3 |
| Ints.ParseRejectExamples | src/int.ts:28 | `"-0x10"`, `"0x"`, `"1e3"` and `"+"` are rejected |
| Text.TrimLeading | src/int.ts:28 | a white-space character in front of a text leaves its trimmed form unchanged |
| Text.TrimTrailing | src/int.ts:28 | a white-space character after a text leaves its trimmed form unchanged |
| Text.DecimalDigitsIn | src/int.ts:28 | digits written by `toString()` are base-10 digits of `BigInt`'s grammar, with the same value |
| Ints.ToBigInt | src/int.ts:22-31 | numbers beyond the safe range fail with "loss of accuracy"; other numbers and bigints are kept if their absolute value is within `maxAbsValue` and fail with "overflow" otherwise; a success is always within range |
| Ints.ToBigIntSymmetric | src/int.ts:29 | the range check depends only on the absolute value, so `n` and `-n` are accepted together |
| Ints.UnsignedAcceptsNegative | src/int.ts:29 | an unsigned type accepts negative values down to `-maxAbsValue` |
| Ints.ToJs | src/int.ts:54-66 | the output value is a number for the safe types and a bigint otherwise, always with the same value |
| Ints.IntToJson | src/int.ts:33-35 | `toJSON` succeeds exactly when the range check does; the result is a number, except that a 64-bit value beyond the safe range becomes decimal text that parses back to it |
| Ints.IntFromJson | src/int.ts:55-65 | `fromJSON` succeeds exactly when the range check does; safe types return the input, 64-bit types return the bigint |
| Ints.UnsafeJsonRoundTrip | src/int.ts:64-69 | for the 64-bit types, `fromJSON(toJSON(v))` is the checked bigint of `v` |
| Ints.LERoundTrip | src/int.ts:45-48 | reading back the little-endian bytes written for `n` gives `n` |
| Ints.LETopByte | src/int.ts:43 | the top byte of the little-endian form is zero exactly when the value fits in one byte less |
| Ints.ComplementValue | src/int.ts:46 | reading the `0xff - byte` digits gives 256^count - 1 minus the value of the bytes |
| Ints.SignedValue | src/int.ts:42-49 | a signed read is the unsigned value less 256^count when the top byte is non-zero, else the unsigned value; an unsigned read is the unsigned value |
| Ints.Leb128Continuation | src/int.ts:132 | in `writeVarint32` output, every byte but the last has the continuation bit and the last has not |
| Ints.Leb128Length32 | src/int.ts:132 | values below 2^31 take at most five varint bytes |
| Ints.VarintFrom | src/int.ts:139-146 | the varint loop stops right after the first byte below 0x80, inside the buffer; running off the end fails with "out of range" |
| Ints.VarintRoundTrip | src/int.ts:135-148 | the varint bytes of `n`, wherever they sit, read back as `n` and stop right after themselves |
| Ints.VarintExamples | src/int.ts:139-146 | `[0]` reads 0, `[0x80, 1]` reads 128, `[0xAC, 2, ...]` reads 300 after two bytes, and `[0x80]` fails |
| Ints.IntRead | src/int.ts:37-51 | a read ends inside the buffer after `bitsCount / 8` bytes (fixed width) or after the varint; the result is the decoded value, range-checked, as a number or bigint by type. A fixed-width read with fewer than `bitsCount / 8` bytes left fails with "unexpected buffer end"; otherwise it succeeds exactly when the decoded magnitude is within `maxAbsValue`. varint32 passes on the varint's failure and otherwise succeeds exactly when the value is at most 2^31 - 1. Every other failure is "overflow" |
| Ints.UnsignedValueInRange | src/int.ts:50 | an unsigned fixed-width read never fails the range check |
| Ints.SignedDecodeOfLargePositive | src/int.ts:43-50 | the int64 bytes of 2^56 decode as 2^56 - 2^64, and the read fails with "overflow" |
| Ints.IntAppend | src/int.ts:74-133 | writing needs a passing range check; fixed widths write `bitsCount / 8` bytes and fail with "unsafe is not implemented" at or beyond 2^53 - 1; varint32 writes one to five bytes and fails on negatives |
| Ints.VarintAppendOfCount | src/int.ts:129-133 | a count up to 2^31 - 1 is written as its varint bytes |
| Ints.UInt8Byte | src/int.ts:85-89 | uint8 writes a byte value as that single byte and reads it back |
| Ints.SameAppend | src/int.ts:74-133 | two inputs that `_toBigInt` normalises to the same integer are written as the same bytes, whether given as number, bigint or string |
| Ints.StringInputExamples | src/int.ts:22-31 | a string input goes through `BigInt`: uint8 writes `"0x10"` as the byte 16, and uint64's `fromJSON("+7")` is 7n |
| Ints.UnsignedReadSucceeds | src/int.ts:38-40 | an unsigned read succeeds exactly when the buffer holds the type's byte count from the offset |
| Ints.UnsignedRoundTrip | src/int.ts:83-122 | a non-negative value that an unsigned type writes reads back as the same value, wherever its bytes sit |
| Ints.Int64Written | src/int.ts:74-78 | int64 writes the eight little-endian bytes of the value modulo 2^64 |
| Ints.Int64Bytes | src/int.ts:77 | the signed read of those eight bytes is the value itself, for any value below 2^53 - 1 in absolute value |
| Ints.Int64RoundTrip | src/int.ts:74-78 | every value int64 writes reads back as the same bigint, wherever its bytes sit |
| Ints.VarInt32RoundTrip | src/int.ts:129-148 | every non-negative value varint32 accepts is written and reads back as the same number |
| Ints.FixedLoop | src/int.ts:42-49 | the byte loop with its running multiplier computes the signed or unsigned value of the bytes |
| Ints.ReadFixed | src/int.ts:37-51 | the fixed-width `readFromBuffer` computes `IntRead` |
| Ints.VarintLoop | src/int.ts:139-146 | the varint loop computes the varint value and the offset after it, or fails at the end of the buffer |
| Ints.ReadVarint | src/int.ts:135-148 | varint32's `readFromBuffer` computes `IntRead` |
| Ints.AppendInt | src/int.ts:74-133 | on success the buffer gains exactly the bytes `IntAppend` gives; on failure it is unchanged and the error is reported |
| Bools.BoolBytes | src/bool.ts:10-12 | bool writes one byte: 1 for a truthy value, 0 otherwise |
| Bools.BoolRead | src/bool.ts:14-18 | reading past the end fails at `bool`, a byte above 1 fails with "invalid byte value", and 0 or 1 read as false or true |
| Bools.UInt8ReadAt | src/bool.ts:15 | the uint8 read that bool relies on returns the byte at the offset, or fails at the end of the buffer |
| Bools.BoolRoundTrip | src/bool.ts:10-18 | the byte written for a value reads back as its truth, wherever it sits |
| Bools.AppendBool | src/bool.ts:10-12 | the buffer gains exactly that byte |
| RoundTrip.BoolJson | src/bool.ts:7-8 | bool's `toJSON` and `fromJSON` return the value unchanged, so JSON round-trips it |
| RoundTrip.StringJson | src/string.ts:9-10 | string's `toJSON` and `fromJSON` return the value unchanged |
| RoundTrip.BoolFaithful | src/bool.ts:10-18 | bool round-trips any value to its truth |
| RoundTrip.UnsignedFaithful | src/int.ts:83-122 | the unsigned types round-trip every non-negative value they accept |
| RoundTrip.SameInteger | src/int.ts:22-31 | a number or bigint with the same value as an accepted input serializes to the same bytes |
| RoundTrip.Int64Faithful | src/int.ts:72-78 | int64 round-trips every value it writes, to the bigint |
| RoundTrip.VarInt32Faithful | src/int.ts:127-148 | varint32 round-trips every value it writes |
| ByteStrings.CheckSize | src/bytes.ts:9-12 | the constructor accepts no size, or a size whose absolute value is a varint32 value |
| Codec.NewBytes | src/bytes.ts:9-12 | `bytes(size)` is constructed exactly when the size passes that validation |
| ByteStrings.ToBytes | src/bytes.ts:22-26 | a Buffer or a string gives its bytes; with a fixed size, other lengths fail with "invalid size" |
| ByteStrings.BytesAppend | src/bytes.ts:28-32 | writes the bytes, preceded by the varint of the size when a size is fixed |
| ByteStrings.AppendBytes | src/bytes.ts:28-32 | the buffer gains exactly those bytes, or stays unchanged on failure |
| ByteStrings.BytesToJson | src/bytes.ts:34 | `toJSON` gives well-formed hex that decodes back to the value's bytes |
| ByteStrings.BytesFromJson | src/bytes.ts:36-41 | `fromJSON` accepts exactly even-length lowercase hex of the fixed size, failing with "invalid format" otherwise, and returns a Buffer whose hex is the input |
| ByteStrings.BytesJsonRoundTrip | src/bytes.ts:34-41 | `fromJSON(toJSON(v))` is the Buffer of `v`'s bytes |
| ByteStrings.Slice | src/bytes.ts:48 | `buffer.slice` within bounds is the sub-range; a negative end counts back from the end of the buffer; the result is never longer than the buffer |
| ByteStrings.BytesRead | src/bytes.ts:43-51 | with a fixed size, the read succeeds exactly when that many bytes remain, and returns them; without one, it reads a varint length and then that many bytes; the offset ends after them |
| ByteStrings.VariableSizeWritesNoLength | src/bytes.ts:30-31 | without a size, only the bytes are written |
| ByteStrings.VariableSizeDecodeIsShorter | src/bytes.ts:46-49 | without a size, what a buffer reads as is always shorter than the buffer |
| ByteStrings.FixedSizeDecodeStopsShort | src/bytes.ts:45-49 | with a fixed size, reading what was written stops before the end of it |
| ByteStrings.FixedSizeExample | src/bytes.ts:28-51 | `bytes(1)` writes `[7]` as `[1, 7]` and reads `[1, 7]` as `[1]` |
| Strings.StringAppend | src/string.ts:19-21 | a string is written as its bytes with no length; other values fail at `string` |
| Strings.StringRead | src/string.ts:23-26 | reads as `bytes()` does, with failures prefixed `string` |
| Strings.AppendString | src/string.ts:19-21 | the buffer gains exactly those bytes |
| Strings.StringNeverRoundTrips | src/string.ts:19-26 | any buffer that reads as a string reads as a shorter one than it was written from |
| Strings.StringExample | src/string.ts:19-26 | `"ab"` is written as its two bytes, and those bytes fail to read |
| Voids.VoidUnserializable | src/void.ts:5-12 | all four operations, and `serialize`, fail with "unserializable" and write nothing |
| Serializer.AppendTo | src/ISerializer.ts:14 | `appendToByteBuffer` on any schema adds what the specification writes and reports its failure |
| Serializer.Serialize | src/ISerializer.ts:12-18 | `serialize` returns the bytes written into a fresh buffer, or the failure |
| Serializer.DeserializeCases | src/ISerializer.ts:20-24 | `deserialize` fails with the read's failure, or with "excess info" when bytes remain, and otherwise returns the value read |
| Serializer.DecodedWhole | src/ISerializer.ts:21-23 | a read that consumes the whole buffer is the result; any other end offset is "excess info" |
| Serializer.DeserializeFaithful | src/ISerializer.ts:20-24 | for a round-tripping value, `deserialize(serialize(v))` is the decoded value, and any trailing bytes make it fail with "excess info" |
| Serializer.ExcessExample | src/ISerializer.ts:22 | `[1]` deserializes to `true` with bool, while `[1, 0]` fails with "excess info" |
| Serializer.VoidHelpers | src/void.ts:8-11 | `serialize` and `deserialize` of `void_t` fail with "unserializable" |
| Codec.Decode | src/ISerializer.ts:11 | every read's end offset is at or after its start and, for a start inside the buffer, within the buffer |
| Codec.Item | src/variant.ts:25-27 | `value[i]` fails exactly on null or undefined |
| Optionals.AppendOptional | src/optional.ts:13-18 | the buffer gains what the specification writes, and the failure is reported |
| Optionals.OptionalEncoding | src/optional.ts:13-18 | null or undefined is the byte 0; a present value is 1 followed by its serialization, or that failure prefixed `optional` |
| Optionals.OptionalJson | src/optional.ts:20-28 | null or undefined converts to null both ways; otherwise the inner conversion, with its failure prefixed |
| Optionals.OptionalDecode | src/optional.ts:30-34 | the flag's failures are prefixed `optional`; 0 reads null after one byte; 1 reads the inner value right after the flag |
| Optionals.OptionalFaithful | src/optional.ts:13-34 | optional round-trips an absent value to null, and a present value whenever the inner codec does |
| Optionals.AbsentFaithful | src/optional.ts:14 | null and undefined round-trip to null |
| Optionals.PresentFaithful | src/optional.ts:15-17 | a present value round-trips whenever the inner codec round-trips it to a present value |
| Optionals.PresentDecodesAt | src/optional.ts:30-34 | the flag 1 followed by inner bytes reads the inner value, wherever they sit |
| Codec.NewVector | src/vector.ts:11-14 | `vector(T, size)` is constructed exactly when the size passes varint32's validation |
| Codec.EncodeItems | src/vector.ts:18 | serializing the elements succeeds exactly when each one does, giving their serializations in order |
| Codec.ItemsToJson | src/vector.ts:25 | `toJSON` of the elements succeeds exactly when each one does, giving their conversions in order |
| Codec.ItemsFromJson | src/vector.ts:30 | likewise for `fromJSON` |
| Codec.Count | src/vector.ts:34-39 | the element count is the fixed size, without reading; otherwise it is the varint at the offset |
| Codec.DecodeItems | src/vector.ts:41-47 | reading the elements yields `size` of them (none for a negative count) |
| Vectors.SerializeItems | src/vector.ts:18 | the `map` over the elements computes their serializations or the first failure |
| Vectors.AppendVector | src/vector.ts:16-21 | the buffer gains what the specification writes, and the failure is reported |
| Vectors.ReadVector | src/vector.ts:33-49 | the read loop computes the specification's read |
| Vectors.VectorEncoding | src/vector.ts:16-21 | non-arrays and wrong lengths fail; otherwise writing succeeds exactly when every element serializes (and the count fits a varint32); the bytes are the count, when the size is not fixed, then the elements' serializations in order |
| Vectors.VectorFirstFailure | src/vector.ts:18 | the first element that fails decides the failure, prefixed with its index |
| Vectors.VectorJson | src/vector.ts:23-31 | both conversions succeed exactly on an array of the right length whose elements all convert, and give the converted elements in order |
| Vectors.VectorJsonRoundTrip | src/vector.ts:23-31 | when each element round-trips through JSON, the vector does |
| Vectors.VectorDecode | src/vector.ts:33-49 | a failed count fails the read; a successful read is an array of exactly the count's elements |
| Vectors.VectorBytes | src/vector.ts:16-21 | elements with equal serializations give equal vector serializations: the count, then the concatenated parts |
| Vectors.VectorFaithful | src/vector.ts:16-49 | a vector round-trips whenever each element does |
| Vectors.VectorDecodesAt | src/vector.ts:33-49 | the count followed by element encodings reads the decoded elements, wherever they sit |
| Codec.FieldIndex | src/struct.ts:23 | `this.types[key]`: the position of the declaration with that name, or -1 exactly when there is none |
| Codec.AppendFields | src/struct.ts:22-24 | the bytes already written stay in front of what each later field writes |
| Codec.FieldsToJson | src/struct.ts:29-31 | the converted object has the input's keys in the input's order |
| Codec.FieldsFromJson | src/struct.ts:37-39 | likewise for `fromJSON` |
| Codec.DecodeFields | src/struct.ts:45-51 | a successful read has exactly the declared fields, in declared order |
| Structs.AppendStruct | src/struct.ts:21-25 | the buffer gains what the specification writes, including the fields written before a failing one, and the failure is reported |
| Structs.AppendFieldsStep | src/struct.ts:22-24 | a key without a codec fails with "no codec"; a field that fails keeps its partial output and is prefixed with its key; otherwise the next key follows |
| Structs.StructAppendCons | src/struct.ts:21-25 | the empty object writes nothing; a first key writes its field, then the rest, and an undeclared key or a failing field stops with the prefixed failure |
| Structs.StructJson | src/struct.ts:27-33 | the `toJSON` loop computes the specification's conversion |
| Structs.StructToJsonCons | src/struct.ts:27-33 | the first key's converted value comes first, then the rest; failures are prefixed with the key |
| Structs.StructOfJson | src/struct.ts:35-41 | the `fromJSON` loop computes the specification's conversion |
| Structs.StructFromJsonCons | src/struct.ts:35-41 | likewise for `fromJSON` |
| Structs.ReadStruct | src/struct.ts:43-53 | the read loop computes the specification's read |
| Structs.StructDecodeCons | src/struct.ts:43-53 | the first declared field is read at the offset, its failure prefixed with its name, then the remaining fields from where it ended |
| Structs.LastFieldRead | src/struct.ts:45-52 | a one-field struct reads its field and stops after it |
| Structs.KeyOrderWritten | src/struct.ts:22 | `{b: 2, a: 1}` is written in its own key order as `[2, 1]` |
| Structs.KeyOrderRead | src/struct.ts:45 | `[2, 1]` is read in declared order as `{a: 2, b: 1}` |
| Structs.MissingFieldWritten | src/struct.ts:22-24 | a missing field is simply not written |
| Structs.MissingFieldRead | src/struct.ts:45-51 | reading that output fails on the missing field, prefixed with its name |
| Codec.Tag | src/variant.ts:25 | the tag is checked by varint32's `toJSON`, so a success is within 2^31 - 1 and is the array's first number |
| Codec.CheckTag | src/variant.ts:26 | a tag is accepted exactly when it names an alternative; otherwise "key N not found" |
| Variants.TagFailure | src/variant.ts:25 | every failure of the tag's validation is located at `variant[-1]` |
| Variants.AppendVariant | src/variant.ts:24-30 | the buffer gains what the specification writes, and the failure is reported |
| Variants.VariantEncoding | src/variant.ts:24-30 | the tag's failure, or "key not found", or the varint tag followed by the payload's serialization, or the payload's failure prefixed `variant[tag]` |
| Variants.VariantJson | src/variant.ts:32-42 | the same tag validation, then `[tag, json]` or `[tag, value]` of the chosen alternative's conversion |
| Variants.VariantDecode | src/variant.ts:44-51 | the varint tag (failures at `variant[-1]`), never negative, must name an alternative; the payload is read right after it |
| Variants.VariantKeyNotFound | src/variant.ts:26 | a tag naming no alternative fails with "key N not found" in all four operations (when reading, for too-large tags) |
| Variants.VariantFaithful | src/variant.ts:24-51 | a variant round-trips `[t, x]` whenever alternative `t` round-trips `x` |
| Variants.VariantDecodesAt | src/variant.ts:44-51 | the tag followed by a payload encoding reads `[t, w]`, wherever they sit |
| Codec.Pairs | src/flat_map.ts:72-73 | an array input gives one pair per element, its items 0 and 1; an element that is not an array cannot be destructured |
| Codec.InputMap | src/flat_map.ts:70-74 | a Map input is used as it is; anything other than an array or Map is not of the expected type |
| Codec.KeysOf | src/flat_map.ts:81 | definition (no property): the serialized keys of the entries, in order |
| Codec.SerializeEntries | src/flat_map.ts:75-80 | serializing the entries succeeds exactly when every key and value serializes, giving each entry with its two serializations in order |
| Codec.PairsFromJson | src/flat_map.ts:37-41 | the Map built by `fromJSON` has distinct keys |
| FlatMaps.PrepareInput | src/flat_map.ts:64-86 | the imperative `_prepareInput` computes the specification's entries or failure |
| FlatMaps.Entries | src/flat_map.ts:75-80 | definition (no property): one entry per Map entry, with its key, value and their serializations |
| FlatMaps.SerializedAll | src/flat_map.ts:75-80 | the entry list succeeds exactly when every key and value serializes, and is then those entries |
| FlatMaps.ApartDistinct | src/flat_map.ts:81-83 | the serialized keys are distinct exactly when no two keys serialize alike |
| FlatMaps.PreparedEntries | src/flat_map.ts:64-86 | `_prepareInput` succeeds exactly for a valid input whose entries serialize to distinct keys, and returns those entries sorted by key bytes |
| FlatMaps.PreparedSorted | src/flat_map.ts:84 | the prepared entries are strictly ascending in key bytes, a permutation of the input's entries, and each carries its own serializations |
| FlatMaps.ArrayInput | src/flat_map.ts:71-73 | an array of pairs with distinct keys prepares like the Map of those pairs; repeated keys fail with "map key duplicate" |
| FlatMaps.PairsOfArrays | src/flat_map.ts:73 | destructuring `[k, v]` arrays gives back the pairs |
| FlatMaps.NotAMap | src/flat_map.ts:70-74 | neither an array nor a Map fails as not of the expected type |
| FlatMaps.KeyClash | src/flat_map.ts:81-83 | two keys that serialize alike fail with "key duplicates" |
| FlatMaps.EntryFailure | src/flat_map.ts:78-79 | the first entry whose key or value fails decides the failure, prefixed with the quoted key or the index |
| FlatMaps.AppendFlatMap | src/flat_map.ts:19-26 | the buffer gains what the specification writes, and the failure is reported |
| FlatMaps.FlatMapEncoding | src/flat_map.ts:19-26 | `_prepareInput`'s failure, or the varint count followed by each sorted entry's key bytes and value bytes |
| FlatMaps.FlatMapOrderIndependent | src/flat_map.ts:84 | two Maps with the same entries in any order prepare, serialize and convert to JSON identically |
| FlatMaps.FlatMapJson | src/flat_map.ts:28-33 | `toJSON` fails as `_prepareInput` does, or succeeds exactly when every entry converts, giving `[keyJSON, valueJSON]` pairs in key-byte order |
| FlatMaps.PairsJsonFrom | src/flat_map.ts:30-32 | the `map` over the entries succeeds exactly when each converts, and appends their pairs in order |
| FlatMaps.FromJsonPairs | src/flat_map.ts:35-44 | the imperative `fromJSON` loop computes the specification's conversion |
| FlatMaps.FlatMapFromJsonChecked | src/flat_map.ts:35-44 | a successful `fromJSON` is a Map with distinct keys that `_prepareInput` accepts |
| FlatMaps.ReadFlatMap | src/flat_map.ts:46-62 | the imperative read loop computes the specification's read |
| FlatMaps.FlatMapDecode | src/flat_map.ts:46-62 | a failed count is prefixed `flat_map[-1]`; a successful read is a Map with distinct keys, at most the count of them, that `_prepareInput` accepts |
| FlatMaps.PreparedDistinct | src/flat_map.ts:60 | a Map that `_prepareInput` accepts has distinct keys |
| FlatMaps.FlatMapFaithful | src/flat_map.ts:19-62 | a flat_map round-trips when every key and value does: the decoded Map has the decoded entries in key-byte order |
| FlatMaps.FlatMapDecodesAt | src/flat_map.ts:46-62 | the count followed by entry encodings reads the decoded Map, wherever they sit |
| FlatMaps.FlatMapSortsExample | src/flat_map.ts:84 | `{5: 1, 3: 2}` over uint8 is written `[2, 3, 2, 5, 1]`, keys ascending |
| FlatMaps.FlatMapRepeatedKeyExample | src/flat_map.ts:58 | a buffer repeating key 7 reads as a Map holding its last value |
| FlatMaps.FlatMapUnsortedExample | src/flat_map.ts:46-62 | an encoding with keys out of order still reads, though no Map is written that way |
| Codec.Elements | src/flat_set.ts:22 | spreading works on arrays and Sets |
| Codec.SerializeElems | src/flat_set.ts:23 | serializing the elements succeeds exactly when each does, giving their serializations in order |
| Codec.Zip | src/flat_set.ts:34 | definition (no property): each `toJSON` item pairs a serialization with the element and index at its position |
| Codec.ElemsFromJson | src/flat_set.ts:40 | the `map` over JSON items keeps the items already converted in front |
| FlatSets.PartsOf | src/flat_set.ts:23 | definition (no property): the serializations of the elements, one per element, in order |
| FlatSets.SetSerialized | src/flat_set.ts:21-26 | `_toHex` succeeds exactly for an array or Set whose elements all serialize and serialize differently, and returns those serializations |
| FlatSets.PartsApart | src/flat_set.ts:24 | the serializations are distinct exactly when no two elements serialize alike |
| FlatSets.ApartDistinct | src/flat_set.ts:24 | elements that serialize differently are themselves distinct |
| FlatSets.ElemFailure | src/flat_set.ts:23 | the first element that fails to serialize decides the failure of `_toHex`, `serialize` and `toJSON`, prefixed with its index |
| FlatSets.ElemClash | src/flat_set.ts:24 | two elements that serialize alike make all three fail with "duplicates" |
| FlatSets.AppendFlatSet | src/flat_set.ts:28-30 | the buffer gains what the specification writes, and the failure is reported |
| FlatSets.FlatSetEncoding | src/flat_set.ts:29 | `_toHex`'s failure, or the concatenation of the serializations in any ascending order of them |
| FlatSets.FlatSetAscending | src/flat_set.ts:29 | the serializations are written strictly ascending and each exactly once |
| FlatSets.FlatSetOrderIndependent | src/flat_set.ts:21-30 | the same elements in any order, as an array or a Set, serialize identically |
| FlatSets.ToJsonSorted | src/flat_set.ts:32-37 | the imperative `toJSON` computes the specification's conversion |
| FlatSets.SortedItemsOrder | src/flat_set.ts:34-35 | the sorted items are strictly ascending in serialization, a permutation of the zipped items, and each carries its element, index and serialization |
| FlatSets.FlatSetJson | src/flat_set.ts:32-37 | `toJSON` fails as `_toHex` does, or succeeds exactly when every element converts, giving the converted elements in serialization order |
| FlatSets.JsonFailure | src/flat_set.ts:36 | the first element in sorted order that fails to convert decides the failure, prefixed with its original index |
| FlatSets.FlatSetFromJson | src/flat_set.ts:39-43 | `fromJSON` needs an array; on success it is a Set with one distinct element per item, each item's conversion, in order, and `_toHex` accepts it |
| FlatSets.AcceptedSet | src/flat_set.ts:41-42 | elements `_toHex` accepts are distinct, so `new Set` keeps them all in order |
| FlatSets.FromJsonFailure | src/flat_set.ts:40 | the first item that fails to convert decides the failure, prefixed with its index |
| FlatSets.ReadFlatSet | src/flat_set.ts:45-57 | the imperative read loop computes the specification's read |
| FlatSets.FlatSetDecode | src/flat_set.ts:45-57 | a failed count fails the read; a successful read is a Set of distinct elements, at most the count of them |
| FlatSets.EmptySetExample | src/flat_set.ts:29 | the empty set is written as no bytes, which cannot be read |
| FlatSets.ByteSetExample | src/flat_set.ts:28-57 | `{5, 1}` over uint8 is written `[1, 5]`, which reads back as `{5}` |
| FlatSets.RepeatedElementExample | src/flat_set.ts:49-55 | a buffer that repeats an element reads as a Set holding it once |
| Codec.OptionalRead | src/optional.ts:30-34 | the read's end offset lies between its start and the end of the buffer |
| Codec.VectorRead | src/vector.ts:33-49 | likewise |
| Codec.StructRead | src/struct.ts:43-53 | likewise |
| Codec.VariantRead | src/variant.ts:44-51 | likewise |
| Codec.FlatMapRead | src/flat_map.ts:46-62 | likewise |
| Codec.DecodePairs | src/flat_map.ts:50-59 | likewise |
| Codec.PairsToJson | src/flat_map.ts:30-32 | the pairs already converted stay in front, one more per entry |
| Codec.FlatSetRead | src/flat_set.ts:45-57 | likewise, end offset within bounds |
| Codec.ElemsToJson | src/flat_set.ts:36 | the elements already converted stay in front, one more per item |
| Codec.DecodeSetItems | src/flat_set.ts:49-55 | the read's end offset lies between its start and the end of the buffer |

## Left out

- `time_point_sec.ts` and `index.ts` are not part of this model: the first is a
  timestamp codec outside the modelled core, the second only re-exports.
- The internals of the `bytebuffer` package are not modelled. Its writes are
  taken as little-endian bytes of the value modulo 2^bits (`writeUint8` …
  `writeInt64`) and LEB128 (`writeVarint32`), and `buffer.readUInt8` past the
  end is taken as an out-of-range failure.
- JavaScript's implicit coercions are not modelled. A value of a type the
  TypeScript signature does not admit fails with a "not of type" error instead
  of whatever coercion JavaScript would apply. The exception is bool, which
  writes the truthiness of anything.
- Floating-point numbers are not modelled: a `number` is an integer.
- Strings are held as their UTF-8 bytes, so `Buffer.from(string)` and
  `toString()` are the identity. UTF-16 code units and invalid sequences are
  not modelled.
- Object key order (`Object.keys`) is the order of the object's fields as
  given. The numeric-key reordering JavaScript applies is not modelled.
- Map and Set membership uses value equality, not JavaScript's object identity.
- Error messages are a kind plus a path of locators, not the exact text.
- `Array.prototype.sort` with the source's comparator is modelled as a stable
  insertion sort on the key bytes. The comparator never returns 0, and the keys
  it sorts are distinct, so any correct sort gives the same result
  (`Sorting.SortedIsInsertionSort`).
- Sorting by hex text is modelled as sorting by the bytes; `Text.HexOrder`
  proves the two orders agree.
- FlatMaps.FlatMapOrderIndependent: requires that one of the two Maps be accepted
  by `_prepareInput`; when both fail, their errors may name different entries.
- Codec.OptionalRead: its own contract states only the offset bounds; the full
  behaviour is stated by `Optionals.OptionalDecode`.
- Codec.VectorRead: its own contract states only the offset bounds; the full
  behaviour is stated by `Vectors.VectorDecode` and `Vectors.VectorDecodesAt`.
- Codec.StructRead: its own contract states only the offset bounds; the full
  behaviour is stated by `Structs.StructDecodeCons`.
- Codec.VariantRead: its own contract states only the offset bounds; the full
  behaviour is stated by `Variants.VariantDecode`.
- Codec.FlatMapRead: its own contract states only the offset bounds; the full
  behaviour is stated by `FlatMaps.FlatMapDecode` and `FlatMaps.FlatMapDecodesAt`.
- Codec.DecodePairs: its own contract states only the offset bounds; the loop is
  characterised by the lemmas about `FlatMaps.FlatMapDecodesAt`.
- Codec.FlatSetRead: its own contract states only the offset bounds; the full
  behaviour is stated by `FlatSets.FlatSetDecode`.
- Codec.DecodeSetItems: its own contract states only the offset bounds.
- Codec.DecodeItems: its own contract states only the number of elements; what
  they are is stated by `Vectors.VectorDecodesAt`.
- Codec.AppendFields: its own contract states only that earlier output is kept;
  the writes are stated by `Structs.StructAppendCons`.
- Codec.PairsToJson: its own contract states only the length; the items are
  stated by `FlatMaps.PairsJsonFrom`.
- Codec.ElemsToJson: its own contract states only the length; the items are
  stated by `FlatSets.FlatSetJson`.
- Codec.ElemsFromJson: its own contract states only the length; the items are
  stated by `FlatSets.FlatSetFromJson`.
- Codec.PairsFromJson: its own contract states only distinct keys; the failure
  paths of flat_map's `fromJSON` are not stated separately.
- Ints.IntAppend: the bytes written for fixed widths are stated by
  `Ints.Int64Written` and `Ints.UnsignedRoundTrip`, not by its own contract.
- Ints.UnsignedRoundTrip: covers non-negative values only. A negative value
  that an unsigned type accepts (see above) is written modulo 2^bits and reads
  back as a different, positive number.
