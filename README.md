# swift-mpack in Dafny

A model of the MessagePack codec of `smolck/swift-mpack`
(`Sources/Mpack/Mpack.swift`): the `Value` enum, its encoder
`Value.toBytes()` and its decoder `Value.from(bytes:)` with the private
helpers `privFrom`, `deserializeMap` and `deserializeNum16/32/64`.

The codec is modelled as the code is written, defects included:

- The encoder is a pure function, `Encoder.Encode`.
- The decoder is two things:
  - a recursive specification function, `Decoder.Decode`;
  - the source's own imperative form in `DecoderLoops`: a recursive method
    whose container cases fill an array in a `for` loop while overwriting
    `currBytes`. Each method is proved equal to the specification function.
- A run-time trap is `None`. This covers an index out of range and a failed
  `assert`, which the model treats as checked.

The library's design asks for a decoder that:

- threads the exact unconsumed suffix through every recursive call;
- pairs map entries from consecutive values;
- round-trips every value.

The code does not do this. Where the two disagree the model follows the
code, and each disagreement is listed under "Findings".

Two further modules state that intended behaviour, and the round trip is
proved there:

- `CorrectedEncoder` and `CorrectedDecoder` are the codec with those defects
  repaired. In `CorrectedDecoder`, bad input is an error value rather than a
  trap.
- `CorrectedRoundTrip` proves the round trip for the repaired codec.

Modules:

- `Bytes`: bytes as integers 0..255, and big-endian fields in two's complement.
- `Bits`: `&` and `|` on naturals.
- `Values`: the value datatype, and the source's constants and tags.
- `Utf8`: well-formed UTF-8, as Table 3-7 of the Unicode Standard, section 3.9, defines it.
- `Floats`: the `Float` to `Double` conversion, on bit patterns.
- `Encoder` and `EncoderFacts`: the encoder as written, and what it writes.
- `Decoder`, `DecoderLoops` and `DecoderFacts`: the decoder as written, its loops, and what it reads.
- `RoundTrip`: what the decoder as written makes of the encoder's output.
- `CorrectedEncoder`, `CorrectedDecoder` and `CorrectedRoundTrip`: the repaired codec and its round trip.

Source paths below are relative to the repository root. Lemmas that only
unfold one case of a definition, such as `CorrectedRoundTrip.TaggedDispatch`
or `DecoderLoops.ItemsStep`, are steps of the proofs below and have no row.

## Model

| member | source | states |
|---|---|---|
| Bytes.FromBigEndianOfBigEndian | Sources/Mpack/Mpack.swift:133-142 | a number below `256^w` written as `w` big-endian bytes reads back as itself |
| Bytes.BigEndianOfFromBigEndian | Sources/Mpack/Mpack.swift:133-142 | every byte field is the big-endian form of the number it spells, so reading then writing gives the field back |
| Bytes.BigEndianWrap | Sources/Mpack/Mpack.swift:264-276 | `x` and `x + 256^w` have the same `w` low bytes (two's complement) |
| Bytes.FromBigEndianOfNegative | Sources/Mpack/Mpack.swift:253-277 | the `w` bytes of a negative `x` read back unsigned as `x + 256^w` |
| Bytes.BigEndianSplit | Sources/Mpack/Mpack.swift:238-250 | the `w`-byte form of `x` is the `(w-k)`-byte form of `x / 256^k` followed by the `k` low bytes of `x` |
| Bits.BitOrBelow | Sources/Mpack/Mpack.swift:36-48 | the or of two `k`-bit numbers is a `k`-bit number |
| Bits.LowMask15 | Sources/Mpack/Mpack.swift:87 | `a & 0xF` is `a % 16` |
| Bits.LowMask31 | Sources/Mpack/Mpack.swift:78 | `a & 0x1F` is `a % 32` |
| Bits.HighMaskE0 | Sources/Mpack/Mpack.swift:76 | on a byte, `a & 0xE0` clears the low five bits |
| Bits.HighMaskF0 | Sources/Mpack/Mpack.swift:85 | on a byte, `a & 0xF0` clears the low four bits |
| Utf8.SequenceLength | Sources/Mpack/Mpack.swift:80 | the well-formed sequence that starts the text is at most four bytes and within the text, and it is one byte exactly when the text starts with an ASCII byte |
| Utf8.AsciiIsValid | Sources/Mpack/Mpack.swift:80 | ASCII text is accepted as UTF-8 |
| Utf8.ValidConcat | Sources/Mpack/Mpack.swift:80 | two well-formed texts joined are well-formed |
| Floats.Pack64Fields | Sources/Mpack/Mpack.swift:291 | packing sign, exponent and fraction into a `Double` pattern and reading the fields back are inverse |
| Floats.Normalize | Sources/Mpack/Mpack.swift:291 | a subnormal `Float` fraction gets a finite nonzero `Double` exponent field and a 52-bit fraction |
| Floats.NormalizeExact | Sources/Mpack/Mpack.swift:291 | the normalised `Double` denotes exactly the value of the subnormal `Float` |
| Floats.WidenSubnormal | Sources/Mpack/Mpack.swift:289-292 | `Double(x)` of a subnormal `Float` is finite, keeps the sign and is the same number |
| Floats.WidenNormal | Sources/Mpack/Mpack.swift:289-292 | `Double(x)` of a normal `Float` is finite, keeps the sign and is the same number |
| Floats.WidenPreservesValue | Sources/Mpack/Mpack.swift:289-292 | `Double(x)` of every finite `Float` is finite, keeps the sign and denotes the same number |
| Floats.WidenKeepsNonFinite | Sources/Mpack/Mpack.swift:289-292 | infinities widen to infinities and NaNs to NaNs |
| EncoderFacts.Low2IsLowBytes | Sources/Mpack/Mpack.swift:238 | the first two bytes of `x` in memory, reversed, are the 2-byte big-endian form of `x` |
| EncoderFacts.Low4IsLowBytes | Sources/Mpack/Mpack.swift:244 | the first four bytes of `x` in memory, reversed, are the 4-byte big-endian form of `x` |
| EncoderFacts.HighWordIsHighHalf | Sources/Mpack/Mpack.swift:313 | the 32-bit length prefix is the high half of the count, so it is four zero bytes for every count below `2^32` |
| EncoderFacts.PositiveIntegerForms | Sources/Mpack/Mpack.swift:224-251 | a positive integer is a fixint up to 127, else uint8, uint16, uint32 or uint64 by magnitude, with the big-endian payload |
| EncoderFacts.PositivePayloadReadsBack | Sources/Mpack/Mpack.swift:229-251 | the payload after a uint tag reads back as the integer |
| EncoderFacts.NonPositiveIntegerForms | Sources/Mpack/Mpack.swift:253-277 | zero and negatives down to -128 take int8, down to -32768 int16, and everything lower takes the int32 tag with eight bytes |
| EncoderFacts.NegativePayloadIsTwosComplement | Sources/Mpack/Mpack.swift:253-277 | the payload after a signed tag is the two's complement of the integer in one, two or eight bytes |
| EncoderFacts.IntegerTagsUsed | Sources/Mpack/Mpack.swift:218-279 | an integer never gets a negative fixint or the int64 tag, and the int32 tag always comes with eight payload bytes |
| EncoderFacts.StrHeaderForms | Sources/Mpack/Mpack.swift:297-314 | a count below 31 is a fixstr, up to 255 str8, up to 65535 str16, and above that str32 with the high half of the count |
| EncoderFacts.ArrayHeaderForms | Sources/Mpack/Mpack.swift:318-331 | up to 15 elements a fixarray, up to 65535 array16, above that array32 with the high half of the count |
| EncoderFacts.MapHeaderForms | Sources/Mpack/Mpack.swift:335-348 | up to 15 pairs a fixmap, up to 65535 map16, above that map32 with the high half of the count |
| EncoderFacts.EncodeAllAppend | Sources/Mpack/Mpack.swift:333 | the elements' bytes are the concatenation of each element's bytes, in order |
| EncoderFacts.EncodePairsAppend | Sources/Mpack/Mpack.swift:350-353 | the pairs' bytes are key then value, pair after pair, in order |
| EncoderFacts.ShortStringIsFixstr | Sources/Mpack/Mpack.swift:298-316 | a string below 31 characters, one byte each, is its fixstr tag followed by its bytes |
| EncoderFacts.FloatPayloadReadsBack | Sources/Mpack/Mpack.swift:289-296 | both float cases write `0xcb` and eight bytes that read back as the `Double` pattern, widened for a `Float` |
| EncoderFacts.SerializesSmallIntegers | Tests/MpackTests/MpackTests.swift:15-17 | 5, 128 and 32768 encode as in the test |
| EncoderFacts.SerializesLargeIntegers | Tests/MpackTests/MpackTests.swift:18-19 | 2147483648 and `Int64.max` encode as in the test |
| EncoderFacts.SerializesFloat | Tests/MpackTests/MpackTests.swift:25 | `Float` 15.5 encodes as the `Double` 15.5 |
| EncoderFacts.SerializesDouble | Tests/MpackTests/MpackTests.swift:26 | `Double` 12345678.987654321 encodes as in the test |
| EncoderFacts.SerializesBooleansAndStrings | Tests/MpackTests/MpackTests.swift:31-36 | true, false and the 13-character string encode as in the test |
| Decoder.OrIsBitOr | Sources/Mpack/Mpack.swift:36 | the or of two `UInt8` values never leaves the byte range |
| Decoder.DeserializeKeepsLastByte | Sources/Mpack/Mpack.swift:35-51 | every shift is by 8 bits or more on `UInt8`, so each of the 16-, 32- and 64-bit readers yields only the last byte of its field |
| Decoder.Decode | Sources/Mpack/Mpack.swift:73-197 | what is left after a value is shorter than the input |
| Decoder.DecodeFixStr | Sources/Mpack/Mpack.swift:76-83 | what is left after a fixstr is shorter than the input |
| Decoder.DecodeTagged | Sources/Mpack/Mpack.swift:118-196 | what is left after a tagged value is shorter than the input |
| Decoder.FromBigEndian4 | Sources/Mpack/Mpack.swift:133-136 | the `Float` bit pattern is the number whose big-endian form is the four-byte field |
| Decoder.FromBigEndian8 | Sources/Mpack/Mpack.swift:139-142 | the `Double` bit pattern is the number whose big-endian form is the eight-byte field |
| Decoder.DecodeItems | Sources/Mpack/Mpack.swift:89-95 | the array loop adds exactly `n` elements and does not grow the input |
| Decoder.DecodeArray | Sources/Mpack/Mpack.swift:85-100 | a decoded array has exactly the count its header gave |
| Decoder.MapStore | Sources/Mpack/Mpack.swift:60-64 | a store into the pair list keeps its length |
| Decoder.MapSteps | Sources/Mpack/Mpack.swift:57-67 | the map loop keeps `len` pairs and does not grow the input |
| Decoder.NullPairs | Sources/Mpack/Mpack.swift:54 | the map starts with `len` pairs |
| Decoder.DecodeMap | Sources/Mpack/Mpack.swift:53-71 | a decoded map has exactly the count its header gave |
| DecoderLoops.PrivFrom | Sources/Mpack/Mpack.swift:73-197 | the recursive method with its loops computes `Decoder.Decode` |
| DecoderLoops.ReadArray | Sources/Mpack/Mpack.swift:143-179 | the array loop, `currBytes` overwritten by each child's suffix, computes `Decoder.DecodeArray` |
| DecoderLoops.DeserializeMap | Sources/Mpack/Mpack.swift:53-71 | the map loop, storing into `arr[i]` or `arr[i - 1]`, computes `Decoder.DecodeMap` |
| DecoderLoops.From | Sources/Mpack/Mpack.swift:199-201 | `from(bytes:)` succeeds exactly when `privFrom` does, and yields its value |
| DecoderFacts.MaskRanges | Sources/Mpack/Mpack.swift:76-110 | the mask tests select exactly the fixstr, fixarray and negative fixint ranges, and the length masks give the offset into the range |
| DecoderFacts.HighBits3 | Sources/Mpack/Mpack.swift:110 | `b & 0xE0` is `0xA0` exactly on `0xa0...0xbf` and `0xE0` exactly on `0xe0...0xff` |
| DecoderFacts.HighBits4 | Sources/Mpack/Mpack.swift:85 | `b & 0xF0` is `0x90` exactly on `0x90...0x9f` |
| DecoderFacts.DecodeFixints | Sources/Mpack/Mpack.swift:110-115 | empty input traps; a positive fixint is its own value and a negative fixint its value minus 256, and either leaves the rest |
| DecoderFacts.DecodeScalars | Sources/Mpack/Mpack.swift:119-142 | booleans take one byte; the float tags read their bit patterns big-endian and trap when cut short |
| DecoderFacts.DecodeIntegerTags | Sources/Mpack/Mpack.swift:123-130 | each integer tag yields the last byte of its field, unsigned; the 16-bit form resumes one byte past its field; a short field traps |
| DecoderFacts.UndecodedTagsGiveNull | Sources/Mpack/Mpack.swift:191-193 | nil, the reserved byte, bin, ext, fixext and str8/16/32 decode as `(null, [])`, dropping what follows |
| DecoderFacts.DecodeSizedArrays | Sources/Mpack/Mpack.swift:143-179 | array16 and array32 take the last byte of the count field as the count, and trap when the field is cut short |
| DecoderFacts.DecodeSizedMaps | Sources/Mpack/Mpack.swift:180-190 | map16 and map32 take the last byte of the count field as the count, and trap when the field is cut short |
| DecoderFacts.ContainersLoseTheirSuffix | Sources/Mpack/Mpack.swift:100-109 | a decoded container always reports an empty suffix |
| DecoderFacts.MapStepsTrap | Sources/Mpack/Mpack.swift:57-64 | with two or more pairs, the map loop traps before it ends |
| DecoderFacts.MapOfTwoOrMorePairsTraps | Sources/Mpack/Mpack.swift:53-71 | a map of two or more pairs never decodes |
| DecoderFacts.MapOfOnePair | Sources/Mpack/Mpack.swift:53-71 | a one-pair map reads its key, then its value from the key's suffix, and needs nothing to follow |
| DecoderFacts.MapOfNoPairs | Sources/Mpack/Mpack.swift:53-71 | an empty map succeeds exactly on empty input |
| DecoderFacts.ArrayItemsInOrder | Sources/Mpack/Mpack.swift:89-95 | the array loop reads its children in order, each from the suffix the previous one left |
| RoundTrip.HandledRoundTrip | Sources/Mpack/Mpack.swift:113-142 | booleans, integers 0 to 255, `Double` patterns and short one-byte-per-character UTF-8 strings decode back to themselves and leave what follows |
| RoundTrip.IntegerRoundTrip | Sources/Mpack/Mpack.swift:113-124 | the integers 0 to 255 decode back to themselves |
| RoundTrip.Float64RoundTrip | Sources/Mpack/Mpack.swift:137-142 | every `Double` pattern decodes back to itself |
| RoundTrip.ShortStringRoundTrip | Sources/Mpack/Mpack.swift:76-83 | a short string, one byte per character, decodes back to itself |
| RoundTrip.HandledItems | Sources/Mpack/Mpack.swift:89-95 | such scalars written in a row are read back in order |
| RoundTrip.ItemStep | Sources/Mpack/Mpack.swift:91-94 | one such scalar is one pass of the array loop |
| RoundTrip.FixArrayRoundTrip | Sources/Mpack/Mpack.swift:85-100 | a fixarray of such scalars with nothing after it decodes back to itself |
| RoundTrip.FixArrayLosesWhatFollows | Sources/Mpack/Mpack.swift:97-100 | any byte after such an array makes the decoder trap |
| RoundTrip.FixArrayLayout | Sources/Mpack/Mpack.swift:319-333 | a small array is its fixarray tag followed by its elements' bytes |
| RoundTrip.NestedArrayWithSiblingTraps | Sources/Mpack/Mpack.swift:85-100 | `[[], true]` encodes as `92 90 c3`, which does not decode |
| RoundTrip.FixMapOfSeveralPairsTraps | Sources/Mpack/Mpack.swift:101-109 | a map of 2 to 15 pairs does not decode from its own encoding |
| RoundTrip.NegativeInt8ComesBackUnsigned | Sources/Mpack/Mpack.swift:123-124 | a negative int8 comes back as `x + 256` |
| RoundTrip.Int16ComesBackAsLowByte | Sources/Mpack/Mpack.swift:125-126 | a 16-bit integer comes back as its low byte and swallows the next byte, and traps when nothing follows |
| RoundTrip.Uint32ComesBackAsLowByte | Sources/Mpack/Mpack.swift:127-128 | a uint32 comes back as its low byte |
| RoundTrip.Uint64ComesBackAsLowByte | Sources/Mpack/Mpack.swift:129-130 | a uint64 comes back as its low byte |
| RoundTrip.Int64WrittenAsInt32 | Sources/Mpack/Mpack.swift:273-277 | an integer below -32768 is written as int32 with eight bytes, and comes back as its fourth byte with its last four bytes left as the next value |
| RoundTrip.NullLosesWhatFollows | Sources/Mpack/Mpack.swift:191-193 | nil decodes to null but drops everything after it |
| RoundTrip.LongStringComesBackNull | Sources/Mpack/Mpack.swift:301-314 | a string of 31 characters or more comes back as null and drops what follows |
| RoundTrip.Float32ComesBackWidened | Sources/Mpack/Mpack.swift:289-292 | a `Float` comes back as the `Double` it was widened to |
| RoundTrip.HeaderCountsCharacters | Sources/Mpack/Mpack.swift:298-300 | when a string has fewer characters than bytes, only that many bytes come back as the string and the rest are left over |
| RoundTrip.DecomposedAccentSplits | Sources/Mpack/Mpack.swift:297-316 | `e` plus a combining accent gets a one-byte header, and comes back as `e` followed by two stray bytes |
| RoundTrip.EncodeNonEmpty | Sources/Mpack/Mpack.swift:203-356 | every encoding has at least its tag byte |
| RoundTrip.LargeArrayCountIsZero | Sources/Mpack/Mpack.swift:327-331 | an array of 65536 elements or more (below `2^32`) gets a zero count, and does not decode |
| CorrectedDecoder.Field | Sources/Mpack/Mpack.swift:126-142 | a field is read exactly when `w` bytes are there; it is a `w`-byte number, and the rest follows it |
| CorrectedDecoder.Signed | Sources/Mpack/Mpack.swift:123-130 | a signed field is either its unsigned value or that minus `256^w`, whichever lies in the signed range of `w` bytes |
| CorrectedDecoder.Decode | Sources/Mpack/Mpack.swift:73-116 | what is left after a value is shorter than the input |
| CorrectedDecoder.DecodeTagged | Sources/Mpack/Mpack.swift:118-196 | what is left after a tagged value is no longer than its body |
| CorrectedDecoder.DecodeUint | Sources/Mpack/Mpack.swift:123-130 | what is left after an unsigned field is no longer than its body |
| CorrectedDecoder.DecodeInt | Sources/Mpack/Mpack.swift:123-130 | what is left after a signed field is no longer than its body |
| CorrectedDecoder.DecodeStr | Sources/Mpack/Mpack.swift:76-83 | what is left after a string is no longer than the input |
| CorrectedDecoder.DecodeItems | Sources/Mpack/Mpack.swift:89-95 | exactly `n` elements |
| CorrectedDecoder.DecodePairs | Sources/Mpack/Mpack.swift:57-67 | exactly `n` pairs |
| CorrectedDecoder.DecodeArray | Sources/Mpack/Mpack.swift:85-100 | what is left after an array is no longer than the input |
| CorrectedDecoder.DecodeMap | Sources/Mpack/Mpack.swift:101-109 | what is left after a map is no longer than the input |
| CorrectedRoundTrip.FieldReadsBack | Sources/Mpack/Mpack.swift:126-142 | a `w`-byte field reads back as the number written and leaves the rest |
| CorrectedRoundTrip.UintReadsBack | Sources/Mpack/Mpack.swift:123-130 | a non-negative integer in any unsigned form reads back as itself |
| CorrectedRoundTrip.IntReadsBack | Sources/Mpack/Mpack.swift:123-130 | every integer in the range of a signed form reads back as itself: a negative one sign-extended, a non-negative one as written |
| CorrectedRoundTrip.SignedFieldReads | Sources/Mpack/Mpack.swift:123-130 | a `w`-byte two's-complement field of an integer in the signed range reads back as that integer and leaves what follows it |
| CorrectedRoundTrip.SignedBytes | Sources/Mpack/Mpack.swift:123-124 | `d0 05` decodes as 5 and `d0 fb` as -5 |
| CorrectedRoundTrip.SmallIntegersAreFixints | Sources/Mpack/Mpack.swift:10-11 | zero and the integers from -32 to 127 are written as one fixint byte, positive or negative |
| CorrectedRoundTrip.IntRoundTrip | Sources/Mpack/Mpack.swift:218-279 | every `Int` encodes and decodes back to itself, leaving what follows |
| CorrectedRoundTrip.Float64ReadsBack | Sources/Mpack/Mpack.swift:137-142 | every `Double` pattern reads back as itself |
| CorrectedRoundTrip.Float32ComesBackWidened | Sources/Mpack/Mpack.swift:289-292 | a `Float` comes back as the `Double` it was widened to |
| CorrectedRoundTrip.StrHeaderReads | Sources/Mpack/Mpack.swift:297-314 | a string header sends the decoder to read exactly `n` bytes of text |
| CorrectedRoundTrip.ArrayHeaderReads | Sources/Mpack/Mpack.swift:318-331 | an array header sends the decoder to read exactly `n` elements |
| CorrectedRoundTrip.MapHeaderReads | Sources/Mpack/Mpack.swift:335-348 | a map header sends the decoder to read exactly `n` pairs |
| CorrectedRoundTrip.StrRoundTrip | Sources/Mpack/Mpack.swift:297-317 | valid UTF-8 text of any length decodes back to itself |
| CorrectedRoundTrip.RoundTrip | Sources/Mpack/Mpack.swift:203-356 | every value with no `Float`, only UTF-8 strings and counts below `2^32` decodes back to itself, followed by exactly the bytes that came after it |
| CorrectedRoundTrip.ArrayRoundTrip | Sources/Mpack/Mpack.swift:318-334 | such an array decodes back to itself and leaves what follows |
| CorrectedRoundTrip.MapRoundTrip | Sources/Mpack/Mpack.swift:335-354 | such a map decodes back to itself and leaves what follows |
| CorrectedRoundTrip.ItemsRoundTrip | Sources/Mpack/Mpack.swift:89-95 | elements written in a row are read back in order, each from the suffix the previous one left |
| CorrectedRoundTrip.PairsRoundTrip | Sources/Mpack/Mpack.swift:57-67 | pairs written key, value, ... are read back into consecutive pairs |
| CorrectedRoundTrip.PairRoundTrip | Sources/Mpack/Mpack.swift:350-353 | a key and its value are read back one after the other |
| CorrectedRoundTrip.BackToBack | Sources/Mpack/Mpack.swift:90-94 | of two values written back to back, the first decodes and leaves exactly the second's bytes |
| CorrectedRoundTrip.ShortInputIsError | Sources/Mpack/Mpack.swift:74 | empty input, and a 1-, 2-, 4- or 8-byte field cut short after its tag, are reported as the end of input |
| CorrectedRoundTrip.ReservedTagsAreErrors | Sources/Mpack/Mpack.swift:191-193 | the reserved byte and the bin, ext and fixext tags are reported as unsupported |
| CorrectedRoundTrip.ThirtyOneBytesIsFixstr | Sources/Mpack/Mpack.swift:298 | a 31-byte string gets a one-byte fixstr header |
| CorrectedRoundTrip.NestedArrayWithSibling | Sources/Mpack/Mpack.swift:85-100 | `92 90 c3` decodes as `[[], true]` |
| CorrectedRoundTrip.DecomposedAccentKept | Sources/Mpack/Mpack.swift:297-316 | `e` plus a combining accent gets a three-byte header and decodes back whole |

## Left out

- Binary and extension values (commented out at Mpack.swift:31-33) are not modelled. Their tags decode like any unknown tag.
- The `NSLog` call at Mpack.swift:192 is I/O; only the value returned is modelled.
- `String.count` counts extended grapheme clusters, and Unicode text segmentation is not part of this model. The encoder takes the count as a parameter (`Encoder.CharCount`).
- `String(bytes:encoding: .utf8)` is modelled as the well-formedness test of the Unicode Standard, section 3.9. Foundation's own decoder is not part of this model.
- Swift's `assert` is treated as checked (a debug build). In an optimised build a failed `assert(currBytes == [])` returns the value instead of trapping; that behaviour is not modelled.
- `Array(repeating:count:)` with a huge count may fail to allocate memory. The model does not capture this.
- `Int` is taken as 64 bits.
- `withUnsafeBytes` is taken to see a little-endian host, as on x86-64 and ARM64.
- Floats are bit patterns. `Double(x)` is the exact IEEE 754 widening, and NaNs come out quiet with their payload kept. No arithmetic on floats is modelled.
- `NegativeFixintMin` (Mpack.swift:10-11) is declared but never used by the encoder, which writes no negative fixints (`EncoderFacts.IntegerTagsUsed`); see "Findings".
- The mask tests of `privFrom` are written as the byte ranges they select. `DecoderFacts.MaskRanges` proves the two equal.
- `|` on `UInt8` is modelled on integers (`Decoder.Or8`) rather than on bit-vectors.
- Decoder.Decode: states that what is left is shorter than the input, not that it is a suffix of it.
- CorrectedDecoder.Decode: states that what is left is shorter than the input, not that it is a suffix of it. Exact suffixes are proved for encoded input by `CorrectedRoundTrip.RoundTrip`.
- CorrectedRoundTrip.RoundTrip: excludes `Float` values, which the encoder widens by design (Mpack.swift:280-288); `CorrectedRoundTrip.Float32ComesBackWidened` states what comes back.

## Findings

| source | as written | input that shows it | evidently intended | confidence | as-written member | corrected member |
|---|---|---|---|---|---|---|
| Sources/Mpack/Mpack.swift:18-19 | `u32Min` is `-2^15`, so the int32 branch is dead and every integer below -32768 takes the 8-byte branch | `Integer(-40000)` | `u32Min` is `-2^31`, and int32 is written with four bytes | not executed | RoundTrip.Int64WrittenAsInt32 | CorrectedRoundTrip.IntRoundTrip |
| Sources/Mpack/Mpack.swift:274-276 | the int64 branch writes the int32 tag `0xd2` before eight bytes | `Integer(-0x1_0000_0000)` is written as `d2 ff ff ff ff 00 00 00 00` | the int64 tag `0xd3` | not executed | EncoderFacts.IntegerTagsUsed | CorrectedRoundTrip.IntReadsBack |
| Sources/Mpack/Mpack.swift:298 | `str.count < 31` sends a 31-character string to str8 | a string of 31 ASCII letters | fixstr up to 31 | not executed | EncoderFacts.StrHeaderForms | CorrectedRoundTrip.ThirtyOneBytesIsFixstr |
| Sources/Mpack/Mpack.swift:298-316 | the header counts grapheme clusters while the payload is UTF-8 bytes | `e` followed by U+0301, written as `a1 65 cc 81` | the header counts UTF-8 bytes | not executed | RoundTrip.DecomposedAccentSplits | CorrectedRoundTrip.DecomposedAccentKept |
| Sources/Mpack/Mpack.swift:330 | the 32-bit count is the high four of the eight bytes of `count` | an array of 65536 elements gets the header `dd 00 00 00 00` | the low four bytes | not executed | RoundTrip.LargeArrayCountIsZero | CorrectedRoundTrip.ArrayHeaderReads |
| Sources/Mpack/Mpack.swift:36-48 | the shifts are computed in `UInt8`, so each reader keeps only the last byte of its field | `ce 80 00 00 00` decodes as 0 | widen to `Int` before shifting | not executed | RoundTrip.Uint32ComesBackAsLowByte | CorrectedRoundTrip.UintReadsBack |
| Sources/Mpack/Mpack.swift:126 | the 16-bit case resumes at `bytes[4...]`, one byte past its field | `cd 01 00` traps, and `cd 01 00 c3` loses the `c3` | resume at `bytes[3...]` | not executed | RoundTrip.Int16ComesBackAsLowByte | CorrectedRoundTrip.IntRoundTrip |
| Sources/Mpack/Mpack.swift:123-124 | the signed tags are read unsigned | `d0 ff` decodes as 255 | sign-extend, giving -1 | not executed | RoundTrip.NegativeInt8ComesBackUnsigned | CorrectedRoundTrip.IntReadsBack |
| Sources/Mpack/Mpack.swift:100 | a container returns an empty suffix, so a nested container swallows its siblings | `92 90 c3` (`[[], true]`) traps | return the bytes left after the last child | not executed | RoundTrip.NestedArrayWithSiblingTraps | CorrectedRoundTrip.NestedArrayWithSibling |
| Sources/Mpack/Mpack.swift:60-61 | step `i` stores its key into `arr[i]` instead of `arr[i / 2]` | `82 01 02 03 04` (a map of two pairs) traps | key `i / 2`, then its value | not executed | DecoderFacts.MapOfTwoOrMorePairsTraps | CorrectedRoundTrip.PairsRoundTrip |
| Sources/Mpack/Mpack.swift:191-193 | nil has no case, so it decodes as null and drops everything after it | `c0 c3` | nil is one byte and the rest is left | not executed | RoundTrip.NullLosesWhatFollows | CorrectedRoundTrip.BackToBack |
| Sources/Mpack/Mpack.swift:118-193 | str8, str16 and str32 have no case and decode as null | a string of 31 ASCII letters | read the length and the text | not executed | RoundTrip.LongStringComesBackNull | CorrectedRoundTrip.StrRoundTrip |
| Sources/Mpack/Mpack.swift:219 | `pos` is false for zero, and no branch uses `negativeFixintMin`, so zero and -32..-1 take int8 | `Integer(0)` is written as `d0 00` and `Integer(-1)` as `d0 ff` | the fixints `00` and `ff` | not executed | EncoderFacts.NonPositiveIntegerForms | CorrectedRoundTrip.SmallIntegersAreFixints |
| Sources/Mpack/Mpack.swift:74 | every read is unchecked, so empty or short input traps | the empty input | report the end of input | not executed | DecoderFacts.DecodeFixints | CorrectedRoundTrip.ShortInputIsError |
