/** `Value.toBytes()` of Sources/Mpack/Mpack.swift, as the code is written:
    a tag byte, then any length or payload, then the children in order. */
module Encoder {
  import opened Bytes
  import opened Values
  import opened Floats

  /** Swift's `String.count` for the string whose UTF-8 form is the argument:
      the number of extended grapheme clusters. Unicode text segmentation is
      not part of this model, so the encoder takes this count as a parameter.
      For ASCII text without a CR LF pair it equals the byte length. */
  type CharCount = seq<Byte> -> nat

  /** `withUnsafeBytes(of: x, Array.init)` read back to front: the eight
      two's-complement bytes of `x`, most significant first. */
  function All8(x: int): seq<Byte>
  {
    BigEndian(x, 8)
  }

  /** `withUnsafeBytes(of: x, Array.init)[0..<2].reversed()`: the low two bytes. */
  function Low2(x: int): seq<Byte>
  {
    All8(x)[6..]
  }

  /** `withUnsafeBytes(of: x, Array.init)[0..<4].reversed()`: the low four bytes. */
  function Low4(x: int): seq<Byte>
  {
    All8(x)[4..]
  }

  /** The integer ladder, Mpack.swift:218-279. `pos` is `signum() > 0`, so
      zero takes the negative side; the 4-byte negative branch compares with
      `U32Min`, which equals `U16Min`, so it is never taken. */
  function IntegerBytes(x: Int64): seq<Byte>
  {
    var pos := x > 0;
    if pos && x <= U8Max then [x]
    else if pos && x <= Int8Max then [Uint8Tag, x]
    else if pos && x <= Int16Max then [Uint16Tag] + Low2(x)
    else if pos && x <= Int32Max then [Uint32Tag] + Low4(x)
    else if pos then [Uint64Tag] + All8(x)
    else if !pos && x >= U8Min then [Int8Tag, x % 256]
    else if !pos && x >= U16Min then [Int16Tag] + Low2(x)
    else if !pos && x >= U32Min then [Int32Tag] + Low4(x)
    else [Int32Tag] + All8(x)
  }

  /** A length prefix that needs more than two bytes:
      `withUnsafeBytes(of: n).reversed()[0..<4]`, the high-order four of the
      eight bytes of `n`. */
  function HighWord(n: nat): seq<Byte>
  {
    All8(n)[..4]
  }

  /** The string header, Mpack.swift:298-314, for a string of `n` characters. */
  function StrHeader(n: nat): seq<Byte>
  {
    if n < 31 then [0xa0 + n]
    else if n <= 255 then [Str8Tag, n]
    else if n <= 65535 then [Str16Tag, (n / 256) % 256, n % 256]
    else [Str32Tag] + HighWord(n)
  }

  /** The array header, Mpack.swift:319-331. */
  function ArrayHeader(n: nat): seq<Byte>
  {
    if n <= 15 then [0x90 + n]
    else if n <= 65535 then [Array16Tag, (n / 256) % 256, n % 256]
    else [Array32Tag] + HighWord(n)
  }

  /** The map header, Mpack.swift:336-348. */
  function MapHeader(n: nat): seq<Byte>
  {
    if n <= 15 then [0x80 + n]
    else if n <= 65535 then [Map16Tag, (n / 256) % 256, n % 256]
    else [Map32Tag] + HighWord(n)
  }

  /** `toBytes()`. A `float32` is widened to `Double` and written in the
      8-byte `0xcb` form; a string writes a header sized by its character
      count followed by its UTF-8 bytes. */
  function Encode(v: Value, chars: CharCount): seq<Byte>
    decreases v
  {
    match v
    case Null => [NilTag]
    case Boolean(b) => if b then [TrueTag] else [FalseTag]
    case Integer(x) => IntegerBytes(x)
    case Float32(f) => [Float64Tag] + All8(WidenFloat32(f))
    case Float64(d) => [Float64Tag] + All8(d)
    case Str(s) => StrHeader(chars(s)) + s
    case Array(elems) => ArrayHeader(|elems|) + EncodeAll(elems, chars)
    case Map(pairs) => MapHeader(|pairs|) + EncodePairs(pairs, chars)
  }

  /** `arr.flatMap { $0.toBytes() }`: the encodings of the elements, in order. */
  function EncodeAll(vs: seq<Value>, chars: CharCount): seq<Byte>
    decreases vs
  {
    if vs == [] then [] else Encode(vs[0], chars) + EncodeAll(vs[1..], chars)
  }

  /** The key's bytes, then the value's. */
  function EncodePair(p: (Value, Value), chars: CharCount): seq<Byte>
    decreases p
  {
    Encode(p.0, chars) + Encode(p.1, chars)
  }

  /** The pairs of a map, in list order. */
  function EncodePairs(ps: seq<(Value, Value)>, chars: CharCount): seq<Byte>
    decreases ps
  {
    if ps == [] then [] else EncodePair(ps[0], chars) + EncodePairs(ps[1..], chars)
  }
}
