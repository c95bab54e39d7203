/** The encoder of Sources/Mpack/Mpack.swift with its defects repaired, as
    the MessagePack format lays values out: zero and -32..-1 are fixints,
    the rung the original declares `negativeFixintMin` for but never
    reaches; every integer takes the smallest signed or unsigned form it fits,
    with the int64 tag for the widest negatives; a string's header counts its
    UTF-8 bytes, and fixstr holds up to 31 of them; 32-bit counts are written
    as the low four bytes of the count. A `float32` is still widened and
    written as a `float64`, as the original does by design. */
module CorrectedEncoder {
  import opened Bytes
  import opened Values
  import opened Floats

  function EncodeInt(x: Int64): seq<Byte>
  {
    if 0 <= x <= 0x7f then [x]
    else if -32 <= x < 0 then [x + 256]
    else if 0 < x <= 0xff then [Uint8Tag] + BigEndian(x, 1)
    else if 0 < x <= 0xffff then [Uint16Tag] + BigEndian(x, 2)
    else if 0 < x <= 0xffff_ffff then [Uint32Tag] + BigEndian(x, 4)
    else if 0 < x then [Uint64Tag] + BigEndian(x, 8)
    else if -0x80 <= x then [Int8Tag] + BigEndian(x, 1)
    else if -0x8000 <= x then [Int16Tag] + BigEndian(x, 2)
    else if -0x8000_0000 <= x then [Int32Tag] + BigEndian(x, 4)
    else [Int64Tag] + BigEndian(x, 8)
  }

  /** The header of a string of `n` bytes. */
  function StrHeader(n: nat): seq<Byte>
  {
    if n <= 31 then [0xa0 + n]
    else if n <= 0xff then [Str8Tag] + BigEndian(n, 1)
    else if n <= 0xffff then [Str16Tag] + BigEndian(n, 2)
    else [Str32Tag] + BigEndian(n, 4)
  }

  function ArrayHeader(n: nat): seq<Byte>
  {
    if n <= 15 then [0x90 + n]
    else if n <= 0xffff then [Array16Tag] + BigEndian(n, 2)
    else [Array32Tag] + BigEndian(n, 4)
  }

  function MapHeader(n: nat): seq<Byte>
  {
    if n <= 15 then [0x80 + n]
    else if n <= 0xffff then [Map16Tag] + BigEndian(n, 2)
    else [Map32Tag] + BigEndian(n, 4)
  }

  function Encode(v: Value): seq<Byte>
    decreases v
  {
    match v
    case Null => [NilTag]
    case Boolean(b) => if b then [TrueTag] else [FalseTag]
    case Integer(x) => EncodeInt(x)
    case Float32(f) => [Float64Tag] + BigEndian(WidenFloat32(f), 8)
    case Float64(d) => [Float64Tag] + BigEndian(d, 8)
    case Str(s) => StrHeader(|s|) + s
    case Array(elems) => ArrayHeader(|elems|) + EncodeAll(elems)
    case Map(pairs) => MapHeader(|pairs|) + EncodePairs(pairs)
  }

  function EncodeAll(vs: seq<Value>): seq<Byte>
    decreases vs
  {
    if vs == [] then [] else Encode(vs[0]) + EncodeAll(vs[1..])
  }

  function EncodePair(p: (Value, Value)): seq<Byte>
    decreases p
  {
    Encode(p.0) + Encode(p.1)
  }

  function EncodePairs(ps: seq<(Value, Value)>): seq<Byte>
    decreases ps
  {
    if ps == [] then [] else EncodePair(ps[0]) + EncodePairs(ps[1..])
  }
}
