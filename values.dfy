/** The value model of Sources/Mpack/Mpack.swift: the closed `Value` enum and
    the integer thresholds the encoder compares against. */
module Values {
  import opened Bytes

  datatype Option<+T> = None | Some(value: T)

  /** Swift's `Int` on a 64-bit platform. */
  type Int64 = x: int | -0x8000_0000_0000_0000 <= x < 0x8000_0000_0000_0000

  /** The IEEE 754 bit pattern of a `Float` and of a `Double`. */
  type Bits32 = x: int | 0 <= x < 0x1_0000_0000
  type Bits64 = x: int | 0 <= x < 0x1_0000_0000_0000_0000

  /** A MessagePack value. A string is kept as its UTF-8 bytes; a map is an
      ordered list of pairs, so duplicate keys and key order survive. */
  datatype Value =
    | Null
    | Boolean(b: bool)
    | Integer(i: Int64)
    | Float32(bits32: Bits32)
    | Float64(bits64: Bits64)
    | Str(utf8: seq<Byte>)
    | Array(elems: seq<Value>)
    | Map(pairs: seq<(Value, Value)>)

  // The thresholds of the integer ladder, as the integers the Foundation
  // arithmetic of the source computes. The names are the source's own, which
  // do not match what they hold: `Int8Max` is the largest uint8, `U8Max` the
  // largest positive fixint, and `U32Min` repeats the exponent of `U16Min`.
  const Int8Max: int := 255
  const Int16Max: int := 65535
  const Int32Max: int := 4294967295
  const NegativeFixintMin: int := -32
  const U8Max: int := 127
  const U8Min: int := -128
  const U16Min: int := -32768
  const U32Min: int := -32768

  // Tag bytes of the MessagePack format.
  const NilTag: Byte := 0xc0
  const FalseTag: Byte := 0xc2
  const TrueTag: Byte := 0xc3
  const Float32Tag: Byte := 0xca
  const Float64Tag: Byte := 0xcb
  const Uint8Tag: Byte := 0xcc
  const Uint16Tag: Byte := 0xcd
  const Uint32Tag: Byte := 0xce
  const Uint64Tag: Byte := 0xcf
  const Int8Tag: Byte := 0xd0
  const Int16Tag: Byte := 0xd1
  const Int32Tag: Byte := 0xd2
  const Int64Tag: Byte := 0xd3
  const Str8Tag: Byte := 0xd9
  const Str16Tag: Byte := 0xda
  const Str32Tag: Byte := 0xdb
  const Array16Tag: Byte := 0xdc
  const Array32Tag: Byte := 0xdd
  const Map16Tag: Byte := 0xde
  const Map32Tag: Byte := 0xdf
}
