/** What `toBytes()` writes, read off the model of module `Encoder`: the form
    each integer takes, the headers, the layout of containers, and the byte
    vectors of the test suite. */
module EncoderFacts {
  import opened Bytes
  import opened Values
  import opened Floats
  import opened Encoder

  lemma Low2IsLowBytes(x: int)
    ensures Low2(x) == BigEndian(x, 2)
  {
    BigEndianSplit(x, 8, 2);
  }

  lemma Low4IsLowBytes(x: int)
    ensures Low4(x) == BigEndian(x, 4)
  {
    BigEndianSplit(x, 8, 4);
  }

  /** The first four of the eight bytes of `n` are the bytes of `n / 2^32`;
      they are all zero for a count below `2^32`. */
  lemma HighWordIsHighHalf(n: nat)
    ensures HighWord(n) == BigEndian(n / 0x1_0000_0000, 4)
    ensures n < 0x1_0000_0000 ==> HighWord(n) == [0, 0, 0, 0]
  {
    BigEndianSplit(n, 8, 4);
    Pow256Values();
    assert All8(n) == BigEndian(n / 0x1_0000_0000, 4) + BigEndian(n, 4);
    if n < 0x1_0000_0000 {
      BigEndianOfZero(4);
    }
  }

  /** A positive integer takes the first of positive fixint, uint8, uint16,
      uint32 and uint64 it fits, with its payload big-endian. */
  lemma PositiveIntegerForms(x: Int64)
    requires x > 0
    ensures x <= 0x7f ==> IntegerBytes(x) == [x]
    ensures 0x7f < x <= 0xff ==> IntegerBytes(x) == [Uint8Tag] + BigEndian(x, 1)
    ensures 0xff < x <= 0xffff ==> IntegerBytes(x) == [Uint16Tag] + BigEndian(x, 2)
    ensures 0xffff < x <= 0xffff_ffff ==> IntegerBytes(x) == [Uint32Tag] + BigEndian(x, 4)
    ensures 0xffff_ffff < x ==> IntegerBytes(x) == [Uint64Tag] + BigEndian(x, 8)
  {
    if 0x7f < x <= 0xff {
      BigEndianShort(x);
      assert x % 256 == x;
    } else if 0xff < x <= 0xffff {
      Low2IsLowBytes(x);
    } else if 0xffff < x <= 0xffff_ffff {
      Low4IsLowBytes(x);
    }
  }

  /** The payload after the tag of a positive integer above 127 reads back as
      that integer. */
  lemma PositivePayloadReadsBack(x: Int64)
    requires x > 0x7f
    ensures FromBigEndian(IntegerBytes(x)[1..]) == x
  {
    PositiveIntegerForms(x);
    Pow256Values();
    if x <= 0xff {
      FromBigEndianOfBigEndian(x, 1);
    } else if x <= 0xffff {
      FromBigEndianOfBigEndian(x, 2);
    } else if x <= 0xffff_ffff {
      FromBigEndianOfBigEndian(x, 4);
    } else {
      FromBigEndianOfBigEndian(x, 8);
    }
  }

  /** Zero and the negative integers take int8 from -128, int16 from -32768,
      and below that the `0xd2` tag followed by all eight bytes. */
  lemma NonPositiveIntegerForms(x: Int64)
    requires x <= 0
    ensures -0x80 <= x ==> IntegerBytes(x) == [Int8Tag] + BigEndian(x, 1)
    ensures -0x8000 <= x < -0x80 ==> IntegerBytes(x) == [Int16Tag] + BigEndian(x, 2)
    ensures x < -0x8000 ==> IntegerBytes(x) == [Int32Tag] + BigEndian(x, 8)
  {
    if -0x80 <= x {
      BigEndianShort(x);
    } else if -0x8000 <= x {
      Low2IsLowBytes(x);
    }
  }

  /** The payload of a negative integer is its two's complement in as many
      bytes as follow the tag. */
  lemma NegativePayloadIsTwosComplement(x: Int64)
    requires x < 0
    ensures -0x80 <= x ==> FromBigEndian(IntegerBytes(x)[1..]) == x + 0x100
    ensures -0x8000 <= x < -0x80 ==> FromBigEndian(IntegerBytes(x)[1..]) == x + 0x1_0000
    ensures x < -0x8000 ==> FromBigEndian(IntegerBytes(x)[1..]) == x + 0x1_0000_0000_0000_0000
  {
    NonPositiveIntegerForms(x);
    Pow256Values();
    if -0x80 <= x {
      FromBigEndianOfNegative(x, 1);
    } else if -0x8000 <= x {
      FromBigEndianOfNegative(x, 2);
    } else {
      FromBigEndianOfNegative(x, 8);
    }
  }

  /** No integer is written as a negative fixint, none with the int64 tag,
      and the int32 tag is always followed by eight bytes, not four. */
  lemma IntegerTagsUsed(x: Int64)
    ensures IntegerBytes(x)[0] < 0xe0
    ensures IntegerBytes(x)[0] != Int64Tag
    ensures IntegerBytes(x)[0] == Int32Tag ==> |IntegerBytes(x)| == 9
  {
    if x > 0 {
      PositiveIntegerForms(x);
    } else {
      NonPositiveIntegerForms(x);
    }
  }

  /** The string header for a count of `n`: fixstr below 31, then str8,
      str16 and str32; the str32 length is the high half of the count, so it
      is zero for every count below `2^32`. */
  lemma StrHeaderForms(n: nat)
    ensures n < 31 ==> StrHeader(n) == [0xa0 + n]
    ensures 31 <= n <= 0xff ==> StrHeader(n) == [Str8Tag] + BigEndian(n, 1)
    ensures 0xff < n <= 0xffff ==> StrHeader(n) == [Str16Tag] + BigEndian(n, 2)
    ensures 0xffff < n ==> StrHeader(n) == [Str32Tag] + BigEndian(n / 0x1_0000_0000, 4)
    ensures 0xffff < n < 0x1_0000_0000 ==> StrHeader(n) == [Str32Tag, 0, 0, 0, 0]
  {
    if 31 <= n <= 0xff {
      BigEndianShort(n);
      assert n % 256 == n;
    } else if 0xff < n <= 0xffff {
      BigEndianShort(n);
    } else if 0xffff < n {
      HighWordIsHighHalf(n);
    }
  }

  /** The array header for `n` elements: fixarray up to 15, then array16, then
      array32 with the high half of the count. */
  lemma ArrayHeaderForms(n: nat)
    ensures n <= 15 ==> ArrayHeader(n) == [0x90 + n]
    ensures 15 < n <= 0xffff ==> ArrayHeader(n) == [Array16Tag] + BigEndian(n, 2)
    ensures 0xffff < n ==> ArrayHeader(n) == [Array32Tag] + BigEndian(n / 0x1_0000_0000, 4)
    ensures 0xffff < n < 0x1_0000_0000 ==> ArrayHeader(n) == [Array32Tag, 0, 0, 0, 0]
  {
    if 15 < n <= 0xffff {
      BigEndianShort(n);
    } else if 0xffff < n {
      HighWordIsHighHalf(n);
    }
  }

  /** The map header for `n` pairs: fixmap up to 15, then map16, then map32
      with the high half of the count. */
  lemma MapHeaderForms(n: nat)
    ensures n <= 15 ==> MapHeader(n) == [0x80 + n]
    ensures 15 < n <= 0xffff ==> MapHeader(n) == [Map16Tag] + BigEndian(n, 2)
    ensures 0xffff < n ==> MapHeader(n) == [Map32Tag] + BigEndian(n / 0x1_0000_0000, 4)
    ensures 0xffff < n < 0x1_0000_0000 ==> MapHeader(n) == [Map32Tag, 0, 0, 0, 0]
  {
    if 15 < n <= 0xffff {
      BigEndianShort(n);
    } else if 0xffff < n {
      HighWordIsHighHalf(n);
    }
  }

  /** The elements of an array are written one after another, in order:
      encoding a concatenation concatenates the encodings. */
  lemma {:induction false} EncodeAllAppend(a: seq<Value>, b: seq<Value>, chars: CharCount)
    ensures EncodeAll(a + b, chars) == EncodeAll(a, chars) + EncodeAll(b, chars)
    ensures |a| == 1 ==> EncodeAll(a, chars) == Encode(a[0], chars)
    decreases |a|
  {
    if a == [] {
      assert a + b == b;
    } else {
      assert (a + b)[1..] == a[1..] + b;
      EncodeAllAppend(a[1..], b, chars);
    }
  }

  /** The pairs of a map are written in list order, each key before its
      value. */
  lemma {:induction false} EncodePairsAppend(a: seq<(Value, Value)>, b: seq<(Value, Value)>, chars: CharCount)
    ensures EncodePairs(a + b, chars) == EncodePairs(a, chars) + EncodePairs(b, chars)
    ensures |a| == 1 ==> EncodePairs(a, chars) == Encode(a[0].0, chars) + Encode(a[0].1, chars)
    decreases |a|
  {
    if a == [] {
      assert a + b == b;
    } else {
      assert (a + b)[1..] == a[1..] + b;
      EncodePairsAppend(a[1..], b, chars);
    }
  }

  /** A text whose character count equals its byte length and is below 31
      is written as a fixstr: one header byte holding the length, then the
      bytes. */
  lemma ShortStringIsFixstr(s: seq<Byte>, chars: CharCount)
    requires chars(s) == |s| < 31
    ensures Encode(Str(s), chars) == [0xa0 + |s|] + s
  {
  }

  /** The eight bytes after the `0xcb` tag spell the `Double` pattern: the
      pattern itself for a `float64`, the widened pattern for a `float32`. */
  lemma FloatPayloadReadsBack(v: Value, chars: CharCount)
    requires v.Float32? || v.Float64?
    ensures Encode(v, chars)[0] == Float64Tag && |Encode(v, chars)| == 9
    ensures v.Float32? ==> FromBigEndian(Encode(v, chars)[1..]) == WidenFloat32(v.bits32)
    ensures v.Float64? ==> FromBigEndian(Encode(v, chars)[1..]) == v.bits64
  {
    Pow256Values();
    if v.Float32? {
      FromBigEndianOfBigEndian(WidenFloat32(v.bits32), 8);
      assert Encode(v, chars)[1..] == BigEndian(WidenFloat32(v.bits32), 8);
    } else {
      FromBigEndianOfBigEndian(v.bits64, 8);
      assert Encode(v, chars)[1..] == BigEndian(v.bits64, 8);
    }
  }

  /** The integer vectors of `testSerializesSimpleTypes` up to 16 bits. */
  lemma SerializesSmallIntegers(chars: CharCount)
    ensures Encode(Integer(5), chars) == [5]
    ensures Encode(Integer(128), chars) == [204, 128]
    ensures Encode(Integer(32768), chars) == [205, 128, 0]
  {
    Low2IsLowBytes(32768);
  }

  /** The integer vectors of `testSerializesSimpleTypes` above 16 bits. */
  lemma SerializesLargeIntegers(chars: CharCount)
    ensures Encode(Integer(2147483648), chars) == [206, 128, 0, 0, 0]
    ensures Encode(Integer(0x7fff_ffff_ffff_ffff), chars) == [207, 127, 255, 255, 255, 255, 255, 255, 255]
  {
    Low4IsLowBytes(2147483648);
    Uint32Bytes();
    Int64MaxBytes();
  }

  lemma Uint32Bytes()
    ensures BigEndian(2147483648, 4) == [128, 0, 0, 0]
  {
  }

  lemma Int64MaxBytes()
    ensures BigEndian(0x7fff_ffff_ffff_ffff, 8) == [127, 255, 255, 255, 255, 255, 255, 255]
  {
  }

  /** The `Float` vector of `testSerializesSimpleTypes`: `Float(15.5)`, the
      pattern `0x41780000`, is written as `Double(15.5)`. */
  lemma SerializesFloat(chars: CharCount)
    ensures Encode(Float32(0x4178_0000), chars) == [203, 64, 47, 0, 0, 0, 0, 0, 0]
  {
    WidenFifteenPointFive();
    FifteenPointFiveBytes();
    WidenedFloatLayout(0x4178_0000, 0x402F_0000_0000_0000, chars);
  }

  lemma WidenedFloatLayout(f: Bits32, d: Bits64, chars: CharCount)
    requires WidenFloat32(f) == d
    ensures Encode(Float32(f), chars) == [Float64Tag] + BigEndian(d, 8)
  {
  }

  /** The `Double` vector of `testSerializesSimpleTypes`:
      `12345678.987654321` is the pattern `0x41678C29DF9ADD3C`. */
  lemma SerializesDouble(chars: CharCount)
    ensures Encode(Float64(0x4167_8C29_DF9A_DD3C), chars) == [203, 65, 103, 140, 41, 223, 154, 221, 60]
  {
    DoubleVectorBytes();
  }

  /** `Float(15.5)` widened is `Double(15.5)`, the pattern `0x402F000000000000`. */
  lemma WidenFifteenPointFive()
    ensures WidenFloat32(0x4178_0000) == 0x402F_0000_0000_0000
  {
    assert Exponent32(0x4178_0000) == 130;
    assert Fraction32(0x4178_0000) == 0x78_0000;
  }

  lemma FifteenPointFiveBytes()
    ensures BigEndian(0x402F_0000_0000_0000, 8) == [64, 47, 0, 0, 0, 0, 0, 0]
  {
  }

  lemma DoubleVectorBytes()
    ensures BigEndian(0x4167_8C29_DF9A_DD3C, 8) == [65, 103, 140, 41, 223, 154, 221, 60]
  {
    BigEndianSplit(0x4167_8C29_DF9A_DD3C, 8, 4);
    Pow256Values();
    assert BigEndian(0x4167_8C29, 4) == [65, 103, 140, 41];
    assert BigEndian(0x4167_8C29_DF9A_DD3C, 4) == [223, 154, 221, 60];
  }

  /** The boolean and string vectors of `testSerializesSimpleTypes`; the
      string's character count is its byte length, 13. */
  lemma SerializesBooleansAndStrings(chars: CharCount)
    requires chars([74, 117, 115, 116, 32, 97, 32, 115, 116, 114, 105, 110, 103]) == 13
    ensures Encode(Boolean(true), chars) == [195]
    ensures Encode(Boolean(false), chars) == [194]
    ensures Encode(Null, chars) == [192]
    ensures Encode(Str([74, 117, 115, 116, 32, 97, 32, 115, 116, 114, 105, 110, 103]), chars)
         == [173, 74, 117, 115, 116, 32, 97, 32, 115, 116, 114, 105, 110, 103]
  {
  }
}
