/** The repaired codec round-trips: every value it can write comes back from
    the bytes it writes, followed by whatever came after them, and malformed
    or truncated input is an error rather than a trap. */
module CorrectedRoundTrip {
  import opened Bytes
  import opened Utf8
  import opened Values
  import opened Floats
  import opened CorrectedEncoder
  import opened CorrectedDecoder

  /** The values the repaired encoder writes faithfully: no `float32` (it is
      widened), strings that are valid UTF-8, and no string, array or map
      whose count needs more than 32 bits. */
  predicate Encodable(v: Value)
    decreases v
  {
    match v
    case Float32(_) => false
    case Str(s) => IsValid(s) && |s| < 0x1_0000_0000
    case Array(elems) => |elems| < 0x1_0000_0000 && AllEncodable(elems)
    case Map(pairs) => |pairs| < 0x1_0000_0000 && PairsEncodable(pairs)
    case _ => true
  }

  predicate AllEncodable(vs: seq<Value>)
    decreases vs
  {
    vs == [] || (Encodable(vs[0]) && AllEncodable(vs[1..]))
  }

  predicate PairEncodable(p: (Value, Value))
    decreases p
  {
    Encodable(p.0) && Encodable(p.1)
  }

  predicate PairsEncodable(ps: seq<(Value, Value)>)
    decreases ps
  {
    ps == [] || (PairEncodable(ps[0]) && PairsEncodable(ps[1..]))
  }

  /** A `w`-byte big-endian field reads back as the number written into it. */
  lemma FieldReadsBack(x: int, w: nat, rest: seq<Byte>)
    requires 0 <= x < Pow256(w)
    ensures Field(w, BigEndian(x, w) + rest) == Ok((x, rest))
  {
    var e := BigEndian(x, w);
    assert (e + rest)[..w] == e;
    assert (e + rest)[w..] == rest;
    FromBigEndianOfBigEndian(x, w);
  }

  /** The tag byte of an encoding is where the decoder starts, and the rest
      of the input is what follows it. */
  lemma TagThenBody(tag: Byte, payload: seq<Byte>, rest: seq<Byte>)
    ensures ([tag] + payload + rest)[0] == tag
    ensures ([tag] + payload + rest)[1..] == payload + rest
  {
  }

  /** The tags from `0xc0` on are decoded by `DecodeTagged`. */
  lemma TaggedDispatch(bytes: seq<Byte>)
    requires bytes != [] && 0xc0 <= bytes[0] <= 0xdf
    ensures Decode(bytes) == DecodeTagged(bytes[0], bytes[1..])
  {
  }

  lemma NumberTags(tag: Byte, body: seq<Byte>)
    requires 0xc0 <= tag <= 0xdf
    ensures Uint8Tag <= tag <= Uint64Tag ==> DecodeTagged(tag, body) == DecodeUint(Width(tag - Uint8Tag), body)
    ensures Int8Tag <= tag <= Int64Tag ==> DecodeTagged(tag, body) == DecodeInt(Width(tag - Int8Tag), body)
  {
  }

  /** A non-negative integer in an unsigned form reads back. */
  lemma UintReadsBack(tag: Byte, x: int, rest: seq<Byte>)
    requires Uint8Tag <= tag <= Uint64Tag
    requires 0 <= x < Pow256(Width(tag - Uint8Tag)) && x < 0x8000_0000_0000_0000
    ensures Decode([tag] + BigEndian(x, Width(tag - Uint8Tag)) + rest) == Ok((Integer(x), rest))
  {
    var w := Width(tag - Uint8Tag);
    var bytes := [tag] + BigEndian(x, w) + rest;
    TagThenBody(tag, BigEndian(x, w), rest);
    TaggedDispatch(bytes);
    NumberTags(tag, bytes[1..]);
    FieldReadsBack(x, w, rest);
  }

  /** An integer in the range of a signed form reads back as itself: a
      negative one through sign extension, a non-negative one as written. */
  lemma IntReadsBack(tag: Byte, x: int, rest: seq<Byte>)
    requires Int8Tag <= tag <= Int64Tag
    requires -(Pow256(Width(tag - Int8Tag)) / 2) <= x < Pow256(Width(tag - Int8Tag)) / 2
    ensures Decode([tag] + BigEndian(x, Width(tag - Int8Tag)) + rest) == Ok((Integer(x), rest))
  {
    var w := Width(tag - Int8Tag);
    TagThenBody(tag, BigEndian(x, w), rest);
    IntTagReads([tag] + BigEndian(x, w) + rest);
    SignedFieldReads(w, x, rest);
  }

  /** A signed tag hands what follows it to `DecodeInt` at its width. */
  lemma IntTagReads(bytes: seq<Byte>)
    requires bytes != [] && Int8Tag <= bytes[0] <= Int64Tag
    ensures Decode(bytes) == DecodeInt(Width(bytes[0] - Int8Tag), bytes[1..])
  {
    TaggedDispatch(bytes);
    NumberTags(bytes[0], bytes[1..]);
  }

  /** A `w`-byte two's-complement field reads back as the integer written. */
  lemma SignedFieldReads(w: nat, x: int, rest: seq<Byte>)
    requires w == 1 || w == 2 || w == 4 || w == 8
    requires -(Pow256(w) / 2) <= x < Pow256(w) / 2
    ensures DecodeInt(w, BigEndian(x, w) + rest) == Ok((Integer(x), rest))
  {
    if x < 0 {
      NegativeFieldReads(w, x, rest);
    } else {
      NonNegativeFieldReads(w, x, rest);
    }
  }

  lemma NonNegativeFieldReads(w: nat, x: nat, rest: seq<Byte>)
    requires w == 1 || w == 2 || w == 4 || w == 8
    requires x < Pow256(w) / 2
    ensures DecodeInt(w, BigEndian(x, w) + rest) == Ok((Integer(x), rest))
  {
    var body := BigEndian(x, w) + rest;
    FieldReadsBack(x, w, rest);
    SignedInt(w, body, x, rest);
  }

  lemma NegativeFieldReads(w: nat, x: int, rest: seq<Byte>)
    requires w == 1 || w == 2 || w == 4 || w == 8
    requires -(Pow256(w) / 2) <= x < 0
    ensures DecodeInt(w, BigEndian(x, w) + rest) == Ok((Integer(x), rest))
  {
    var p := Pow256(w);
    var body := BigEndian(x, w) + rest;
    HalfBelow(p);
    WrappedFieldReads(x, w, p, rest);
    WrappedSignedInt(w, body, x, p, rest);
  }

  /** A field holding `x + 256^w`, for `x` in the negative half of the range,
      sign-extends to `x`. */
  lemma WrappedSignedInt(w: nat, body: seq<Byte>, x: int, p: nat, rest: seq<Byte>)
    requires w == 1 || w == 2 || w == 4 || w == 8
    requires p == Pow256(w) && -(p / 2) <= x < 0 && 0 <= x + p
    requires Field(w, body) == Ok((x + p, rest))
    ensures DecodeInt(w, body) == Ok((Integer(x), rest))
  {
    SignedInt(w, body, x + p, rest);
    SignedOfWrapped(x + p, w, x);
  }

  /** The field written for a negative `x` reads as `x + 256^w`. */
  lemma WrappedFieldReads(x: int, w: nat, p: nat, rest: seq<Byte>)
    requires p == Pow256(w) && -(p as int) <= x < 0
    ensures Field(w, BigEndian(x, w) + rest) == Ok((x + p, rest))
  {
    BigEndianWrap(x, w);
    FieldReadsBack(x + p, w, rest);
  }

  /** Half of a natural number lies between zero and it. */
  lemma HalfBelow(p: nat)
    ensures 0 <= p / 2 <= p
  {
  }

  /** `DecodeInt` is the two's-complement reading of its field. */
  lemma SignedInt(w: nat, body: seq<Byte>, n: nat, rest: seq<Byte>)
    requires w == 1 || w == 2 || w == 4 || w == 8
    requires Field(w, body) == Ok((n, rest))
    ensures n < Pow256(w)
    ensures DecodeInt(w, body) == Ok((Integer(Signed(n, w)), rest))
  {
  }

  /** The two's-complement reading of `x + 256^w`, for `x` in the negative
      half of the range, is `x`. */
  lemma SignedOfWrapped(n: nat, w: nat, x: int)
    requires w == 1 || w == 2 || w == 4 || w == 8
    requires -(Pow256(w) / 2) <= x < 0 && n == x + Pow256(w)
    ensures Signed(n, w) == x
  {
  }

  /** `d0 05` is 5 and `d0 fb` is -5. */
  lemma SignedBytes()
    ensures Decode([Int8Tag, 0x05]) == Ok((Integer(5), []))
    ensures Decode([Int8Tag, 0xfb]) == Ok((Integer(-5), []))
  {
    Pow256Values();
    IntReadsBack(Int8Tag, 5, []);
    IntReadsBack(Int8Tag, -5, []);
    assert [Int8Tag] + BigEndian(5, 1) + [] == [Int8Tag, 0x05];
    assert [Int8Tag] + BigEndian(-5, 1) + [] == [Int8Tag, 0xfb];
  }

  /** Every `Int` comes back as itself. */
  lemma IntRoundTrip(x: Int64, rest: seq<Byte>)
    ensures Decode(EncodeInt(x) + rest) == Ok((Integer(x), rest))
  {
    Pow256Values();
    if 0 <= x <= 0x7f {
      assert ([x] + rest)[0] == x;
    } else if -32 <= x < 0 {
      assert ([x + 256] + rest)[0] == x + 256;
    } else if 0 < x <= 0xff {
      UintReadsBack(Uint8Tag, x, rest);
    } else if 0 < x <= 0xffff {
      UintReadsBack(Uint16Tag, x, rest);
    } else if 0 < x <= 0xffff_ffff {
      UintReadsBack(Uint32Tag, x, rest);
    } else if 0 < x {
      UintReadsBack(Uint64Tag, x, rest);
    } else if -0x80 <= x {
      IntReadsBack(Int8Tag, x, rest);
    } else if -0x8000 <= x {
      IntReadsBack(Int16Tag, x, rest);
    } else if -0x8000_0000 <= x {
      IntReadsBack(Int32Tag, x, rest);
    } else {
      IntReadsBack(Int64Tag, x, rest);
    }
  }

  /** The eight bytes after `0xcb` read back as the `Double` pattern. */
  lemma Float64ReadsBack(d: Bits64, rest: seq<Byte>)
    ensures Decode([Float64Tag] + BigEndian(d, 8) + rest) == Ok((Float64(d), rest))
  {
    Pow256Values();
    TagThenBody(Float64Tag, BigEndian(d, 8), rest);
    FieldReadsBack(d, 8, rest);
  }

  /** A `float32` comes back as the `float64` it is widened to, which
      denotes the same number (`Floats.WidenPreservesValue`). */
  lemma Float32ComesBackWidened(f: Bits32, rest: seq<Byte>)
    ensures Decode(Encode(Float32(f)) + rest) == Ok((Float64(WidenFloat32(f)), rest))
  {
    Float64ReadsBack(WidenFloat32(f), rest);
  }

  /** The string header of `n` bytes leads the decoder to read `n` bytes of
      text from what follows. */
  lemma StrHeaderReads(n: nat, body: seq<Byte>)
    requires n < 0x1_0000_0000
    ensures Decode(StrHeader(n) + body) == DecodeStr(n, body)
  {
    Pow256Values();
    if n <= 31 {
      assert ([0xa0 + n] + body)[1..] == body;
    } else if n <= 0xff {
      TagThenBody(Str8Tag, BigEndian(n, 1), body);
      FieldReadsBack(n, 1, body);
    } else if n <= 0xffff {
      TagThenBody(Str16Tag, BigEndian(n, 2), body);
      FieldReadsBack(n, 2, body);
    } else {
      TagThenBody(Str32Tag, BigEndian(n, 4), body);
      FieldReadsBack(n, 4, body);
    }
  }

  lemma ArrayHeaderReads(n: nat, body: seq<Byte>)
    requires n < 0x1_0000_0000
    ensures Decode(ArrayHeader(n) + body) == DecodeArray(n, body)
  {
    Pow256Values();
    if n <= 15 {
      assert ([0x90 + n] + body)[1..] == body;
    } else if n <= 0xffff {
      TagThenBody(Array16Tag, BigEndian(n, 2), body);
      FieldReadsBack(n, 2, body);
    } else {
      TagThenBody(Array32Tag, BigEndian(n, 4), body);
      FieldReadsBack(n, 4, body);
    }
  }

  lemma MapHeaderReads(n: nat, body: seq<Byte>)
    requires n < 0x1_0000_0000
    ensures Decode(MapHeader(n) + body) == DecodeMap(n, body)
  {
    Pow256Values();
    if n <= 15 {
      assert ([0x80 + n] + body)[1..] == body;
    } else if n <= 0xffff {
      TagThenBody(Map16Tag, BigEndian(n, 2), body);
      FieldReadsBack(n, 2, body);
    } else {
      TagThenBody(Map32Tag, BigEndian(n, 4), body);
      FieldReadsBack(n, 4, body);
    }
  }

  /** Valid UTF-8 text comes back byte for byte, whatever its length and
      however many characters its bytes make. */
  lemma StrRoundTrip(s: seq<Byte>, rest: seq<Byte>)
    requires IsValid(s) && |s| < 0x1_0000_0000
    ensures Decode(Encode(Str(s)) + rest) == Ok((Str(s), rest))
  {
    StrHeaderReads(|s|, s + rest);
    assert StrHeader(|s|) + s + rest == StrHeader(|s|) + (s + rest);
    assert (s + rest)[..|s|] == s && (s + rest)[|s|..] == rest;
  }

  /** Every value the repaired encoder writes faithfully is read back, and
      the decoder stops exactly where its encoding ends. */
  lemma {:induction false} RoundTrip(v: Value, rest: seq<Byte>)
    requires Encodable(v)
    ensures Decode(Encode(v) + rest) == Ok((v, rest))
    decreases v, 1
  {
    match v
    case Null =>
      TagThenBody(NilTag, [], rest);
    case Boolean(b) =>
      TagThenBody(if b then TrueTag else FalseTag, [], rest);
    case Integer(x) =>
      IntRoundTrip(x, rest);
    case Float64(d) =>
      Float64ReadsBack(d, rest);
    case Str(s) =>
      StrRoundTrip(s, rest);
    case Array(_) =>
      ArrayRoundTrip(v, rest);
    case Map(_) =>
      MapRoundTrip(v, rest);
  }

  lemma {:induction false} ArrayRoundTrip(v: Value, rest: seq<Byte>)
    requires v.Array? && Encodable(v)
    ensures Decode(Encode(v) + rest) == Ok((v, rest))
    decreases v, 0
  {
    var elems := v.elems;
    var body := EncodeAll(elems) + rest;
    assert Encode(v) + rest == ArrayHeader(|elems|) + body;
    ArrayHeaderReads(|elems|, body);
    ItemsRoundTrip(elems, rest);
  }

  lemma {:induction false} MapRoundTrip(v: Value, rest: seq<Byte>)
    requires v.Map? && Encodable(v)
    ensures Decode(Encode(v) + rest) == Ok((v, rest))
    decreases v, 0
  {
    var pairs := v.pairs;
    var body := EncodePairs(pairs) + rest;
    assert Encode(v) + rest == MapHeader(|pairs|) + body;
    MapHeaderReads(|pairs|, body);
    PairsRoundTrip(pairs, rest);
  }

  /** The elements of an array are read one after another, each from what
      the one before it left. */
  lemma {:induction false} ItemsRoundTrip(vs: seq<Value>, rest: seq<Byte>)
    requires AllEncodable(vs)
    ensures DecodeItems(|vs|, EncodeAll(vs) + rest) == Ok((vs, rest))
    decreases vs, 0
  {
    if vs == [] {
      assert EncodeAll(vs) + rest == rest;
    } else {
      var tail := EncodeAll(vs[1..]) + rest;
      EncodeAllHead(vs, rest);
      RoundTrip(vs[0], tail);
      ItemsRoundTrip(vs[1..], rest);
      ItemsCons(Encode(vs[0]) + tail, vs[0], tail, |vs| - 1, vs[1..], rest);
      assert [vs[0]] + vs[1..] == vs;
    }
  }

  lemma EncodeAllHead(vs: seq<Value>, rest: seq<Byte>)
    requires vs != []
    ensures EncodeAll(vs) + rest == Encode(vs[0]) + (EncodeAll(vs[1..]) + rest)
  {
  }

  lemma ItemsCons(bytes: seq<Byte>, v: Value, tail: seq<Byte>, n: nat, vs: seq<Value>, rest: seq<Byte>)
    requires Decode(bytes) == Ok((v, tail))
    requires DecodeItems(n, tail) == Ok((vs, rest))
    ensures DecodeItems(n + 1, bytes) == Ok(([v] + vs, rest))
  {
  }

  /** The pairs of a map are read key, value, key, value, in order. */
  lemma {:induction false} PairsRoundTrip(ps: seq<(Value, Value)>, rest: seq<Byte>)
    requires PairsEncodable(ps)
    ensures DecodePairs(|ps|, EncodePairs(ps) + rest) == Ok((ps, rest))
    decreases ps, 0
  {
    if ps == [] {
      assert EncodePairs(ps) + rest == rest;
    } else {
      var tail := EncodePairs(ps[1..]) + rest;
      var mid := Encode(ps[0].1) + tail;
      EncodePairsHead(ps, rest);
      PairRoundTrip(ps[0], tail);
      PairsRoundTrip(ps[1..], rest);
      PairsCons(Encode(ps[0].0) + mid, ps[0].0, mid, ps[0].1, tail, |ps| - 1, ps[1..], rest);
      assert [(ps[0].0, ps[0].1)] + ps[1..] == ps;
    }
  }

  lemma EncodePairsHead(ps: seq<(Value, Value)>, rest: seq<Byte>)
    requires ps != []
    ensures EncodePairs(ps) + rest == Encode(ps[0].0) + (Encode(ps[0].1) + (EncodePairs(ps[1..]) + rest))
  {
  }

  lemma PairsCons(bytes: seq<Byte>, k: Value, mid: seq<Byte>, v: Value, tail: seq<Byte>,
                  n: nat, ps: seq<(Value, Value)>, rest: seq<Byte>)
    requires Decode(bytes) == Ok((k, mid))
    requires Decode(mid) == Ok((v, tail))
    requires DecodePairs(n, tail) == Ok((ps, rest))
    ensures DecodePairs(n + 1, bytes) == Ok(([(k, v)] + ps, rest))
  {
  }

  lemma {:induction false} PairRoundTrip(p: (Value, Value), tail: seq<Byte>)
    requires PairEncodable(p)
    ensures Decode(Encode(p.0) + (Encode(p.1) + tail)) == Ok((p.0, Encode(p.1) + tail))
    ensures Decode(Encode(p.1) + tail) == Ok((p.1, tail))
    decreases p
  {
    RoundTrip(p.0, Encode(p.1) + tail);
    RoundTrip(p.1, tail);
  }

  /** Two values written back to back are read back one after the other. */
  lemma BackToBack(v: Value, w: Value, rest: seq<Byte>)
    requires Encodable(v) && Encodable(w)
    ensures Decode(Encode(v) + Encode(w) + rest) == Ok((v, Encode(w) + rest))
    ensures Decode(Encode(w) + rest) == Ok((w, rest))
  {
    assert Encode(v) + Encode(w) + rest == Encode(v) + (Encode(w) + rest);
    RoundTrip(v, Encode(w) + rest);
    RoundTrip(w, rest);
  }

  /** Empty input, and a tag whose fixed-width field is cut short, are
      reported as the end of input. */
  lemma ShortInputIsError(bytes: seq<Byte>)
    ensures bytes == [] ==> Decode(bytes) == Err(UnexpectedEnd)
    ensures (1 <= |bytes| < 2 &&
             (bytes[0] == Uint8Tag || bytes[0] == Int8Tag || bytes[0] == Str8Tag))
            ==> Decode(bytes) == Err(UnexpectedEnd)
    ensures (1 <= |bytes| < 3 &&
             (bytes[0] == Uint16Tag || bytes[0] == Int16Tag || bytes[0] == Str16Tag ||
              bytes[0] == Array16Tag || bytes[0] == Map16Tag))
            ==> Decode(bytes) == Err(UnexpectedEnd)
    ensures (1 <= |bytes| < 5 &&
             (bytes[0] == Float32Tag || bytes[0] == Uint32Tag || bytes[0] == Int32Tag ||
              bytes[0] == Str32Tag || bytes[0] == Array32Tag || bytes[0] == Map32Tag))
            ==> Decode(bytes) == Err(UnexpectedEnd)
    ensures (1 <= |bytes| < 9 &&
             (bytes[0] == Float64Tag || bytes[0] == Uint64Tag || bytes[0] == Int64Tag))
            ==> Decode(bytes) == Err(UnexpectedEnd)
  {
  }

  /** The tags the format reserves for binary data and extension types are
      reported, not skipped. */
  lemma ReservedTagsAreErrors(bytes: seq<Byte>)
    requires |bytes| >= 1
    requires bytes[0] == 0xc1 || 0xc4 <= bytes[0] <= 0xc9 || 0xd4 <= bytes[0] <= 0xd8
    ensures Decode(bytes) == Err(UnsupportedTag(bytes[0]))
  {
  }

  /** Zero and the integers from -32 to 127 take one byte: a positive or a
      negative fixint. */
  lemma SmallIntegersAreFixints(x: Int64)
    requires -32 <= x <= 0x7f
    ensures EncodeInt(x) == [if x < 0 then x + 256 else x]
    ensures 0 <= x ==> EncodeInt(x)[0] <= 0x7f
    ensures x < 0 ==> 0xe0 <= EncodeInt(x)[0]
  {
  }

  /** A 31-byte string is a fixstr, one header byte. */
  lemma ThirtyOneBytesIsFixstr(s: seq<Byte>)
    requires |s| == 31
    ensures Encode(Str(s)) == [0xbf] + s
  {
  }

  /** An array holding an empty array and `true` comes back whole. */
  lemma NestedArrayWithSibling()
    ensures Decode([0x92, 0x90, 0xc3]) == Ok((Array([Array([]), Boolean(true)]), []))
  {
    var v := Array([Array([]), Boolean(true)]);
    assert AllEncodable([Boolean(true)]);
    assert AllEncodable([Array([]), Boolean(true)]);
    RoundTrip(v, []);
    assert Encode(Array([])) == [0x90];
    assert EncodeAll([Boolean(true)]) == [0xc3];
    assert EncodeAll([Array([]), Boolean(true)]) == [0x90, 0xc3];
    assert Encode(v) + [] == [0x92, 0x90, 0xc3];
  }

  /** `e` followed by a combining acute accent: one character, three bytes,
      all three kept. */
  lemma DecomposedAccentKept()
    ensures Encode(Str([0x65, 0xcc, 0x81])) == [0xa3, 0x65, 0xcc, 0x81]
    ensures Decode([0xa3, 0x65, 0xcc, 0x81]) == Ok((Str([0x65, 0xcc, 0x81]), []))
  {
    var s: seq<Byte> := [0x65, 0xcc, 0x81];
    assert IsValid(s);
    StrRoundTrip(s, []);
    assert Encode(Str(s)) + [] == [0xa3, 0x65, 0xcc, 0x81];
  }
}
