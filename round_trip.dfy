/** What comes back when the decoder of Sources/Mpack/Mpack.swift reads what
    its encoder wrote: the subset of values that survive, and what happens to
    the others. */
module RoundTrip {
  import opened Bytes
  import opened Utf8
  import opened Values
  import opened Floats
  import opened Encoder
  import opened EncoderFacts
  import opened Decoder
  import opened DecoderFacts

  /** The scalars both sides agree on: booleans, integers 0..255, `float64`
      patterns, and valid UTF-8 text below 31 bytes whose character count is
      its byte length (ASCII text, for instance). */
  predicate Handled(v: Value, chars: CharCount)
  {
    match v
    case Boolean(_) => true
    case Integer(x) => 0 <= x <= 0xff
    case Float64(_) => true
    case Str(s) => chars(s) == |s| < 31 && IsValid(s)
    case _ => false
  }

  /** A handled scalar followed by any bytes decodes to itself, and the
      decoder hands back exactly those bytes. */
  lemma HandledRoundTrip(v: Value, chars: CharCount, rest: seq<Byte>)
    requires Handled(v, chars)
    ensures Decode(Encode(v, chars) + rest) == Some((v, rest))
  {
    match v
    case Boolean(b) =>
      DecodeScalars(Encode(v, chars) + rest);
    case Integer(x) =>
      IntegerRoundTrip(x, chars, rest);
    case Float64(d) =>
      Float64RoundTrip(d, chars, rest);
    case Str(s) =>
      ShortStringRoundTrip(s, chars, rest);
  }

  lemma IntegerRoundTrip(x: Int64, chars: CharCount, rest: seq<Byte>)
    requires 0 <= x <= 0xff
    ensures Decode(Encode(Integer(x), chars) + rest) == Some((Integer(x), rest))
  {
    var bytes := Encode(Integer(x), chars) + rest;
    if x == 0 {
      NonPositiveIntegerForms(x);
      DecodeIntegerTags(bytes);
      assert bytes[2..] == rest;
    } else if x <= 0x7f {
      PositiveIntegerForms(x);
      DecodeFixints(bytes);
      assert bytes[1..] == rest;
    } else {
      PositiveIntegerForms(x);
      DecodeIntegerTags(bytes);
      assert bytes[2..] == rest;
    }
  }

  lemma Float64RoundTrip(d: Bits64, chars: CharCount, rest: seq<Byte>)
    ensures Decode(Encode(Float64(d), chars) + rest) == Some((Float64(d), rest))
  {
    var bytes := Encode(Float64(d), chars) + rest;
    DecodeScalars(bytes);
    Pow256Values();
    assert bytes[1..9] == BigEndian(d, 8);
    FromBigEndianOfBigEndian(d, 8);
    assert bytes[9..] == rest;
  }

  lemma ShortStringRoundTrip(s: seq<Byte>, chars: CharCount, rest: seq<Byte>)
    requires chars(s) == |s| < 31 && IsValid(s)
    ensures Decode(Encode(Str(s), chars) + rest) == Some((Str(s), rest))
  {
    var bytes := Encode(Str(s), chars) + rest;
    assert bytes == [0xa0 + |s|] + s + rest;
    DecodeFixStrCases(bytes);
    assert bytes[1..|s| + 1] == s;
    assert bytes[|s| + 1..] == rest;
  }

  /** Handled scalars written one after another are read back one after
      another, in order, with the bytes after them left over. */
  lemma {:induction false} HandledItems(vs: seq<Value>, chars: CharCount, acc: seq<Value>, rest: seq<Byte>)
    requires forall i :: 0 <= i < |vs| ==> Handled(vs[i], chars)
    ensures DecodeItems(|vs|, acc, EncodeAll(vs, chars) + rest) == Some((acc + vs, rest))
    decreases |vs|
  {
    if vs == [] {
      assert acc + vs == acc;
      assert EncodeAll(vs, chars) + rest == rest;
    } else {
      var tail := EncodeAll(vs[1..], chars) + rest;
      assert EncodeAll(vs, chars) + rest == Encode(vs[0], chars) + tail;
      ItemStep(vs[0], chars, |vs| - 1, acc, tail);
      assert forall i :: 0 <= i < |vs[1..]| ==> Handled(vs[1..][i], chars) by {
        forall i | 0 <= i < |vs[1..]|
          ensures Handled(vs[1..][i], chars)
        {
          assert vs[1..][i] == vs[i + 1];
        }
      }
      HandledItems(vs[1..], chars, acc + [vs[0]], rest);
      AppendHead(acc, vs);
    }
  }

  lemma AppendHead(acc: seq<Value>, vs: seq<Value>)
    requires vs != []
    ensures acc + [vs[0]] + vs[1..] == acc + vs
  {
  }

  lemma ItemStep(v: Value, chars: CharCount, n: nat, acc: seq<Value>, tail: seq<Byte>)
    requires Handled(v, chars)
    ensures DecodeItems(n + 1, acc, Encode(v, chars) + tail) == DecodeItems(n, acc + [v], tail)
  {
    HandledRoundTrip(v, chars, tail);
  }

  /** A fixarray of handled scalars with nothing after it decodes back to
      itself. */
  lemma FixArrayRoundTrip(vs: seq<Value>, chars: CharCount)
    requires |vs| <= 15
    requires forall i :: 0 <= i < |vs| ==> Handled(vs[i], chars)
    ensures Decode(Encode(Array(vs), chars)) == Some((Array(vs), []))
  {
    var bytes := Encode(Array(vs), chars);
    var body := EncodeAll(vs, chars);
    FixArrayLayout(vs, chars, []);
    assert bytes + [] == bytes && body + [] == body;
    HandledItems(vs, chars, [], []);
    assert [] + vs == vs;
    ArrayWithoutLeftover(|vs|, body, vs);
    DecodeFixContainers(bytes);
  }

  /** Any byte after such an array makes the decoder's
      `assert(currBytes == [])` fail, so an array cannot be followed by a
      sibling. */
  lemma FixArrayLosesWhatFollows(vs: seq<Value>, chars: CharCount, rest: seq<Byte>)
    requires |vs| <= 15 && rest != []
    requires forall i :: 0 <= i < |vs| ==> Handled(vs[i], chars)
    ensures Decode(Encode(Array(vs), chars) + rest) == None
  {
    var bytes := Encode(Array(vs), chars) + rest;
    var body := EncodeAll(vs, chars) + rest;
    FixArrayLayout(vs, chars, rest);
    HandledItems(vs, chars, [], rest);
    assert [] + vs == vs;
    ArrayWithLeftoverTraps(|vs|, body, vs, rest);
    DecodeFixContainers(bytes);
  }

  lemma FixArrayLayout(vs: seq<Value>, chars: CharCount, rest: seq<Byte>)
    requires |vs| <= 15
    ensures (Encode(Array(vs), chars) + rest)[0] == 0x90 + |vs|
    ensures (Encode(Array(vs), chars) + rest)[1..] == EncodeAll(vs, chars) + rest
  {
    var body := EncodeAll(vs, chars);
    assert ArrayHeader(|vs|) == [0x90 + |vs|];
    assert Encode(Array(vs), chars) == [0x90 + |vs|] + body;
    HeadThenBody(0x90 + |vs|, body, rest);
  }

  lemma HeadThenBody(h: Byte, body: seq<Byte>, rest: seq<Byte>)
    ensures ([h] + body + rest)[0] == h
    ensures ([h] + body + rest)[1..] == body + rest
  {
  }

  lemma ArrayWithoutLeftover(n: nat, body: seq<Byte>, vs: seq<Value>)
    requires DecodeItems(n, [], body) == Some((vs, []))
    ensures DecodeArray(n, body) == Some(Array(vs))
  {
  }

  lemma ArrayWithLeftoverTraps(n: nat, body: seq<Byte>, vs: seq<Value>, rest: seq<Byte>)
    requires DecodeItems(n, [], body) == Some((vs, rest)) && rest != []
    ensures DecodeArray(n, body) == None
  {
  }

  /** An array holding an empty array and then `true`: the inner array
      cannot leave the `0xc3` for its sibling, so decoding traps. */
  lemma NestedArrayWithSiblingTraps(chars: CharCount)
    ensures Encode(Array([Array([]), Boolean(true)]), chars) == [0x92, 0x90, 0xc3]
    ensures Decode([0x92, 0x90, 0xc3]) == None
  {
    assert EncodeAll([Array([]), Boolean(true)], chars) == [0x90, 0xc3] by {
      assert [Array([]), Boolean(true)][1..] == [Boolean(true)];
    }
    assert Decode([0x90, 0xc3]) == None by {
      assert [0x90, 0xc3][1..] == [0xc3];
    }
    assert [0x92, 0x90, 0xc3][1..] == [0x90, 0xc3];
  }

  /** A map of two to fifteen pairs is written as a fixmap that the decoder
      cannot read back. */
  lemma FixMapOfSeveralPairsTraps(ps: seq<(Value, Value)>, chars: CharCount)
    requires 2 <= |ps| <= 15
    ensures Decode(Encode(Map(ps), chars)) == None
  {
    MapOfTwoOrMorePairsTraps(|ps|, Encode(Map(ps), chars)[1..]);
  }

  /** A negative int8 comes back as the unsigned byte: `-1` is written as
      `[0xd0, 0xff]` and read as 255. */
  lemma NegativeInt8ComesBackUnsigned(x: Int64, chars: CharCount, rest: seq<Byte>)
    requires -0x80 <= x < 0
    ensures Encode(Integer(x), chars) == [Int8Tag, x + 256]
    ensures Decode(Encode(Integer(x), chars) + rest) == Some((Integer(x + 256), rest))
  {
    NonPositiveIntegerForms(x);
    var bytes := Encode(Integer(x), chars) + rest;
    DecodeIntegerTags(bytes);
    assert bytes[2..] == rest;
  }

  /** A 16-bit integer comes back as its low byte, and the decoder also
      swallows the byte after it; with nothing after it, decoding traps. */
  lemma Int16ComesBackAsLowByte(x: Int64, chars: CharCount, rest: seq<Byte>)
    requires 0xff < x <= 0xffff || -0x8000 <= x < -0x80
    ensures Decode(Encode(Integer(x), chars) + rest) ==
              if rest == [] then None else Some((Integer(x % 256), rest[1..]))
  {
    if x > 0 {
      PositiveIntegerForms(x);
    } else {
      NonPositiveIntegerForms(x);
    }
    var bytes := Encode(Integer(x), chars) + rest;
    DecodeIntegerTags(bytes);
    assert bytes[2] == x % 256;
    if rest != [] {
      assert bytes[4..] == rest[1..];
    }
  }

  /** A 32-bit unsigned integer comes back as its low byte. */
  lemma Uint32ComesBackAsLowByte(x: Int64, chars: CharCount, rest: seq<Byte>)
    requires 0xffff < x <= 0xffff_ffff
    ensures Decode(Encode(Integer(x), chars) + rest) == Some((Integer(x % 256), rest))
  {
    PositiveIntegerForms(x);
    var bytes := Encode(Integer(x), chars) + rest;
    DecodeIntegerTags(bytes);
    assert bytes[4] == x % 256;
    assert bytes[5..] == rest;
  }

  /** A 64-bit unsigned integer comes back as its low byte. */
  lemma Uint64ComesBackAsLowByte(x: Int64, chars: CharCount, rest: seq<Byte>)
    requires 0xffff_ffff < x
    ensures Decode(Encode(Integer(x), chars) + rest) == Some((Integer(x % 256), rest))
  {
    PositiveIntegerForms(x);
    var bytes := Encode(Integer(x), chars) + rest;
    DecodeIntegerTags(bytes);
    assert bytes[8] == x % 256;
    assert bytes[9..] == rest;
  }

  /** An integer below -32768 is written with the int32 tag and eight bytes;
      the decoder reads four of them as an int32 field, keeps the fourth, and
      leaves the last four as if they were the next value. */
  lemma Int64WrittenAsInt32(x: Int64, chars: CharCount, rest: seq<Byte>)
    requires x < -0x8000
    ensures Encode(Integer(x), chars) == [Int32Tag] + BigEndian(x, 8)
    ensures Decode(Encode(Integer(x), chars) + rest) ==
              Some((Integer(BigEndian(x, 8)[3]), BigEndian(x, 8)[4..] + rest))
  {
    NonPositiveIntegerForms(x);
    var bytes := Encode(Integer(x), chars) + rest;
    DecodeIntegerTags(bytes);
    assert bytes[5..] == BigEndian(x, 8)[4..] + rest;
  }

  /** Nil decodes to null but drops everything after it. */
  lemma NullLosesWhatFollows(chars: CharCount, rest: seq<Byte>)
    ensures Decode(Encode(Null, chars) + rest) == Some((Null, []))
  {
    UndecodedTagsGiveNull(Encode(Null, chars) + rest);
  }

  /** A string of 31 characters or more is written as str8, str16 or str32,
      none of which the decoder reads: it comes back as null and drops
      everything after it. */
  lemma LongStringComesBackNull(s: seq<Byte>, chars: CharCount, rest: seq<Byte>)
    requires chars(s) >= 31
    ensures Decode(Encode(Str(s), chars) + rest) == Some((Null, []))
  {
    StrHeaderForms(chars(s));
    UndecodedTagsGiveNull(Encode(Str(s), chars) + rest);
  }

  /** A `float32` comes back as the `float64` it was widened to. */
  lemma Float32ComesBackWidened(f: Bits32, chars: CharCount, rest: seq<Byte>)
    ensures Decode(Encode(Float32(f), chars) + rest) == Some((Float64(WidenFloat32(f)), rest))
  {
    var bytes := Encode(Float32(f), chars) + rest;
    Pow256Values();
    assert bytes[1..9] == BigEndian(WidenFloat32(f), 8);
    FromBigEndianOfBigEndian(WidenFloat32(f), 8);
    assert bytes[9..] == rest;
  }

  /** When the header counts fewer characters than the text has bytes, the
      decoder takes only that many bytes as the string and leaves the others
      as if they were the next value. */
  lemma HeaderCountsCharacters(s: seq<Byte>, chars: CharCount, rest: seq<Byte>)
    requires chars(s) < 31 && chars(s) <= |s| && IsValid(s[..chars(s)])
    ensures Decode(Encode(Str(s), chars) + rest) == Some((Str(s[..chars(s)]), s[chars(s)..] + rest))
  {
    var n := chars(s);
    var bytes := Encode(Str(s), chars) + rest;
    assert bytes[1..n + 1] == s[..n];
    assert bytes[n + 1..] == s[n..] + rest;
  }

  /** "é" written as `e` followed by the combining acute accent is one
      character in three bytes: the header says one byte, so the string
      comes back as "e" and the accent's two bytes are left over. */
  lemma DecomposedAccentSplits(chars: CharCount)
    requires chars([0x65, 0xcc, 0x81]) == 1
    ensures Encode(Str([0x65, 0xcc, 0x81]), chars) == [0xa1, 0x65, 0xcc, 0x81]
    ensures Decode([0xa1, 0x65, 0xcc, 0x81]) == Some((Str([0x65]), [0xcc, 0x81]))
  {
    assert [0x65, 0xcc, 0x81][..1] == [0x65];
    assert IsValid([0x65]) by {
      AsciiIsValid([0x65]);
    }
    HeaderCountsCharacters([0x65, 0xcc, 0x81], chars, []);
    assert [0x65, 0xcc, 0x81][1..] + [] == [0xcc, 0x81];
    assert Encode(Str([0x65, 0xcc, 0x81]), chars) + [] == [0xa1, 0x65, 0xcc, 0x81];
  }

  /** Every encoding has at least its tag byte. */
  lemma EncodeNonEmpty(v: Value, chars: CharCount)
    ensures |Encode(v, chars)| > 0
  {
    match v
    case Integer(x) =>
      IntegerTagsUsed(x);
    case _ =>
  }

  /** An array of 65536 elements or more, below `2^32`, gets the array32
      header with a zero count, so the decoder reads an empty array, finds
      the elements left over, and traps. */
  lemma LargeArrayCountIsZero(vs: seq<Value>, chars: CharCount)
    requires 0xffff < |vs| < 0x1_0000_0000
    ensures Encode(Array(vs), chars)[..5] == [Array32Tag, 0, 0, 0, 0]
    ensures Decode(Encode(Array(vs), chars)) == None
  {
    ArrayHeaderForms(|vs|);
    var bytes := Encode(Array(vs), chars);
    EncodeNonEmpty(vs[0], chars);
    assert bytes[5..] == EncodeAll(vs, chars);
    DecodeSizedArrays(bytes);
  }
}
