/** What `privFrom(bytes:)` does with each first byte, read off the model of
    module `Decoder`. */
module DecoderFacts {
  import opened Bytes
  import opened Bits
  import opened Utf8
  import opened Values
  import opened Decoder

  /** The mask tests of `privFrom` select the byte ranges `Decode` tests,
      and the masks that read a short length give the offset into the range. */
  lemma MaskRanges(b: Byte)
    ensures BitAnd(b, 0xE0) == 0xA0 <==> 0xa0 <= b <= 0xbf
    ensures BitAnd(b, 0xF0) == 0x90 <==> 0x90 <= b <= 0x9f
    ensures BitAnd(b, 0xE0) == 0xE0 <==> 0xe0 <= b
    ensures 0xa0 <= b <= 0xbf ==> BitAnd(b, 0x1F) == b - 0xa0
    ensures 0x90 <= b <= 0x9f ==> BitAnd(b, 0x0F) == b - 0x90
  {
    HighBits3(b);
    HighBits4(b);
    if 0xa0 <= b <= 0xbf {
      LowMask31(b);
      DivUnique(b, 32, 5, b - 0xa0);
    }
    if 0x90 <= b <= 0x9f {
      LowMask15(b);
      DivUnique(b, 16, 9, b - 0x90);
    }
  }

  /** `b & 0xE0` keeps the top three bits: it is `0xA0` exactly on the
      fixstr range and `0xE0` exactly on the negative fixints. */
  lemma HighBits3(b: Byte)
    ensures BitAnd(b, 0xE0) == 0xA0 <==> 0xa0 <= b <= 0xbf
    ensures BitAnd(b, 0xE0) == 0xE0 <==> 0xe0 <= b
  {
    HighMaskE0(b);
    var hi := BitAnd(b, 0xE0);
    var q, r := b / 32, b % 32;
    assert b == 32 * q + r && 0 <= r < 32;
    assert hi == 32 * q;
    assert hi == 0xA0 <==> q == 5;
    assert hi == 0xE0 <==> q == 7;
  }

  /** `b & 0xF0` keeps the top four bits: it is `0x90` exactly on the
      fixarray range. */
  lemma HighBits4(b: Byte)
    ensures BitAnd(b, 0xF0) == 0x90 <==> 0x90 <= b <= 0x9f
  {
    HighMaskF0(b);
    var hi := BitAnd(b, 0xF0);
    var q, r := b / 16, b % 16;
    assert b == 16 * q + r && 0 <= r < 16;
    assert hi == 16 * q;
    assert hi == 0x90 <==> q == 9;
  }

  /** The one-byte integers: a positive fixint is its own value and a
      negative fixint is its value minus 256, and either leaves the rest of
      the input. An empty input traps. */
  lemma DecodeFixints(bytes: seq<Byte>)
    ensures bytes == [] ==> Decode(bytes) == None
    ensures bytes != [] && bytes[0] <= 0x7f ==> Decode(bytes) == Some((Integer(bytes[0]), bytes[1..]))
    ensures bytes != [] && 0xe0 <= bytes[0] ==> Decode(bytes) == Some((Integer(bytes[0] as int - 256), bytes[1..]))
  {
  }

  /** A fixstr of `n` bytes: a string when `n` bytes follow and form UTF-8,
      with the rest left; a trap when fewer follow; `(null, [])` when they are
      not UTF-8. */
  lemma DecodeFixStrCases(bytes: seq<Byte>)
    requires bytes != [] && 0xa0 <= bytes[0] <= 0xbf
    ensures var n := bytes[0] - 0xa0;
            Decode(bytes) ==
              if |bytes| < n + 1 then None
              else if IsValid(bytes[1..n + 1]) then Some((Str(bytes[1..n + 1]), bytes[n + 1..]))
              else Some((Null, []))
  {
  }

  /** Booleans take one byte; floats read their bit pattern big-endian. */
  lemma DecodeScalars(bytes: seq<Byte>)
    requires bytes != []
    ensures bytes[0] == FalseTag ==> Decode(bytes) == Some((Boolean(false), bytes[1..]))
    ensures bytes[0] == TrueTag ==> Decode(bytes) == Some((Boolean(true), bytes[1..]))
    ensures bytes[0] == Float32Tag ==>
              Decode(bytes) == if |bytes| < 5 then None else Some((Float32(FromBigEndian4(bytes[1..5])), bytes[5..]))
    ensures bytes[0] == Float64Tag ==>
              Decode(bytes) == if |bytes| < 9 then None else Some((Float64(FromBigEndian8(bytes[1..9])), bytes[9..]))
  {
  }

  /** Every integer tag, signed or not, yields the last byte of its field
      without sign extension; the 16-bit case consumes one byte past its
      field. */
  lemma DecodeIntegerTags(bytes: seq<Byte>)
    requires bytes != []
    ensures bytes[0] in {Uint8Tag, Int8Tag} ==>
              Decode(bytes) == if |bytes| < 2 then None else Some((Integer(bytes[1]), bytes[2..]))
    ensures bytes[0] in {Uint16Tag, Int16Tag} ==>
              Decode(bytes) == if |bytes| < 4 then None else Some((Integer(bytes[2]), bytes[4..]))
    ensures bytes[0] in {Uint32Tag, Int32Tag} ==>
              Decode(bytes) == if |bytes| < 5 then None else Some((Integer(bytes[4]), bytes[5..]))
    ensures bytes[0] in {Uint64Tag, Int64Tag} ==>
              Decode(bytes) == if |bytes| < 9 then None else Some((Integer(bytes[8]), bytes[9..]))
  {
    if |bytes| >= 3 {
      DeserializeKeepsLastByte(bytes[1..3]);
    }
    if |bytes| >= 5 {
      DeserializeKeepsLastByte(bytes[1..5]);
    }
    if |bytes| >= 9 {
      DeserializeKeepsLastByte(bytes[1..9]);
    }
  }

  /** Nil, the reserved byte, bin, ext, fixext and the three str tags are not
      decoded: each gives `(null, [])`, dropping whatever follows. */
  lemma UndecodedTagsGiveNull(bytes: seq<Byte>)
    requires bytes != []
    requires bytes[0] == NilTag || bytes[0] == 0xc1 || 0xc4 <= bytes[0] <= 0xc9 || 0xd4 <= bytes[0] <= 0xdb
    ensures Decode(bytes) == Some((Null, []))
  {
  }

  /** The fixarray and fixmap tags carry their count in the low four bits. */
  lemma DecodeFixContainers(bytes: seq<Byte>)
    requires bytes != []
    ensures 0x90 <= bytes[0] <= 0x9f ==> Decode(bytes) == WithEmptySuffix(DecodeArray(bytes[0] - 0x90, bytes[1..]))
    ensures 0x80 <= bytes[0] <= 0x8f ==> Decode(bytes) == WithEmptySuffix(DecodeMap(bytes[0] - 0x80, bytes[1..]))
  {
  }

  /** The 16- and 32-bit array tags: the count is the last byte of its
      field; a field cut short traps. */
  lemma DecodeSizedArrays(bytes: seq<Byte>)
    requires bytes != [] && (bytes[0] == Array16Tag || bytes[0] == Array32Tag)
    ensures bytes[0] == Array16Tag && |bytes| >= 3 ==> Decode(bytes) == WithEmptySuffix(DecodeArray(bytes[2], bytes[3..]))
    ensures bytes[0] == Array32Tag && |bytes| >= 5 ==> Decode(bytes) == WithEmptySuffix(DecodeArray(bytes[4], bytes[5..]))
    ensures bytes[0] == Array16Tag && |bytes| < 3 ==> Decode(bytes) == None
    ensures bytes[0] == Array32Tag && |bytes| < 5 ==> Decode(bytes) == None
  {
    if |bytes| >= 3 {
      DeserializeKeepsLastByte(bytes[1..3]);
    }
    if |bytes| >= 5 {
      DeserializeKeepsLastByte(bytes[1..5]);
    }
  }

  /** The 16- and 32-bit map tags, read like the array tags. */
  lemma DecodeSizedMaps(bytes: seq<Byte>)
    requires bytes != [] && (bytes[0] == Map16Tag || bytes[0] == Map32Tag)
    ensures bytes[0] == Map16Tag && |bytes| >= 3 ==> Decode(bytes) == WithEmptySuffix(DecodeMap(bytes[2], bytes[3..]))
    ensures bytes[0] == Map32Tag && |bytes| >= 5 ==> Decode(bytes) == WithEmptySuffix(DecodeMap(bytes[4], bytes[5..]))
    ensures bytes[0] == Map16Tag && |bytes| < 3 ==> Decode(bytes) == None
    ensures bytes[0] == Map32Tag && |bytes| < 5 ==> Decode(bytes) == None
  {
    if |bytes| >= 3 {
      DeserializeKeepsLastByte(bytes[1..3]);
    }
    if |bytes| >= 5 {
      DeserializeKeepsLastByte(bytes[1..5]);
    }
  }

  /** A container always reports an empty suffix, so whatever follows it in
      the input is lost. */
  lemma ContainersLoseTheirSuffix(bytes: seq<Byte>)
    requires bytes != [] && (0x80 <= bytes[0] <= 0x9f || Array16Tag <= bytes[0] <= Map32Tag)
    requires Decode(bytes).Some?
    ensures Decode(bytes).value.1 == []
  {
    if bytes[0] == Array16Tag || bytes[0] == Array32Tag {
      DecodeSizedArrays(bytes);
    } else if bytes[0] >= Map16Tag {
      DecodeSizedMaps(bytes);
    }
  }

  /** The first store that lands past the end of the pair list: the first
      even step at or after `len`. */
  function FirstBadStep(len: nat): nat
  {
    if len % 2 == 0 then len else len + 1
  }

  /** Once the map loop has run, any step from `i` up to the first bad step
      ends in a trap: either a child fails to decode or the store at the bad
      step is out of range. */
  lemma {:induction false} MapStepsTrap(len: nat, i: nat, arr: seq<(Value, Value)>, bytes: seq<Byte>)
    requires len >= 2 && |arr| == len && i <= FirstBadStep(len)
    ensures FirstBadStep(len) < 2 * len
    ensures MapSteps(len, i, arr, bytes) == None
    decreases |bytes|, FirstBadStep(len) - i
  {
    match Decode(bytes)
    case None =>
    case Some((x, rest)) =>
      if i < FirstBadStep(len) {
        match MapStore(i, arr, x)
        case None =>
        case Some(arr') =>
          MapStepsTrap(len, i + 1, arr', rest);
      }
  }

  /** A map of two or more pairs always traps: step `i` stores into index
      `i` rather than `i / 2`, which runs off the end of the pair list. */
  lemma MapOfTwoOrMorePairsTraps(len: nat, bytes: seq<Byte>)
    requires len >= 2
    ensures DecodeMap(len, bytes) == None
  {
    MapStepsTrap(len, 0, NullPairs(len), bytes);
  }

  /** A map of one pair reads its key and then its value from what the key
      left, and succeeds only when nothing follows the value. */
  lemma MapOfOnePair(bytes: seq<Byte>, k: Value, v: Value, rest: seq<Byte>, tail: seq<Byte>)
    requires Decode(bytes) == Some((k, rest)) && Decode(rest) == Some((v, tail))
    ensures DecodeMap(1, bytes) == if tail == [] then Some(Map([(k, v)])) else None
  {
    var start := NullPairs(1);
    assert start[0 := (k, start[0].1)] == [(k, Null)];
    assert MapStore(0, start, k) == Some([(k, Null)]);
    assert [(k, Null)][0 := (k, v)] == [(k, v)];
    assert MapStore(1, [(k, Null)], v) == Some([(k, v)]);
    assert MapSteps(1, 1, [(k, Null)], rest) == MapSteps(1, 2, [(k, v)], tail);
    assert MapSteps(1, 0, start, bytes) == MapSteps(1, 1, [(k, Null)], rest);
  }

  /** An empty map succeeds exactly on empty input. */
  lemma MapOfNoPairs(bytes: seq<Byte>)
    ensures DecodeMap(0, bytes) == if bytes == [] then Some(Map([])) else None
  {
  }

  /** An array's children are read one after another, each from the suffix
      the previous one left; it succeeds only when the last leaves nothing. */
  lemma {:induction false} ArrayItemsInOrder(vs: seq<Value>, chunks: seq<seq<Byte>>, tail: seq<Byte>, acc: seq<Value>)
    requires |chunks| == |vs| + 1 && chunks[|vs|] == tail
    requires forall i :: 0 <= i < |vs| ==> Decode(chunks[i]) == Some((vs[i], chunks[i + 1]))
    ensures DecodeItems(|vs|, acc, chunks[0]) == Some((acc + vs, tail))
    decreases |vs|
  {
    if vs == [] {
      assert acc + vs == acc;
    } else {
      var next := chunks[1..];
      assert Decode(chunks[0]) == Some((vs[0], next[0]));
      assert forall i :: 0 <= i < |vs| - 1 ==> Decode(next[i]) == Some((vs[1..][i], next[i + 1])) by {
        forall i | 0 <= i < |vs| - 1
          ensures Decode(next[i]) == Some((vs[1..][i], next[i + 1]))
        {
          assert next[i] == chunks[i + 1] && next[i + 1] == chunks[i + 2];
        }
      }
      ArrayItemsInOrder(vs[1..], next, tail, acc + [vs[0]]);
      assert acc + [vs[0]] + vs[1..] == acc + vs;
    }
  }
}
