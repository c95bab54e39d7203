/** `Value.privFrom(bytes:)`, `deserializeMap` and `deserializeNum16/32/64` of
    Sources/Mpack/Mpack.swift, as the code is written, stated as functions.

    A decode reads one value from the front of `bytes` and returns it with the
    unconsumed suffix. `None` stands for a run that traps: an index or slice
    past the end of the input, or a failed `assert` (the model treats every
    `assert` as checked). */
module Decoder {
  import opened Bytes
  import opened Bits
  import opened Utf8
  import opened Values

  /** `b | c` on `UInt8`. The or of two bytes is a byte (`OrIsBitOr`), so
      the reduction modulo 256 never changes the result. */
  function Or8(b: Byte, c: Byte): Byte
  {
    BitOr(b, c) % 256
  }

  lemma OrIsBitOr(b: Byte, c: Byte)
    ensures Or8(b, c) == BitOr(b, c)
  {
    assert Pow2(8) == 256;
    BitOrBelow(b, c, 8);
  }

  /** A zero byte or-ed in changes nothing. */
  lemma OrZero(c: Byte)
    ensures Or8(0, c) == c
  {
  }

  /** `b << k` on `UInt8`. Swift's `<<` is a smart shift: shifting by the
      bit width or more yields 0; a smaller shift drops the bits that leave
      the byte. */
  function Shl8(b: Byte, k: nat): Byte
    decreases k
  {
    if k >= 8 then 0 else if k == 0 then b else Shl8((2 * b) % 256, k - 1)
  }

  /** `deserializeNum16`: `bytes[0] << 8 | bytes[1]`, computed in `UInt8`. */
  function DeserializeNum16(b: seq<Byte>): Value
    requires |b| == 2
  {
    Integer(Or8(Shl8(b[0], 8), b[1]))
  }

  /** `deserializeNum32`, computed in `UInt8`. */
  function DeserializeNum32(b: seq<Byte>): Value
    requires |b| == 4
  {
    Integer(Or8(Or8(Or8(Shl8(b[0], 24), Shl8(b[1], 16)), Shl8(b[2], 8)), b[3]))
  }

  /** `deserializeNum64`, computed in `UInt8`. */
  function DeserializeNum64(b: seq<Byte>): Value
    requires |b| == 8
  {
    var x :=
      Or8(Or8(Or8(Or8(Or8(Or8(Or8(Shl8(b[0], 56), Shl8(b[1], 48)), Shl8(b[2], 40)), Shl8(b[3], 32)),
        Shl8(b[4], 24)), Shl8(b[5], 16)), Shl8(b[6], 8)), b[7]);
    Integer(x)
  }

  /** Every shift in `deserializeNum16/32/64` is by 8 bits or more, so it
      yields 0 in `UInt8`, and only the last byte of the field survives. */
  lemma DeserializeKeepsLastByte(b: seq<Byte>)
    ensures |b| == 2 ==> DeserializeNum16(b) == Integer(b[1])
    ensures |b| == 4 ==> DeserializeNum32(b) == Integer(b[3])
    ensures |b| == 8 ==> DeserializeNum64(b) == Integer(b[7])
  {
    OrZero(0);
    if |b| == 2 {
      OrZero(b[1]);
    } else if |b| == 4 {
      OrZero(b[3]);
    } else if |b| == 8 {
      OrZero(b[7]);
    }
  }

  /** A container's result: the value with an empty suffix. */
  function WithEmptySuffix(o: Option<Value>): Option<(Value, seq<Byte>)>
  {
    match o
    case None => None
    case Some(v) => Some((v, []))
  }

  /** `privFrom(bytes:)`. The tag ranges are tested first (fixstr, fixarray,
      fixmap, negative fixint, positive fixint), then the exact tags. The
      source tests the ranges with masks (`startingByte & 0xE0 == 0xA0`,
      `& 0xF0 == 0x90`, `& 0xE0 == 0xE0`) and reads the short lengths with
      `& 0x1F` and `& 0xF`; the model writes the ranges and offsets they
      select, which `DecoderFacts.MaskRanges` proves equal to the masks. */
  function Decode(bytes: seq<Byte>): (r: Option<(Value, seq<Byte>)>)
    ensures r.Some? ==> |r.value.1| < |bytes|
    decreases |bytes|, 1
  {
    if |bytes| == 0 then None
    else
      var startingByte := bytes[0];
      if 0xa0 <= startingByte <= 0xbf then
        DecodeFixStr(bytes)
      else if 0x90 <= startingByte <= 0x9f then
        WithEmptySuffix(DecodeArray(startingByte - 0x90, bytes[1..]))
      else if 0x80 <= startingByte <= 0x8f then
        WithEmptySuffix(DecodeMap(startingByte - 0x80, bytes[1..]))
      else if 0xe0 <= startingByte then
        Some((Integer(startingByte as int - 256), bytes[1..]))
      else if startingByte <= 127 then
        Some((Integer(startingByte), bytes[1..]))
      else
        DecodeTagged(bytes)
  }

  /** The fixstr case: `startingByte & 0x1F` bytes of text; a payload that is
      not UTF-8 gives `(null, [])`. */
  function DecodeFixStr(bytes: seq<Byte>): (r: Option<(Value, seq<Byte>)>)
    requires |bytes| > 0 && 0xa0 <= bytes[0] <= 0xbf
    ensures r.Some? ==> |r.value.1| < |bytes|
  {
    var len := bytes[0] - 0xa0;
    if |bytes| < len + 1 then None
    else if IsValid(bytes[1..len + 1]) then Some((Str(bytes[1..len + 1]), bytes[len + 1..]))
    else Some((Null, []))
  }

  /** The `switch` on the exact tag; `default` gives `(null, [])`. */
  function DecodeTagged(bytes: seq<Byte>): (r: Option<(Value, seq<Byte>)>)
    requires |bytes| > 0
    ensures r.Some? ==> |r.value.1| < |bytes|
    decreases |bytes|, 0
  {
    var startingByte := bytes[0];
    if startingByte == FalseTag then
        Some((Boolean(false), bytes[1..]))
      else if startingByte == TrueTag then
        Some((Boolean(true), bytes[1..]))
      else if startingByte == Uint8Tag || startingByte == Int8Tag then
        if |bytes| < 2 then None else Some((Integer(bytes[1]), bytes[2..]))
      else if startingByte == Uint16Tag || startingByte == Int16Tag then
        if |bytes| < 4 then None else Some((DeserializeNum16(bytes[1..3]), bytes[4..]))
      else if startingByte == Uint32Tag || startingByte == Int32Tag then
        if |bytes| < 5 then None else Some((DeserializeNum32(bytes[1..5]), bytes[5..]))
      else if startingByte == Uint64Tag || startingByte == Int64Tag then
        if |bytes| < 9 then None else Some((DeserializeNum64(bytes[1..9]), bytes[9..]))
      else if startingByte == Float32Tag then
        if |bytes| < 5 then None else Some((Float32(FromBigEndian4(bytes[1..5])), bytes[5..]))
      else if startingByte == Float64Tag then
        if |bytes| < 9 then None else Some((Float64(FromBigEndian8(bytes[1..9])), bytes[9..]))
      else if startingByte == Array16Tag then
        if |bytes| < 3 then None
        else match DeserializeNum16(bytes[1..3])
          case Integer(len) => WithEmptySuffix(DecodeArray(len, bytes[3..]))
          case _ => None
      else if startingByte == Array32Tag then
        if |bytes| < 5 then None
        else match DeserializeNum32(bytes[1..5])
          case Integer(len) => WithEmptySuffix(DecodeArray(len, bytes[5..]))
          case _ => None
      else if startingByte == Map16Tag then
        if |bytes| < 3 then None
        else match DeserializeNum16(bytes[1..3])
          case Integer(len) => WithEmptySuffix(DecodeMap(len, bytes[3..]))
          case _ => Some((Null, []))
      else if startingByte == Map32Tag then
        if |bytes| < 5 then None
        else match DeserializeNum32(bytes[1..5])
          case Integer(len) => WithEmptySuffix(DecodeMap(len, bytes[5..]))
          case _ => None
      else
        Some((Null, []))
  }

  /** The bit pattern a 4-byte big-endian field spells. */
  function FromBigEndian4(b: seq<Byte>): (n: Bits32)
    requires |b| == 4
    ensures BigEndian(n, 4) == b
  {
    assert Pow256(4) == 0x1_0000_0000;
    BigEndianOfFromBigEndian(b);
    FromBigEndian(b)
  }

  /** The bit pattern an 8-byte big-endian field spells. */
  function FromBigEndian8(b: seq<Byte>): (n: Bits64)
    requires |b| == 8
    ensures BigEndian(n, 8) == b
  {
    assert Pow256(8) == 0x1_0000_0000_0000_0000;
    BigEndianOfFromBigEndian(b);
    FromBigEndian(b)
  }

  /** The loop of the array cases: decode `n` more values, each from the
      suffix the previous one left, appending them to `acc`. */
  function DecodeItems(n: nat, acc: seq<Value>, bytes: seq<Byte>): (r: Option<(seq<Value>, seq<Byte>)>)
    ensures r.Some? ==> |r.value.0| == |acc| + n && |r.value.1| <= |bytes|
    decreases |bytes|, 2
  {
    if n == 0 then Some((acc, bytes))
    else match Decode(bytes)
      case None => None
      case Some((x, rest)) => DecodeItems(n - 1, acc + [x], rest)
  }

  /** An array case: its `len` elements, then `assert(currBytes == [])`. */
  function DecodeArray(len: nat, bytes: seq<Byte>): (r: Option<Value>)
    ensures r.Some? ==> r.value.Array? && |r.value.elems| == len
    decreases |bytes|, 3
  {
    match DecodeItems(len, [], bytes)
    case None => None
    case Some((arr, rest)) => if rest == [] then Some(Array(arr)) else None
  }

  /** One store of the `deserializeMap` loop: step `i` writes `x` as the key
      of `arr[i]` when `i` is even, or as the value of `arr[i - 1]` when `i`
      is odd. An index past the end traps. */
  function MapStore(i: nat, arr: seq<(Value, Value)>, x: Value): (r: Option<seq<(Value, Value)>>)
    ensures r.Some? ==> |r.value| == |arr|
  {
    if i % 2 == 0 then
      if i < |arr| then Some(arr[i := (x, arr[i].1)]) else None
    else
      if i - 1 < |arr| then Some(arr[i - 1 := (arr[i - 1].0, x)]) else None
  }

  /** The loop of `deserializeMap` from step `i` on: each step decodes one
      value from the suffix the previous step left and stores it. */
  function MapSteps(len: nat, i: nat, arr: seq<(Value, Value)>, bytes: seq<Byte>): (r: Option<(seq<(Value, Value)>, seq<Byte>)>)
    requires |arr| == len && i <= 2 * len
    ensures r.Some? ==> |r.value.0| == len && |r.value.1| <= |bytes|
    decreases |bytes|, 2
  {
    if i == 2 * len then Some((arr, bytes))
    else match Decode(bytes)
      case None => None
      case Some((x, rest)) =>
        match MapStore(i, arr, x)
        case None => None
        case Some(arr') =>
          MapSteps(len, i + 1, arr', rest)
  }

  /** The `len` null pairs `deserializeMap` starts from. */
  function NullPairs(len: nat): (arr: seq<(Value, Value)>)
    ensures |arr| == len
  {
    seq(len, _ => (Null, Null))
  }

  /** `deserializeMap(len:bytes:)`: `2 * len` steps, then
      `assert(currBytes == [])`. */
  function DecodeMap(len: nat, bytes: seq<Byte>): (r: Option<Value>)
    ensures r.Some? ==> r.value.Map? && |r.value.pairs| == len
    decreases |bytes|, 3
  {
    match MapSteps(len, 0, NullPairs(len), bytes)
    case None => None
    case Some((arr, rest)) => if rest == [] then Some(Map(arr)) else None
  }
}
