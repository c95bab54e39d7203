/** The decoder of Sources/Mpack/Mpack.swift with its defects repaired:
    every read is bounds-checked and reports an error instead of trapping;
    multi-byte fields are read big-endian in full and signed tags are
    sign-extended; nil and the str8/16/32 forms are decoded; every value,
    containers included, hands back the bytes after it, so children are
    threaded through the input and a map reads key, value, key, value into
    consecutive pairs. */
module CorrectedDecoder {
  import opened Bytes
  import opened Utf8
  import opened Values

  datatype Error =
    | UnexpectedEnd
    | UnsupportedTag(tag: Byte)
    | InvalidUtf8
    | IntegerOverflow

  datatype Result<+T> = Ok(value: T) | Err(error: Error)

  /** The byte width of the `k`-th of the 1-, 2-, 4- and 8-byte forms. */
  function Width(k: nat): (w: nat)
    requires k < 4
    ensures w == 1 || w == 2 || w == 4 || w == 8
  {
    [1, 2, 4, 8][k]
  }

  /** A `w`-byte big-endian field and what follows it. */
  function Field(w: nat, bytes: seq<Byte>): (r: Result<(nat, seq<Byte>)>)
    ensures r.Ok? <==> |bytes| >= w
    ensures r.Ok? ==> r.value.0 < Pow256(w) && r.value.1 == bytes[w..]
  {
    if |bytes| < w then Err(UnexpectedEnd)
    else Ok((FromBigEndian(bytes[..w]), bytes[w..]))
  }

  /** The two's-complement reading of a `w`-byte field. */
  function Signed(n: nat, w: nat): (x: Int64)
    requires w == 1 || w == 2 || w == 4 || w == 8
    requires n < Pow256(w)
    ensures x == n || x == n - Pow256(w)
    ensures -(Pow256(w) / 2) <= x < Pow256(w) / 2
  {
    Pow256Values();
    if n >= Pow256(w) / 2 then n - Pow256(w) else n
  }

  function Decode(bytes: seq<Byte>): (r: Result<(Value, seq<Byte>)>)
    ensures r.Ok? ==> |r.value.1| < |bytes|
    decreases |bytes|, 1
  {
    if bytes == [] then Err(UnexpectedEnd)
    else
      var b := bytes[0];
      var body := bytes[1..];
      if b <= 0x7f then Ok((Integer(b), body))
      else if 0xe0 <= b then Ok((Integer(b as int - 256), body))
      else if b <= 0x8f then DecodeMap(b - 0x80, body)
      else if b <= 0x9f then DecodeArray(b - 0x90, body)
      else if b <= 0xbf then DecodeStr(b - 0xa0, body)
      else DecodeTagged(b, body)
  }

  /** The exact tags, `0xc0` to `0xdf`; `body` is what follows the tag. */
  function DecodeTagged(b: Byte, body: seq<Byte>): (r: Result<(Value, seq<Byte>)>)
    requires 0xc0 <= b <= 0xdf
    ensures r.Ok? ==> |r.value.1| <= |body|
    decreases |body|, 0
  {
    if b == NilTag then Ok((Null, body))
    else if b == FalseTag then Ok((Boolean(false), body))
    else if b == TrueTag then Ok((Boolean(true), body))
    else if b == Float32Tag then
      match Field(4, body)
      case Err(e) => Err(e)
      case Ok((n, rest)) => Pow256Values(); Ok((Float32(n), rest))
    else if b == Float64Tag then
      match Field(8, body)
      case Err(e) => Err(e)
      case Ok((n, rest)) => Pow256Values(); Ok((Float64(n), rest))
    else if Uint8Tag <= b <= Uint64Tag then DecodeUint(Width(b - Uint8Tag), body)
    else if Int8Tag <= b <= Int64Tag then DecodeInt(Width(b - Int8Tag), body)
    else if Str8Tag <= b <= Str32Tag then
      match Field(Width(b - Str8Tag), body)
      case Err(e) => Err(e)
      case Ok((n, rest)) => DecodeStr(n, rest)
    else if b == Array16Tag || b == Array32Tag then
      match Field(if b == Array16Tag then 2 else 4, body)
      case Err(e) => Err(e)
      case Ok((n, rest)) => DecodeArray(n, rest)
    else if b == Map16Tag || b == Map32Tag then
      match Field(if b == Map16Tag then 2 else 4, body)
      case Err(e) => Err(e)
      case Ok((n, rest)) => DecodeMap(n, rest)
    else Err(UnsupportedTag(b))
  }

  /** An unsigned field; a uint64 above `Int.max` does not fit the value
      model. */
  function DecodeUint(w: nat, body: seq<Byte>): (r: Result<(Value, seq<Byte>)>)
    requires w == 1 || w == 2 || w == 4 || w == 8
    ensures r.Ok? ==> |r.value.1| <= |body|
  {
    match Field(w, body)
    case Err(e) => Err(e)
    case Ok((n, rest)) =>
      if n >= 0x8000_0000_0000_0000 then Err(IntegerOverflow) else Ok((Integer(n), rest))
  }

  /** A signed field, sign-extended. */
  function DecodeInt(w: nat, body: seq<Byte>): (r: Result<(Value, seq<Byte>)>)
    requires w == 1 || w == 2 || w == 4 || w == 8
    ensures r.Ok? ==> |r.value.1| <= |body|
  {
    match Field(w, body)
    case Err(e) => Err(e)
    case Ok((n, rest)) => Ok((Integer(Signed(n, w)), rest))
  }

  /** `n` bytes of UTF-8 text. */
  function DecodeStr(n: nat, bytes: seq<Byte>): (r: Result<(Value, seq<Byte>)>)
    ensures r.Ok? ==> |r.value.1| <= |bytes|
  {
    if |bytes| < n then Err(UnexpectedEnd)
    else if !IsValid(bytes[..n]) then Err(InvalidUtf8)
    else Ok((Str(bytes[..n]), bytes[n..]))
  }

  /** `n` values, each read from what the previous one left. */
  function DecodeItems(n: nat, bytes: seq<Byte>): (r: Result<(seq<Value>, seq<Byte>)>)
    ensures r.Ok? ==> |r.value.0| == n && |r.value.1| <= |bytes|
    decreases |bytes|, 2
  {
    if n == 0 then Ok(([], bytes))
    else match Decode(bytes)
      case Err(e) => Err(e)
      case Ok((v, rest)) =>
        match DecodeItems(n - 1, rest)
        case Err(e) => Err(e)
        case Ok((vs, rest')) => Ok(([v] + vs, rest'))
  }

  /** `n` pairs: a key, then its value, then the next pair. */
  function DecodePairs(n: nat, bytes: seq<Byte>): (r: Result<(seq<(Value, Value)>, seq<Byte>)>)
    ensures r.Ok? ==> |r.value.0| == n && |r.value.1| <= |bytes|
    decreases |bytes|, 2
  {
    if n == 0 then Ok(([], bytes))
    else match Decode(bytes)
      case Err(e) => Err(e)
      case Ok((k, rest)) =>
        match Decode(rest)
        case Err(e) => Err(e)
        case Ok((v, rest')) =>
          match DecodePairs(n - 1, rest')
          case Err(e) => Err(e)
          case Ok((ps, rest'')) => Ok(([(k, v)] + ps, rest''))
  }

  function DecodeArray(n: nat, bytes: seq<Byte>): (r: Result<(Value, seq<Byte>)>)
    ensures r.Ok? ==> |r.value.1| <= |bytes|
    decreases |bytes|, 3
  {
    match DecodeItems(n, bytes)
    case Err(e) => Err(e)
    case Ok((vs, rest)) => Ok((Array(vs), rest))
  }

  function DecodeMap(n: nat, bytes: seq<Byte>): (r: Result<(Value, seq<Byte>)>)
    ensures r.Ok? ==> |r.value.1| <= |bytes|
    decreases |bytes|, 3
  {
    match DecodePairs(n, bytes)
    case Err(e) => Err(e)
    case Ok((ps, rest)) => Ok((Map(ps), rest))
  }
}
