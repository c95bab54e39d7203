/** The decoder of Sources/Mpack/Mpack.swift as the code runs it: a recursive
    method whose container cases fill an array in a loop, overwriting
    `currBytes` with the suffix each child leaves. Each method is proved to
    compute the function of module `Decoder` that states it. */
module DecoderLoops {
  import opened Bytes
  import opened Values
  import opened Decoder

  /** `privFrom(bytes:)`. The cases without a loop are the expressions of
      `Decoder.Decode`; the container cases run `ReadArray` and
      `DeserializeMap`. */
  method PrivFrom(bytes: seq<Byte>) returns (r: Option<(Value, seq<Byte>)>)
    ensures r == Decode(bytes)
    decreases |bytes|, 1
  {
    if |bytes| == 0 {
      return None;
    }
    var startingByte := bytes[0];
    if 0xa0 <= startingByte <= 0xbf {
      r := DecodeFixStr(bytes);
    } else if 0x90 <= startingByte <= 0x9f {
      var a := ReadArray(startingByte - 0x90, bytes[1..]);
      r := WithEmptySuffix(a);
    } else if 0x80 <= startingByte <= 0x8f {
      var m := DeserializeMap(startingByte - 0x80, bytes[1..]);
      r := WithEmptySuffix(m);
    } else if 0xe0 <= startingByte || startingByte <= 127 {
      r := Decode(bytes);
    } else if startingByte == Array16Tag || startingByte == Map16Tag {
      if |bytes| < 3 {
        return None;
      }
      DeserializeKeepsLastByte(bytes[1..3]);
      var len := DeserializeNum16(bytes[1..3]);
      if startingByte == Array16Tag {
        var a := ReadArray(len.i, bytes[3..]);
        r := WithEmptySuffix(a);
      } else {
        var m := DeserializeMap(len.i, bytes[3..]);
        r := WithEmptySuffix(m);
      }
    } else if startingByte == Array32Tag || startingByte == Map32Tag {
      if |bytes| < 5 {
        return None;
      }
      DeserializeKeepsLastByte(bytes[1..5]);
      var len := DeserializeNum32(bytes[1..5]);
      if startingByte == Array32Tag {
        var a := ReadArray(len.i, bytes[5..]);
        r := WithEmptySuffix(a);
      } else {
        var m := DeserializeMap(len.i, bytes[5..]);
        r := WithEmptySuffix(m);
      }
    } else {
      r := DecodeTagged(bytes);
    }
  }

  /** The loop of the fixarray, array16 and array32 cases: `len` children
      stored in `arr` in wire order, each decoded from the suffix the previous
      one left; then `assert(currBytes == [])`. */
  method ReadArray(len: nat, bytes: seq<Byte>) returns (r: Option<Value>)
    ensures r == DecodeArray(len, bytes)
    decreases |bytes|, 3
  {
    var arr := new Value[len](_ => Null);
    var currBytes := bytes;
    ghost var target := DecodeItems(len, [], bytes);
    ghost var items: seq<Value> := [];
    for i := 0 to len
      invariant |currBytes| <= |bytes|
      invariant items == arr[..i]
      invariant target == DecodeItems(len - i, items, currBytes)
    {
      var x := PrivFrom(currBytes);
      if x.None? {
        return None;
      }
      var item, next := x.value.0, x.value.1;
      ItemsStep(len - i, len - (i + 1), items, currBytes, item, next);
      arr[i] := item;
      items := items + [item];
      currBytes := next;
    }
    assert arr[..] == items;
    ArrayResult(len, bytes, items, currBytes);
    if currBytes != [] {
      return None;
    }
    return Some(Array(arr[..]));
  }

  /** One pass of the array loop: the child decoded from the current suffix
      joins the elements, and its own suffix becomes current. */
  lemma ItemsStep(n: nat, m: nat, done: seq<Value>, bytes: seq<Byte>, item: Value, next: seq<Byte>)
    requires n == m + 1 && Decode(bytes) == Some((item, next))
    ensures DecodeItems(n, done, bytes) == DecodeItems(m, done + [item], next)
  {
  }

  /** After the loop: the array when no bytes are left over, a trap
      otherwise. */
  lemma ArrayResult(len: nat, bytes: seq<Byte>, items: seq<Value>, rest: seq<Byte>)
    requires DecodeItems(len, [], bytes) == DecodeItems(0, items, rest)
    ensures DecodeArray(len, bytes) == if rest == [] then Some(Array(items)) else None
  {
  }

  /** `deserializeMap(len:bytes:)`: `2 * len` children; step `i` stores its
      child as the key of `arr[i]` when `i` is even and as the value of
      `arr[i - 1]` when `i` is odd, trapping when that index is past the end;
      then `assert(currBytes == [])`. */
  method DeserializeMap(len: nat, bytes: seq<Byte>) returns (r: Option<Value>)
    ensures r == DecodeMap(len, bytes)
    decreases |bytes|, 3
  {
    var arr := new (Value, Value)[len](_ => (Null, Null));
    var currBytes := bytes;
    assert arr[..] == NullPairs(len);
    for i := 0 to len * 2
      invariant |currBytes| <= |bytes|
      invariant MapSteps(len, 0, NullPairs(len), bytes) == MapSteps(len, i, arr[..], currBytes)
    {
      var x := PrivFrom(currBytes);
      if x.None? {
        return None;
      }
      ghost var before := arr[..];
      if i % 2 == 0 {
        if i >= len {
          return None;
        }
        arr[i] := (x.value.0, arr[i].1);
      } else {
        if i - 1 >= len {
          return None;
        }
        arr[i - 1] := (arr[i - 1].0, x.value.0);
      }
      assert MapStore(i, before, x.value.0) == Some(arr[..]);
      currBytes := x.value.1;
    }
    if currBytes != [] {
      return None;
    }
    return Some(Map(arr[..]));
  }

  /** `from(bytes:)`: the decoded value, its suffix dropped. */
  method From(bytes: seq<Byte>) returns (r: Option<Value>)
    ensures r.Some? <==> Decode(bytes).Some?
    ensures r.Some? ==> r.value == Decode(bytes).value.0
  {
    var x := PrivFrom(bytes);
    if x.None? {
      return None;
    }
    return Some(x.value.0);
  }
}
