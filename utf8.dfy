/** Well-formed UTF-8 (Table 3-7 of the Unicode Standard, section 3.9): the
    test `String(bytes:encoding: .utf8)` applies before it accepts a payload. */
module Utf8 {
  import opened Bytes

  /** A continuation byte, `10xxxxxx`. */
  predicate IsContinuation(b: Byte)
  {
    0x80 <= b <= 0xBF
  }

  /** The length of the well-formed code-unit sequence that starts `s`, or 0
      when `s` does not start with one. */
  function SequenceLength(s: seq<Byte>): (n: nat)
    ensures n <= |s| && n <= 4
    ensures n == 1 <==> |s| > 0 && s[0] < 0x80
  {
    if |s| == 0 then 0
    else if s[0] <= 0x7F then 1
    else if 0xC2 <= s[0] <= 0xDF then
      if |s| >= 2 && IsContinuation(s[1]) then 2 else 0
    else if s[0] == 0xE0 then
      if |s| >= 3 && 0xA0 <= s[1] <= 0xBF && IsContinuation(s[2]) then 3 else 0
    else if 0xE1 <= s[0] <= 0xEC || 0xEE <= s[0] <= 0xEF then
      if |s| >= 3 && IsContinuation(s[1]) && IsContinuation(s[2]) then 3 else 0
    else if s[0] == 0xED then
      if |s| >= 3 && 0x80 <= s[1] <= 0x9F && IsContinuation(s[2]) then 3 else 0
    else if s[0] == 0xF0 then
      if |s| >= 4 && 0x90 <= s[1] <= 0xBF && IsContinuation(s[2]) && IsContinuation(s[3]) then 4 else 0
    else if 0xF1 <= s[0] <= 0xF3 then
      if |s| >= 4 && IsContinuation(s[1]) && IsContinuation(s[2]) && IsContinuation(s[3]) then 4 else 0
    else if s[0] == 0xF4 then
      if |s| >= 4 && 0x80 <= s[1] <= 0x8F && IsContinuation(s[2]) && IsContinuation(s[3]) then 4 else 0
    else 0
  }

  /** `s` is a concatenation of well-formed code-unit sequences. */
  predicate IsValid(s: seq<Byte>)
    decreases |s|
  {
    s == [] || (SequenceLength(s) > 0 && IsValid(s[SequenceLength(s)..]))
  }

  /** Seven-bit text: every byte below 0x80. */
  predicate IsAscii(s: seq<Byte>)
  {
    forall i :: 0 <= i < |s| ==> s[i] < 0x80
  }

  /** ASCII text is well-formed UTF-8, one byte per code point. */
  lemma {:induction false} AsciiIsValid(s: seq<Byte>)
    requires IsAscii(s)
    ensures IsValid(s)
    decreases |s|
  {
    if s != [] {
      assert SequenceLength(s) == 1;
      assert IsAscii(s[1..]) by {
        forall i | 0 <= i < |s[1..]| ensures s[1..][i] < 0x80 {
          assert s[1..][i] == s[i + 1];
        }
      }
      AsciiIsValid(s[1..]);
    }
  }

  /** Well-formed UTF-8 is closed under concatenation. */
  lemma {:induction false} ValidConcat(a: seq<Byte>, b: seq<Byte>)
    requires IsValid(a) && IsValid(b)
    ensures IsValid(a + b)
    decreases |a|
  {
    if a == [] {
      assert a + b == b;
    } else {
      var n := SequenceLength(a);
      assert (a + b)[..n] == a[..n];
      SequenceLengthPrefix(a, b);
      assert (a + b)[n..] == a[n..] + b;
      ValidConcat(a[n..], b);
    }
  }

  /** Appending bytes does not change the length of a complete leading
      sequence. */
  lemma SequenceLengthPrefix(a: seq<Byte>, b: seq<Byte>)
    requires SequenceLength(a) > 0
    ensures SequenceLength(a + b) == SequenceLength(a)
  {
    var n := SequenceLength(a);
    assert forall i :: 0 <= i < n ==> (a + b)[i] == a[i];
  }
}
