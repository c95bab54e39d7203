/** Bytes and fixed-width big-endian integers, the wire representation every
    multi-byte field of the format uses. */
module Bytes {

  /** One octet, Swift's `UInt8`. */
  type Byte = x: int | 0 <= x < 256

  /** 256 to the power `w`: the number of distinct `w`-byte patterns. */
  function Pow256(w: nat): (p: nat)
    ensures p >= 1
  {
    if w == 0 then 1 else 256 * Pow256(w - 1)
  }

  /** The low `w` bytes of `x`, most significant first. Division by 256 is
      Euclidean (it floors), so for a negative `x` these are the bytes of its
      two's-complement form, as the host's integer memory holds them. */
  function BigEndian(x: int, w: nat): (s: seq<Byte>)
    ensures |s| == w
    decreases w
  {
    if w == 0 then [] else BigEndian(x / 256, w - 1) + [x % 256]
  }

  /** The unsigned integer a big-endian byte sequence spells. */
  function FromBigEndian(s: seq<Byte>): (n: nat)
    ensures n < Pow256(|s|)
  {
    if s == [] then 0 else FromBigEndian(s[..|s| - 1]) * 256 + s[|s| - 1]
  }

  /** Reading back the `w` bytes written for an `x` that fits gives `x`. */
  lemma {:induction false} FromBigEndianOfBigEndian(x: int, w: nat)
    requires 0 <= x < Pow256(w)
    ensures FromBigEndian(BigEndian(x, w)) == x
    decreases w
  {
    if w > 0 {
      var s := BigEndian(x, w);
      assert s[..|s| - 1] == BigEndian(x / 256, w - 1);
      FromBigEndianOfBigEndian(x / 256, w - 1);
    }
  }

  /** Writing back the integer a byte sequence spells gives the same bytes. */
  lemma {:induction false} BigEndianOfFromBigEndian(s: seq<Byte>)
    ensures BigEndian(FromBigEndian(s), |s|) == s
    decreases |s|
  {
    if s != [] {
      var init, last := s[..|s| - 1], s[|s| - 1];
      var n := FromBigEndian(s);
      DivUnique(n, 256, FromBigEndian(init), last);
      BigEndianOfFromBigEndian(init);
      assert BigEndian(n, |s|) == BigEndian(FromBigEndian(init), |init|) + [last];
      assert s == init + [last];
    }
  }

  /** Adding one full period (256^w) does not change the low `w` bytes: the
      bytes written for a negative `x` are those of `x + 256^w`. */
  lemma {:induction false} BigEndianWrap(x: int, w: nat)
    ensures BigEndian(x + Pow256(w), w) == BigEndian(x, w)
    decreases w
  {
    if w > 0 {
      assert (x + Pow256(w)) / 256 == x / 256 + Pow256(w - 1);
      assert (x + Pow256(w)) % 256 == x % 256;
      BigEndianWrap(x / 256, w - 1);
    }
  }

  /** Reading back the bytes written for a negative `x` of at least
      `-256^w` gives its two's-complement reading `x + 256^w`. */
  lemma FromBigEndianOfNegative(x: int, w: nat)
    requires -(Pow256(w) as int) <= x < 0
    ensures FromBigEndian(BigEndian(x, w)) == x + Pow256(w)
  {
    BigEndianWrap(x, w);
    FromBigEndianOfBigEndian(x + Pow256(w), w);
  }

  /** Euclidean division is unique: a quotient and remainder that fit are
      the ones `/` and `%` give. */
  lemma DivUnique(x: int, d: int, q: int, r: int)
    requires d > 0 && 0 <= r < d && x == d * q + r
    ensures x / d == q && x % d == r
  {
    var q0, r0 := x / d, x % d;
    assert d * (q - q0) == r0 - r;
    MulAwayFromZero(d, q - q0);
  }

  /** A nonzero multiple of `d` is at least `d` away from zero. */
  lemma MulAwayFromZero(d: int, k: int)
    requires d > 0
    ensures k >= 1 ==> d * k >= d
    ensures k <= -1 ==> d * k <= -d
  {
  }

  /** Dividing by `a` and then by `b` is dividing by `a * b`. */
  lemma DivDiv(x: int, a: int, b: int)
    requires a > 0 && b > 0
    ensures (x / a) / b == x / (a * b)
  {
    var q, r := x / a, x % a;
    var q2, r2 := q / b, q % b;
    var ab := a * b;
    assert x == a * q + r && q == b * q2 + r2;
    MulSplit(a, b, q2, r2);
    MulBelow(a, r2, b);
    assert a * q == ab * q2 + a * r2;
    assert x == ab * q2 + (a * r2 + r);
    DivUnique(x, ab, q2, a * r2 + r);
  }

  /** `a * (b * q + r)` spread out. */
  lemma MulSplit(a: int, b: int, q: int, r: int)
    ensures a * (b * q + r) == (a * b) * q + a * r
  {
  }

  /** `a * r` is at most `a * (b - 1)` whenever `r < b`. */
  lemma MulBelow(a: int, r: int, b: int)
    requires a > 0 && r < b
    ensures a * r <= a * b - a
  {
    var d := b - 1 - r;
    assert a * d >= 0;
    assert a * d == a * b - a - a * r;
  }

  /** The last `k` of the `w` bytes of `x` are the `k` bytes of `x`; the
      first `w - k` are those of `x / 256^k`. */
  lemma {:induction false} BigEndianSplit(x: int, w: nat, k: nat)
    requires k <= w
    ensures BigEndian(x, w) == BigEndian(x / Pow256(k), w - k) + BigEndian(x, k)
    decreases k
  {
    if k > 0 {
      BigEndianSplit(x / 256, w - 1, k - 1);
      DivDiv(x, 256, Pow256(k - 1));
    }
  }

  /** `w` zero bytes. */
  function Zeros(w: nat): (s: seq<Byte>)
    ensures |s| == w
  {
    seq(w, _ => 0)
  }

  /** The bytes of a value that fits in `k` bytes, widened to `w`, start with
      zeros. */
  lemma BigEndianOfSmall(x: int, w: nat, k: nat)
    requires k <= w && 0 <= x < Pow256(k)
    ensures BigEndian(x, w) == Zeros(w - k) + BigEndian(x, k)
  {
    BigEndianSplit(x, w, k);
    DivUnique(x, Pow256(k), 0, x);
    BigEndianOfZero(w - k);
  }

  lemma {:induction false} BigEndianOfZero(w: nat)
    ensures BigEndian(0, w) == Zeros(w)
    decreases w
  {
    if w > 0 {
      BigEndianOfZero(w - 1);
    }
  }

  /** The one- and two-byte forms spelled out. */
  lemma BigEndianShort(x: int)
    ensures BigEndian(x, 1) == [x % 256]
    ensures BigEndian(x, 2) == [(x / 256) % 256, x % 256]
  {
    assert BigEndian(x / 256, 1) == [(x / 256) % 256];
  }

  /** The values of 256^w the format uses. */
  lemma Pow256Values()
    ensures Pow256(1) == 0x100 && Pow256(2) == 0x1_0000
    ensures Pow256(4) == 0x1_0000_0000 && Pow256(8) == 0x1_0000_0000_0000_0000
  {
  }
}
