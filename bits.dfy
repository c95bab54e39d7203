/** Powers of two and the bitwise `&` of natural numbers, defined bit by
    bit, with the facts about masks the decoder's tag tests rely on. */
module Bits {
  import opened Bytes

  function Pow2(k: nat): (p: nat)
    ensures p >= 1
  {
    if k == 0 then 1 else 2 * Pow2(k - 1)
  }

  lemma Pow2Add(a: nat, b: nat)
    ensures Pow2(a) * Pow2(b) == Pow2(a + b)
    decreases a
  {
    if a > 0 {
      Pow2Add(a - 1, b);
      MulAssoc(2, Pow2(a - 1), Pow2(b));
    }
  }

  lemma MulAssoc(x: int, y: int, z: int)
    ensures (x * y) * z == x * (y * z)
  {
  }

  lemma Pow2Monotone(a: nat, b: nat)
    requires a <= b
    ensures Pow2(a) <= Pow2(b)
    decreases b - a
  {
    if a < b {
      Pow2Monotone(a + 1, b);
    }
  }

  /** `a & m`: bit `i` of the result is set when bit `i` is set in both. */
  function BitAnd(a: nat, m: nat): (r: nat)
    ensures r <= a
    decreases a
  {
    if a == 0 || m == 0 then 0
    else 2 * BitAnd(a / 2, m / 2) + (if a % 2 == 1 && m % 2 == 1 then 1 else 0)
  }

  lemma BitAndOdd(a: nat, m: nat)
    requires a > 0 && m % 2 == 1
    ensures BitAnd(a, m) == 2 * BitAnd(a / 2, m / 2) + a % 2
  {
  }

  lemma BitAndEven(a: nat, m: nat)
    requires m % 2 == 0
    ensures BitAnd(a, m) == 2 * BitAnd(a / 2, m / 2)
  {
  }

  /** `a | b`: bit `i` of the result is set when bit `i` is set in either. */
  function BitOr(a: nat, b: nat): nat
    decreases a
  {
    if a == 0 then b
    else if b == 0 then a
    else 2 * BitOr(a / 2, b / 2) + (if a % 2 == 1 || b % 2 == 1 then 1 else 0)
  }

  /** The or of two `k`-bit numbers has `k` bits. */
  lemma {:induction false} BitOrBelow(a: nat, b: nat, k: nat)
    requires a < Pow2(k) && b < Pow2(k)
    ensures BitOr(a, b) < Pow2(k)
    decreases k
  {
    if a != 0 && b != 0 {
      assert k > 0;
      var h := Pow2(k - 1);
      assert Pow2(k) == 2 * h;
      BitOrBelow(a / 2, b / 2, k - 1);
    }
  }

  /** The low-bit masks: `a & (2^k - 1)` is `a % 2^k`. */
  lemma LowMask1(a: nat)
    ensures BitAnd(a, 1) == a % 2
  {
    if a > 0 {
      BitAndOdd(a, 1);
    }
  }

  lemma LowMask3(a: nat)
    ensures BitAnd(a, 3) == a % 4
  {
    if a > 0 {
      BitAndOdd(a, 3);
      LowMask1(a / 2);
      ModHalving(a, 2);
    }
  }

  lemma LowMask7(a: nat)
    ensures BitAnd(a, 7) == a % 8
  {
    if a > 0 {
      BitAndOdd(a, 7);
      LowMask3(a / 2);
      ModHalving(a, 4);
    }
  }

  lemma LowMask15(a: nat)
    ensures BitAnd(a, 0x0F) == a % 16
  {
    if a > 0 {
      BitAndOdd(a, 0x0F);
      LowMask7(a / 2);
      ModHalving(a, 8);
    }
  }

  lemma LowMask31(a: nat)
    ensures BitAnd(a, 0x1F) == a % 32
  {
    if a > 0 {
      BitAndOdd(a, 0x1F);
      LowMask15(a / 2);
      ModHalving(a, 16);
    }
  }

  /** The low bits of `a` are its lowest bit below the low bits of `a / 2`. */
  lemma ModHalving(a: nat, k: nat)
    requires k > 0
    ensures a % (2 * k) == 2 * ((a / 2) % k) + a % 2
  {
    var h := a / 2;
    var q, s := h / k, h % k;
    assert a == 2 * h + a % 2;
    assert h == k * q + s;
    assert a == (2 * k) * q + (2 * s + a % 2);
    DivUnique(a, 2 * k, q, 2 * s + a % 2);
  }

  /** The high-bit masks of a byte: `a & 0xF0` and `a & 0xE0` clear the low
      four and five bits. */
  lemma HighMaskF0(a: nat)
    requires a < 256
    ensures BitAnd(a, 0xF0) == a - a % 16
  {
    var y := a / 16;
    ShiftOut4(a, 0xF);
    LowMask15(y);
    assert y % 16 == y;
    assert a - a % 16 == 16 * y;
  }

  lemma HighMaskE0(a: nat)
    requires a < 256
    ensures BitAnd(a, 0xE0) == a - a % 32
  {
    var y := a / 16;
    ShiftOut4(a, 0xE);
    Mask0E(y);
    DivDiv(a, 16, 2);
    assert y - y % 2 == 2 * (a / 32);
    assert a - a % 32 == 32 * (a / 32);
  }

  /** Masking with a multiple of two is masking `a / 2` with half of it,
      shifted back. */
  lemma ShiftOut1(a: nat, t: nat)
    ensures BitAnd(a, 2 * t) == 2 * BitAnd(a / 2, t)
  {
    BitAndEven(a, 2 * t);
    assert (2 * t) / 2 == t;
  }

  /** Masking with `16 * t`, whose low four bits are clear, is masking
      `a / 16` with `t`, shifted back. */
  lemma ShiftOut4(a: nat, t: nat)
    ensures BitAnd(a, 16 * t) == 16 * BitAnd(a / 16, t)
  {
    var a1 := a / 2;
    var a2 := a1 / 2;
    var a3 := a2 / 2;
    var t2, t4, t8 := 2 * t, 4 * t, 8 * t;
    assert 16 * t == 2 * t8 && t8 == 2 * t4 && t4 == 2 * t2;
    ShiftOut1(a, t8);
    ShiftOut1(a1, t4);
    ShiftOut1(a2, t2);
    ShiftOut1(a3, t);
    DivDiv(a, 2, 2);
    DivDiv(a, 4, 2);
    DivDiv(a, 8, 2);
    assert a3 / 2 == a / 16;
  }

  lemma Mask0E(y: nat)
    requires y < 16
    ensures BitAnd(y, 0x0E) == y - y % 2
  {
    BitAndEven(y, 0x0E);
    LowMask7(y / 2);
  }
}
