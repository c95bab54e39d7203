/** `Double(x)` for a `Float x`: the exact IEEE 754 conversion from binary32
    to binary64, on bit patterns. The encoder applies it to every `float32`
    value before it writes the 8-byte `0xcb` form. */
module Floats {
  import opened Values
  import opened Bits

  /** The position of the highest set bit of `m`. */
  function HighBit(m: nat): (k: nat)
    requires m > 0
    ensures Pow2(k) <= m < Pow2(k + 1)
  {
    if m == 1 then 0 else 1 + HighBit(m / 2)
  }

  /** The three fields of a binary32 pattern. */
  function Sign32(f: Bits32): nat { f / 0x8000_0000 }
  function Exponent32(f: Bits32): nat { (f / 0x80_0000) % 0x100 }
  function Fraction32(f: Bits32): nat { f % 0x80_0000 }

  /** The three fields of a binary64 pattern. */
  function Sign64(d: Bits64): nat { d / 0x8000_0000_0000_0000 }
  function Exponent64(d: Bits64): nat { (d / 0x10_0000_0000_0000) % 0x800 }
  function Fraction64(d: Bits64): nat { d % 0x10_0000_0000_0000 }

  /** A binary64 pattern from its fields. */
  function Pack64(sign: nat, e: nat, frac: nat): (d: Bits64)
    requires sign < 2 && e < 0x800 && frac < 0x10_0000_0000_0000
  {
    sign * 0x8000_0000_0000_0000 + e * 0x10_0000_0000_0000 + frac
  }

  /** Packing and reading the fields back are inverse. */
  lemma Pack64Fields(sign: nat, e: nat, frac: nat)
    requires sign < 2 && e < 0x800 && frac < 0x10_0000_0000_0000
    ensures var d := Pack64(sign, e, frac);
            Sign64(d) == sign && Exponent64(d) == e && Fraction64(d) == frac
  {
    var d := Pack64(sign, e, frac);
    var hi := sign * 0x800 + e;
    assert d == hi * 0x10_0000_0000_0000 + frac;
    assert d / 0x10_0000_0000_0000 == hi;
    assert d % 0x10_0000_0000_0000 == frac;
    assert hi % 0x800 == e;
    assert d / 0x8000_0000_0000_0000 == hi / 0x800;
  }

  /** The widened pattern. A normal number keeps its sign and value with the
      exponent rebiased and the fraction shifted left by 29 bits; a subnormal
      becomes a normal binary64; zeros and infinities map to themselves; a NaN
      keeps its payload and comes out quiet, as the hardware conversion makes
      it. */
  function WidenFloat32(f: Bits32): Bits64
  {
    var e := Exponent32(f);
    var m := Fraction32(f);
    if e == 0xFF then
      Pack64(Sign32(f), 0x7FF, if m == 0 then 0 else if m >= 0x40_0000 then m * 0x2000_0000 else (m + 0x40_0000) * 0x2000_0000)
    else if e == 0 && m == 0 then
      Pack64(Sign32(f), 0, 0)
    else if e == 0 then
      var (e64, m64) := Normalize(m);
      Pack64(Sign32(f), e64, m64)
    else
      Pack64(Sign32(f), e + 896, m * 0x2000_0000)
  }

  /** The binary64 exponent field and fraction of the subnormal binary32
      with fraction `m`: its highest set bit becomes the implicit leading 1. */
  function Normalize(m: nat): (ef: (nat, nat))
    requires 0 < m < 0x80_0000
    ensures 0 < ef.0 < 0x7FF && ef.1 < 0x10_0000_0000_0000
  {
    var k := HighBit(m);
    SubnormalFraction(m, k);
    Pow2Constants();
    (k + 874, (m - Pow2(k)) * Pow2(52 - k))
  }

  /** The fraction of a subnormal binary32, with its leading bit dropped,
      fits the 52-bit binary64 fraction field. */
  lemma SubnormalFraction(m: nat, k: nat)
    requires 0 < m < 0x80_0000 && k == HighBit(m)
    ensures k <= 22
    ensures Pow2(k) <= m
    ensures 0 <= (m - Pow2(k)) * Pow2(52 - k) < Pow2(52)
  {
    var q := Pow2(k);
    assert Pow2(k + 1) == 2 * q;
    Pow2Constants();
    if k > 22 {
      Pow2Monotone(23, k);
      assert false;
    }
    var p := Pow2(52 - k);
    Pow2Add(k, 52 - k);
    LessMul(m - q, q, p);
  }

  lemma LessMul(x: nat, y: nat, z: nat)
    requires x < y && z > 0
    ensures 0 <= x * z < y * z
  {
  }

  /** `n * 2^x` and `n2 * 2^x2` are the same number. */
  predicate SameNumber(n: nat, x: int, n2: nat, x2: int)
  {
    if x >= x2 then n * Pow2(x - x2) == n2 else n2 * Pow2(x2 - x) == n
  }

  /** A finite binary32 pattern denotes `(-1)^sign * n * 2^x` for the pair
      `(n, x)` returned here. */
  function Float32Magnitude(f: Bits32): (nx: (nat, int))
    requires Exponent32(f) != 0xFF
  {
    if Exponent32(f) == 0 then (Fraction32(f), -149)
    else (0x80_0000 + Fraction32(f), Exponent32(f) - 150)
  }

  /** A finite binary64 pattern denotes `(-1)^sign * n * 2^x`. */
  function Float64Magnitude(d: Bits64): (nx: (nat, int))
    requires Exponent64(d) != 0x7FF
  {
    if Exponent64(d) == 0 then (Fraction64(d), -1074)
    else (0x10_0000_0000_0000 + Fraction64(d), Exponent64(d) - 1075)
  }

  /** Widening is exact: a finite `Float` and the `Double` it becomes have the
      same sign and denote the same number. */
  lemma WidenPreservesValue(f: Bits32)
    requires Exponent32(f) != 0xFF
    ensures Exponent64(WidenFloat32(f)) != 0x7FF
    ensures Sign64(WidenFloat32(f)) == Sign32(f)
    ensures SameNumber(Float64Magnitude(WidenFloat32(f)).0, Float64Magnitude(WidenFloat32(f)).1,
                       Float32Magnitude(f).0, Float32Magnitude(f).1)
  {
    var e := Exponent32(f);
    var m := Fraction32(f);
    if e == 0 && m == 0 {
      Pack64Fields(Sign32(f), 0, 0);
    } else if e == 0 {
      WidenSubnormal(f);
    } else {
      WidenNormal(f);
    }
  }

  lemma WidenSubnormal(f: Bits32)
    requires Exponent32(f) == 0 && Fraction32(f) != 0
    ensures Exponent64(WidenFloat32(f)) != 0x7FF
    ensures Sign64(WidenFloat32(f)) == Sign32(f)
    ensures SameNumber(Float64Magnitude(WidenFloat32(f)).0, Float64Magnitude(WidenFloat32(f)).1,
                       Float32Magnitude(f).0, Float32Magnitude(f).1)
  {
    var m := Fraction32(f);
    var ef := Normalize(m);
    WidenSubnormalFields(f);
    NormalizeExact(m);
    var d := WidenFloat32(f);
    var n64, x64 := Float64Magnitude(d).0, Float64Magnitude(d).1;
    assert n64 == 0x10_0000_0000_0000 + ef.1 && x64 == ef.0 as int - 1075;
    var n32, x32 := Float32Magnitude(f).0, Float32Magnitude(f).1;
    assert n32 == m && x32 == -149;
    assert SameNumber(n64, x64, n32, x32);
  }

  /** The fields of a widened subnormal are those `Normalize` computes. */
  lemma WidenSubnormalFields(f: Bits32)
    requires Exponent32(f) == 0 && Fraction32(f) != 0
    ensures var d, ef := WidenFloat32(f), Normalize(Fraction32(f));
            Sign64(d) == Sign32(f) && Exponent64(d) == ef.0 && Fraction64(d) == ef.1
  {
    var ef := Normalize(Fraction32(f));
    assert WidenFloat32(f) == Pack64(Sign32(f), ef.0, ef.1);
    Pack64Fields(Sign32(f), ef.0, ef.1);
  }

  lemma WidenNormal(f: Bits32)
    requires 0 < Exponent32(f) < 0xFF
    ensures Exponent64(WidenFloat32(f)) != 0x7FF
    ensures Sign64(WidenFloat32(f)) == Sign32(f)
    ensures SameNumber(Float64Magnitude(WidenFloat32(f)).0, Float64Magnitude(WidenFloat32(f)).1,
                       Float32Magnitude(f).0, Float32Magnitude(f).1)
  {
    var e := Exponent32(f);
    var m := Fraction32(f);
    var d := WidenFloat32(f);
    assert d == Pack64(Sign32(f), e + 896, m * 0x2000_0000);
    Pack64Fields(Sign32(f), e + 896, m * 0x2000_0000);
    assert Float64Magnitude(d) == (0x10_0000_0000_0000 + m * 0x2000_0000, e as int - 179);
    assert Float32Magnitude(f) == (0x80_0000 + m, e as int - 150);
    Pow2Constants();
    assert (0x80_0000 + m) * Pow2(29) == 0x10_0000_0000_0000 + m * 0x2000_0000;
  }

  /** The normalized subnormal denotes `m * 2^-149`. */
  lemma NormalizeExact(m: nat)
    requires 0 < m < 0x80_0000
    ensures Normalize(m).0 > 0
    ensures SameNumber(0x10_0000_0000_0000 + Normalize(m).1, Normalize(m).0 - 1075, m, -149)
  {
    var k := HighBit(m);
    SubnormalFraction(m, k);
    Pow2Constants();
    var q, p := Pow2(k), Pow2(52 - k);
    Pow2Add(k, 52 - k);
    assert q * p == 0x10_0000_0000_0000;
    var (e64, m64) := Normalize(m);
    assert e64 == k + 874 && m64 == (m - q) * p;
    Distribute(m, q, p);
    assert m * p == 0x10_0000_0000_0000 + m64;
    assert -149 - (e64 - 1075) == 52 - k;
  }

  lemma Distribute(m: int, q: int, p: int)
    ensures m * p == q * p + (m - q) * p
  {
  }

  /** Infinities stay infinities and NaNs stay NaNs. */
  lemma WidenKeepsNonFinite(f: Bits32)
    requires Exponent32(f) == 0xFF
    ensures Exponent64(WidenFloat32(f)) == 0x7FF
    ensures Fraction64(WidenFloat32(f)) == 0 <==> Fraction32(f) == 0
  {
    var m := Fraction32(f);
    var frac := if m == 0 then 0 else if m >= 0x40_0000 then m * 0x2000_0000 else (m + 0x40_0000) * 0x2000_0000;
    assert 0 <= frac < 0x10_0000_0000_0000;
    assert WidenFloat32(f) == Pack64(Sign32(f), 0x7FF, frac);
    Pack64Fields(Sign32(f), 0x7FF, frac);
  }

  lemma Pow2Constants()
    ensures Pow2(23) == 0x80_0000 && Pow2(29) == 0x2000_0000 && Pow2(52) == 0x10_0000_0000_0000
  {
    assert Pow2(6) == 0x40;
    assert Pow2(7) == 0x80;
    assert Pow2(8) == 0x100;
    Pow2Add(8, 8);
    Pow2Add(16, 7);
    Pow2Add(23, 6);
    Pow2Add(23, 29);
  }
}
