/** The 64-bit reciprocal of a normalised limb: a table lookup and three Newton steps in fixed width. */
module Reciprocal64 {
  import opened Limbs

  function U32(x: int): int { x % 0x1_0000_0000 }
  function U64(x: int): Limb { x % B }

  function Lut64(i: int): int
    requires 0 <= i < 256
  {
    523520 / (256 + i)
  }

  // One function for each statement of the code. C reduces uint64_t arithmetic modulo 2^64 and
  // uint32_t arithmetic modulo 2^32 after every operation, and so do these.

  function V1(v0: int, d40: int): Limb {
    U64(U64(U32(v0 * 0x800) - U64(U32(v0 * v0) * d40) / 0x100_0000_0000) - 1)
  }

  function V2(v1: int, d40: int): Limb {
    U64(U64(v1 * 0x2000) + U64(U64(0x1000_0000_0000_0000 - U64(v1 * d40)) * v1) / 0x8000_0000_0000)
  }

  function E(v2: int, d: Limb): Limb {
    var d0 := U64(-(d % 2));
    var d63 := U64(d / 2 - d0);
    U64((if d0 == 0 then 0 else v2) / 2 - U64(v2 * d63))
  }

  function V3(v2: int, e: int): Limb {
    U64(U64(v2 * 0x8000_0000) + U64(v2 * e / 0x2_0000_0000_0000_0000))
  }

  function V4(v3: int, d: Limb): Limb {
    var f := v3 * d;
    var f0 := U64(f % B + d);
    var f1 := U64(f / B + d + (if f0 < d then 1 else 0));
    U64(v3 - f1)
  }

  function Recip2x1(d: Limb): Limb
    requires HALF <= d
  {
    var d8 := (d / 0x80_0000_0000_0000) % 0x100;
    var d40 := U64(d / 0x100_0000 + 1);
    var v1 := V1(Lut64(d8), d40);
    var v2 := V2(v1, d40);
    var v3 := V3(v2, E(v2, d));
    V4(v3, d)
  }

  lemma Seed(d9: int, d40: int)
    requires 256 <= d9 <= 511
    requires 0x8000_0000 * d9 < d40 <= 0x8000_0000 * (d9 + 1)
    ensures var v0 := 523520 / d9; var e0 := 0x4_0000_0000_0000 - v0 * d40;
      && 1024 <= v0 <= 2045
      && -1280 * 0x8000_0000 < e0 < 1280 * 0x8000_0000
  {
    var v0 := 523520 / d9;
    var p := v0 * d9;
    assert 523520 - d9 < p <= 523520;
    assert 1024 <= v0 by { if v0 <= 1023 { MulLe(v0, 1023, d9, 511); } }
    assert v0 <= 2045 by { if v0 >= 2046 { MulLe(2046, v0, 256, d9); } }
    MulLe(v0, v0, d40, 0x8000_0000 * (d9 + 1));
    assert v0 * (0x8000_0000 * (d9 + 1)) == 0x8000_0000 * (p + v0);
    MulLe(v0, v0, 0x8000_0000 * d9, d40);
    assert v0 * (0x8000_0000 * d9) == 0x8000_0000 * p;
  }

  /** v*2^11 - floor(v^2*d/2^40) - 1: the new error is the square of the old one, plus less than d. */
  lemma Step1(v0: int, d40: int)
    requires 1024 <= v0 <= 2045
    requires 0x80_0000_0000 < d40 <= 0x100_0000_0000
    requires -1280 * 0x8000_0000 < 0x4_0000_0000_0000 - v0 * d40 < 1280 * 0x8000_0000
    ensures var v1 := v0 * 0x800 - v0 * v0 * d40 / 0x100_0000_0000 - 1; var e1 := 0x1000_0000_0000_0000 - v1 * d40;
      && 0 < e1 <= 29 * 0x40_0000_0000
      && 0 < v1 < 0x20_0000
  {
    var x := v0 * d40;
    var e0 := 0x4_0000_0000_0000 - x;
    var w := v0 * v0 * d40;
    var t := w % 0x100_0000_0000;
    var v1 := v0 * 0x800 - w / 0x100_0000_0000 - 1;
    Step1Identity(v0, d40, x, w, t, v1);
    Step1Bounds(v1, d40, e0, 0x100_0000_0000 - t);
  }

  lemma Step1Bounds(v1: int, d40: int, e0: int, u: int)
    requires 0x80_0000_0000 < d40 <= 0x100_0000_0000
    requires -1280 * 0x8000_0000 < e0 < 1280 * 0x8000_0000 && 0 < u <= 0x100_0000_0000
    requires 0x100_0000_0000 * (0x1000_0000_0000_0000 - v1 * d40) == e0 * e0 + u * d40
    ensures 0 < 0x1000_0000_0000_0000 - v1 * d40 <= 29 * 0x40_0000_0000
    ensures 0 < v1 < 0x20_0000
  {
    SquareLe(e0, 1280 * 0x8000_0000);
    MulLe(1, u, d40, d40);
    MulLe(u, 0x100_0000_0000, d40, 0x100_0000_0000);
    var y, s, p := v1 * d40, e0 * e0, u * d40;
    assert 0 < 0x1000_0000_0000_0000 - y <= 29 * 0x40_0000_0000;
    Between(v1, d40, 0x80_0000_0000, 0x20_0000);
  }

  lemma Step1Identity(v0: int, d40: int, x: int, w: int, t: int, v1: int)
    requires x == v0 * d40 && w == v0 * v0 * d40
    requires 0x100_0000_0000 * v1 == 0x8_0000_0000_0000 * v0 - w + t - 0x100_0000_0000
    ensures var e0 := 0x4_0000_0000_0000 - x;
      0x100_0000_0000 * (0x1000_0000_0000_0000 - v1 * d40) == e0 * e0 + (0x100_0000_0000 - t) * d40
  {
    assert w * d40 == x * x;
    calc {
      0x100_0000_0000 * (v1 * d40);
      (0x100_0000_0000 * v1) * d40;
      (0x8_0000_0000_0000 * v0 - w - (0x100_0000_0000 - t)) * d40;
      0x8_0000_0000_0000 * x - w * d40 - (0x100_0000_0000 - t) * d40;
    }
  }

  /** v*2^13 + floor(v*(2^60 - v*d)/2^47). */
  lemma Step2(v1: int, d40: int)
    requires 0x80_0000_0000 < d40 <= 0x100_0000_0000
    requires 0 < v1 < 0x20_0000
    requires 0 < 0x1000_0000_0000_0000 - v1 * d40 <= 29 * 0x40_0000_0000
    ensures var e1 := 0x1000_0000_0000_0000 - v1 * d40; var v2 := v1 * 0x2000 + v1 * e1 / 0x8000_0000_0000;
      && 0 <= v1 * e1 < B
      && 0 < 0x200_0000_0000_0000_0000 - v2 * d40 < d40 + 7 * 0x10_0000_0000
      && 0 < v2 < 0x4_0000_0000
  {
    var e1 := 0x1000_0000_0000_0000 - v1 * d40;
    var w := v1 * e1;
    var t := w % 0x8000_0000_0000;
    var v2 := v1 * 0x2000 + w / 0x8000_0000_0000;
    var y := v2 * d40;
    MulLe(v1, 0x20_0000, e1, 29 * 0x40_0000_0000);
    assert 0x8000_0000_0000 * y == 0x1000_0000_0000_0000 * 0x1000_0000_0000_0000 - e1 * e1 - t * d40 by {
      assert 0x8000_0000_0000 * v2 == 0x1000_0000_0000_0000 * v1 + w - t;
      assert (0x8000_0000_0000 * v2) * d40 == 0x1000_0000_0000_0000 * (v1 * d40) + w * d40 - t * d40;
      assert w * d40 == e1 * (v1 * d40);
      assert e1 * (v1 * d40) == e1 * 0x1000_0000_0000_0000 - e1 * e1;
    }
    SquareLe(e1, 29 * 0x40_0000_0000);
    assert e1 * e1 >= e1 by { MulLe(1, e1, e1, e1); }
    MulLe(0, t, d40, d40);
    MulLt(t, 0x8000_0000_0000, d40);
    Between(v2, d40, 0x80_0000_0000, 0x4_0000_0000);
  }

  lemma SquareLe(x: int, m: int)
    requires -m <= x <= m
    ensures 0 <= x * x <= m * m
  {
    if x >= 0 { MulLe(x, m, x, m); } else { MulLe(-x, m, -x, m); assert x * x == (-x) * (-x); }
  }

  /** 0 < v*d <= lo*hi and d > lo bound v by hi. */
  lemma Between(v: int, d: int, lo: int, hi: int)
    requires 0 < v * d <= lo * hi && 0 < lo < d && 0 < hi
    ensures 0 < v < hi
  {
    if v <= 0 { MulLe(0, -v, 0, d); }
    if v >= hi { MulLe(hi, v, d, d); MulLt(lo, d, hi); }
  }

  /** From the 40-bit truncation of d back to d itself. */
  lemma Widen(d: Limb, d40: int, v2: int)
    requires HALF <= d && d40 == d / 0x100_0000 + 1
    requires 0 < 0x200_0000_0000_0000_0000 - v2 * d40 < d40 + 7 * 0x10_0000_0000
    requires 0 < v2 < 0x4_0000_0000
    ensures 0 < 0x2_0000_0000_0000_0000_0000_0000 - v2 * d < d + HALF
  {
    var g := 0x100_0000 * d40 - d;
    assert 0 < g <= 0x100_0000;
    MulLe(v2, 0x4_0000_0000, g, 0x100_0000);
    assert v2 * d == 0x100_0000 * (v2 * d40) - v2 * g;
  }

  /** v*2^31 + floor(v*e/2^65), where e is half the error. */
  lemma Step3(d: Limb, v2: int, e: int)
    requires HALF <= d && 0 < v2 < 0x4_0000_0000
    requires var e2 := 0x2_0000_0000_0000_0000_0000_0000 - v2 * d; 0 < e2 < d + HALF && e == e2 / 2
    ensures var v3 := v2 * 0x8000_0000 + v2 * e / 0x2_0000_0000_0000_0000;
      && 0 < B * B - v3 * d < 2 * d
      && B <= v3 < 2 * B
  {
    var e2 := 0x2_0000_0000_0000_0000_0000_0000 - v2 * d;
    var w := v2 * e;
    var t := w % 0x2_0000_0000_0000_0000;
    var v3 := v2 * 0x8000_0000 + w / 0x2_0000_0000_0000_0000;
    Step3Identity(d, v2, e2, e, t, v3);
    Step3Bounds(d, e2, e, t, v3);
  }

  lemma Step3Identity(d: int, v2: int, e2: int, e: int, t: int, v3: int)
    requires v2 * d == 0x2_0000_0000_0000_0000_0000_0000 - e2
    requires 0x2_0000_0000_0000_0000 * v3 == 0x1_0000_0000_0000_0000_0000_0000 * v2 + v2 * e - t
    ensures 0x2_0000_0000_0000_0000 * (B * B - v3 * d) == 0x1_0000_0000_0000_0000_0000_0000 * (e2 - 2 * e) + e2 * e + t * d
  {
    var y := v2 * d;
    calc {
      0x2_0000_0000_0000_0000 * (v3 * d);
      (0x2_0000_0000_0000_0000 * v3) * d;
      (0x1_0000_0000_0000_0000_0000_0000 * v2 + v2 * e - t) * d;
      0x1_0000_0000_0000_0000_0000_0000 * y + v2 * e * d - t * d;
      { assert v2 * e * d == y * e; }
      0x1_0000_0000_0000_0000_0000_0000 * y + (0x2_0000_0000_0000_0000_0000_0000 - e2) * e - t * d;
    }
  }

  lemma Step3Bounds(d: Limb, e2: int, e: int, t: int, v3: int)
    requires HALF <= d && 0 < e2 < d + HALF && e == e2 / 2 && 0 <= t < 0x2_0000_0000_0000_0000
    requires 0x2_0000_0000_0000_0000 * (B * B - v3 * d) == 0x1_0000_0000_0000_0000_0000_0000 * (e2 - 2 * e) + e2 * e + t * d
    ensures 0 < B * B - v3 * d < 2 * d
    ensures B <= v3 < 2 * B
  {
    var y, p, s := v3 * d, e2 * e, t * d;
    MulLe(0, t, d, d);
    MulLt(t, 0x2_0000_0000_0000_0000, d);
    MulLe(e2, d + HALF, e, 0xC000_0000_0000_0000);
    MulLe(0, e2, 0, e);
    if e == 0 { assert e2 == 1; } else { MulLe(1, e2, 1, e); }
    assert 0 < B * B - y;
    assert B * B - y < 2 * d;
    LargeEnough(d, v3);
    if v3 >= 2 * B { MulLe(2 * B, v3, HALF, d); }
  }

  lemma LargeEnough(d: Limb, v3: int)
    requires B * B - v3 * d < d + 0x8000_0000 + 0xC000_0000_0000_0000
    ensures B <= v3
  {
    assert (B - 1 - v3) * d == B * d - d - v3 * d;
    if v3 < B { MulLe(0, B - 1 - v3, 0, d); }
  }

  /** The last step: v3 is exact or one short, and the high word of (v3 + 1)*d says which. Here y is v3*d. */
  lemma Correct(d: Limb, y: int, f: int)
    requires HALF <= d && f == y - B * d
    requires 0 < B * B - y < 2 * d
    ensures U64(f / B + d + (if U64(f % B + d) < d then 1 else 0)) == (if B * B - y <= d then 0 else B - 1)
  {
    var f1 := f / B + d + (if U64(f % B + d) < d then 1 else 0);
    assert U64(f % B + d) < d <==> B <= f % B + d;
    assert f1 == (y + d) / B;
  }

  lemma V4Is(v: int, d: Limb, f: int)
    requires f == v * d
    ensures V4(v, d) == U64(v - U64(f / B + d + (if U64(f % B + d) < d then 1 else 0)))
  {
  }

  lemma V4Exact(d: Limb, v3: int)
    requires HALF <= d && B <= v3 < 2 * B && 0 < B * B - v3 * d < 2 * d
    ensures V4(v3 - B, d) == (B * B - 1) / d - B
  {
    var y := v3 * d;
    assert (v3 - B) * d == y - B * d && (v3 + 1) * d == y + d;
    V4Is(v3 - B, d, y - B * d);
    Correct(d, y, y - B * d);
    if v3 == 2 * B - 1 { MulLe(v3, v3, HALF, d); }
    V4Cases(v3 - B, d, y);
  }

  lemma V4Cases(v: Limb, d: Limb, y: int)
    requires HALF <= d && y == (B + v) * d && y + d == (B + v + 1) * d && 0 < B * B - y < 2 * d && (v == B - 1 ==> B * B - y <= d)
    ensures U64(v - (if B * B - y <= d then 0 else B - 1)) == (B * B - 1) / d - B
  {
    if B * B - y <= d {
      Closest(d, v, y);
    } else {
      Closest(d, v + 1, y + d);
    }
  }

  /** No reduction in the first step loses anything; s is v0^2, p is s*d40. */
  lemma V1Exact(v0: int, s: int, d40: int, p: int)
    requires 0 <= v0 <= 2045 && s == v0 * v0 && p == s * d40 && 0 <= d40 <= 0x100_0000_0000
    requires 0 < v0 * 0x800 - p / 0x100_0000_0000 - 1 < 0x20_0000
    ensures V1(v0, d40) == v0 * 0x800 - p / 0x100_0000_0000 - 1
  {
    MulLe(v0, 2045, v0, 2045);
    MulLe(0, s, 0, d40);
    MulLe(s, 2045 * 2045, d40, 0x100_0000_0000);
    assert U32(s) == s && U64(p) == p;
    V1Wrap(v0, p / 0x100_0000_0000);
  }

  lemma V1Wrap(v0: int, t: int)
    requires 0 <= v0 <= 2045 && 0 < v0 * 0x800 - t - 1 < 0x20_0000 && 0 <= t
    ensures U64(U64(U32(v0 * 0x800) - t) - 1) == v0 * 0x800 - t - 1
  {
  }

  /** Nor in the second; y is v1*d40, z is the error times v1. */
  lemma V2Exact(v1: int, d40: int, y: int, k: int, z: int)
    requires 0 < v1 < 0x20_0000 && y == v1 * d40 && 0 < y < 0x1000_0000_0000_0000
    requires k == 0x1000_0000_0000_0000 - y && z == k * v1 && 0 <= z < B
    ensures V2(v1, d40) == v1 * 0x2000 + z / 0x8000_0000_0000
  {
    LowSmall(y);
    LowSmall(k);
    LowSmall(z);
    V2Is(v1, d40, y, k, z);
    LowSmall(v1 * 0x2000);
    LowSmall(v1 * 0x2000 + z / 0x8000_0000_0000);
  }

  lemma V2Is(v1: int, d40: int, y: int, k: int, z: int)
    requires y == v1 * d40 && U64(y) == y && k == 0x1000_0000_0000_0000 - y && U64(k) == k && z == k * v1
    ensures V2(v1, d40) == U64(U64(v1 * 0x2000) + U64(z) / 0x8000_0000_0000)
  {
  }

  /** In the third step exactly 2^64 is lost, which is the B the reciprocal leaves out; w is v2*e. */
  lemma V3Exact(v2: int, e: Limb, w: int)
    requires 0 < v2 < 0x4_0000_0000 && w == v2 * e && 0 <= w < 0x4_0000_0000 * B
    requires B <= v2 * 0x8000_0000 + w / 0x2_0000_0000_0000_0000 < 2 * B
    ensures V3(v2, e) == v2 * 0x8000_0000 + w / 0x2_0000_0000_0000_0000 - B
  {
    var h := w / 0x2_0000_0000_0000_0000;
    LowSmall(h);
    LowAdd(v2 * 0x8000_0000, h);
    LowCarry(v2 * 0x8000_0000 + h);
  }

  /** Every reduction in the code is either exact or meant: the result is the true reciprocal. */
  lemma {:induction false} Recip2x1Exact(d: Limb)
    requires HALF <= d
    ensures Recip2x1(d) == (B * B - 1) / d - B
  {
    var d9, d40 := d / 0x80_0000_0000_0000, d / 0x100_0000 + 1;
    assert 0x100 + d9 % 0x100 == d9;
    assert U64(d40) == d40;
    var v0 := Lut64(d9 % 0x100);
    Seed(d9, d40);
    var v2 := TwoSteps(v0, d40);
    Widen(d, d40, v2);
    LastStep(d, v2);
  }

  lemma LastStep(d: Limb, v2: int)
    requires HALF <= d && 0 < v2 < 0x4_0000_0000
    requires 0 < 0x2_0000_0000_0000_0000_0000_0000 - v2 * d < d + HALF
    ensures V4(V3(v2, E(v2, d)), d) == (B * B - 1) / d - B
  {
    var e2 := 0x2_0000_0000_0000_0000_0000_0000 - v2 * d;
    var e := e2 / 2;
    HalfError(d, v2, e2);
    Step3(d, v2, e);
    var v3 := v2 * 0x8000_0000 + v2 * e / 0x2_0000_0000_0000_0000;
    MulLe(v2, 0x4_0000_0000 - 1, e, B - 1);
    V3Exact(v2, e, v2 * e);
    V4Exact(d, v3);
  }

  lemma TwoSteps(v0: int, d40: int) returns (v2: Limb)
    requires 1024 <= v0 <= 2045
    requires 0x80_0000_0000 < d40 <= 0x100_0000_0000
    requires -1280 * 0x8000_0000 < 0x4_0000_0000_0000 - v0 * d40 < 1280 * 0x8000_0000
    ensures v2 == V2(V1(v0, d40), d40)
    ensures 0 < 0x200_0000_0000_0000_0000 - v2 * d40 < d40 + 7 * 0x10_0000_0000
    ensures 0 < v2 < 0x4_0000_0000
  {
    v2 := V2(V1(v0, d40), d40);
    Step1(v0, d40);
    V1Exact(v0, v0 * v0, d40, v0 * v0 * d40);
    var v1 := V1(v0, d40);
    var e1 := 0x1000_0000_0000_0000 - v1 * d40;
    Step2(v1, d40);
    MulLe(1, v1, 1, d40);
    V2Exact(v1, d40, v1 * d40, e1, v1 * e1);
  }

  /** z is the largest multiple of d below B^2. */
  lemma Closest(d: Limb, v: int, z: int)
    requires 0 < d && z == (B + v) * d && 0 < B * B - z <= d
    ensures v == (B * B - 1) / d - B
  {
    DivUnique(B * B - 1, d, B + v, B * B - 1 - z);
  }

  /** e is half the error exactly, although 2^96 is dropped and an odd d is rounded up. */
  lemma HalfError(d: Limb, v2: int, e2: int)
    requires HALF <= d && 0 < v2 < 0x4_0000_0000
    requires e2 == 0x2_0000_0000_0000_0000_0000_0000 - v2 * d && 0 < e2 < d + HALF
    ensures E(v2, d) == e2 / 2
  {
    var c := d % 2;
    var d63 := d / 2 + c;
    var x := v2 * d63;
    var h := if c == 0 then 0 else v2 / 2;
    HalfUp(d, c, d63);
    EIs(v2, d, c, d63, x);
    Halve(d, c, d63, v2, x);
    HalfErrorMod(h, x, e2 / 2);
  }

  lemma HalfUp(d: Limb, c: int, d63: int)
    requires HALF <= d && c == d % 2 && d63 == d / 2 + c
    ensures U64(d / 2 - U64(-c)) == d63 && (U64(-c) == 0 <==> c == 0) && d == 2 * d63 - c
  {
    if c == 1 {
      LowBelow(-1);
      LowBelow(d / 2 - (B - 1));
    }
  }

  lemma EIs(v2: int, d: Limb, c: int, d63: int, x: int)
    requires c == d % 2 && U64(d / 2 - U64(-c)) == d63 && (U64(-c) == 0 <==> c == 0) && x == v2 * d63
    ensures E(v2, d) == U64((if c == 0 then 0 else v2 / 2) - U64(x))
  {
  }

  lemma Halve(d: int, c: int, d63: int, v2: int, x: int)
    requires (c == 0 || c == 1) && d == 2 * d63 - c && x == v2 * d63
    ensures v2 * d == if c == 0 then 2 * x else 2 * x - v2
  {
    assert v2 * (2 * d63 - c) == 2 * (v2 * d63) - v2 * c;
  }

  lemma HalfErrorMod(h: int, x: int, e: Limb)
    requires e == h - x + 0x1_0000_0000 * B
    ensures U64(h - U64(x)) == e
  {
    ModShift(h - x, 0x1_0000_0000, B);
    ModShift(h - x, x / B, B);
  }
}
