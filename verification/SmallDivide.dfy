/** Division of a limb array by one or two limbs, shifting the dividend on the fly. */
module SmallDivide {
  import opened Limbs
  import opened Values
  import opened Memory
  import opened DivideLimbs
  import opened Shift

  /** Long division by one more digit. */
  lemma DigitStep(y: int, q: int, d: int, u1: int, u0: int, x: int, r: int)
    requires y == q * d + u1 && u1 * B + u0 == x * d + r
    ensures B * y + u0 == (x + B * q) * d + r
  {
    assert (x + B * q) * d == x * d + B * (q * d);
  }

  /** The limbs of a from i on, shifted by bits, with what the limb below pushes up. */
  ghost function Upper(S: seq<Limb>, a: nat, i: nat, n: nat, bits: nat): int
    requires i <= n && a + n <= |S| && bits < 64
  {
    Val(S, a + i, n - i) * Pow2(bits) + (if i == 0 || bits == 0 then 0 else Shr(S[a + i - 1], 64 - bits))
  }

  /** Bringing down one more limb of the shifted dividend. */
  lemma UpperStep(S: seq<Limb>, a: nat, i: nat, n: nat, bits: nat)
    requires 0 < i <= n && a + n <= |S| && bits < 64
    ensures Upper(S, a, i - 1, n, bits) == B * Upper(S, a, i, n, bits) + BroughtDown(S, a, i, bits)
    ensures BroughtDown(S, a, i, bits) < B
  {
    var s := S[a + i - 1];
    ValCons(S, a + i - 1, n - i);
    if bits == 0 {
      assert Pow2(0) == 1;
    } else {
      ShiftHalves(s, bits);
      Spread(s, Val(S, a + i, n - i), Pow2(bits));
      if i >= 2 {
        ShiftHalves(S[a + i - 2], bits);
        LowBitsFree(Shl(s, bits), bits, Shr(S[a + i - 2], 64 - bits));
      }
    }
  }

  lemma Spread(s: int, u: int, p: int)
    ensures (s + B * u) * p == s * p + B * (u * p)
  {
  }

  /** Limb i - 1 of the shifted dividend. */
  ghost function BroughtDown(S: seq<Limb>, a: nat, i: nat, bits: nat): int
    requires 0 < i && a + i <= |S| && bits < 64
  {
    if bits == 0 then S[a + i - 1]
    else Shl(S[a + i - 1], bits) + (if i >= 2 then Shr(S[a + i - 2], 64 - bits) else 0)
  }

  // ----- one limb -----

  /** Digits i.. of the quotient are stored, u is the remainder so far. */
  ghost predicate Inv(S: seq<Limb>, T: seq<Limb>, q: nat, a: nat, i: nat, n: nat, bits: nat, d: int, u: int) {
    && i <= n && bits < 64 && |S| == |T| && a + n <= |S| && q + n <= |T|
    && SameOutside(S, T, q + i, q + n)
    && 0 <= u < d
    && Upper(S, a, i, n, bits) == Val(T, q + i, n - i) * d + u
  }

  lemma Store(S: seq<Limb>, T: seq<Limb>, q: nat, i: nat, n: nat, x: Limb)
    requires 0 < i <= n && q + n <= |T| && SameOutside(S, T, q + i, q + n)
    ensures SameOutside(S, T[q + i - 1 := x], q + (i - 1), q + n)
    ensures Val(T[q + i - 1 := x], q + (i - 1), n - (i - 1)) == x + B * Val(T, q + i, n - i)
  {
    var T' := T[q + i - 1 := x];
    ValFrame(T, T', q + i - 1, q + i, q + i, n - i);
    ValCons(T', q + i - 1, n - i);
  }

  lemma Step(S: seq<Limb>, T: seq<Limb>, q: nat, a: nat, i: nat, n: nat, bits: nat, d: int, u: int, x: Limb, r: int)
    requires Inv(S, T, q, a, i, n, bits, d, u) && 0 < i
    requires u * B + BroughtDown(S, a, i, bits) == x * d + r && 0 <= r < d
    ensures Inv(S, T[q + i - 1 := x], q, a, i - 1, n, bits, d, r)
  {
    UpperStep(S, a, i, n, bits);
    DigitStep(Upper(S, a, i, n, bits), Val(T, q + i, n - i), d, u, BroughtDown(S, a, i, bits), x, r);
    Store(S, T, q, i, n, x);
  }

  /** The loop body once the next limb u0 of the dividend is made up. */
  method Digit2x1(mem: array<Limb>, q: nat, a: nat, i: nat, n: nat, bits: nat, d: Limb, v: Limb, u1: Limb, u0: Limb, ghost S: seq<Limb>)
    returns (r: Limb)
    requires IsRecip(d, v) && 0 < i && Inv(S, mem[..], q, a, i, n, bits, d, u1)
    requires u0 == BroughtDown(S, a, i, bits)
    modifies mem
    ensures Inv(S, mem[..], q, a, i - 1, n, bits, d, r)
  {
    var x;
    x, r := DivRem2x1(u1, u0, d, v);
    ghost var T: seq<Limb> := mem[..];
    Step(S, T, q, a, i, n, bits, d, u1, x, r);
    mem[q + i - 1] := x;
    assert mem[..] == T[q + i - 1 := x];
  }

  /** Divides by b, given as d = b << bits with its top bit set, and v the reciprocal of d. */
  method PDivRemU2x1(mem: array<Limb>, q: nat, a: nat, n0: nat, bits: nat, d: Limb, v: Limb) returns (rem: Limb)
    requires n0 > 1 && bits < 64 && IsRecip(d, v) && d % Pow2(bits) == 0
    requires Inside(mem, a, n0) && Inside(mem, q, n0) && (a <= q || q + n0 <= a)
    modifies mem
    ensures var b := d / Pow2(bits); 0 < b && rem < b && Val(old(mem[..]), a, n0) == Val(mem[..], q, n0) * b + rem
    ensures SameOutside(old(mem[..]), mem[..], q, q + n0)
  {
    ghost var S: seq<Limb> := mem[..];
    var u1;
    if bits > 0 {
      u1 := Shifted2x1(mem, q, a, n0, bits, d, v);
    } else {
      u1 := Unshifted2x1(mem, q, a, n0, d, v);
      assert Pow2(0) == 1;
    }
    rem := Shr(u1, bits);
    Unshift(Val(S, a, n0), Val(mem[..], q, n0), d, u1, Pow2(bits));
  }

  /** From the shifted division back to the one asked for. */
  lemma Unshift(v: int, q: int, d: int, u: int, p: int)
    requires 0 < p && d % p == 0 && v * p == q * d + u && 0 <= u < d
    ensures var b := d / p; 0 < b && 0 <= u / p < b <= d && v == q * b + u / p
  {
    var b := d / p;
    assert d == b * p;
    assert q * (b * p) == (q * b) * p;
    var r := v - q * b;
    assert u == r * p;
    DivUnique(u, p, r, 0);
    if r < 0 { MulLe(1, -r, p, p); }
    if r >= b { MulLe(b, r, p, p); }
    MulLe(b, b, 1, p);
  }

  method Shifted2x1(mem: array<Limb>, q: nat, a: nat, n0: nat, bits: nat, d: Limb, v: Limb) returns (u1: Limb)
    requires n0 > 1 && 0 < bits < 64 && IsRecip(d, v) && d % Pow2(bits) == 0
    requires Inside(mem, a, n0) && Inside(mem, q, n0) && (a <= q || q + n0 <= a)
    modifies mem
    ensures Val(old(mem[..]), a, n0) * Pow2(bits) == Val(mem[..], q, n0) * d + u1 && u1 < d
    ensures SameOutside(old(mem[..]), mem[..], q, q + n0)
  {
    ghost var S: seq<Limb> := mem[..];
    var n, a1 := n0, mem[a + n0 - 1];
    var u0 := Shr(a1, 64 - bits);
    u1 := Shl(a1, bits);
    Start2x1(S, q, a, n, bits, d);
    if u0 == 0 && u1 < d {
      n := n - 1;
      Skip2x1(S, q, a, n, bits, d);
      mem[q + n] := 0;
      assert mem[..] == S[q + n := 0];
      a1 := mem[a + n - 1];
      u1 := Or(u1, Shr(a1, 64 - bits));
    } else {
      u1 := u0;
    }
    u1 := LowerDigits2x1(mem, q, a, n - 1, n0, bits, d, v, u1, a1, S);
  }

  /** The loop over the limbs below i; a1 is the limb above, of which only the high bits are used up. */
  method LowerDigits2x1(mem: array<Limb>, q: nat, a: nat, i0: nat, n: nat, bits: nat, d: Limb, v: Limb, u: Limb, a2: Limb, ghost S: seq<Limb>)
    returns (u1: Limb)
    requires i0 < n && 0 < bits < 64 && IsRecip(d, v) && (a <= q || q + n <= a)
    requires Inv(S, mem[..], q, a, i0 + 1, n, bits, d, u) && a2 == S[a + i0]
    modifies mem
    ensures Inv(S, mem[..], q, a, 0, n, bits, d, u1)
  {
    u1 := u;
    var i, a1 := i0, a2;
    while i > 0
      invariant 0 <= i < n && Inv(S, mem[..], q, a, i + 1, n, bits, d, u1) && a1 == S[a + i]
    {
      i := i - 1;
      var a0 := mem[a + i];
      assert a0 == S[a + i];
      BroughtDownIsOr(S, a, i + 2, bits);
      var u0: Limb := Or(Shl(a1, bits), Shr(a0, 64 - bits));
      a1 := a0;
      u1 := Digit2x1(mem, q, a, i + 2, n, bits, d, v, u1, u0, S);
    }
    u1 := Digit2x1(mem, q, a, 1, n, bits, d, v, u1, Shl(a1, bits), S);
  }

  lemma BroughtDownIsOr(S: seq<Limb>, a: nat, i: nat, bits: nat)
    requires 2 <= i && a + i <= |S| && 0 < bits < 64
    ensures Or(Shl(S[a + i - 1], bits), Shr(S[a + i - 2], 64 - bits)) == BroughtDown(S, a, i, bits) < B
  {
    ShiftHalves(S[a + i - 1], bits);
    ShiftHalves(S[a + i - 2], bits);
    LowBitsFree(Shl(S[a + i - 1], bits), bits, Shr(S[a + i - 2], 64 - bits));
  }

  /** Nothing divided yet: the remainder is what the top limb pushes out. */
  lemma Start2x1(S: seq<Limb>, q: nat, a: nat, n: nat, bits: nat, d: Limb)
    requires 1 < n && 0 < bits < 64 && a + n <= |S| && q + n <= |S| && HALF <= d
    ensures Inv(S, S, q, a, n, n, bits, d, Shr(S[a + n - 1], 64 - bits))
  {
    ShiftHalves(S[a + n - 1], bits);
    Pow2Mono(bits, 63);
    Pow2Word();
  }

  /** The early skip: the top digit is zero because d has its low bits clear. */
  lemma Skip2x1(S: seq<Limb>, q: nat, a: nat, n: nat, bits: nat, d: Limb)
    requires 1 <= n && 0 < bits < 64 && a + n + 1 <= |S| && q + n + 1 <= |S|
    requires d % Pow2(bits) == 0 && Shr(S[a + n], 64 - bits) == 0 && Shl(S[a + n], bits) < d
    ensures var u1 := Or(Shl(S[a + n], bits), Shr(S[a + n - 1], 64 - bits));
      u1 < B && Inv(S, S[q + n := 0], q, a, n, n + 1, bits, d, u1)
  {
    var l, h, p := Shl(S[a + n], bits), Shr(S[a + n - 1], 64 - bits), Pow2(bits);
    ShiftHalves(S[a + n], bits);
    ShiftHalves(S[a + n - 1], bits);
    LowBitsFree(l, bits, h);
    NextMultipleBelow(l, h, d, p);
    assert Val(S, a + n, 1) == S[a + n];
    assert Val(S[q + n := 0], q + n, 1) == 0;
  }

  lemma NextMultipleBelow(l: int, h: int, d: int, p: int)
    requires 0 < p && l % p == 0 && d % p == 0 && 0 <= l < d && 0 <= h < p
    ensures l + h < d
  {
    var x, y := l / p, d / p;
    assert l == x * p && d == y * p;
    if x >= y { MulLe(y, x, p, p); }
    if x < 0 { MulLe(1, -x, p, p); }
    MulLe(x + 1, y, p, p);
  }

  method Unshifted2x1(mem: array<Limb>, q: nat, a: nat, n: nat, d: Limb, v: Limb) returns (u1: Limb)
    requires n > 1 && IsRecip(d, v)
    requires Inside(mem, a, n) && Inside(mem, q, n) && (a <= q || q + n <= a)
    modifies mem
    ensures Val(old(mem[..]), a, n) == Val(mem[..], q, n) * d + u1 && u1 < d
    ensures SameOutside(old(mem[..]), mem[..], q, q + n)
  {
    ghost var S: seq<Limb> := mem[..];
    var u0 := 0;
    u1 := mem[a + n - 1];
    if u1 >= d {
      u0 := 1;
      u1 := Low(u1 - d);
    }
    mem[q + n - 1] := u0;
    assert mem[..] == S[q + n - 1 := u0];
    assert Pow2(0) == 1;
    assert Val(S, a + n - 1, 1) == S[a + n - 1];
    assert Val(mem[..], q + n - 1, 1) == u0;
    var i := n - 1;
    while i > 0
      invariant 0 <= i < n && Inv(S, mem[..], q, a, i, n, 0, d, u1)
    {
      i := i - 1;
      u0 := mem[a + i];
      assert u0 == S[a + i];
      u1 := Digit2x1(mem, q, a, i + 1, n, 0, d, v, u1, u0, S);
    }
  }

  // ----- two limbs -----

  /** One exact digit: the division statement of the 3/2 primitive. */
  method ExactDigit3x2(u2: Limb, u1: Limb, u0: Limb, d1: Limb, d0: Limb, v: Limb) returns (x: Limb, r1: Limb, r0: Limb)
    requires IsRecip2(d1, d0, v) && u2 * B + u1 < d1 * B + d0
    ensures (u2 * B + u1) * B + u0 == x * (d1 * B + d0) + (r1 * B + r0) && r1 * B + r0 < d1 * B + d0
  {
    x, r1, r0 := DivRem3x2(u2, u1, u0, d1, d0, v);
    Divide3x2Exact(u2, u1, u0, d1, d0, v);
  }

  method Digit3x2(mem: array<Limb>, q: nat, a: nat, i: nat, n: nat, bits: nat, d1: Limb, d0: Limb, v: Limb,
        u2: Limb, u1: Limb, u0: Limb, ghost S: seq<Limb>)
    returns (r1: Limb, r0: Limb)
    requires IsRecip2(d1, d0, v) && 0 < i && Inv(S, mem[..], q, a, i, n, bits, d1 * B + d0, u2 * B + u1)
    requires u0 == BroughtDown(S, a, i, bits)
    modifies mem
    ensures Inv(S, mem[..], q, a, i - 1, n, bits, d1 * B + d0, r1 * B + r0)
  {
    var x;
    x, r1, r0 := ExactDigit3x2(u2, u1, u0, d1, d0, v);
    ghost var T: seq<Limb> := mem[..];
    Step(S, T, q, a, i, n, bits, d1 * B + d0, u2 * B + u1, x, r1 * B + r0);
    mem[q + i - 1] := x;
    assert mem[..] == T[q + i - 1 := x];
  }

  /** Divides by the two-limb b, given as <d1,d0> = b << bits with its top bit set, and v its reciprocal. */
  method PDivRemU3x2(mem: array<Limb>, q: nat, a: nat, n: nat, bits: nat, d1: Limb, d0: Limb, v: Limb) returns (rem: Wide)
    requires n >= 2 && bits < 64 && IsRecip2(d1, d0, v) && (d1 * B + d0) % Pow2(bits) == 0
    requires Inside(mem, a, n) && Inside(mem, q, n) && (a <= q || q + n <= a)
    modifies mem
    ensures var b := (d1 * B + d0) / Pow2(bits);
      0 < b && rem < b && Val(old(mem[..]), a, n) == Val(mem[..], q, n) * b + rem
    ensures SameOutside(old(mem[..]), mem[..], q, q + n)
  {
    ghost var S: seq<Limb> := mem[..];
    var u2, u1 := Remainder3x2(mem, q, a, n, bits, d1, d0, v);
    Unshift(Val(S, a, n), Val(mem[..], q, n), d1 * B + d0, u2 * B + u1, Pow2(bits));
    rem := (u2 * B + u1) / Pow2(bits);
  }

  method Remainder3x2(mem: array<Limb>, q: nat, a: nat, n: nat, bits: nat, d1: Limb, d0: Limb, v: Limb) returns (u2: Limb, u1: Limb)
    requires n >= 2 && bits < 64 && IsRecip2(d1, d0, v)
    requires Inside(mem, a, n) && Inside(mem, q, n) && (a <= q || q + n <= a)
    modifies mem
    ensures Val(old(mem[..]), a, n) * Pow2(bits) == Val(mem[..], q, n) * (d1 * B + d0) + (u2 * B + u1)
    ensures u2 * B + u1 < d1 * B + d0
    ensures SameOutside(old(mem[..]), mem[..], q, q + n)
  {
    if bits > 0 {
      u2, u1 := Shifted3x2(mem, q, a, n, bits, d1, d0, v);
    } else {
      u2, u1 := Unshifted3x2(mem, q, a, n, d1, d0, v);
      assert Pow2(0) == 1;
    }
  }

  method Shifted3x2(mem: array<Limb>, q: nat, a: nat, n: nat, bits: nat, d1: Limb, d0: Limb, v: Limb) returns (u2: Limb, u1: Limb)
    requires n >= 2 && 0 < bits < 64 && IsRecip2(d1, d0, v)
    requires Inside(mem, a, n) && Inside(mem, q, n) && (a <= q || q + n <= a)
    modifies mem
    ensures Val(old(mem[..]), a, n) * Pow2(bits) == Val(mem[..], q, n) * (d1 * B + d0) + (u2 * B + u1)
    ensures u2 * B + u1 < d1 * B + d0
    ensures SameOutside(old(mem[..]), mem[..], q, q + n)
  {
    ghost var S: seq<Limb> := mem[..];
    var a1, a0 := mem[a + n - 1], mem[a + n - 2];
    Start3x2(S, q, a, n, bits, d1, d0);
    u2 := Shr(a1, 64 - bits);
    u1 := Or(Shl(a1, bits), Shr(a0, 64 - bits));
    a1 := a0;
    mem[q + n - 1] := 0;
    assert mem[..] == S[q + n - 1 := 0];
    u2, u1 := LowerDigits3x2(mem, q, a, n - 2, n, bits, d1, d0, v, u2, u1, a1, S);
  }

  method LowerDigits3x2(mem: array<Limb>, q: nat, a: nat, i0: nat, n: nat, bits: nat, d1: Limb, d0: Limb, v: Limb,
        u2': Limb, u1': Limb, a2: Limb, ghost S: seq<Limb>)
    returns (u2: Limb, u1: Limb)
    requires i0 < n && 0 < bits < 64 && IsRecip2(d1, d0, v) && (a <= q || q + n <= a)
    requires Inv(S, mem[..], q, a, i0 + 1, n, bits, d1 * B + d0, u2' * B + u1') && a2 == S[a + i0]
    modifies mem
    ensures Inv(S, mem[..], q, a, 0, n, bits, d1 * B + d0, u2 * B + u1)
  {
    u2, u1 := u2', u1';
    var i, a1 := i0, a2;
    while i != 0
      invariant 0 <= i < n && Inv(S, mem[..], q, a, i + 1, n, bits, d1 * B + d0, u2 * B + u1) && a1 == S[a + i]
    {
      var a0 := mem[a + i - 1];
      assert a0 == S[a + i - 1];
      BroughtDownIsOr(S, a, i + 1, bits);
      var u0: Limb := Or(Shl(a1, bits), Shr(a0, 64 - bits));
      a1 := a0;
      u2, u1 := Digit3x2(mem, q, a, i + 1, n, bits, d1, d0, v, u2, u1, u0, S);
      i := i - 1;
    }
    u2, u1 := Digit3x2(mem, q, a, 1, n, bits, d1, d0, v, u2, u1, Shl(a1, bits), S);
  }

  lemma Start3x2(S: seq<Limb>, q: nat, a: nat, n: nat, bits: nat, d1: Limb, d0: Limb)
    requires 2 <= n && 0 < bits < 64 && a + n <= |S| && q + n <= |S| && HALF <= d1
    ensures var u2, u1 := Shr(S[a + n - 1], 64 - bits), Or(Shl(S[a + n - 1], bits), Shr(S[a + n - 2], 64 - bits));
      u1 < B && Inv(S, S[q + n - 1 := 0], q, a, n - 1, n, bits, d1 * B + d0, u2 * B + u1)
  {
    ShiftHalves(S[a + n - 1], bits);
    BroughtDownIsOr(S, a, n, bits);
    Pow2Mono(bits, 63);
    Pow2Word();
    assert Val(S, a + n - 1, 1) == S[a + n - 1];
    assert Val(S[q + n - 1 := 0], q + n - 1, 1) == 0;
  }

  method Unshifted3x2(mem: array<Limb>, q: nat, a: nat, n: nat, d1: Limb, d0: Limb, v: Limb) returns (u2: Limb, u1: Limb)
    requires n >= 2 && IsRecip2(d1, d0, v)
    requires Inside(mem, a, n) && Inside(mem, q, n) && (a <= q || q + n <= a)
    modifies mem
    ensures Val(old(mem[..]), a, n) == Val(mem[..], q, n) * (d1 * B + d0) + (u2 * B + u1)
    ensures u2 * B + u1 < d1 * B + d0
    ensures SameOutside(old(mem[..]), mem[..], q, q + n)
  {
    ghost var S: seq<Limb> := mem[..];
    u2, u1 := TopDigit3x2(mem, q, a, n, d1, d0);
    var i := n - 2;
    while i != 0
      invariant 0 <= i < n && Inv(S, mem[..], q, a, i, n, 0, d1 * B + d0, u2 * B + u1)
    {
      var u0 := mem[a + i - 1];
      assert u0 == S[a + i - 1];
      u2, u1 := Digit3x2(mem, q, a, i, n, 0, d1, d0, v, u2, u1, u0, S);
      i := i - 1;
    }
    assert Pow2(0) == 1;
  }

  /** The top digit of an unshifted division is 0 or 1. */
  method TopDigit3x2(mem: array<Limb>, q: nat, a: nat, n: nat, d1: Limb, d0: Limb) returns (u2: Limb, u1: Limb)
    requires n >= 2 && HALF <= d1 && Inside(mem, a, n) && Inside(mem, q, n)
    modifies mem
    ensures Inv(old(mem[..]), mem[..], q, a, n - 2, n, 0, d1 * B + d0, u2 * B + u1)
  {
    ghost var S: seq<Limb> := mem[..];
    var u0: Limb;
    u2, u1, u0 := mem[a + n - 1], mem[a + n - 2], 0;
    SubtractTwo(u2, u1, d1, d0);
    if u2 > d1 || (u2 == d1 && u1 >= d0) {
      u2 := Low(u2 - (d1 + (if u1 < d0 then 1 else 0)));
      u1 := Low(u1 - d0);
      u0 := 1;
    }
    mem[q + n - 1] := 0;
    mem[q + n - 2] := u0;
    assert mem[..] == S[q + n - 1 := 0][q + n - 2 := u0];
    First3x2(S, mem[..], q, a, n, d1 * B + d0, u0, u2 * B + u1);
  }

  lemma SubtractTwo(u2: Limb, u1: Limb, d1: Limb, d0: Limb)
    requires HALF <= d1
    ensures u2 > d1 || (u2 == d1 && u1 >= d0) <==> d1 * B + d0 <= u2 * B + u1
    ensures d1 * B + d0 <= u2 * B + u1 ==>
      var r := u2 * B + u1 - (d1 * B + d0);
      Low(u2 - (d1 + (if u1 < d0 then 1 else 0))) * B + Low(u1 - d0) == r < d1 * B + d0
  {
  }

  lemma First3x2(S: seq<Limb>, T: seq<Limb>, q: nat, a: nat, n: nat, d: Wide, u0: Limb, u: int)
    requires 2 <= n && a + n <= |S| == |T| && q + n <= |T| && 0 <= u < d
    requires T == S[q + n - 1 := 0][q + n - 2 := u0]
    requires S[a + n - 1] * B + S[a + n - 2] == u + (if u0 == 0 then 0 else d) && u0 <= 1
    ensures Inv(S, T, q, a, n - 2, n, 0, d, u)
  {
    assert Pow2(0) == 1;
    assert T[q + n - 2] == u0 && T[q + n - 1] == 0;
    ValTwo(S, a + n - 2);
    ValTwo(T, q + n - 2);
  }
}
