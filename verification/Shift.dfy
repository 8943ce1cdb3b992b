/** Shifts by any number of bits, in place or not, with the returned length. */
module Shift {
  import opened Limbs
  import opened Values
  import opened Memory
  import opened Scan

  function Ceil128(b: nat): nat { (b + 127) / 128 }

  function Shl(s: Limb, bits: nat): Limb { Low(s * Pow2(bits)) }

  function Shr(s: Limb, bits: nat): Limb
    ensures 0 <= s / Pow2(bits) < B
  {
    ShrFits(s, Pow2(bits));
    s / Pow2(bits)
  }

  lemma ShrFits(s: Limb, p: int)
    requires 0 < p
    ensures 0 <= s / p < B
  {
    var q := s / p;
    assert s == q * p + s % p;
    if q >= B { MulLe(B, q, 1, p); }
    if q < 0 { MulLe(1, -q, p, p); }
  }

  /** The two halves of a shifted limb. */
  lemma ShiftHalves(s: Limb, bits: nat)
    requires 0 < bits < 64
    ensures s * Pow2(bits) == B * Shr(s, 64 - bits) + Shl(s, bits)
    ensures Shr(s, 64 - bits) < Pow2(bits) && Shl(s, bits) % Pow2(bits) == 0
    ensures s * Pow2(bits) / B == Shr(s, 64 - bits)
  {
    var p, e := Pow2(bits), Pow2(64 - bits);
    Pow2Add(bits, 64 - bits);
    Pow2Word();
    HalvesOfProduct(s, p, e);
  }

  lemma HalvesOfProduct(s: Limb, p: int, e: int)
    requires 0 < p && 0 < e && p * e == B
    ensures s * p == B * (s / e) + (s % e) * p
    ensures (s * p) / B == s / e && (s * p) % B == (s % e) * p
    ensures s / e < p && ((s * p) % B) % p == 0
  {
    var h, l := s / e, s % e;
    assert s == h * e + l;
    assert s * p == (h * e) * p + l * p;
    assert (h * e) * p == h * B;
    MulLe(0, l, 0, p);
    MulLt(l, e, p);
    DivUnique(s * p, B, h, l * p);
    DivUnique(l * p, p, l, 0);
    if h >= p { MulLe(p, h, e, e); }
  }

  // ----- left shift -----

  /** Limbs i.. of a are done: with the pending low half q they are the shifted limbs from rl + i up. */
  ghost predicate ShlInv(S: seq<Limb>, T: seq<Limb>, a: nat, rl: nat, i: nat, n: nat, q: Limb, bits: nat) {
    && i <= n && |S| == |T| && a + n <= |S| && rl + n + 1 <= |T|
    && (forall k :: a <= k < a + i ==> T[k] == S[k])
    && q % Pow2(bits) == 0
    && B * Val(T, rl + i + 1, n - i) + q == Val(S, a + i, n - i) * Pow2(bits)
  }

  lemma LowBitsFree(q: Limb, bits: nat, h: nat)
    requires bits < 64 && q % Pow2(bits) == 0 && h < Pow2(bits)
    ensures Or(q, h) == q + h < B
  {
    OrIsSum(q, h, bits);
    Pow2Add(bits, 64 - bits);
    Pow2Word();
    RoomBelow(q, h, Pow2(bits), Pow2(64 - bits));
  }

  lemma RoomBelow(q: Limb, h: int, p: int, e: int)
    requires 0 < p && p * e == B && q % p == 0 && h < p
    ensures q + h < B
  {
    var k := q / p;
    assert q == k * p;
    if k >= e { MulLe(e, k, p, p); }
    MulLe(k + 1, e, p, p);
  }

  lemma ShlArithmetic(s: int, u: int, v: int, q: int, h: int, l: int, p: int)
    requires B * v + q == u * p && s * p == B * h + l
    ensures B * (q + h + B * v) + l == (s + B * u) * p
  {
    assert (s + B * u) * p == s * p + B * (u * p);
  }

  lemma ShlStep(S: seq<Limb>, T: seq<Limb>, a: nat, rl: nat, i: nat, n: nat, q: Limb, bits: nat)
    requires 0 < bits < 64 && 0 < i && ShlInv(S, T, a, rl, i, n, q, bits)
    requires a <= rl || rl + n + 1 <= a
    ensures var h := Shr(S[a + i - 1], 64 - bits);
      && Or(q, h) == q + h < B
      && ShlInv(S, T[rl + i := q + h], a, rl, i - 1, n, Shl(S[a + i - 1], bits), bits)
  {
    var s := S[a + i - 1];
    var h, l, p := Shr(s, 64 - bits), Shl(s, bits), Pow2(bits);
    ShiftHalves(s, bits);
    LowBitsFree(q, bits, h);
    ShlValues(S, T, a, rl, i, n, q, q + h);
    ShlArithmetic(s, Val(S, a + i, n - i), Val(T, rl + i + 1, n - i), q, h, l, p);
  }

  /** One limb more on both sides. */
  lemma ShlValues(S: seq<Limb>, T: seq<Limb>, a: nat, rl: nat, i: nat, n: nat, q: Limb, z: Limb)
    requires 0 < i <= n && a + n <= |S| && rl + n + 1 <= |T|
    ensures Val(T[rl + i := z], rl + i, n - i + 1) == z + B * Val(T, rl + i + 1, n - i)
    ensures Val(S, a + i - 1, n - i + 1) == S[a + i - 1] + B * Val(S, a + i, n - i)
  {
    var T' := T[rl + i := z];
    ValFrame(T, T', rl + i, rl + i + 1, rl + i + 1, n - i);
    ValCons(T', rl + i, n - i);
    ValCons(S, a + i - 1, n - i);
  }

  /** The loop body: shift the next lower limb of a into place. */
  method ShlLimb(mem: array<Limb>, a: nat, rl: nat, i: nat, n: nat, q: Limb, bits: nat, ghost S: seq<Limb>) returns (q': Limb)
    requires 0 < bits < 64 && 0 < i && ShlInv(S, mem[..], a, rl, i, n, q, bits)
    requires a <= rl || rl + n + 1 <= a
    modifies mem
    ensures ShlInv(S, mem[..], a, rl, i - 1, n, q', bits)
    ensures SameOutside(old(mem[..]), mem[..], rl + i, rl + i + 1)
  {
    ShlStep(S, mem[..], a, rl, i, n, q, bits);
    var s := mem[a + i - 1];
    ghost var T: seq<Limb> := mem[..];
    mem[rl + i] := Or(q, Shr(s, 64 - bits));
    q' := Shl(s, bits);
    assert mem[..] == T[rl + i := q + Shr(s, 64 - bits)];
  }

  /** The limbs below, and the last half limb, once nothing is looked at any more. */
  method ShlRest(mem: array<Limb>, a: nat, rl: nat, i0: nat, n: nat, q0: Limb, bits: nat, ghost S: seq<Limb>)
    requires 0 < bits < 64 && ShlInv(S, mem[..], a, rl, i0, n, q0, bits)
    requires a <= rl || rl + n + 1 <= a
    modifies mem
    ensures Val(mem[..], rl, n + 1) == Val(S, a, n) * Pow2(bits)
    ensures SameOutside(old(mem[..]), mem[..], rl, rl + i0 + 1)
  {
    ghost var T: seq<Limb> := mem[..];
    var i, q := i0, q0;
    while i > 0
      invariant 0 <= i <= i0
      invariant ShlInv(S, mem[..], a, rl, i, n, q, bits)
      invariant SameOutside(T, mem[..], rl + i + 1, rl + i0 + 1)
    {
      q := ShlLimb(mem, a, rl, i, n, q, bits, S);
      i := i - 1;
    }
    ghost var T': seq<Limb> := mem[..];
    mem[rl] := q;
    assert mem[..] == T'[rl := q];
    ValFrame(T', mem[..], rl, rl + 1, rl + 1, n);
    ValCons(mem[..], rl, n);
  }

  /** Shifts by 1 to 63 bits, top limb first; reports whether any of the first look limbs written is non-zero. */
  method ShlBits(mem: array<Limb>, a: nat, rl: nat, n: nat, bits: nat, look: nat) returns (full: bool)
    requires 0 < bits < 64 && 0 < look <= n
    requires Inside(mem, a, n) && Inside(mem, rl, n + 1) && (a <= rl || rl + n + 1 <= a)
    modifies mem
    ensures Val(mem[..], rl, n + 1) == Val(old(mem[..]), a, n) * Pow2(bits)
    ensures SameOutside(old(mem[..]), mem[..], rl, rl + n + 1)
    ensures full <==> !AllZero(mem[..], rl + n + 1 - look, rl + n + 1)
  {
    ghost var S: seq<Limb> := mem[..];
    var i, j, q: Limb := n, n - look, 0;
    full := false;
    while i > j && !full
      invariant j <= i <= n
      invariant ShlInv(S, mem[..], a, rl, i, n, q, bits)
      invariant SameOutside(S, mem[..], rl + i + 1, rl + n + 1)
      invariant full ==> i < n && mem[rl + i + 1] != 0
      invariant !full ==> AllZero(mem[..], rl + i + 1, rl + n + 1)
    {
      q := ShlLimb(mem, a, rl, i, n, q, bits, S);
      i := i - 1;
      if mem[rl + i + 1] != 0 { full := true; }
    }
    ghost var T: seq<Limb> := mem[..];
    ShlRest(mem, a, rl, i, n, q, bits, S);
    assert forall k :: rl + i + 1 <= k <= rl + n ==> mem[k] == T[k];
  }

  /** Moves n limbs up; reports whether any of the top look limbs is non-zero. */
  method ShlWords(mem: array<Limb>, a: nat, rl: nat, n: nat, look: nat) returns (full: bool)
    requires 0 < look <= n
    requires Inside(mem, a, n) && Inside(mem, rl, n) && (a <= rl || rl + n <= a)
    modifies mem
    ensures Val(mem[..], rl, n) == Val(old(mem[..]), a, n)
    ensures SameOutside(old(mem[..]), mem[..], rl, rl + n)
    ensures full <==> !AllZero(mem[..], rl + n - look, rl + n)
  {
    ghost var S: seq<Limb> := mem[..];
    var i, j := n, n - look;
    full := false;
    while i > j && !full
      invariant j <= i <= n
      invariant SameOutside(S, mem[..], rl + i, rl + n)
      invariant forall k :: rl + i <= k < rl + n ==> mem[k] == S[k - rl + a]
      invariant full ==> i < n && mem[rl + i] != 0
      invariant !full ==> AllZero(mem[..], rl + i, rl + n)
    {
      i := i - 1;
      var s := mem[a + i];
      assert s == S[a + i];
      mem[rl + i] := s;
      if s != 0 { full := true; }
    }
    ghost var T: seq<Limb> := mem[..];
    assert forall k :: a <= k < a + i ==> T[k] == S[k];
    forall k | rl <= k < rl + i { mem[k] := mem[k - rl + a]; }
    assert forall k :: rl + i <= k < rl + n ==> mem[k] == T[k];
    ValSame(mem[..], rl, S, a, n);
  }

  /** Whether the top packet of m is in use, by value and by limb. */
  lemma TopPacket(s: seq<Limb>, r: nat, m: nat)
    requires 0 < m && r + m * LPP <= |s|
    ensures var t := r + (m - 1) * LPP;
      && (Val(s, r, m * LPP) >= Pw((m - 1) * LPP) <==> s[t] != 0 || s[t + 1] != 0)
      && (s[t] == 0 && s[t + 1] == 0 ==> Val(s, r, (m - 1) * LPP) == Val(s, r, m * LPP))
  {
    var j := (m - 1) * LPP;
    ValSplit(s, r, j, 2);
    ValBound(s, r, j);
    ValTwo(s, r + j);
    TopUsed(Val(s, r, j), Pw(j), s[r + j], s[r + j + 1], Val(s, r, m * LPP));
  }

  lemma TopUsed(lo: int, p: int, x: Limb, y: Limb, v: int)
    requires 0 <= lo < p && v == lo + p * (x + B * y)
    ensures v >= p <==> x != 0 || y != 0
    ensures x == 0 && y == 0 ==> v == lo
  {
    AtLeast(x + B * y, p);
  }

  lemma Pow2Split(b: nat)
    ensures Pow2(b) == Pw(b / 64) * Pow2(b % 64)
  {
    Pow2Limbs(b / 64);
    Pow2Add(64 * (b / 64), b % 64);
  }

  /** Limb shift below, bit shift above. */
  lemma ShlValue(s: seq<Limb>, r: nat, m: nat, v: int, b: nat)
    requires r + b / 64 + m <= |s| && AllZero(s, r, r + b / 64)
    requires Val(s, r + b / 64, m) == v * Pow2(b % 64)
    ensures Val(s, r, b / 64 + m) == v * Pow2(b)
  {
    Pow2Split(b);
    ValSplit(s, r, b / 64, m);
    ValZero(s, r, b / 64);
    Associate(Pw(b / 64), v, Pow2(b % 64));
  }

  lemma Associate(x: int, v: int, y: int)
    ensures x * (v * y) == v * (x * y)
  {
  }

  /** Zeroes the limbs from i down to n. */
  method ClearDown(mem: array<Limb>, rl: nat, i0: nat, n: nat)
    requires n <= i0 && Inside(mem, rl, i0)
    modifies mem
    ensures SameOutside(old(mem[..]), mem[..], rl + n, rl + i0)
    ensures AllZero(mem[..], rl + n, rl + i0)
  {
    var i := i0;
    while i - 1 >= n
      invariant n <= i <= i0
      invariant SameOutside(old(mem[..]), mem[..], rl + i, rl + i0)
      invariant forall k :: rl + i <= k < rl + i0 ==> mem[k] == 0
    {
      i := i - 1;
      mem[rl + i] := 0;
    }
  }

  method ClearUp(mem: array<Limb>, r: nat, n: nat)
    requires Inside(mem, r, n)
    modifies mem
    ensures SameOutside(old(mem[..]), mem[..], r, r + n)
    ensures AllZero(mem[..], r, r + n)
  {
    forall k | r <= k < r + n { mem[k] := 0; }
  }

  method PShl(mem: array<Limb>, r: nat, a: nat, b: nat, n: nat) returns (rn: nat)
    requires Inside(mem, a, n * LPP) && Inside(mem, r, (n + Ceil128(b)) * LPP)
    requires a <= r || Disjoint(r, (n + Ceil128(b)) * LPP, a, n * LPP)
    modifies mem
    ensures n == 0 ==> rn == 0 && mem[..] == old(mem[..])
    ensures n > 0 ==> var m := n + Ceil128(b); var v := Val(old(mem[..]), a, n * LPP) * Pow2(b);
      && Val(mem[..], r, m * LPP) == v
      && rn == (if Pw((m - 1) * LPP) <= v then m else m - 1)
      && Val(mem[..], r, rn * LPP) == v
    ensures SameOutside(old(mem[..]), mem[..], r, r + (n + Ceil128(b)) * LPP)
  {
    if n == 0 { return 0; }
    rn := n + Ceil128(b);
    var full := ShlPackets(mem, r, a, b, n);
    if !full { rn := rn - 1; }
  }

  /** The shift itself; reports whether the top packet is in use. */
  method ShlPackets(mem: array<Limb>, r: nat, a: nat, b: nat, n: nat) returns (full: bool)
    requires n > 0 && Inside(mem, a, n * LPP) && Inside(mem, r, (n + Ceil128(b)) * LPP)
    requires a <= r || Disjoint(r, (n + Ceil128(b)) * LPP, a, n * LPP)
    modifies mem
    ensures var m := n + Ceil128(b); var v := Val(old(mem[..]), a, n * LPP) * Pow2(b);
      && Val(mem[..], r, m * LPP) == v
      && (full <==> Pw((m - 1) * LPP) <= v)
      && (!full ==> Val(mem[..], r, (m - 1) * LPP) == v)
    ensures SameOutside(old(mem[..]), mem[..], r, r + (n + Ceil128(b)) * LPP)
  {
    var limbs, size := b / 64, (n + Ceil128(b)) * LPP;
    ghost var S: seq<Limb> := mem[..];
    ghost var done, top;
    full, done, top := ShlAbove(mem, r + limbs, a, n * LPP, b % 64, limbs % LPP, size - limbs);
    ghost var U: seq<Limb> := mem[..];
    TopPosition(b, n, done);
    ClearUp(mem, r, limbs);
    ValFrame(U, mem[..], r, r + limbs, r + limbs, done);
    ShlFinish(mem[..], U, r, b, n, done, top, Val(S, a, n * LPP), full);
  }

  /** The limbs shifted by less than one limb, and zeros above them as far as size. */
  method ShlAbove(mem: array<Limb>, rl: nat, a: nat, n: nat, bits: nat, offset: nat, size: nat)
    returns (full: bool, ghost done: nat, ghost top: nat)
    requires bits < 64 && offset < LPP <= n && (if bits > 0 then n + 1 else n) <= size
    requires Inside(mem, a, n) && Inside(mem, rl, size) && (a <= rl || rl + size <= a)
    modifies mem
    ensures done == if bits > 0 then n + 1 else n
    ensures top == if bits > 0 then rl + n - offset else rl + n - (if offset != 0 then offset else LPP)
    ensures Val(mem[..], rl, done) == Val(old(mem[..]), a, n) * Pow2(bits) && AllZero(mem[..], rl + done, rl + size)
    ensures SameOutside(old(mem[..]), mem[..], rl, rl + size)
    ensures full <==> !AllZero(mem[..], top, rl + done)
  {
    ghost var S: seq<Limb> := mem[..];
    ClearDown(mem, rl, size, n);
    ValFrame(S, mem[..], rl + n, rl + size, a, n);
    full, done, top := ShlLimbs(mem, rl, a, n, bits, offset);
  }

  method ShlLimbs(mem: array<Limb>, rl: nat, a: nat, n: nat, bits: nat, offset: nat)
    returns (full: bool, ghost done: nat, ghost top: nat)
    requires bits < 64 && offset < LPP <= n
    requires Inside(mem, a, n) && Inside(mem, rl, if bits > 0 then n + 1 else n)
    requires a <= rl || rl + (if bits > 0 then n + 1 else n) <= a
    modifies mem
    ensures done == if bits > 0 then n + 1 else n
    ensures top == if bits > 0 then rl + n - offset else rl + n - (if offset != 0 then offset else LPP)
    ensures Val(mem[..], rl, done) == Val(old(mem[..]), a, n) * Pow2(bits)
    ensures SameOutside(old(mem[..]), mem[..], rl, rl + done)
    ensures full <==> !AllZero(mem[..], top, rl + done)
  {
    if bits > 0 {
      full := ShlBits(mem, a, rl, n, bits, offset + 1);
      done, top := n + 1, rl + n - offset;
    } else {
      full := ShlWords(mem, a, rl, n, if offset != 0 then offset else LPP);
      done, top := n, rl + n - (if offset != 0 then offset else LPP);
      assert Pow2(0) == 1;
    }
  }

  /** The limbs the first loop looks at are those of the top packet of the result. */
  lemma TopPosition(b: nat, n: nat, done: nat)
    requires n > 0 && done == if b % 64 > 0 then n * LPP + 1 else n * LPP
    ensures var m := n + Ceil128(b);
      && b / 64 + done <= m * LPP
      && (m - 1) * LPP == if b % 64 > 0 then b / 64 + n * LPP - b / 64 % LPP
                          else b / 64 + n * LPP - (if b / 64 % LPP != 0 then b / 64 % LPP else LPP)
  {
  }

  lemma ShlFinish(s: seq<Limb>, u: seq<Limb>, r: nat, b: nat, n: nat, done: nat, top: nat, v: int, full: bool)
    requires n > 0 && r + (n + Ceil128(b)) * LPP <= |s|
    requires done == if b % 64 > 0 then n * LPP + 1 else n * LPP
    requires Val(s, r + b / 64, done) == v * Pow2(b % 64)
    requires AllZero(s, r, r + b / 64) && SameOutside(u, s, r, r + b / 64)
    requires AllZero(u, r + b / 64 + done, r + (n + Ceil128(b)) * LPP)
    requires top == if b % 64 > 0 then r + b / 64 + n * LPP - b / 64 % LPP
                    else r + b / 64 + n * LPP - (if b / 64 % LPP != 0 then b / 64 % LPP else LPP)
    requires full <==> !AllZero(u, top, r + b / 64 + done)
    ensures var m := n + Ceil128(b);
      && Val(s, r, m * LPP) == v * Pow2(b)
      && (full <==> Pw((m - 1) * LPP) <= v * Pow2(b))
      && (!full ==> Val(s, r, (m - 1) * LPP) == v * Pow2(b))
  {
    var m := n + Ceil128(b);
    ShlValue(s, r, done, v, b);
    ValTrim(s, r, b / 64 + done, m * LPP);
    TopPacket(s, r, m);
    TopPosition(b, n, done);
    assert s[top] == u[top] && s[top + 1] == u[top + 1];
  }

  // ----- right shift -----

  lemma ShrArithmetic(v: int, q: int, rem: int, w: int, s: int, q': int, l: int, p: int, e: int, x: int)
    requires p * (v + q * x) + rem == w
    requires p * e == B && s * e == B * q' + l
    ensures p * ((v + x * (l + q)) + q' * (B * x)) + rem == w + (B * x) * s
  {
    assert p * (s * e) == s * B;
    assert p * (s * e) == p * (B * q') + p * l;
    assert p * (x * l) + p * (q' * (B * x)) == x * (p * l + p * (B * q'));
    assert p * (x * q) == p * (q * x);
  }

  /** i limbs are read; with the pending high half q the result so far is their value shifted. */
  ghost predicate ShrInv(S: seq<Limb>, T: seq<Limb>, r: nat, a: nat, i: nat, n: nat, q: Limb, bits: nat) {
    && 0 < bits < 64 && 1 <= i <= n && |S| == |T| && a + n <= |S| && r + n <= |T|
    && (forall k :: a + i <= k < a + n ==> T[k] == S[k])
    && q < Pow2(64 - bits)
    && Pow2(bits) * (Val(T, r, i - 1) + q * Pw(i - 1)) + S[a] % Pow2(bits) == Val(S, a, i)
  }

  lemma ShrHalves(s: Limb, bits: nat)
    requires 0 < bits < 64
    ensures s * Pow2(64 - bits) == B * Shr(s, bits) + Shl(s, 64 - bits)
    ensures Shr(s, bits) < Pow2(64 - bits) && Shl(s, 64 - bits) % Pow2(64 - bits) == 0
    ensures Pow2(bits) * Pow2(64 - bits) == B
  {
    ShiftHalves(s, 64 - bits);
    Pow2Add(bits, 64 - bits);
    Pow2Word();
  }

  lemma ShrStep(S: seq<Limb>, T: seq<Limb>, r: nat, a: nat, i: nat, n: nat, q: Limb, bits: nat)
    requires ShrInv(S, T, r, a, i, n, q, bits) && i < n && Ascending(r, a, n)
    ensures var l := Shl(S[a + i], 64 - bits);
      && Or(l, q) == l + q < B
      && ShrInv(S, T[r + i - 1 := l + q], r, a, i + 1, n, Shr(S[a + i], bits), bits)
  {
    var s := S[a + i];
    var l, q' := Shl(s, 64 - bits), Shr(s, bits);
    ShrHalves(s, bits);
    LowBitsFree(l, 64 - bits, q);
    ValFrame(T, T[r + i - 1 := l + q], r + i - 1, r + i, r, i - 1);
    ShrArithmetic(Val(T, r, i - 1), q, S[a] % Pow2(bits), Val(S, a, i), s, q', l, Pow2(bits), Pow2(64 - bits), Pw(i - 1));
  }

  lemma ShrStart(S: seq<Limb>, r: nat, a: nat, n: nat, bits: nat)
    requires 0 < bits < 64 && 1 <= n && a + n <= |S| && r + n <= |S|
    ensures ShrInv(S, S, r, a, 1, n, Shr(S[a], bits), bits)
  {
    ShrHalves(S[a], bits);
    assert Val(S, a, 1) == S[a];
  }

  method ShrBits(mem: array<Limb>, r: nat, a: nat, n: nat, bits: nat)
    requires 0 < bits < 64 && 1 <= n && Inside(mem, a, n) && Inside(mem, r, n) && Ascending(r, a, n)
    modifies mem
    ensures Val(mem[..], r, n) == Val(old(mem[..]), a, n) / Pow2(bits)
    ensures SameOutside(old(mem[..]), mem[..], r, r + n)
  {
    ghost var S: seq<Limb> := mem[..];
    var q := Shr(mem[a], bits);
    ShrStart(S, r, a, n, bits);
    var i := 1;
    while i < n
      invariant 1 <= i <= n
      invariant ShrInv(S, mem[..], r, a, i, n, q, bits)
      invariant SameOutside(S, mem[..], r, r + i - 1)
    {
      ghost var T: seq<Limb> := mem[..];
      ShrStep(S, T, r, a, i, n, q, bits);
      var s := mem[a + i];
      assert s == S[a + i];
      mem[r + i - 1] := Or(Shl(s, 64 - bits), q);
      assert mem[..] == T[r + i - 1 := Shl(s, 64 - bits) + q];
      q := Shr(s, bits);
      i := i + 1;
    }
    ghost var T: seq<Limb> := mem[..];
    ShrEnd(S, T, r, a, n, q, bits);
    mem[r + n - 1] := q;
    assert mem[..] == T[r + n - 1 := q];
  }

  lemma ShrEnd(S: seq<Limb>, T: seq<Limb>, r: nat, a: nat, n: nat, q: Limb, bits: nat)
    requires ShrInv(S, T, r, a, n, n, q, bits)
    ensures Val(T[r + n - 1 := q], r, n) == Val(S, a, n) / Pow2(bits)
  {
    var T' := T[r + n - 1 := q];
    ValFrame(T, T', r + n - 1, r + n, r, n - 1);
    Commute(Pw(n - 1), q);
    QuotientOf(Pow2(bits), Val(T', r, n), S[a] % Pow2(bits), Val(S, a, n));
  }

  lemma Commute(x: int, y: int)
    ensures x * y == y * x
  {
  }

  lemma QuotientOf(p: int, v: int, rem: int, w: int)
    requires 0 <= rem < p && p * v + rem == w
    ensures v == w / p
  {
    DivUnique(w, p, v, rem);
  }

  lemma TwoStepQuotient(lo: int, x: int, hi: int, p: int)
    requires 0 <= lo < x && 0 < p && 0 <= hi
    ensures x * p > 0 && (lo + x * hi) / (x * p) == hi / p
  {
    var q, t := hi / p, hi % p;
    assert hi == q * p + t;
    assert x * hi == q * (x * p) + x * t;
    MulLe(0, x, 0, t);
    MulLe(x, x, t + 1, p);
    MulLe(1, x, 1, p);
    assert x * (t + 1) == x * t + x;
    DivUnique(lo + x * hi, x * p, q, lo + x * t);
  }

  /** Dropping whole limbs, then bits, is dividing by the whole power. */
  lemma ShrValue(s: seq<Limb>, a: nat, m: nat, b: nat)
    requires a + b / 64 + m <= |s|
    ensures Val(s, a, b / 64 + m) / Pow2(b) == Val(s, a + b / 64, m) / Pow2(b % 64)
  {
    Pow2Split(b);
    ValSplit(s, a, b / 64, m);
    ValBound(s, a, b / 64);
    ValBound(s, a + b / 64, m);
    TwoStepQuotient(Val(s, a, b / 64), Pw(b / 64), Val(s, a + b / 64, m), Pow2(b % 64));
  }

  lemma ShrAll(s: seq<Limb>, a: nat, n: nat, b: nat)
    requires a + n <= |s| && n <= b / 64
    ensures Val(s, a, n) / Pow2(b) == 0
  {
    ValBound(s, a, n);
    PwMono(n, b / 64);
    Pow2Split(b);
    MulLe(Pw(b / 64), Pw(b / 64), 1, Pow2(b % 64));
    DivUnique(Val(s, a, n), Pow2(b), 0, Val(s, a, n));
  }

  /** Completes the top packet with a zero limb if need be, and looks whether it is in use. */
  method ShrLength(mem: array<Limb>, r: nat, odd: nat, m0: nat, ghost k: nat) returns (rn: nat)
    requires odd < LPP && 0 < m0 && m0 + odd == k * LPP && Inside(mem, r, m0 + odd)
    modifies mem
    ensures var v := Val(old(mem[..]), r, m0);
      && rn == (if Pw((k - 1) * LPP) <= v then k else k - 1)
      && Val(mem[..], r, rn * LPP) == v && Val(mem[..], r, k * LPP) == v
    ensures SameOutside(old(mem[..]), mem[..], r + m0, r + m0 + odd)
  {
    ghost var S: seq<Limb> := mem[..];
    var j, m := m0, m0;
    var i := m - LPP;
    if odd > 0 {
      i := i + odd;
      mem[r + m] := 0;
      m := m + 1;
    }
    ValFrame(S, mem[..], r + m0, r + m0 + odd, r, m0);
    ValTrim(mem[..], r, m0, k * LPP);
    TopPacket(mem[..], r, k);
    m := m / LPP;
    while i < j
      invariant (k - 1) * LPP <= i <= j
      invariant forall x :: r + (k - 1) * LPP <= x < r + i ==> mem[x] == 0
    {
      if mem[r + i] != 0 { return m; }
      i := i + 1;
    }
    rn := m - 1;
  }

  lemma PacketsLeft(n: nat, b: nat)
    requires n * LPP > b / 64
    ensures 0 < n - b / 128 && (n - b / 128) * LPP == n * LPP - b / 64 + b / 64 % LPP
  {
  }

  method PShr(mem: array<Limb>, r: nat, a: nat, b: nat, n: nat) returns (rn: nat)
    requires Inside(mem, a, n * LPP)
    requires n * LPP > b / 64 ==>
      b / 128 < n && Inside(mem, r, (n - b / 128) * LPP) && Ascending(r, a + b / 64, n * LPP - b / 64)
    modifies mem
    ensures rn <= n
    ensures n * LPP <= b / 64 ==>
      rn == 0 && Val(old(mem[..]), a, n * LPP) / Pow2(b) == 0 && mem[..] == old(mem[..])
    ensures n * LPP > b / 64 ==> var m := n - b / 128; var v := Val(old(mem[..]), a, n * LPP) / Pow2(b);
      rn == (if Pw((m - 1) * LPP) <= v then m else m - 1) && Val(mem[..], r, rn * LPP) == Val(mem[..], r, m * LPP) == v
    ensures n * LPP > b / 64 ==> SameOutside(old(mem[..]), mem[..], r, r + (n - b / 128) * LPP)
  {
    if n * LPP <= b / 64 {
      ShrAll(mem[..], a, n * LPP, b);
      return 0;
    }
    PacketsLeft(n, b);
    rn := ShrPackets(mem, r, a, b, n * LPP, n - b / 128);
  }

  method ShrPackets(mem: array<Limb>, r: nat, a: nat, b: nat, n: nat, ghost m: nat) returns (rn: nat)
    requires b / 64 < n && n - b / 64 + b / 64 % LPP == m * LPP && Inside(mem, a, n) && Inside(mem, r, m * LPP)
    requires Ascending(r, a + b / 64, n - b / 64)
    modifies mem
    ensures var v := Val(old(mem[..]), a, n) / Pow2(b);
      rn == (if Pw((m - 1) * LPP) <= v then m else m - 1) && Val(mem[..], r, rn * LPP) == Val(mem[..], r, m * LPP) == v
    ensures SameOutside(old(mem[..]), mem[..], r, r + m * LPP)
  {
    var bits, limbs := b % 64, b / 64;
    ghost var S: seq<Limb> := mem[..];
    ShrValue(S, a, n - limbs, b);
    ShrLimbs(mem, r, a + limbs, n - limbs, bits);
    rn := ShrLength(mem, r, limbs % LPP, n - limbs, m);
  }

  method ShrLimbs(mem: array<Limb>, r: nat, a: nat, n: nat, bits: nat)
    requires bits < 64 && 1 <= n && Inside(mem, a, n) && Inside(mem, r, n) && Ascending(r, a, n)
    modifies mem
    ensures Val(mem[..], r, n) == Val(old(mem[..]), a, n) / Pow2(bits)
    ensures SameOutside(old(mem[..]), mem[..], r, r + n)
  {
    ghost var S: seq<Limb> := mem[..];
    if bits > 0 {
      ShrBits(mem, r, a, n, bits);
    } else {
      forall k | r <= k < r + n { mem[k] := mem[k - r + a]; }
      ValSame(mem[..], r, S, a, n);
      assert Pow2(0) == 1;
    }
  }

  // ----- lengths -----

  lemma LengthCases(v: int, m: nat)
    requires 0 < m && 0 <= v < Pw(m * LPP) && (m >= 2 ==> Pw((m - 2) * LPP) <= v)
    ensures IsLength(v, if Pw((m - 1) * LPP) <= v then m else m - 1)
  {
    assert (m - 1 - 1) * LPP == (m - 2) * LPP;
  }

  /** For a normalised operand the length PShl returns is the length of the result. */
  lemma ShlIsLength(v: int, n: nat, b: nat)
    requires 0 < n && IsLength(v, n)
    ensures var m := n + Ceil128(b);
      IsLength(v * Pow2(b), if Pw((m - 1) * LPP) <= v * Pow2(b) then m else m - 1)
  {
    var c := Ceil128(b);
    PacketBits(c);
    Pow2Mono(b, 128 * c);
    PwAdd(n * LPP, c * LPP);
    assert n * LPP + c * LPP == (n + c) * LPP;
    ShiftedBelow(v, Pw(n * LPP), Pow2(b), Pw(c * LPP));
    ShlLower(v, n, b);
    LengthCases(v * Pow2(b), n + c);
  }

  lemma ShlLower(v: int, n: nat, b: nat)
    requires 0 < n && Pw((n - 1) * LPP) <= v
    ensures 0 < v * Pow2(b)
    ensures n + Ceil128(b) >= 2 ==> Pw((n + Ceil128(b) - 2) * LPP) <= v * Pow2(b)
  {
    var c, p := Ceil128(b), Pow2(b);
    MulLe(1, v, 1, p);
    if c > 0 {
      PacketBits(c - 1);
      Pow2Mono(128 * (c - 1), b);
      PwAdd((n - 1) * LPP, (c - 1) * LPP);
      MulLe(Pw((n - 1) * LPP), v, Pw((c - 1) * LPP), p);
    } else if n >= 2 {
      MulLe(v, v, 1, p);
      PwMono((n - 2) * LPP, (n - 1) * LPP);
    }
  }

  lemma ShiftedBelow(x: int, x': int, y: int, y': int)
    requires 0 <= x < x' && 0 < y <= y'
    ensures x * y < x' * y'
  {
    MulLt(x, x', y);
    MulLe(x', x', y, y');
  }

  lemma PacketBits(c: nat)
    ensures Pow2(128 * c) == Pw(c * LPP)
  {
    Pow2Limbs(c * LPP);
  }

  /** And the same for PShr. */
  lemma ShrIsLength(v: int, n: nat, b: nat)
    requires IsLength(v, n) && b / 128 < n
    ensures var m := n - b / 128;
      IsLength(v / Pow2(b), if Pw((m - 1) * LPP) <= v / Pow2(b) then m else m - 1)
  {
    ShrUpper(v, n, b, b / 128);
    if n - b / 128 >= 2 { ShrLower(v, n, b, b / 128); }
    LengthCases(v / Pow2(b), n - b / 128);
  }

  lemma ShrUpper(v: int, n: nat, b: nat, c: nat)
    requires 0 <= v < Pw(n * LPP) && c == b / 128 < n
    ensures 0 <= v / Pow2(b) < Pw((n - c) * LPP)
  {
    PacketBits(c);
    Pow2Mono(128 * c, b);
    PwAdd((n - c) * LPP, c * LPP);
    assert (n - c) * LPP + c * LPP == n * LPP;
    QuotientBelow(v, Pow2(b), Pw((n - c) * LPP), Pw(c * LPP));
  }

  lemma ShrLower(v: int, n: nat, b: nat, c: nat)
    requires c == b / 128 && n - c >= 2 && Pw((n - 1) * LPP) <= v
    ensures Pw((n - c - 2) * LPP) <= v / Pow2(b)
  {
    PacketBits(c + 1);
    Pow2Mono(b, 128 * (c + 1));
    PwAdd((n - c - 2) * LPP, (c + 1) * LPP);
    assert (n - c - 2) * LPP + (c + 1) * LPP == (n - 1) * LPP;
    QuotientAbove(v, Pow2(b), Pw((n - c - 2) * LPP), Pw((c + 1) * LPP));
  }

  lemma QuotientBelow(v: int, p: int, x: int, y: int)
    requires 0 <= v < x * y && 0 < y <= p && 0 < x
    ensures 0 <= v / p < x
  {
    var q := v / p;
    assert v == q * p + v % p;
    if q >= x { MulLe(x, q, y, p); }
    if q < 0 { MulLe(1, -q, p, p); }
  }

  lemma QuotientAbove(v: int, p: int, x: int, y: int)
    requires x * y <= v && 0 < p <= y && 0 < x
    ensures x <= v / p
  {
    var q := v / p;
    assert v == q * p + v % p;
    MulLe(x, x, p, y);
    if q < x { MulLe(q + 1, x, p, p); }
  }

  /** Left by b into r, then right by b in place: value and length come back. */
  method ShiftThereAndBack(mem: array<Limb>, r: nat, a: nat, b: nat, n: nat) returns (rn: nat)
    requires Inside(mem, a, n * LPP) && Inside(mem, r, (n + Ceil128(b)) * LPP)
    requires a <= r || Disjoint(r, (n + Ceil128(b)) * LPP, a, n * LPP)
    requires IsLength(Val(mem[..], a, n * LPP), n)
    modifies mem
    ensures rn == n && Val(mem[..], r, n * LPP) == Val(old(mem[..]), a, n * LPP)
  {
    ghost var v, p := Val(mem[..], a, n * LPP), Pow2(b);
    rn := PShl(mem, r, a, b, n);
    if n > 0 {
      ShlIsLength(v, n, b);
      ghost var k := rn;
      BackLength(v, n, b, k);
      rn := PShr(mem, r, r, b, rn);
      DivUnique(v * p, p, v, 0);
      ShrIsLength(v * p, k, b);
      LengthUnique(v, n, rn);
    }
  }

  lemma BackLength(v: int, n: nat, b: nat, k: nat)
    requires 0 < n && IsLength(v, n) && IsLength(v * Pow2(b), k)
    ensures b / 128 < k
  {
    if k <= b / 128 {
      PacketBits(b / 128);
      Pow2Mono(128 * (b / 128), b);
      PwMono(k * LPP, b / 128 * LPP);
      MulLe(1, v, Pow2(b), Pow2(b));
    }
  }
}
