/** Division of packet numbers: normalise, dispatch on the divisor's size, undo the normalisation. */
module Divide {
  import opened Limbs
  import opened Values
  import opened Memory
  import opened Scan
  import opened Shift
  import opened DivideLimbs
  import opened LongDivision
  import opened LongDivide
  import Reciprocal64
  import SmallDivide

  /** A C pointer that may be null. */
  datatype Pointer = Null | At(p: nat)

  /** Shifting b left by bits sets the top bit of its bn packets. */
  ghost predicate Normalises(b: int, bn: nat, bits: nat) {
    bits < 128 && Pw(bn * LPP) <= 2 * (b * Pow2(bits)) && b * Pow2(bits) < Pw(bn * LPP)
  }

  lemma ClzBelowPacket(b: int, bn: nat, bits: nat)
    requires bn > 0 && IsLength(b, bn) && b * Pow2(bits) < Pw(bn * LPP)
    ensures bits < 128
  {
    if bits >= 128 {
      Pow2Mono(128, bits);
      PacketBits(1);
      PwAdd((bn - 1) * LPP, LPP);
      MulLe(Pw((bn - 1) * LPP), b, Pw(LPP), Pow2(bits));
    }
  }

  method LeadingBits(mem: array<Limb>, b: nat, bn: nat) returns (bits: nat)
    requires bn > 0 && Inside(mem, b, bn * LPP) && IsLength(Val(mem[..], b, bn * LPP), bn)
    ensures Normalises(Val(mem[..], b, bn * LPP), bn, bits)
  {
    var r := PClz(mem, b, bn);
    ClzBelowPacket(Val(mem[..], b, bn * LPP), bn, r);
    bits := r % 128;
  }

  // ----- a large divisor -----

  /** The shifted divisor keeps its length, and the shifted dividend gains at most a packet. */
  lemma ShiftedLengths(a: int, an: nat, b: int, bn: nat, bits: nat)
    requires 0 < bn <= an && IsLength(a, an) && IsLength(b, bn) && Normalises(b, bn, bits)
    ensures Ceil128(bits) <= 1
    ensures IsLength(b * Pow2(bits), bn)
    ensures var m := if Pw((an + Ceil128(bits) - 1) * LPP) <= a * Pow2(bits) then an + Ceil128(bits) else an + Ceil128(bits) - 1;
      bn <= m && an <= m <= an + 1 && IsLength(a * Pow2(bits), m)
    ensures var m := bn + Ceil128(bits); bn == if Pw((m - 1) * LPP) <= b * Pow2(bits) then m else m - 1
  {
    ShlIsLength(a, an, bits);
    ShlIsLength(b, bn, bits);
    MulLe(b, b, 1, Pow2(bits));
    MulLe(a, a, 1, Pow2(bits));
    if bits == 0 { assert Pow2(bits) == 1; }
    PwMono((bn - 1) * LPP, bn * LPP);
  }

  /** Shifts dividend and divisor into the scratch space: m packets and then bn packets. */
  method Normalise(mem: array<Limb>, w: nat, a: nat, b: nat, an: nat, bn: nat, bits: nat) returns (m: nat)
    requires 0 < bn <= an && Inside(mem, a, an * LPP) && Inside(mem, b, bn * LPP) && Inside(mem, w, (an + bn + 2) * LPP)
    requires Disjoint(w, (an + bn + 2) * LPP, a, an * LPP) && Disjoint(w, (an + bn + 2) * LPP, b, bn * LPP)
    requires IsLength(Val(mem[..], a, an * LPP), an) && IsLength(Val(mem[..], b, bn * LPP), bn)
    requires Normalises(Val(mem[..], b, bn * LPP), bn, bits)
    modifies mem
    ensures bn <= m && an <= m <= an + 1 && IsLength(Val(old(mem[..]), a, an * LPP) * Pow2(bits), m)
    ensures Val(mem[..], w, m * LPP) == Val(old(mem[..]), a, an * LPP) * Pow2(bits)
    ensures Val(mem[..], w + m * LPP, bn * LPP) == Val(old(mem[..]), b, bn * LPP) * Pow2(bits)
    ensures SameOutside(old(mem[..]), mem[..], w, w + (an + bn + 2) * LPP)
  {
    ghost var S: seq<Limb> := mem[..];
    ShiftedLengths(Val(S, a, an * LPP), an, Val(S, b, bn * LPP), bn, bits);
    m := PShl(mem, w, a, bits, an);
    ghost var T: seq<Limb> := mem[..];
    ValFrame(S, T, w, w + (an + bn + 2) * LPP, b, bn * LPP);
    ShiftDivisor(mem, w + m * LPP, b, bn, bits);
    ValFrame(T, mem[..], w + m * LPP, w + (m + bn + 1) * LPP, w, m * LPP);
  }

  /** The shifted divisor has the same number of packets. */
  method ShiftDivisor(mem: array<Limb>, d: nat, b: nat, bn: nat, bits: nat)
    requires 0 < bn && Inside(mem, b, bn * LPP) && Inside(mem, d, (bn + 1) * LPP) && Disjoint(d, (bn + 1) * LPP, b, bn * LPP)
    requires Ceil128(bits) <= 1 && var m, v := bn + Ceil128(bits), Val(mem[..], b, bn * LPP) * Pow2(bits);
      bn == if Pw((m - 1) * LPP) <= v then m else m - 1
    modifies mem
    ensures Val(mem[..], d, bn * LPP) == Val(old(mem[..]), b, bn * LPP) * Pow2(bits)
    ensures SameOutside(old(mem[..]), mem[..], d, d + (bn + 1) * LPP)
  {
    var n := PShl(mem, d, b, bits, bn);
    assert n == bn;
  }

  /** A shift by whole limbs leaves zero limbs behind. */
  lemma LowLimbZero(s: seq<Limb>, d: nat, n: nat, b: int, bits: nat)
    requires 0 < n && d + n <= |s| && Val(s, d, n) == b * Pow2(bits) && 64 <= bits
    ensures s[d] == 0
  {
    Pow2Add(64, bits - 64);
    Pow2Word();
    ValCons(s, d, n - 1);
    Multiple(b, Pow2(bits - 64), s[d], Val(s, d + 1, n - 1));
  }

  lemma Multiple(b: int, p: int, x: Limb, h: int)
    requires b * (B * p) == x + B * h
    ensures x == 0
  {
    assert b * (B * p) == B * (b * p);
    assert x == B * (b * p - h);
  }

  lemma TopBit(s: seq<Limb>, d: nat, n: nat)
    requires 0 < n && d + n <= |s| && Pw(n) <= 2 * Val(s, d, n)
    ensures HALF <= s[d + n - 1] && HALF * Pw(n - 1) <= Val(s, d, n)
  {
    ValBound(s, d, n - 1);
    TopHalf(Val(s, d, n - 1), s[d + n - 1], Pw(n - 1));
  }

  lemma TopHalf(l: int, x: Limb, p: int)
    requires 0 <= l < p && B * p <= 2 * (l + p * x)
    ensures HALF <= x && HALF * p <= l + p * x
  {
    assert p * (x + 1) == p * x + p;
    if x < HALF { MulLe(p, p, x + 1, HALF); }
    MulLe(p, p, HALF, if x < HALF then HALF else x);
  }

  /** What the loop as written must not meet, in terms of the operands; the repaired loop may meet anything. */
  ghost predicate LoopRight(a: int, an: nat, b: int, bn: nat, repaired: bool)
    requires bn <= an
  {
    repaired || bn <= 1 || forall bits: nat, m: nat, v: Limb {:trigger Normalises(b, bn, bits), KernelArgs(a, bits, m, bn, v)} ::
      Normalises(b, bn, bits) && an <= m <= an + 1 && KernelArgs(a, bits, m, bn, v) && Divisor(bn * LPP - 2, b * Pow2(bits), v) ==>
      var k, x := (m - bn) * LPP, a * Pow2(bits);
      KernelRight(bn * LPP - 2, k, b * Pow2(bits), v, false, x % Pw(k), x / Pw(k))
  }

  /** m is the length of the shifted dividend, and v some reciprocal. */
  ghost predicate KernelArgs(a: int, bits: nat, m: nat, bn: nat, v: Limb) {
    IsLength(a * Pow2(bits), m) && bn <= m
  }

  /** Dividing a*p by b*p gives the same quotient, and p times the remainder. */
  lemma Denormalise(a: int, b: int, p: int, q: int, r: int)
    requires 0 < p && 0 <= a && 0 < b && IsDivision(a * p, b * p, (q, r))
    ensures q == a / b && r / p == a % b && r == (a % b) * p && 0 <= q
  {
    var s := a - q * b;
    Factor(a, b, p, q);
    Scaled(s, b, p);
    DivUnique(a, b, q, s);
    DivUnique(r, p, s, 0);
    if q < 0 { MulLe(1, -q, b, b); }
  }

  lemma Factor(a: int, b: int, p: int, q: int)
    ensures a * p - q * (b * p) == (a - q * b) * p
  {
  }

  lemma Scaled(s: int, b: int, p: int)
    requires 0 < p && 0 <= s * p < b * p
    ensures 0 <= s < b
  {
    if s < 0 { MulLe(1, -s, p, p); }
    if s >= b { MulLe(0, s - b, 0, p); }
  }

  /** The extra quotient limb is 0 when the shifted dividend grew, so an - bn + 1 packets always do. */
  lemma ExtraDigit(a: int, an: nat, b: int, bn: nat, p: int, m: nat, low: int, top: int)
    requires 0 < bn <= an <= m && IsLength(a, an) && IsLength(b, bn) && 0 < p
    requires a * p == low + Pw((m - bn) * LPP) * top && 0 <= low < Pw((m - bn) * LPP) && b * p <= top
    ensures m == an
  {
    if m > an {
      var k := Pw((m - bn) * LPP);
      PwMono((an + 1 - bn) * LPP, (m - bn) * LPP);
      PwAdd((an + 1 - bn) * LPP, (bn - 1) * LPP);
      assert (an + 1 - bn) * LPP + (bn - 1) * LPP == an * LPP;
      MulLe(Pw((an + 1 - bn) * LPP), k, Pw((bn - 1) * LPP), b);
      MulLe(k, k, b * p, top);
      assert k * (b * p) == (k * b) * p;
      MulLt(a, k * b, p);
    }
  }

  /** Dividend of m packets and divisor of bn packets, both shifted left by bits, lie at w. */
  ghost predicate Shifted(s: seq<Limb>, w: nat, m: nat, bn: nat, bits: nat, a: int, an: nat, b: int) {
    && 2 <= bn <= an <= m <= an + 1 && IsLength(a, an) && IsLength(b, bn) && Normalises(b, bn, bits) && IsLength(a * Pow2(bits), m)
    && w + (m + bn) * LPP <= |s|
    && Val(s, w, m * LPP) == a * Pow2(bits) && Val(s, w + m * LPP, bn * LPP) == b * Pow2(bits)
  }

  /** The reciprocal of the shifted divisor's two top limbs; its low limbs are zero. */
  method DivisorRecip(mem: array<Limb>, d: nat, bn: nat, bits: nat, ghost b: int) returns (v: Limb)
    requires 2 <= bn && Normalises(b, bn, bits) && Inside(mem, d, bn * LPP) && Val(mem[..], d, bn * LPP) == b * Pow2(bits)
    ensures Divisor(bn * LPP - 2, b * Pow2(bits), v)
    ensures forall k :: d <= k < d + bits / 64 ==> mem[k] == 0
  {
    TopBit(mem[..], d, bn * LPP);
    if bits >= 64 { LowLimbZero(mem[..], d, bn * LPP, b, bits); }
    TwoTop(mem[..], d, bn * LPP - 2);
    v := Recip3x2(mem[d + bn * LPP - 1], mem[d + bn * LPP - 2]);
  }

  lemma RightHere(a: int, an: nat, b: int, bn: nat, bits: nat, m: nat, v: Limb, repaired: bool, low: int, top: int)
    requires 2 <= bn <= an <= m <= an + 1 && Normalises(b, bn, bits) && IsLength(a * Pow2(bits), m)
    requires Divisor(bn * LPP - 2, b * Pow2(bits), v) && LoopRight(a, an, b, bn, repaired)
    requires a * Pow2(bits) == low + Pw((m - bn) * LPP) * top && 0 <= low < Pw((m - bn) * LPP)
    ensures KernelRight(bn * LPP - 2, (m - bn) * LPP, b * Pow2(bits), v, repaired, low, top)
  {
    DivUnique(a * Pow2(bits), Pw((m - bn) * LPP), top, low);
    assert KernelArgs(a, bits, m, bn, v);
  }

  lemma KernelSound(S: seq<Limb>, w: nat, m: nat, a: int, an: nat, b: int, bn: nat, bits: nat, v: Limb, repaired: bool,
      qh: Limb, q: int, r: int)
    requires Shifted(S, w, m, bn, bits, a, an, b)
    requires Divisor(bn * LPP - 2, b * Pow2(bits), v)
    requires var k := (m - bn) * LPP;
      KernelResult(bn * LPP - 2, k, b * Pow2(bits), v, repaired, Val(S, w, k), Val(S, w + k, bn * LPP), qh, q, r)
    ensures qh <= 1 && (qh == 1 ==> m == an)
    ensures LoopRight(a, an, b, bn, repaired) ==> IsDivision(a * Pow2(bits), b * Pow2(bits), (Pw((m - bn) * LPP) * qh + q, r))
  {
    var k, n := (m - bn) * LPP, bn * LPP - 2;
    var low, top := Val(S, w, k), Val(S, w + k, bn * LPP);
    assert k + bn * LPP == m * LPP;
    ValSplit(S, w, k, bn * LPP);
    ValBound(S, w, k);
    if LoopRight(a, an, b, bn, repaired) {
      RightHere(a, an, b, bn, bits, m, v, repaired, low, top);
      KernelDivides(n, k, b * Pow2(bits), v, repaired, low, top, qh, q, r);
    }
    if qh == 1 { ExtraDigit(a, an, b, bn, Pow2(bits), m, low, top); }
  }

  method Kernel(mem: array<Limb>, q: nat, w: nat, k: nat, bn: nat, bits: nat, repaired: bool, ghost a: int, ghost an: nat, ghost b: int)
    returns (qh: Limb)
    requires Shifted(mem[..], w, k + bn, bn, bits, a, an, b)
    requires Inside(mem, q, (an - bn + 1) * LPP) && Disjoint(q, (an - bn + 1) * LPP, w, (k + bn + bn) * LPP)
    modifies mem
    ensures qh <= 1 && (qh == 1 ==> k + bn == an)
    ensures LoopRight(a, an, b, bn, repaired) ==>
      IsDivision(a * Pow2(bits), b * Pow2(bits), (Pw(k * LPP) * qh + Val(mem[..], q, k * LPP), Val(mem[..], w, bn * LPP)))
    ensures SameOutside2(old(mem[..]), mem[..], q, q + k * LPP, w, w + (k + bn) * LPP)
  {
    ghost var S: seq<Limb> := mem[..];
    ghost var v;
    qh, v := KernelAt(mem, q, w, k, bn, bits, repaired, b);
    KernelSound(S, w, k + bn, a, an, b, bn, bits, v, repaired, qh, Val(mem[..], q, k * LPP), Val(mem[..], w, bn * LPP));
  }

  /** The reciprocal, and the kernel with the divisor behind the dividend. */
  method KernelAt(mem: array<Limb>, q: nat, w: nat, k: nat, bn: nat, bits: nat, repaired: bool, ghost b: int) returns (qh: Limb, ghost v: Limb)
    requires 2 <= bn && Normalises(b, bn, bits) && Inside(mem, w, (k + bn + bn) * LPP) && Inside(mem, q, k * LPP)
    requires Val(mem[..], w + (k + bn) * LPP, bn * LPP) == b * Pow2(bits) && Disjoint(q, k * LPP, w, (k + bn + bn) * LPP)
    modifies mem
    ensures Divisor(bn * LPP - 2, b * Pow2(bits), v)
    ensures KernelResult(bn * LPP - 2, k * LPP, b * Pow2(bits), v, repaired, Val(old(mem[..]), w, k * LPP),
      Val(old(mem[..]), w + k * LPP, bn * LPP), qh, Val(mem[..], q, k * LPP), Val(mem[..], w, bn * LPP))
    ensures SameOutside2(old(mem[..]), mem[..], q, q + k * LPP, w, w + (k + bn) * LPP)
  {
    var d := w + (k + bn) * LPP;
    var recip := DivisorRecip(mem, d, bn, bits, b);
    v := recip;
    qh := PDivRemR(mem, q, w, d, k, bn, bits / 64, recip, repaired);
  }

  method StoreExtra(mem: array<Limb>, q: nat, m: nat, qh: Limb, ghost w: nat, ghost n: nat)
    requires Inside(mem, q, m + LPP) && Inside(mem, w, n) && Disjoint(q, m + LPP, w, n)
    modifies mem
    ensures Val(mem[..], q, m + LPP) == Pw(m) * qh + Val(old(mem[..]), q, m) && Val(mem[..], w, n) == Val(old(mem[..]), w, n)
    ensures SameOutside(old(mem[..]), mem[..], q + m, q + m + LPP)
  {
    ghost var T: seq<Limb> := mem[..];
    PSetU(mem, q + m, qh);
    ValFrame(T, mem[..], q + m, q + m + LPP, w, n);
    ValFrame(T, mem[..], q + m, q + m + LPP, q, m);
    ValSplit(mem[..], q, m, LPP);
  }

  /** Divides the normalised operands; quotient of k packets, remainder in the low bn packets of w. */
  method DivideNormalised(mem: array<Limb>, q: nat, w: nat, m: nat, bn: nat, bits: nat, repaired: bool,
      ghost a: int, ghost an: nat, ghost b: int)
    returns (k: nat)
    requires Shifted(mem[..], w, m, bn, bits, a, an, b)
    requires Inside(mem, q, (an - bn + 1) * LPP) && Disjoint(q, (an - bn + 1) * LPP, w, (m + bn) * LPP)
    modifies mem
    ensures k <= an - bn + 1
    ensures LoopRight(a, an, b, bn, repaired) ==> IsDivision(a * Pow2(bits), b * Pow2(bits), (Val(mem[..], q, k * LPP), Val(mem[..], w, bn * LPP)))
    ensures SameOutside2(old(mem[..]), mem[..], q, q + (an - bn + 1) * LPP, w, w + (m + bn) * LPP)
  {
    k := m - bn;
    var qh := Kernel(mem, q, w, k, bn, bits, repaired, a, an, b);
    if qh != 0 {
      StoreExtra(mem, q, k * LPP, qh, w, bn * LPP);
      k := k + 1;
    }
  }

  /** Outside the quotient, the remainder and the scratch space nothing is written. */
  ghost predicate Untouched(s: seq<int>, t: seq<int>, q: nat, qn: nat, r: Pointer, rn: nat, w: nat, wn: nat) {
    |s| == |t| && forall k :: 0 <= k < |s| && !(q <= k < q + qn) && !(w <= k < w + wn) && !(r.At? && r.p <= k < r.p + rn) ==> t[k] == s[k]
  }

  /** Shifts the remainder back and finds its length. */
  method ShiftBack(mem: array<Limb>, r: Pointer, w: nat, bn: nat, bits: nat) returns (n: nat)
    requires 0 < bn && bits < 128 && Inside(mem, w, bn * LPP)
    requires r.At? ==> Inside(mem, r.p, bn * LPP) && Disjoint(r.p, bn * LPP, w, bn * LPP)
    modifies mem
    ensures var v := Val(old(mem[..]), w, bn * LPP) / Pow2(bits);
      n <= bn && IsLength(v, n) && (r.At? ==> Val(mem[..], r.p, n * LPP) == v)
    ensures Untouched(old(mem[..]), mem[..], 0, 0, r, bn * LPP, w, bn * LPP)
  {
    ghost var v := Val(mem[..], w, bn * LPP);
    var m := PNorm(mem, w, bn);
    if m > 0 { ShrIsLength(v, m, bits); } else { NothingLeft(v, Pow2(bits)); }
    n := PShr(mem, if r.At? then r.p else w, w, bits, m);
  }

  lemma NothingLeft(v: int, p: int)
    requires IsLength(v, 0) && 0 < p
    ensures v == 0 && v / p == 0
  {
    DivUnique(0, p, 0, 0);
  }

  /** hebi_pdivrem with more than one divisor packet; the quotient has m packets. */
  method DivideLarge(mem: array<Limb>, q: nat, r: Pointer, w: nat, wantRn: bool, a: nat, b: nat, an: nat, bn: nat, bits: nat, repaired: bool)
    returns (m: nat, rn: nat)
    requires 2 <= bn <= an && Operands(mem[..], q, r, w, a, b, an, bn)
    requires Normalises(Val(mem[..], b, bn * LPP), bn, bits)
    modifies mem
    ensures m <= an - bn + 1 && (r.At? || wantRn ==> rn <= bn) && (r.At? ==> IsLength(Val(mem[..], r.p, rn * LPP), rn))
    ensures var x, y := Val(old(mem[..]), a, an * LPP), Val(old(mem[..]), b, bn * LPP);
      LoopRight(x, an, y, bn, repaired) ==> Val(mem[..], q, m * LPP) == x / y && RemainderAt(mem[..], r, wantRn, rn, x % y)
    ensures Untouched(old(mem[..]), mem[..], q, (an - bn + 1) * LPP, r, bn * LPP, w, (an + bn + 2) * LPP)
  {
    ghost var S: seq<Limb> := mem[..];
    ghost var x, y := Val(S, a, an * LPP), Val(S, b, bn * LPP);
    var k := Normalise(mem, w, a, b, an, bn, bits);
    m := DivideNormalised(mem, q, w, k, bn, bits, repaired, x, an, y);
    if LoopRight(x, an, y, bn, repaired) {
      Denormalise(x, y, Pow2(bits), Val(mem[..], q, m * LPP), Val(mem[..], w, bn * LPP));
    }
    rn := bn;
    if r.At? || wantRn {
      ghost var T: seq<Limb> := mem[..];
      rn := ShiftBack(mem, r, w, bn, bits);
      ValSame(T, q, mem[..], q, m * LPP);
    }
  }

  /** The remainder, where it is asked for, and its normalised length, if that is. */
  ghost predicate RemainderAt(s: seq<Limb>, r: Pointer, wantRn: bool, rn: nat, rem: int) {
    && (r.At? || wantRn ==> IsLength(rem, rn))
    && (r.At? ==> r.p + rn * LPP <= |s| && Val(s, r.p, rn * LPP) == rem)
  }

  /** Where the operands of a division lie, and that they are normalised. */
  ghost predicate Operands(s: seq<Limb>, q: nat, r: Pointer, w: nat, a: nat, b: nat, an: nat, bn: nat) {
    && 0 < bn <= an && a + an * LPP <= |s| && b + bn * LPP <= |s|
    && q + (an - bn + 1) * LPP <= |s| && w + (an + bn + 2) * LPP <= |s|
    && Disjoint(w, (an + bn + 2) * LPP, a, an * LPP) && Disjoint(w, (an + bn + 2) * LPP, b, bn * LPP)
    && Disjoint(q, (an - bn + 1) * LPP, w, (an + bn + 2) * LPP)
    && Disjoint(q, (an - bn + 1) * LPP, a, an * LPP) && Disjoint(q, (an - bn + 1) * LPP, b, bn * LPP)
    && (r.At? ==> (r.p + bn * LPP <= |s| && Disjoint(r.p, bn * LPP, w, (an + bn + 2) * LPP)
      && Disjoint(r.p, bn * LPP, q, (an - bn + 1) * LPP)
      && Disjoint(r.p, bn * LPP, a, an * LPP) && Disjoint(r.p, bn * LPP, b, bn * LPP)))
    && IsLength(Val(s, a, an * LPP), an) && IsLength(Val(s, b, bn * LPP), bn)
  }

  // ----- a divisor of one packet -----

  /** A divisor of two limbs, shifted left by fewer bits than it has leading zeros. */
  method ShiftPair(b1: Limb, b0: Limb, bits: nat) returns (d1: Limb, d0: Limb)
    requires bits < 64 && (b0 + B * b1) * Pow2(bits) < B * B
    ensures d1 * B + d0 == (b0 + B * b1) * Pow2(bits)
  {
    d1, d0 := b1, b0;
    if bits > 0 {
      ShiftHalves(b1, bits);
      ShiftHalves(b0, bits);
      LowBitsFree(Shl(b1, bits), bits, Shr(b0, 64 - bits));
      PairFits(b0, b1, Pow2(bits), Shr(b1, 64 - bits), Shl(b1, bits), Shr(b0, 64 - bits), Shl(b0, bits));
      d1 := Or(Shl(b1, bits), Shr(b0, 64 - bits));
      d0 := Shl(b0, bits);
    } else {
      assert Pow2(0) == 1;
    }
  }

  lemma PairFits(b0: Limb, b1: Limb, p: int, h1: int, l1: Limb, h0: int, l0: Limb)
    requires (b0 + B * b1) * p < B * B && b1 * p == B * h1 + l1 && b0 * p == B * h0 + l0 && 0 <= h1 && 0 <= h0
    ensures (b0 + B * b1) * p == (l1 + h0) * B + l0
  {
    assert (b0 + B * b1) * p == b0 * p + B * (b1 * p);
  }

  /** Stores a remainder of up to two limbs, if it is not zero. */
  method StoreRemainder(mem: array<Limb>, r: Pointer, rem: Wide) returns (n: nat)
    requires r.At? ==> Inside(mem, r.p, LPP)
    modifies mem
    ensures n <= 1 && IsLength(rem, n) && (r.At? ==> Val(mem[..], r.p, n * LPP) == rem)
    ensures Untouched(old(mem[..]), mem[..], 0, 0, r, LPP, 0, 0)
  {
    n := if rem % B != 0 || rem / B != 0 then 1 else 0;
    Powers();
    if n != 0 && r.At? {
      PSetU2(mem, r.p, rem % B, rem / B);
    }
  }

  method DivideByTwo(mem: array<Limb>, q: nat, a: nat, b: nat, an: nat, bits: nat) returns (rem: Wide)
    requires 0 < an && bits < 64 && Inside(mem, a, an * LPP) && Inside(mem, q, an * LPP) && Inside(mem, b, LPP)
    requires Disjoint(q, an * LPP, a, an * LPP) && Normalises(Val(mem[..], b, LPP), 1, bits)
    modifies mem
    ensures var y := Val(old(mem[..]), b, LPP);
      Val(old(mem[..]), a, an * LPP) == Val(mem[..], q, an * LPP) * y + rem && rem < y
    ensures SameOutside(old(mem[..]), mem[..], q, q + an * LPP)
  {
    ValTwo(mem[..], b);
    Powers();
    ghost var y := Val(mem[..], b, LPP);
    var d1, d0 := ShiftPair(mem[b + 1], mem[b], bits);
    DivUnique(d1 * B + d0, Pow2(bits), y, 0);
    var v := Recip3x2(d1, d0);
    rem := SmallDivide.PDivRemU3x2(mem, q, a, an * LPP, bits, d1, d0, v);
  }

  method DivideByOne(mem: array<Limb>, q: nat, a: nat, b: nat, an: nat, bits: nat) returns (rem: Limb)
    requires 0 < an && 64 <= bits && Inside(mem, a, an * LPP) && Inside(mem, q, an * LPP) && Inside(mem, b, LPP)
    requires Disjoint(q, an * LPP, a, an * LPP) && Normalises(Val(mem[..], b, LPP), 1, bits)
    modifies mem
    ensures var y := Val(old(mem[..]), b, LPP);
      Val(old(mem[..]), a, an * LPP) == Val(mem[..], q, an * LPP) * y + rem && rem < y
    ensures SameOutside(old(mem[..]), mem[..], q, q + an * LPP)
  {
    ValTwo(mem[..], b);
    Powers();
    ghost var y := Val(mem[..], b, LPP);
    Pow2Add(64, bits - 64);
    Pow2Word();
    OneLimb(mem[b], mem[b + 1], Pow2(bits - 64));
    var d0 := Shl(mem[b], bits - 64);
    DivUnique(d0, Pow2(bits - 64), y, 0);
    var v := Reciprocal64.Recip2x1(d0);
    Reciprocal64.Recip2x1Exact(d0);
    RecipIsQuotient(d0, v);
    rem := SmallDivide.PDivRemU2x1(mem, q, a, an * LPP, bits - 64, d0, v);
  }

  lemma OneLimb(b0: Limb, b1: Limb, p: int)
    requires 0 < p && B * B <= 2 * ((b0 + B * b1) * (B * p)) && (b0 + B * b1) * (B * p) < B * B
    ensures b1 == 0 && HALF <= b0 * p < B && Low(b0 * p) == b0 * p
  {
    var y := b0 + B * b1;
    assert y * (B * p) == B * (y * p);
    MulLe(y, y, 1, p);
  }

  // ----- the whole -----

  /**
   Quotient and remainder of a by b, with their normalised lengths. r may be null, and rn is meaningful
   when r is given or the caller wants the length. Whatever the loop as written makes of the operands, what is
   left is normalised and where it should be.
  */
  method PDivRem(mem: array<Limb>, q: nat, r: Pointer, w: nat, wantRn: bool, a: nat, b: nat, an: nat, bn: nat, repaired: bool)
    returns (qn: nat, rn: nat)
    requires Operands(mem[..], q, r, w, a, b, an, bn)
    modifies mem
    ensures qn <= an - bn + 1 && IsLength(Val(mem[..], q, qn * LPP), qn)
    ensures (r.At? || wantRn ==> rn <= bn) && (r.At? ==> IsLength(Val(mem[..], r.p, rn * LPP), rn))
    ensures var x, y := Val(old(mem[..]), a, an * LPP), Val(old(mem[..]), b, bn * LPP);
      LoopRight(x, an, y, bn, repaired) ==> Val(mem[..], q, qn * LPP) == x / y && RemainderAt(mem[..], r, wantRn, rn, x % y)
    ensures Untouched(old(mem[..]), mem[..], q, (an - bn + 1) * LPP, r, bn * LPP, w, (an + bn + 2) * LPP)
  {
    var bits := LeadingBits(mem, b, bn);
    var m;
    if bn * LPP - bits / 64 > 2 {
      m, rn := DivideLarge(mem, q, r, w, wantRn, a, b, an, bn, bits, repaired);
    } else {
      m, rn := DivideSmall(mem, q, r, a, b, an, bits);
    }
    qn := 0;
    if m != 0 {
      qn := PNorm(mem, q, m);
    }
  }

  method DivideSmall(mem: array<Limb>, q: nat, r: Pointer, a: nat, b: nat, an: nat, bits: nat) returns (m: nat, rn: nat)
    requires 0 < an && Inside(mem, a, an * LPP) && Inside(mem, q, an * LPP) && Inside(mem, b, LPP)
    requires Disjoint(q, an * LPP, a, an * LPP) && Normalises(Val(mem[..], b, LPP), 1, bits)
    requires r.At? ==> Inside(mem, r.p, LPP) && Disjoint(r.p, LPP, q, an * LPP)
    modifies mem
    ensures m == an && rn <= 1
    ensures var x, y := Val(old(mem[..]), a, an * LPP), Val(old(mem[..]), b, LPP);
      0 < y && Val(mem[..], q, m * LPP) == x / y && IsLength(x % y, rn) && (r.At? ==> Val(mem[..], r.p, rn * LPP) == x % y)
    ensures Untouched(old(mem[..]), mem[..], q, an * LPP, r, LPP, 0, 0)
  {
    ghost var S: seq<Limb> := mem[..];
    m := an;
    var rem: Wide;
    if LPP - bits / 64 == 2 {
      rem := DivideByTwo(mem, q, a, b, an, bits);
    } else {
      rem := DivideByOne(mem, q, a, b, an, bits);
    }
    ghost var T: seq<Limb> := mem[..];
    DivUnique(Val(S, a, an * LPP), Val(S, b, LPP), Val(T, q, an * LPP), rem);
    rn := StoreRemainder(mem, r, rem);
    ValSame(T, q, mem[..], q, an * LPP);
  }
}
