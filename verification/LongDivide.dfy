/** The division loop on limbs: subtract a multiple of the divisor, add it back if that was too much. */
module LongDivide {
  import opened Limbs
  import opened Values
  import opened Memory
  import opened Scan
  import opened AddSub
  import opened DivideLimbs
  import opened LongDivision

  /** One limb of u - q*d: the two carries of the code together are the borrow. */
  method MulSubLimb(q: Limb, x: Limb, c: Limb, y: Limb) returns (z: Limb, c1: Limb)
    ensures z - B * c1 == y - q * x - c
  {
    var p := q * x;
    MulLe(0, q, 0, x);
    MulLe(q, B - 1, x, B - 1);
    z, c1 := SubLimb(p, c, y);
  }

  method SubLimb(p: int, c: Limb, y: Limb) returns (z: Limb, c1: Limb)
    requires 0 <= p <= (B - 1) * (B - 1)
    ensures z - B * c1 == y - p - c
  {
    var p0, p1: Limb := p % B, p / B;
    p0 := Low(p0 + c);
    c1 := Low(p1 + (if p0 < c then 1 else 0));
    z := Low(y - p0);
    c1 := Low(c1 + (if y < z then 1 else 0));
  }

  lemma MulSubStep(S: seq<Limb>, T: seq<Limb>, u: nat, d: nat, i: nat, q: Limb, c: Limb, z: Limb, c': Limb)
    requires u + i < |S| == |T| && d + i < |S|
    requires Val(T, u, i) - c * Pw(i) == Val(S, u, i) - q * Val(S, d, i)
    requires z - B * c' == S[u + i] - q * S[d + i] - c
    ensures Val(T[u + i := z], u, i + 1) - c' * Pw(i + 1) == Val(S, u, i + 1) - q * Val(S, d, i + 1)
  {
    ValFrame(T, T[u + i := z], u + i, u + i + 1, u, i);
    MulSubArithmetic(Val(T, u, i), Val(S, u, i), Val(S, d, i), Pw(i), q, c, c', S[d + i], S[u + i], z);
  }

  lemma MulSubArithmetic(l: int, l': int, t: int, p: int, q: int, c: int, c': int, x: int, y: int, z: int)
    requires l - c * p == l' - q * t && z - B * c' == y - q * x - c
    ensures l + p * z - c' * (B * p) == l' + p * y - q * (t + p * x)
  {
    assert p * (z - B * c') == p * (y - q * x - c);
    assert q * (t + p * x) == q * t + p * (q * x);
  }

  /** u := u - q*d over n limbs; returns the borrow. */
  method MulSub(mem: array<Limb>, u: nat, d: nat, n: nat, q: Limb) returns (c: Limb)
    requires Inside(mem, u, n) && Inside(mem, d, n) && Disjoint(u, n, d, n)
    modifies mem
    ensures Val(mem[..], u, n) - c * Pw(n) == Val(old(mem[..]), u, n) - q * Val(old(mem[..]), d, n)
    ensures SameOutside(old(mem[..]), mem[..], u, u + n)
  {
    ghost var S: seq<Limb> := mem[..];
    c := 0;
    var i := 0;
    while i < n
      invariant 0 <= i <= n
      invariant SameOutside(S, mem[..], u, u + i)
      invariant Val(mem[..], u, i) - c * Pw(i) == Val(S, u, i) - q * Val(S, d, i)
    {
      ghost var T: seq<Limb>, b := mem[..], c;
      var z;
      z, c := MulSubLimb(q, mem[d + i], c, mem[u + i]);
      assert T[u + i] == S[u + i] && T[d + i] == S[d + i];
      MulSubStep(S, T, u, d, i, q, b, z, c);
      mem[u + i] := z;
      assert mem[..] == T[u + i := z];
      i := i + 1;
    }
  }

  /** u := u + d over n limbs; returns the carry. */
  method AddInto(mem: array<Limb>, u: nat, d: nat, n: nat) returns (c: Limb)
    requires Inside(mem, u, n) && Inside(mem, d, n) && Disjoint(u, n, d, n)
    modifies mem
    ensures c <= 1
    ensures Val(mem[..], u, n) + c * Pw(n) == Val(old(mem[..]), u, n) + Val(old(mem[..]), d, n)
    ensures SameOutside(old(mem[..]), mem[..], u, u + n)
  {
    ghost var S: seq<Limb> := mem[..];
    c := 0;
    var i := 0;
    while i < n
      invariant 0 <= i <= n && c <= 1
      invariant SameOutside(S, mem[..], u, u + i)
      invariant Val(mem[..], u, i) + c * Pw(i) == Val(S, u, i) + Val(S, d, i)
    {
      ghost var T: seq<Limb>, b := mem[..], c;
      assert T[u + i] == S[u + i] && T[d + i] == S[d + i];
      var c0 := Low(mem[u + i] + mem[d + i] + c);
      c := if c0 < mem[u + i] || (c0 == mem[u + i] && c != 0) then 1 else 0;
      AddStep(S, T, u, u, i, Val(S, d, i), Val(S, d, i + 1), b, S[d + i], c0, c);
      mem[u + i] := c0;
      assert mem[..] == T[u + i := c0];
      i := i + 1;
    }
  }

  // ----- one pass of the loop -----

  /** Low limbs of d that are known to be zero need not be gone through. */
  lemma SkipLow(s: seq<Limb>, t: seq<Limb>, u: nat, d: nat, k: nat, n: nat)
    requires k <= n && u + n <= |s| == |t| && d + n <= |s|
    requires forall i :: d <= i < d + k ==> s[i] == 0
    requires SameOutside(s, t, u + k, u + n)
    ensures Val(t, u, n) == Val(s, u, k) + Pw(k) * Val(t, u + k, n - k)
    ensures Val(s, u, n) == Val(s, u, k) + Pw(k) * Val(s, u + k, n - k)
    ensures Val(s, d, n) == Pw(k) * Val(s, d + k, n - k)
    ensures Pw(n) == Pw(k) * Pw(n - k)
  {
    ValSplit(t, u, k, n - k);
    ValSplit(s, u, k, n - k);
    ValSplit(s, d, k, n - k);
    ValFrame(s, t, u + k, u + n, u, k);
    ValZero(s, d, k);
    PwAdd(k, n - k);
  }

  lemma ScaleSub(p: int, x: int, y: int, c: int, w: int, q: int, z: int)
    requires x - c * w == y - q * z
    ensures p * x - c * (p * w) == p * y - q * (p * z)
  {
    assert p * (x - c * w) == p * (y - q * z);
    assert p * (c * w) == c * (p * w) && p * (q * z) == q * (p * z);
  }

  method MulSubSkip(mem: array<Limb>, u: nat, d: nat, limbs: nat, n: nat, q: Limb) returns (c: Limb)
    requires limbs <= n && Inside(mem, u, n) && Inside(mem, d, n) && Disjoint(u, n, d, n)
    requires forall i :: d <= i < d + limbs ==> mem[i] == 0
    modifies mem
    ensures Val(mem[..], u, n) - c * Pw(n) == Val(old(mem[..]), u, n) - q * Val(old(mem[..]), d, n)
    ensures SameOutside(old(mem[..]), mem[..], u, u + n)
  {
    ghost var S: seq<Limb> := mem[..];
    c := MulSub(mem, u + limbs, d + limbs, n - limbs, q);
    SkipLow(S, mem[..], u, d, limbs, n);
    ScaleSub(Pw(limbs), Val(mem[..], u + limbs, n - limbs), Val(S, u + limbs, n - limbs), c, Pw(n - limbs), q, Val(S, d + limbs, n - limbs));
  }

  method AddSkip(mem: array<Limb>, u: nat, d: nat, limbs: nat, n: nat) returns (c: Limb)
    requires limbs <= n && Inside(mem, u, n) && Inside(mem, d, n) && Disjoint(u, n, d, n)
    requires forall i :: d <= i < d + limbs ==> mem[i] == 0
    modifies mem
    ensures c <= 1
    ensures Val(mem[..], u, n) + c * Pw(n) == Val(old(mem[..]), u, n) + Val(old(mem[..]), d, n)
    ensures SameOutside(old(mem[..]), mem[..], u, u + n)
  {
    ghost var S: seq<Limb> := mem[..];
    c := AddInto(mem, u + limbs, d + limbs, n - limbs);
    SkipLow(S, mem[..], u, d, limbs, n);
    ScaleSub(Pw(limbs), Val(mem[..], u + limbs, n - limbs), Val(S, u + limbs, n - limbs), 0 - c, Pw(n - limbs), -1, Val(S, d + limbs, n - limbs));
  }

  /** The quotient estimate and the limbs <e,h1,h0> it leaves; e is only ever set by the repair. */
  method EstimateDigit(u1: Limb, u0: Limb, x: Limb, d1: Limb, d0: Limb, v: Limb, repaired: bool)
    returns (qhat: Limb, e: Limb, h1: Limb, h0: Limb)
    ensures (qhat, e * B * B + h1 * B + h0) == Estimate(u1, u0, x, d1, d0, v, repaired)
    ensures e <= 1 && (!repaired ==> e == 0)
  {
    e := 0;
    if u1 < d1 || u0 < d0 {
      qhat, h1, h0 := DivRem3x2(u1, u0, x, d1, d0, v);
    } else if repaired {
      h0 := Low(d0 + x);
      var c0 := if h0 < x then 1 else 0;
      h1 := Low(d1 + c0);
      e := if h1 < c0 then 1 else 0;
      qhat := B - 1;
    } else {
      h0 := Low(u0 + d0);
      var c0 := if d0 > h0 then 1 else 0;
      var p0 := d0 - (if d0 > 0 then 1 else 0);
      var c1 := Low(p0 - c0);
      h1 := Low(u1 + d1 - c1);
      qhat := B - 1;
    }
  }

  /** Borrow c from the two top limbs. */
  method BorrowTop(h1: Limb, h0: Limb, c: Limb) returns (u1: Limb, u0: Limb, b: Limb)
    ensures u1 * B + u0 - b * B * B == h1 * B + h0 - c && b <= 1
  {
    var c0 := if h0 < c then 1 else 0;
    u0 := Low(h0 - c);
    b := if h1 < c0 then 1 else 0;
    u1 := Low(h1 - c0);
  }

  /** The limbs of a number put together from a low part and two limbs. */
  lemma SplitTop(n: nat, l: int, h1: Limb, h0: Limb)
    requires 0 <= l < Pw(n)
    ensures var x := l + Pw(n) * (h1 * B + h0);
      && 0 <= x < Pw(n + 2) && x % Pw(n) == l
      && Top(n, x) == h1 && Second(n, x) == h0
  {
    var k, x := Pw(n), l + Pw(n) * (h1 * B + h0);
    DivUnique(x, k, h1 * B + h0, l);
    MulLe(0, k, 0, h1 * B + h0);
    MulLe(k, k, h1 * B + h0 + 1, B * B);
    assert k * (h1 * B + h0 + 1) == k * (h1 * B + h0) + k;
    TopTwo(x, k, h1 * B + h0, l);
  }

  /** The value in memory after the subtraction, given the borrows. */
  lemma AfterSubtract(l: int, l': int, k: int, c: int, q: int, t: int, h: int, u: int, b: int, e: int)
    requires l' - c * k == l - q * t && u - b * B * B == h - c
    ensures l + k * (e * B * B + h) - q * t == l' + k * u + (e - b) * (B * (B * k))
  {
    assert k * (u - b * B * B) == k * (h - c);
    assert k * (e * B * B + h) == k * h + e * (B * (B * k));
  }

  lemma LowParts(S: seq<Limb>, u: nat, d: nat, n: nat)
    requires u + n + 1 <= |S| && d + n + 2 <= |S|
    ensures Val(S, u, n + 1) % Pw(n) == Val(S, u, n) && Low(Val(S, u, n + 1) / Pw(n)) == S[u + n]
    ensures Val(S, d, n + 2) % Pw(n) == Val(S, d, n)
    ensures Top(n, Val(S, d, n + 2)) == S[d + n + 1] && Second(n, Val(S, d, n + 2)) == S[d + n]
  {
    ValBound(S, u, n);
    ValBound(S, d, n);
    DivUnique(Val(S, u, n + 1), Pw(n), S[u + n], Val(S, u, n));
    TwoMore(S, d, n, S[d + n + 1]);
    SplitTop(n, Val(S, d, n), S[d + n + 1], S[d + n]);
  }

  /** n + 1 limbs and a register above them. */
  lemma TwoMore(S: seq<Limb>, d: nat, n: nat, h: Limb)
    requires d + n + 1 <= |S|
    ensures Val(S, d, n + 1) + Pw(n + 1) * h == Val(S, d, n) + Pw(n) * (h * B + S[d + n])
  {
    assert Pw(n + 1) * h == Pw(n) * (h * B);
  }

  lemma WithRegister(S: seq<Limb>, u: nat, n: nat, h: Limb)
    requires u + n + 1 <= |S|
    ensures var r := Val(S, u, n + 1) + Pw(n + 1) * h;
      && 0 <= r < Pw(n + 2) && Top(n, r) == h && Second(n, r) == S[u + n] && r % Pw(n) == Val(S, u, n)
  {
    ValBound(S, u, n);
    TwoMore(S, u, n, h);
    SplitTop(n, Val(S, u, n), h, S[u + n]);
  }

  /** Multiply, subtract, and borrow from the top; b is the borrow out of n + 2 limbs. */
  method SubtractDigit(mem: array<Limb>, u: nat, d: nat, limbs: nat, n: nat, qhat: Limb, ghost e: Limb, h1: Limb, h0: Limb)
    returns (u1: Limb, u0: Limb, b: Limb)
    requires limbs <= n && Inside(mem, u, n + 1) && Inside(mem, d, n + 2) && Disjoint(u, n + 1, d, n + 2)
    requires forall i :: d <= i < d + limbs ==> mem[i] == 0
    modifies mem
    ensures b <= 1 && mem[u + n] == u0
    ensures Subtracted(n, Val(old(mem[..]), d, n + 2), Val(old(mem[..]), u, n + 1), qhat, e * B * B + h1 * B + h0)
         == Val(mem[..], u, n + 1) + Pw(n + 1) * u1 + (e - b) * Pw(n + 2)
    ensures SameOutside(old(mem[..]), mem[..], u, u + n + 1)
  {
    ghost var S: seq<Limb> := mem[..];
    LowParts(S, u, d, n);
    var c := MulSubSkip(mem, u, d, limbs, n, qhat);
    u1, u0, b := BorrowTop(h1, h0, c);
    ghost var T: seq<Limb> := mem[..];
    AfterSubtract(Val(S, u, n), Val(T, u, n), Pw(n), c, qhat, Val(S, d, n), h1 * B + h0, u1 * B + u0, b, e);
    mem[u + n] := u0;
    assert mem[..] == T[u + n := u0];
    ValFrame(T, mem[..], u + n, u + n + 1, u, n);
    TwoMore(mem[..], u, n, u1);
  }

  /** Everything after the estimate: subtract, and add back if the estimate was too large. */
  method FinishDigit(mem: array<Limb>, u: nat, d: nat, limbs: nat, n: nat, qhat: Limb, e: Limb, h1: Limb, h0: Limb, repaired: bool)
    returns (q: Limb, u1: Limb, u0: Limb)
    requires limbs <= n && Inside(mem, u, n + 1) && Inside(mem, d, n + 2) && Disjoint(u, n + 1, d, n + 2)
    requires forall i :: d <= i < d + limbs ==> mem[i] == 0
    requires e <= 1 && (!repaired ==> e == 0)
    requires e == 1 ==> Subtracted(n, Val(mem[..], d, n + 2), Val(mem[..], u, n + 1), qhat, e * B * B + h1 * B + h0) < Pw(n + 2)
    modifies mem
    ensures Pass(q, Val(mem[..], u, n + 1) + Pw(n + 1) * u1, u0)
         == Finish(n, Val(old(mem[..]), d, n + 2), Val(old(mem[..]), u, n + 1), qhat, e * B * B + h1 * B + h0, repaired)
    ensures SameOutside(old(mem[..]), mem[..], u, u + n + 1)
  {
    ghost var S: seq<Limb> := mem[..];
    ghost var a := Subtracted(n, Val(S, d, n + 2), Val(S, u, n + 1), qhat, e * B * B + h1 * B + h0);
    var b;
    u1, u0, b := SubtractDigit(mem, u, d, limbs, n, qhat, e, h1, h0);
    WithRegister(mem[..], u, n, u1);
    ValFrame(S, mem[..], u, u + n + 1, d, n + 2);
    ghost var x := Val(mem[..], u, n + 1) + Pw(n + 1) * u1;
    q := qhat;
    BorrowMeansNegative(a, x, Pw(n + 2), b, e);
    if b != 0 && e == 0 {
      q, u1, u0 := AddBackDigit(mem, u, d, limbs, n, q, u1, u0, repaired);
      ModShift(a + Val(S, d, n + 2), 1, Pw(n + 2));
    }
  }

  lemma BorrowMeansNegative(a: int, x: int, k: int, b: Limb, e: Limb)
    requires a == x + (e - b) * k && 0 <= x < k && b <= 1 && e <= 1 && (e == 1 ==> a < k)
    ensures if b == 1 && e == 0 then a < 0 && x == a + k else a == x
  {
    if e == b { assert (e - b) * k == 0; }
  }

  /** The estimate was one too large. */
  method AddBackDigit(mem: array<Limb>, u: nat, d: nat, limbs: nat, n: nat, qhat: Limb, h1: Limb, h0: Limb, repaired: bool)
    returns (q: Limb, u1: Limb, u0: Limb)
    requires limbs <= n && Inside(mem, u, n + 1) && Inside(mem, d, n + 2) && Disjoint(u, n + 1, d, n + 2)
    requires forall i :: d <= i < d + limbs ==> mem[i] == 0
    modifies mem
    ensures q == Low(qhat - 1)
    ensures var r := Val(mem[..], u, n + 1) + Pw(n + 1) * u1;
      && r == (Val(old(mem[..]), u, n + 1) + Pw(n + 1) * h1 + Val(old(mem[..]), d, n + 2)) % Pw(n + 2)
      && u0 == if repaired then Second(n, r) else h0
    ensures SameOutside(old(mem[..]), mem[..], u, u + n + 1)
  {
    ghost var S: seq<Limb> := mem[..];
    var c := AddSkip(mem, u, d, limbs, n + 1);
    u1 := Low(h1 + mem[d + n + 1] + c);
    q := Low(qhat - 1);
    u0 := if repaired then mem[u + n] else h0;
    AddedBack(S, mem[..], u, d, n, h1, c, u1);
    WithRegister(mem[..], u, n, u1);
  }

  lemma AddedBack(S: seq<Limb>, T: seq<Limb>, u: nat, d: nat, n: nat, h1: Limb, c: Limb, u1: Limb)
    requires u + n + 1 <= |S| == |T| && d + n + 2 <= |S|
    requires Val(T, u, n + 1) + c * Pw(n + 1) == Val(S, u, n + 1) + Val(S, d, n + 1)
    requires c <= 1 && u1 == Low(h1 + S[d + n + 1] + c)
    ensures Val(T, u, n + 1) + Pw(n + 1) * u1
         == (Val(S, u, n + 1) + Pw(n + 1) * h1 + Val(S, d, n + 2)) % Pw(n + 2)
  {
    ValBound(T, u, n + 1);
    CarryOver(Val(S, u, n + 1), Pw(n + 1), h1, Val(S, d, n + 1), S[d + n + 1], Val(T, u, n + 1), c, u1);
  }

  lemma CarryOver(x: int, k: int, h1: Limb, y: int, d1: Limb, z: int, c: Limb, u1: Limb)
    requires 0 < k && z + c * k == x + y && 0 <= z < k && c <= 1 && u1 == Low(h1 + d1 + c)
    ensures z + k * u1 == (x + k * h1 + (y + k * d1)) % (B * k)
  {
    var j := (h1 + d1 + c) / B;
    assert h1 + d1 + c == j * B + u1;
    assert k * (h1 + d1 + c) == j * (B * k) + k * u1;
    MulLe(0, k, 0, u1);
    MulLe(k, k, u1 + 1, B);
    assert k * (u1 + 1) == k * u1 + k;
    DivUnique(x + k * h1 + (y + k * d1), B * k, j, z + k * u1);
  }

  /** One pass of the loop on memory is one Digit. */
  method DigitPass(mem: array<Limb>, u: nat, d: nat, limbs: nat, n: nat, h1: Limb, h0: Limb, v: Limb, repaired: bool)
    returns (q: Limb, u1: Limb, u0: Limb)
    requires limbs <= n && Inside(mem, u, n + 1) && Inside(mem, d, n + 2) && Disjoint(u, n + 1, d, n + 2)
    requires forall i :: d <= i < d + limbs ==> mem[i] == 0
    requires repaired ==> (Divisor(n, Val(mem[..], d, n + 2), v)
      && Val(mem[..], u, n + 1) + Pw(n + 1) * (h1 * B + h0) < B * Val(mem[..], d, n + 2))
    modifies mem
    ensures Pass(q, Held(mem[..], u, n, u1), u0)
         == Digit(n, Val(old(mem[..]), d, n + 2), v, h1, h0, Val(old(mem[..]), u, n + 1), repaired)
    ensures SameOutside(old(mem[..]), mem[..], u, u + n + 1)
  {
    ghost var S: seq<Limb> := mem[..];
    LowParts(S, u, d, n);
    var qhat, e, p1, p0 := EstimateDigit(h1, h0, mem[u + n], mem[d + n + 1], mem[d + n], v, repaired);
    if repaired {
      ValBound(S, u, n + 1);
      ValBound(S, d, n + 2);
      MeantRemainder(n, Val(S, d, n + 2), v, h1, h0, Val(S, u, n + 1));
    }
    q, u1, u0 := FinishDigit(mem, u, d, limbs, n, qhat, e, p1, p0, repaired);
  }

  // ----- the loop -----

  /** The remainder above index u: n + 1 limbs of memory and a register. */
  ghost function Held(s: seq<int>, u: nat, n: nat, u1: int): int
    requires u + n + 1 <= |s|
  {
    Val(s, u, n + 1) + Pw(n + 1) * u1
  }

  /** What a pass is entered with: the limb brought down and the remainder above it. */
  lemma BroughtDown(S: seq<Limb>, u: nat, n: nat, u1: Limb)
    requires u + n + 2 <= |S|
    ensures var r := Held(S, u + 1, n, u1);
      && Val(S, u, n + 1) == S[u] + B * (r % Pw(n)) && Top(n, r) == u1
      && Second(n, r) == S[u + n + 1] && 0 <= r < Pw(n + 2)
  {
    WithRegister(S, u + 1, n, u1);
    ValCons(S, u, n);
  }

  lemma SoundEntry(n: nat, d: int, r: int, y: Limb, v: Limb)
    requires Divisor(n, d, v) && 0 <= r < d
    ensures y + B * (r % Pw(n)) + Pw(n + 1) * (Top(n, r) * B + Second(n, r)) < B * d
  {
    TopLimbs(n, r);
    Regroup(y, r % Pw(n), Pw(n), Top(n, r) * B + Second(n, r), r);
  }

  ghost predicate IsStep(step: (int, Limb, Limb) -> Pass, n: nat, d: int, v: Limb, repaired: bool) {
    forall r: int, u0: Limb, y: Limb {:trigger Step(n, d, v, repaired)(r, u0, y)} ::
      step(r, u0, y) == Step(n, d, v, repaired)(r, u0, y)
  }

  /** The pass that brings down the limb at u. */
  method StepAt(mem: array<Limb>, u: nat, d: nat, limbs: nat, n: nat, h1: Limb, h0: Limb, v: Limb, repaired: bool,
      ghost step: (int, Limb, Limb) -> Pass)
    returns (q: Limb, u1: Limb, u0: Limb)
    requires limbs <= n && Inside(mem, u, n + 2) && Inside(mem, d, n + 2) && Disjoint(u, n + 2, d, n + 2)
    requires forall k :: d <= k < d + limbs ==> mem[k] == 0
    requires var r := Held(mem[..], u + 1, n, h1);
      repaired ==> (Divisor(n, Val(mem[..], d, n + 2), v) && r < Val(mem[..], d, n + 2) && h0 == Second(n, r))
    requires IsStep(step, n, Val(mem[..], d, n + 2), v, repaired)
    modifies mem
    ensures Pass(q, Held(mem[..], u, n, u1), u0) == step(Held(old(mem[..]), u + 1, n, h1), h0, old(mem[u]))
    ensures SameOutside(old(mem[..]), mem[..], u, u + n + 1)
  {
    ghost var S: seq<Limb> := mem[..];
    ghost var r, t := Held(S, u + 1, n, h1), Val(S, d, n + 2);
    BroughtDown(S, u, n, h1);
    if repaired { SoundEntry(n, t, r, S[u], v); }
    q, u1, u0 := DigitPass(mem, u, d, limbs, n, h1, h0, v, repaired);
    StepIs(n, t, v, repaired, r, h0, S[u]);
  }

  lemma StepIs(n: nat, d: int, v: Limb, repaired: bool, r: int, u0: Limb, y: Limb)
    ensures Step(n, d, v, repaired)(r, u0, y) == Digit(n, d, v, Top(n, r), u0, y + B * (r % Pw(n)), repaired)
  {
  }

  lemma TopLimb(S: seq<Limb>, u: nat, i: nat)
    requires u + i + 1 <= |S|
    ensures Low(Val(S, u, i + 1) / Pw(i)) == S[u + i] && Val(S, u, i + 1) % Pw(i) == Val(S, u, i)
  {
    ValBound(S, u, i);
    DivUnique(Val(S, u, i + 1), Pw(i), S[u + i], Val(S, u, i));
  }

  lemma RunStep(step: (int, Limb, Limb) -> Pass, S: seq<Limb>, u: nat, i: nat, r: int, u0: Limb, q: int, s: Pass, q': int)
    requires u + i + 1 <= |S| && s == step(r, u0, S[u + i]) && q' == s.q + B * q
    ensures Run(step, i + 1, Val(S, u, i + 1), r, u0, q) == Run(step, i, Val(S, u, i), s.r, s.u0, q')
  {
    TopLimb(S, u, i);
  }

  /** Where quotient, dividend and divisor lie; the low limbs of the divisor are zero. */
  ghost predicate Layout(S: seq<Limb>, q: nat, u: nat, d: nat, limbs: nat, n: nat, m: nat) {
    && limbs <= n && q + m <= |S| && u + m + n + 1 <= |S| && d + n + 2 <= |S|
    && Disjoint(u, m + n + 1, d, n + 2) && Disjoint(q, m, u, m + n + 1) && Disjoint(q, m, d, n + 2)
    && forall k :: d <= k < d + limbs ==> S[k] == 0
  }

  /** What is left to do after m - i passes, from remainder r, ends where the whole loop does. */
  ghost predicate Towards(goal: (int, int), step: (int, Limb, Limb) -> Pass, low: int, r: int, u0: Limb, T: seq<Limb>, q: nat, i: nat, m: nat)
    requires i <= m && q + m <= |T|
  {
    Run(step, i, low, r, u0, Val(T, q + i, m - i)) == goal
  }

  /** The quotient limb of one pass joins those above it. */
  lemma OneMore(goal: (int, int), step: (int, Limb, Limb) -> Pass, S: seq<Limb>, u: nat, T: seq<Limb>, U: seq<Limb>,
      q: nat, i: nat, m: nat, r: int, u0: Limb, r': int, v0: Limb)
    requires i < m && q + m <= |T| == |U| && u + m <= |S|
    requires Towards(goal, step, Val(S, u, i + 1), r, u0, T, q, i + 1, m)
    requires forall k :: q + i + 1 <= k < q + m ==> U[k] == T[k]
    requires Pass(U[q + i], r', v0) == step(r, u0, S[u + i])
    ensures Towards(goal, step, Val(S, u, i), r', v0, U, q, i, m)
  {
    ValCons(U, q + i, m - i - 1);
    ValSame(U, q + i + 1, T, q + i + 1, m - i - 1);
    RunStep(step, S, u, i, r, u0, Val(T, q + i + 1, m - i - 1), Pass(U[q + i], r', v0), Val(U, q + i, m - i));
  }

  /** The remainder is below the divisor and the register is its second limb. */
  ghost predicate Sound(n: nat, d: int, r: int, u0: Limb) {
    r < d && u0 == Second(n, r)
  }

  /** The pass for quotient limb i; S is the memory before the loop. */
  method QuotientLimb(mem: array<Limb>, q: nat, u: nat, d: nat, limbs: nat, n: nat, i: nat, ghost m: nat, h1: Limb, h0: Limb,
      v: Limb, repaired: bool, ghost goal: (int, int), ghost step: (int, Limb, Limb) -> Pass, ghost S: seq<Limb>)
    returns (u1: Limb, u0: Limb)
    requires i < m && Layout(S, q, u, d, limbs, n, m) && SameOutside2(S, mem[..], q + i + 1, q + m, u + i + 1, u + m + n)
    requires IsStep(step, n, Val(S, d, n + 2), v, repaired)
    requires repaired ==> Divisor(n, Val(S, d, n + 2), v)
    requires Towards(goal, step, Val(S, u, i + 1), Held(mem[..], u + i + 1, n, h1), h0, mem[..], q, i + 1, m)
    requires repaired ==> Sound(n, Val(S, d, n + 2), Held(mem[..], u + i + 1, n, h1), h0)
    modifies mem
    ensures SameOutside2(S, mem[..], q + i, q + m, u + i, u + m + n)
    ensures Towards(goal, step, Val(S, u, i), Held(mem[..], u + i, n, u1), u0, mem[..], q, i, m)
    ensures repaired ==> Sound(n, Val(S, d, n + 2), Held(mem[..], u + i, n, u1), u0)
  {
    ghost var T: seq<Limb> := mem[..];
    ghost var r := Held(T, u + i + 1, n, h1);
    ValSame(T, d, S, d, n + 2);
    var x;
    x, u1, u0 := StepAt(mem, u + i, d, limbs, n, h1, h0, v, repaired, step);
    ghost var U: seq<Limb> := mem[..];
    mem[q + i] := x;
    assert mem[..] == U[q + i := x];
    ValFrame(U, mem[..], q + i, q + i + 1, u + i, n + 1);
    OneMore(goal, step, S, u, T, mem[..], q, i, m, r, h0, Held(mem[..], u + i, n, u1), u0);
    if repaired { StaysSound(n, Val(S, d, n + 2), v, T, u + i + 1, h1, h0, S[u + i], step); }
  }

  lemma StaysSound(n: nat, d: int, v: Limb, T: seq<Limb>, u: nat, h1: Limb, h0: Limb, y: Limb, step: (int, Limb, Limb) -> Pass)
    requires Divisor(n, d, v) && u + n + 1 <= |T| && Sound(n, d, Held(T, u, n, h1), h0)
    requires IsStep(step, n, d, v, true)
    ensures var s := step(Held(T, u, n, h1), h0, y); Sound(n, d, s.r, s.u0)
  {
    WithRegister(T, u, n, h1);
    StepMeant(n, d, v, Held(T, u, n, h1), y);
    assert step(Held(T, u, n, h1), h0, y) == Step(n, d, v, true)(Held(T, u, n, h1), h0, y);
  }

  /** All m passes. */
  method DivideLoop(mem: array<Limb>, q: nat, u: nat, d: nat, m: nat, limbs: nat, n: nat, h1: Limb, h0: Limb, v: Limb, repaired: bool,
      ghost step: (int, Limb, Limb) -> Pass)
    returns (u1: Limb)
    requires Layout(mem[..], q, u, d, limbs, n, m)
    requires IsStep(step, n, Val(mem[..], d, n + 2), v, repaired)
    requires repaired ==> Divisor(n, Val(mem[..], d, n + 2), v)
    requires repaired ==> Sound(n, Val(mem[..], d, n + 2), Held(mem[..], u + m, n, h1), h0)
    modifies mem
    ensures SameOutside2(old(mem[..]), mem[..], q, q + m, u, u + m + n)
    ensures (Val(mem[..], q, m), Held(mem[..], u, n, u1))
      == Run(step, m, Val(old(mem[..]), u, m), Held(old(mem[..]), u + m, n, h1), h0, 0)
  {
    ghost var S: seq<Limb> := mem[..];
    ghost var goal := Run(step, m, Val(S, u, m), Held(S, u + m, n, h1), h0, 0);
    var u0;
    u1, u0 := h1, h0;
    var i := m;
    while i > 0
      invariant 0 <= i <= m && SameOutside2(S, mem[..], q + i, q + m, u + i, u + m + n)
      invariant Towards(goal, step, Val(S, u, i), Held(mem[..], u + i, n, u1), u0, mem[..], q, i, m)
      invariant repaired ==> Sound(n, Val(S, d, n + 2), Held(mem[..], u + i, n, u1), u0)
    {
      i := i - 1;
      u1, u0 := QuotientLimb(mem, q, u, d, limbs, n, i, m, u1, u0, v, repaired, goal, step, S);
    }
  }

  // ----- the kernel -----

  lemma AtLeastTop(n: nat, a: int, d: int)
    requires 0 <= d <= a < Pw(n + 2)
    ensures Top(n, d) * B + Second(n, d) <= Top(n, a) * B + Second(n, a)
  {
    if d < a { TopNotAbove(n, a, d); }
  }

  lemma TwoTop(S: seq<Limb>, d: nat, n: nat)
    requires d + n + 2 <= |S|
    ensures Top(n, Val(S, d, n + 2)) == S[d + n + 1] && Second(n, Val(S, d, n + 2)) == S[d + n]
    ensures 0 <= Val(S, d, n + 2) < Pw(n + 2)
  {
    WithRegister(S, d, n, S[d + n + 1]);
  }

  /** The dividend's top is made smaller than the divisor; qh is the quotient's limb above m. */
  method AdjustTop(mem: array<Limb>, u: nat, d: nat, n: nat, dn: nat) returns (qh: Limb)
    requires n + 2 == dn * LPP && Inside(mem, u, n + 2) && Inside(mem, d, n + 2) && Disjoint(u, n + 2, d, n + 2)
    requires HALF * Pw(n + 1) <= Val(mem[..], d, n + 2)
    modifies mem
    ensures qh == if Val(old(mem[..]), u, n + 2) >= Val(old(mem[..]), d, n + 2) then 1 else 0
    ensures Val(mem[..], u, n + 2) == Val(old(mem[..]), u, n + 2) - qh * Val(old(mem[..]), d, n + 2)
    ensures 0 <= Val(mem[..], u, n + 2) < Val(old(mem[..]), d, n + 2)
    ensures SameOutside(old(mem[..]), mem[..], u, u + n + 2)
  {
    ghost var S: seq<Limb> := mem[..];
    TwoTop(S, u, n);
    TwoTop(S, d, n);
    qh := 0;
    if Val(S, u, n + 2) >= Val(S, d, n + 2) { AtLeastTop(n, Val(S, u, n + 2), Val(S, d, n + 2)); }
    var u1, u0 := mem[u + n + 1], mem[u + n];
    if u1 > mem[d + n + 1] || (u1 == mem[d + n + 1] && u0 >= mem[d + n]) {
      var c := PCmp(mem, u, d, dn);
      if c >= 0 {
        var b := PSubA(mem, u, d, dn, dn);
        qh := 1;
        ValBound(mem[..], u, n + 2);
        assert HALF * Pw(n + 1) * 2 == Pw(n + 2);
      }
    }
  }

  /** Storing the top limb completes the remainder. */
  lemma StoreTop(T: seq<Limb>, u: nat, n: nat, u1: Limb)
    requires u + n + 2 <= |T|
    ensures Val(T[u + n + 1 := u1], u, n + 2) == Held(T, u, n, u1)
  {
    ValFrame(T, T[u + n + 1 := u1], u + n + 1, u + n + 2, u, n + 1);
  }

  lemma StepIsStep(n: nat, d: int, v: Limb, repaired: bool) returns (step: (int, Limb, Limb) -> Pass)
    ensures step == Step(n, d, v, repaired) && IsStep(step, n, d, v, repaired)
  {
    step := Step(n, d, v, repaired);
  }

  /** The loop and the last store. */
  method DivideAdjusted(mem: array<Limb>, q: nat, u: nat, d: nat, m: nat, limbs: nat, n: nat, v: Limb, repaired: bool,
      ghost step: (int, Limb, Limb) -> Pass)
    requires Layout(mem[..], q, u, d, limbs, n, m) && Inside(mem, u, m + n + 2)
    requires Disjoint(u, m + n + 2, d, n + 2) && Disjoint(q, m, u, m + n + 2)
    requires IsStep(step, n, Val(mem[..], d, n + 2), v, repaired)
    requires Divisor(n, Val(mem[..], d, n + 2), v)
    requires Val(mem[..], u + m, n + 2) < Val(mem[..], d, n + 2)
    modifies mem
    ensures SameOutside2(old(mem[..]), mem[..], q, q + m, u, u + m + n + 2)
    ensures var r := Val(old(mem[..]), u + m, n + 2);
      (Val(mem[..], q, m), Val(mem[..], u, n + 2)) == Run(step, m, Val(old(mem[..]), u, m), r, Second(n, r), 0)
  {
    TwoTop(mem[..], u + m, n);
    var u1 := DivideLoop(mem, q, u, d, m, limbs, n, mem[u + m + n + 1], mem[u + m + n], v, repaired, step);
    ghost var U: seq<Limb> := mem[..];
    mem[u + n + 1] := u1;
    assert mem[..] == U[u + n + 1 := u1];
    StoreTop(U, u, n, u1);
    ValFrame(U, mem[..], u + n + 1, u + n + 2, q, m);
  }

  /** The same for the digit step itself. */
  method DivideStepped(mem: array<Limb>, q: nat, u: nat, d: nat, m: nat, limbs: nat, n: nat, v: Limb, repaired: bool)
    requires Layout(mem[..], q, u, d, limbs, n, m) && Inside(mem, u, m + n + 2)
    requires Disjoint(u, m + n + 2, d, n + 2) && Disjoint(q, m, u, m + n + 2)
    requires Divisor(n, Val(mem[..], d, n + 2), v) && Val(mem[..], u + m, n + 2) < Val(mem[..], d, n + 2)
    modifies mem
    ensures SameOutside2(old(mem[..]), mem[..], q, q + m, u, u + m + n + 2)
    ensures var r := Val(old(mem[..]), u + m, n + 2);
      (Val(mem[..], q, m), Val(mem[..], u, n + 2))
        == Run(Step(n, Val(old(mem[..]), d, n + 2), v, repaired), m, Val(old(mem[..]), u, m), r, Second(n, r), 0)
  {
    ghost var step := StepIsStep(n, Val(mem[..], d, n + 2), v, repaired);
    DivideAdjusted(mem, q, u, d, m, limbs, n, v, repaired, step);
  }

  /** What the kernel leaves: qh and q are quotient, r remainder of a dividend with low and a below and above m limbs. */
  ghost predicate KernelResult(n: nat, m: nat, d: int, v: Limb, repaired: bool, low: int, a: int, qh: Limb, q: int, r: int) {
    && qh == (if a >= d then 1 else 0) && 0 <= a - qh * d < d
    && (q, r) == Run(Step(n, d, v, repaired), m, low, a - qh * d, Second(n, a - qh * d), 0)
  }

  /**
   Divides <u> of un + dn packets by the dn packets at d, whose low limbs are zero and whose top bit is set.
   The remainder is left in the low dn packets of u. With repaired false this is the code as it is written.
  */
  method PDivRemR(mem: array<Limb>, q: nat, u: nat, d: nat, un: nat, dn: nat, limbs: nat, v: Limb, repaired: bool)
    returns (qh: Limb)
    requires limbs + 2 < dn * LPP
    requires Layout(mem[..], q, u, d, limbs, dn * LPP - 2, un * LPP) && Inside(mem, u, (un + dn) * LPP)
    requires Disjoint(u, (un + dn) * LPP, d, dn * LPP) && Disjoint(q, un * LPP, u, (un + dn) * LPP)
    requires Divisor(dn * LPP - 2, Val(mem[..], d, dn * LPP), v)
    modifies mem
    ensures SameOutside2(old(mem[..]), mem[..], q, q + un * LPP, u, u + (un + dn) * LPP)
    ensures KernelResult(dn * LPP - 2, un * LPP, Val(old(mem[..]), d, dn * LPP), v, repaired, Val(old(mem[..]), u, un * LPP),
      Val(old(mem[..]), u + un * LPP, dn * LPP), qh, Val(mem[..], q, un * LPP), Val(mem[..], u, dn * LPP))
  {
    ghost var S: seq<Limb> := mem[..];
    var n, m := dn * LPP - 2, un * LPP;
    qh := AdjustTop(mem, u + m, d, n, dn);
    ghost var T: seq<Limb> := mem[..];
    ValSame(T, u, S, u, m);
    ValSame(T, d, S, d, n + 2);
    DivideStepped(mem, q, u, d, m, limbs, n, v, repaired);
    KernelDone(n, m, Val(S, d, n + 2), v, repaired, Val(S, u, m), Val(S, u + m, n + 2), qh, Val(T, u + m, n + 2),
      Val(mem[..], q, m), Val(mem[..], u, n + 2));
  }

  lemma KernelDone(n: nat, m: nat, d: int, v: Limb, repaired: bool, low: int, a: int, qh: Limb, r0: int, q: int, r: int)
    requires qh == (if a >= d then 1 else 0) && r0 == a - qh * d && 0 <= r0 < d
    requires (q, r) == Run(Step(n, d, v, repaired), m, low, r0, Second(n, r0), 0)
    ensures KernelResult(n, m, d, v, repaired, low, a, qh, q, r)
  {
  }

  /** The kernel divides: always when repaired, and as written when no pass but the last goes wrong and the last is TopOk. */
  ghost predicate KernelRight(n: nat, m: nat, d: int, v: Limb, repaired: bool, low: int, a: int) {
    repaired || m == 0 ||
    var step, r := Step(n, d, v, true), if a >= d then a - d else a;
    && Always(step, GoodPass(n, d, v), n, m, low, r)
    && TopOk(n, d, Last(step, n, m, low, r).0, Last(step, n, m, low, r).1)
  }

  lemma {:induction false} KernelDivides(n: nat, m: nat, d: int, v: Limb, repaired: bool, low: int, a: int, qh: Limb, q: int, r: int)
    requires Divisor(n, d, v) && 0 <= low < Pw(m) && KernelResult(n, m, d, v, repaired, low, a, qh, q, r)
    requires KernelRight(n, m, d, v, repaired, low, a)
    ensures IsDivision(low + Pw(m) * a, d, (Pw(m) * qh + q, r))
  {
    var r0 := if a >= d then a - d else a;
    assert r0 == a - qh * d;
    LoopDivides(n, m, d, v, repaired, low, a, r0);
    WithTopLimb(low, Pw(m), a, r0, qh, d, q, r);
  }

  /** What the loop makes of the adjusted remainder r. */
  lemma {:induction false} LoopDivides(n: nat, m: nat, d: int, v: Limb, repaired: bool, low: int, a: int, r: int)
    requires Divisor(n, d, v) && 0 <= low < Pw(m) && KernelRight(n, m, d, v, repaired, low, a)
    requires r == (if a >= d then a - d else a) && 0 <= r < d
    ensures IsDivision(low + Pw(m) * (0 * d + r), d, Run(Step(n, d, v, repaired), m, low, r, Second(n, r), 0))
  {
    if repaired || m == 0 {
      RunMeant(n, d, v, m, low, r, 0);
    } else {
      RunAsWrittenIff(n, d, v, m, low, r, 0);
    }
  }

  lemma WithTopLimb(low: int, p: int, a: int, r0: int, qh: Limb, d: int, q: int, r: int)
    requires r0 == a - qh * d && low + p * (0 * d + r0) == q * d + r
    ensures low + p * a == (p * qh + q) * d + r
  {
    Distribute(p, a - qh * d, qh, d);
    assert (p * qh + q) * d == (p * qh) * d + q * d;
  }
}
