/** Comparison, normalised length, leading zeros, and the small fill kernels. */
module Scan {
  import opened Limbs
  import opened Values
  import opened Memory

  /** r is the least number of packets that hold v. */
  ghost predicate IsLength(v: int, r: nat) {
    0 <= v < Pw(r * LPP) && (r > 0 ==> Pw((r - 1) * LPP) <= v)
  }

  lemma LengthUnique(v: int, r: nat, t: nat)
    requires IsLength(v, r) && IsLength(v, t)
    ensures r == t
  {
    if r < t { PwMono(r * LPP, (t - 1) * LPP); }
    if t < r { PwMono(t * LPP, (r - 1) * LPP); }
  }

  /** The limb above the equal ones decides. */
  lemma HigherLimbDecides(s: seq<Limb>, a: nat, b: nat, i: nat, n: nat)
    requires i < n && a + n <= |s| && b + n <= |s| && s[a + i] < s[b + i]
    requires forall k :: a + i < k < a + n ==> s[k] == s[k - a + b]
    ensures Val(s, a, n) < Val(s, b, n)
  {
    ValSplit(s, a, i + 1, n - i - 1);
    ValSplit(s, b, i + 1, n - i - 1);
    ValSame(s, a + i + 1, s, b + i + 1, n - i - 1);
    SmallerPrefix(s, a, b, i);
  }

  lemma SmallerPrefix(s: seq<Limb>, a: nat, b: nat, i: nat)
    requires a + i < |s| && b + i < |s| && s[a + i] < s[b + i]
    ensures Val(s, a, i + 1) < Val(s, b, i + 1)
  {
    ValBound(s, a, i);
    ValBound(s, b, i);
    MulLe(Pw(i), Pw(i), s[a + i] + 1, s[b + i]);
  }

  method PCmp(mem: array<Limb>, a: nat, b: nat, n: nat) returns (r: int)
    requires n > 0 && Inside(mem, a, n * LPP) && Inside(mem, b, n * LPP)
    ensures r < 0 <==> Val(mem[..], a, n * LPP) < Val(mem[..], b, n * LPP)
    ensures r > 0 <==> Val(mem[..], a, n * LPP) > Val(mem[..], b, n * LPP)
  {
    var i := n * LPP - 1;
    while true
      invariant 0 <= i < n * LPP
      invariant forall k :: a + i < k < a + n * LPP ==> mem[..][k] == mem[..][k - a + b]
      decreases i
    {
      if mem[a + i] < mem[b + i] {
        HigherLimbDecides(mem[..], a, b, i, n * LPP);
        return -1;
      } else if mem[a + i] > mem[b + i] {
        assert forall k :: b + i < k < b + n * LPP ==> mem[..][k] == mem[..][k - b + a] by {
          forall k | b + i < k < b + n * LPP ensures mem[..][k] == mem[..][k - b + a] {
            assert mem[..][k - b + a] == mem[..][k - b + a - a + b];
          }
        }
        HigherLimbDecides(mem[..], b, a, i, n * LPP);
        return 1;
      }
      if i == 0 { break; }
      i := i - 1;
    }
    ValSame(mem[..], a, mem[..], b, n * LPP);
    r := 0;
  }

  method PNorm(mem: array<Limb>, a: nat, n: nat) returns (r: nat)
    requires n > 0 && Inside(mem, a, n * LPP)
    ensures r <= n && IsLength(Val(mem[..], a, n * LPP), r)
    ensures Val(mem[..], a, r * LPP) == Val(mem[..], a, n * LPP)
  {
    ghost var S: seq<Limb> := mem[..];
    var i := n * LPP - 1;
    r := 0;
    while true
      invariant 0 <= i < n * LPP && r == 0
      invariant forall k :: a + i < k < a + n * LPP ==> S[k] == 0
      decreases i
    {
      if mem[a + i] != 0 {
        r := (i + LPP) / LPP;
        LengthFromTop(S, a, i, r, n);
        return;
      }
      if i == 0 { break; }
      i := i - 1;
    }
    ValTrim(S, a, 0, n * LPP);
  }

  lemma LengthFromTop(s: seq<Limb>, a: nat, i: nat, r: nat, n: nat)
    requires i < n * LPP && r == (i + LPP) / LPP && a + n * LPP <= |s| && s[a + i] != 0
    requires forall k :: a + i < k < a + n * LPP ==> s[k] == 0
    ensures r <= n && IsLength(Val(s, a, n * LPP), r) && Val(s, a, r * LPP) == Val(s, a, n * LPP)
  {
    ValTrim(s, a, r * LPP, n * LPP);
    ValTrim(s, a, i + 1, n * LPP);
    ValBound(s, a, r * LPP);
    ValBound(s, a, i);
    MulLe(Pw(i), Pw(i), 1, s[a + i]);
    PwMono((r - 1) * LPP, i);
  }

  /** Leading zero bits of a non-zero word. */
  function Clz(x: Limb): (r: nat)
    requires x > 0
    ensures HALF <= x * Pow2(r) < B
    decreases B - x
  {
    if x >= HALF then 0 else
      var r := Clz(2 * x);
      Doubled(x, r);
      r + 1
  }

  lemma Doubled(x: int, r: nat)
    ensures (2 * x) * Pow2(r) == x * Pow2(r + 1)
  {
  }

  lemma ClzFits(x: Limb)
    requires x > 0
    ensures Clz(x) < 64
  {
    var r := Clz(x);
    if r >= 64 {
      Pow2Mono(64, r);
      Pow2Word();
      MulLe(1, x, Pow2(r), Pow2(r));
    }
  }

  method PClz(mem: array<Limb>, a: nat, n: nat) returns (r: nat)
    requires n > 0 && Inside(mem, a, n * LPP)
    ensures Val(mem[..], a, n * LPP) == 0 ==> r == 64 * n * LPP
    ensures Val(mem[..], a, n * LPP) > 0 ==>
      Pw(n * LPP) <= 2 * (Val(mem[..], a, n * LPP) * Pow2(r)) && Val(mem[..], a, n * LPP) * Pow2(r) < Pw(n * LPP)
  {
    ghost var S: seq<Limb> := mem[..];
    var i := n * LPP - 1;
    r := 0;
    while true
      invariant 0 <= i < n * LPP && r == 64 * (n * LPP - 1 - i)
      invariant forall k :: a + i < k < a + n * LPP ==> S[k] == 0
      decreases i
    {
      if mem[a + i] != 0 {
        r := r + Clz(mem[a + i]);
        ClzFromTop(S, a, i, n * LPP);
        return;
      }
      r := r + 64;
      if i == 0 { break; }
      i := i - 1;
    }
    ValTrim(S, a, 0, n * LPP);
  }

  lemma {:induction false} Pow2Limbs(k: nat)
    ensures Pow2(64 * k) == Pw(k)
  {
    if k > 0 {
      Pow2Limbs(k - 1);
      Pow2Add(64, 64 * (k - 1));
      Pow2Word();
    }
  }

  lemma ClzFromTop(s: seq<Limb>, a: nat, i: nat, n: nat)
    requires i < n && a + n <= |s| && s[a + i] != 0
    requires forall k :: a + i < k < a + n ==> s[k] == 0
    ensures var v := Val(s, a, n); var r := 64 * (n - 1 - i) + Clz(s[a + i]);
      && v > 0 && Pw(n) <= 2 * (v * Pow2(r)) && v * Pow2(r) < Pw(n)
  {
    ValTrim(s, a, i + 1, n);
    TopLimbScaled(s, a, i);
    Pow2Add(64 * (n - 1 - i), Clz(s[a + i]));
    Pow2Limbs(n - 1 - i);
    PwAdd(n - 1 - i, i + 1);
    ScaledUp(Val(s, a, i + 1), Pw(n - 1 - i), Pow2(Clz(s[a + i])), Pw(i + 1));
  }

  lemma TopLimbScaled(s: seq<Limb>, a: nat, i: nat)
    requires a + i < |s| && s[a + i] != 0
    ensures var v, c := Val(s, a, i + 1), Pow2(Clz(s[a + i])); v > 0 && Pw(i + 1) <= 2 * (v * c) && v * c < Pw(i + 1)
  {
    ValBound(s, a, i);
    var x, c := s[a + i], Pow2(Clz(s[a + i]));
    ClzFits(x);
    Pow2Add(Clz(x), 64 - Clz(x));
    Pow2Word();
    ScaledTop(x, Val(s, a, i), Pw(i), c, Pow2(64 - Clz(x)));
    AtLeast(x, Pw(i));
  }

  lemma ScaledUp(v: int, k: int, c: int, p: int)
    requires 0 < k && p <= 2 * (v * c) && v * c < p
    ensures k * p <= 2 * (v * (k * c)) && v * (k * c) < k * p
  {
    assert v * (k * c) == k * (v * c);
    MulLe(k, k, p, 2 * (v * c));
    MulLt(v * c, p, k);
  }

  lemma ScaledTop(x: Limb, l: int, p: int, c: int, e: int)
    requires 0 <= l < p && 0 < c && HALF <= x * c < B && c * e == B
    ensures B * p <= 2 * ((l + p * x) * c) && (l + p * x) * c < B * p
  {
    assert (l + p * x) * c == l * c + p * (x * c);
    MulLe(0, l, 0, c);
    MulLe(p, p, HALF, x * c);
    MulLe(l + 1, p, c, c);
    if x >= e { MulLe(e, x, c, c); }
    MulLe(x + 1, e, c, c);
    MulLe(p, p, (x + 1) * c, B);
    assert p * c + p * (x * c) == p * ((x + 1) * c);
  }

  method PZero(mem: array<Limb>, r: nat, n: nat)
    requires Inside(mem, r, n * LPP)
    modifies mem
    ensures SameOutside(old(mem[..]), mem[..], r, r + n * LPP)
    ensures forall k :: r <= k < r + n * LPP ==> mem[k] == 0
  {
    forall k | r <= k < r + n * LPP { mem[k] := 0; }
  }

  /** One packet from a word. */
  method PSetU(mem: array<Limb>, r: nat, x: Limb)
    requires Inside(mem, r, LPP)
    modifies mem
    ensures SameOutside(old(mem[..]), mem[..], r, r + LPP)
    ensures Val(mem[..], r, LPP) == x && mem[r] == x && mem[r + 1] == 0
  {
    PSetU2(mem, r, x, 0);
  }

  method PSetU2(mem: array<Limb>, r: nat, x: Limb, y: Limb)
    requires Inside(mem, r, LPP)
    modifies mem
    ensures SameOutside(old(mem[..]), mem[..], r, r + LPP)
    ensures Val(mem[..], r, LPP) == x + B * y && mem[r] == x && mem[r + 1] == y
  {
    mem[r] := x;
    mem[r + 1] := y;
    assert Val(mem[..], r, 1) == x;
  }
}
