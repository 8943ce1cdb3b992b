/** The number that n little-endian limbs at index p of a limb sequence stand for. */
module Values {
  import opened Limbs

  /** Limbs in a packet. */
  const LPP: int := 2

  ghost function Pw(n: nat): (p: int)
    ensures 0 < p
  {
    if n == 0 then 1 else B * Pw(n - 1)
  }

  ghost function Val(s: seq<int>, p: nat, n: nat): int
    requires p + n <= |s|
  {
    if n == 0 then 0 else Val(s, p, n - 1) + Pw(n - 1) * s[p + n - 1]
  }

  /** The limbs lo up to hi are zero. */
  ghost predicate AllZero(s: seq<int>, lo: nat, hi: nat) {
    hi <= |s| && forall k :: lo <= k < hi ==> s[k] == 0
  }

  /** s and t agree outside [lo, hi). */
  ghost predicate SameOutside(s: seq<int>, t: seq<int>, lo: int, hi: int) {
    |s| == |t| && forall k :: 0 <= k < |s| && !(lo <= k < hi) ==> t[k] == s[k]
  }

  /** s and t agree outside [lo, hi) and [lo', hi'). */
  ghost predicate SameOutside2(s: seq<int>, t: seq<int>, lo: int, hi: int, lo': int, hi': int) {
    |s| == |t| && forall k :: 0 <= k < |s| && !(lo <= k < hi) && !(lo' <= k < hi') ==> t[k] == s[k]
  }

  lemma {:induction false} PwAdd(m: nat, n: nat)
    ensures Pw(m + n) == Pw(m) * Pw(n)
  {
    if m == 0 {
    } else {
      PwAdd(m - 1, n);
      assert B * (Pw(m - 1) * Pw(n)) == (B * Pw(m - 1)) * Pw(n);
    }
  }

  lemma PwMono(m: nat, n: nat)
    requires m <= n
    ensures Pw(m) <= Pw(n)
  {
    PwAdd(m, n - m);
    MulLe(Pw(m), Pw(m), 1, Pw(n - m));
  }

  /** Equal limbs, equal values, wherever they are. */
  lemma {:induction false} ValSame(s: seq<int>, p: nat, t: seq<int>, q: nat, n: nat)
    requires p + n <= |s| && q + n <= |t|
    requires forall k :: p <= k < p + n ==> s[k] == t[k - p + q]
    ensures Val(s, p, n) == Val(t, q, n)
  {
    if n > 0 {
      ValSame(s, p, t, q, n - 1);
    }
  }

  /** Writing elsewhere leaves a value alone. */
  lemma ValFrame(s: seq<int>, t: seq<int>, lo: int, hi: int, p: nat, n: nat)
    requires p + n <= |s| && SameOutside(s, t, lo, hi) && (p + n <= lo || hi <= p)
    ensures Val(t, p, n) == Val(s, p, n)
  {
    ValSame(t, p, s, p, n);
  }

  lemma Distribute(a: int, b: int, c: int, x: int)
    ensures a * (b + c * x) == a * b + (a * c) * x
  {
  }

  lemma {:induction false} ValSplit(s: seq<int>, p: nat, m: nat, n: nat)
    requires p + m + n <= |s|
    ensures Val(s, p, m + n) == Val(s, p, m) + Pw(m) * Val(s, p + m, n)
  {
    if n == 0 {
    } else {
      ValSplit(s, p, m, n - 1);
      PwAdd(m, n - 1);
      Distribute(Pw(m), Val(s, p + m, n - 1), Pw(n - 1), s[p + m + n - 1]);
    }
  }

  /** The lowest limb apart. */
  lemma ValCons(s: seq<int>, p: nat, n: nat)
    requires p + n + 1 <= |s|
    ensures Val(s, p, n + 1) == s[p] + B * Val(s, p + 1, n)
  {
    ValSplit(s, p, 1, n);
    assert Val(s, p, 1) == s[p];
    assert Pw(1) == B;
  }

  lemma ValTwo(s: seq<int>, p: nat)
    requires p + 2 <= |s|
    ensures Val(s, p, 2) == s[p] + B * s[p + 1]
  {
    ValCons(s, p, 1);
    ValCons(s, p + 1, 0);
  }

  lemma {:induction false} ValBound(s: seq<Limb>, p: nat, n: nat)
    requires p + n <= |s|
    ensures 0 <= Val(s, p, n) < Pw(n)
  {
    if n > 0 {
      ValBound(s, p, n - 1);
      MulLe(0, Pw(n - 1), 0, s[p + n - 1]);
      MulLe(Pw(n - 1), Pw(n - 1), s[p + n - 1], B - 1);
    }
  }

  lemma {:induction false} ValZero(s: seq<Limb>, p: nat, n: nat)
    requires p + n <= |s|
    ensures Val(s, p, n) == 0 <==> forall k :: p <= k < p + n ==> s[k] == 0
  {
    if n > 0 {
      ValZero(s, p, n - 1);
      ValBound(s, p, n - 1);
      var x := s[p + n - 1];
      AtLeast(x, Pw(n - 1));
    }
  }

  /** Limbs that are zero from k on do not count. */
  lemma ValTrim(s: seq<Limb>, p: nat, k: nat, n: nat)
    requires k <= n && p + n <= |s| && forall i :: p + k <= i < p + n ==> s[i] == 0
    ensures Val(s, p, n) == Val(s, p, k)
  {
    ValSplit(s, p, k, n - k);
    ValZero(s, p + k, n - k);
  }

  lemma {:induction false} ValInjective(s: seq<Limb>, p: nat, t: seq<Limb>, q: nat, n: nat)
    requires p + n <= |s| && q + n <= |t| && Val(s, p, n) == Val(t, q, n)
    ensures forall k :: p <= k < p + n ==> s[k] == t[k - p + q]
  {
    if n > 0 {
      ValBound(s, p, n - 1);
      ValBound(t, q, n - 1);
      DigitsUnique(Pw(n - 1), Val(s, p, n - 1), s[p + n - 1], Val(t, q, n - 1), t[q + n - 1]);
      ValInjective(s, p, t, q, n - 1);
    }
  }

  lemma DigitsUnique(p: int, l: int, h: int, l': int, h': int)
    requires 0 <= l < p && 0 <= l' < p && l + p * h == l' + p * h'
    ensures l == l' && h == h'
  {
    DivUnique(l + p * h, p, h, l);
    DivUnique(l + p * h, p, h', l');
  }
}
