/** The schoolbook product and square. */
module Multiply {
  import opened Limbs
  import opened Values
  import opened Memory

  /** A double-limb product plus two limbs, in halves: it never overflows. */
  method MulAddLimb(x: Limb, m: Limb, c: Limb, o: Limb) returns (lo: Limb, hi: Limb)
    ensures lo + B * hi == x * m + c + o
  {
    var p := x * m + c + o;
    MulLe(0, x, 0, m);
    MulLe(x, B - 1, m, B - 1);
    lo, hi := p % B, p / B;
  }

  /** j limbs of a row are written at p: acc + m*b, up to the pending limb o. */
  ghost predicate Row(S: seq<Limb>, T: seq<Limb>, p: nat, b: nat, j: nat, m: Limb, acc: int, o: Limb)
    requires p + j <= |T| && b + j <= |S|
  {
    Val(T, p, j) + o * Pw(j) == acc + m * Val(S, b, j)
  }

  lemma RowStep(S: seq<Limb>, T: seq<Limb>, p: nat, b: nat, j: nat, m: Limb, acc: int, c: int, o: Limb, lo: Limb, hi: Limb)
    requires p + j < |T| && b + j < |S|
    requires Row(S, T, p, b, j, m, acc, o) && lo + B * hi == S[b + j] * m + c + o
    ensures Row(S, T[p + j := lo], p, b, j + 1, m, acc + Pw(j) * c, hi)
  {
    ValFrame(T, T[p + j := lo], p + j, p + j + 1, p, j);
    RowArithmetic(Val(T, p, j), Pw(j), acc, m, Val(S, b, j), S[b + j], c, o, lo, hi);
  }

  lemma RowArithmetic(l: int, p: int, acc: int, m: int, v: int, x: int, c: int, o: int, lo: int, hi: int)
    requires l + o * p == acc + m * v && lo + B * hi == x * m + c + o
    ensures l + p * lo + hi * (B * p) == acc + p * c + m * (v + p * x)
  {
    assert p * (lo + B * hi) == p * (x * m + c + o);
    assert p * (x * m) == m * (p * x) && hi * (B * p) == p * (B * hi);
  }

  /** The pending limb completes the row. */
  method StoreLast(mem: array<Limb>, p: nat, n: nat, o: Limb, ghost S: seq<Limb>, ghost b: nat, ghost m: Limb, ghost acc: int)
    requires Inside(mem, p, n + 1) && b + n <= |S| && Row(S, mem[..], p, b, n, m, acc, o)
    modifies mem
    ensures Val(mem[..], p, n + 1) == acc + m * Val(S, b, n)
    ensures SameOutside(old(mem[..]), mem[..], p + n, p + n + 1)
  {
    ghost var T: seq<Limb> := mem[..];
    mem[p + n] := o;
    assert mem[..] == T[p + n := o];
    ValFrame(T, mem[..], p + n, p + n + 1, p, n);
  }

  /** The first row of the product: n limbs of b times m. */
  method FirstRow(mem: array<Limb>, p: nat, b: nat, n: nat, m: Limb)
    requires 0 < n && Inside(mem, p, n + 1) && Inside(mem, b, n) && Disjoint(p, n + 1, b, n)
    modifies mem
    ensures Val(mem[..], p, n + 1) == m * Val(old(mem[..]), b, n)
    ensures SameOutside(old(mem[..]), mem[..], p, p + n + 1)
  {
    ghost var S: seq<Limb> := mem[..];
    var o: Limb := 0;
    var j := 0;
    while j < n
      invariant 0 <= j <= n && SameOutside(S, mem[..], p, p + j)
      invariant Row(S, mem[..], p, b, j, m, 0, o)
    {
      ghost var T: seq<Limb>, o0 := mem[..], o;
      assert T[b + j] == S[b + j];
      var lo;
      lo, o := MulAddLimb(mem[b + j], m, 0, o);
      RowStep(S, T, p, b, j, m, 0, 0, o0, lo, o);
      mem[p + j] := lo;
      assert mem[..] == T[p + j := lo];
      j := j + 1;
    }
    StoreLast(mem, p, n, o, S, b, m, 0);
  }

  /** Any other row is added to what is there; the limb above is overwritten. */
  method AddRow(mem: array<Limb>, p: nat, b: nat, n: nat, m: Limb)
    requires 0 < n && Inside(mem, p, n + 1) && Inside(mem, b, n) && Disjoint(p, n + 1, b, n)
    modifies mem
    ensures Val(mem[..], p, n + 1) == Val(old(mem[..]), p, n) + m * Val(old(mem[..]), b, n)
    ensures SameOutside(old(mem[..]), mem[..], p, p + n + 1)
  {
    ghost var S: seq<Limb> := mem[..];
    var o: Limb := 0;
    var j := 0;
    while j < n
      invariant 0 <= j <= n && SameOutside(S, mem[..], p, p + j)
      invariant Row(S, mem[..], p, b, j, m, Val(S, p, j), o)
    {
      ghost var T: seq<Limb>, o0 := mem[..], o;
      assert T[p + j] == S[p + j] && T[b + j] == S[b + j];
      var lo;
      lo, o := MulAddLimb(mem[b + j], m, mem[p + j], o);
      RowStep(S, T, p, b, j, m, Val(S, p, j), S[p + j], o0, lo, o);
      mem[p + j] := lo;
      assert mem[..] == T[p + j := lo];
      j := j + 1;
    }
    StoreLast(mem, p, n, o, S, b, m, Val(S, p, n));
  }

  lemma NextRow(S: seq<Limb>, T: seq<Limb>, U: seq<Limb>, r: nat, a: nat, i: nat, n: nat, v: int)
    requires r + i + n + 1 <= |T| == |U| && a + i < |S|
    requires Val(T, r, i + n) == Val(S, a, i) * v && SameOutside(T, U, r + i, r + i + n + 1)
    requires Val(U, r + i, n + 1) == Val(T, r + i, n) + S[a + i] * v
    ensures Val(U, r, i + n + 1) == Val(S, a, i + 1) * v
  {
    ValSplit(T, r, i, n);
    ValSplit(U, r, i, n + 1);
    ValFrame(T, U, r + i, r + i + n + 1, r, i);
    RowsArithmetic(Val(T, r, i), Pw(i), Val(T, r + i, n), S[a + i], v, Val(S, a, i));
  }

  lemma RowsArithmetic(l: int, p: int, h: int, x: int, v: int, w: int)
    requires l + p * h == w * v
    ensures l + p * (h + x * v) == (w + p * x) * v
  {
    assert p * (h + x * v) == p * h + (p * x) * v;
  }

  /** The rows of a product of m limbs by n limbs. */
  method MulRows(mem: array<Limb>, r: nat, a: nat, b: nat, m: nat, n: nat)
    requires 0 < m && 0 < n && Inside(mem, r, m + n) && Inside(mem, a, m) && Inside(mem, b, n)
    requires Disjoint(r, m + n, a, m) && Disjoint(r, m + n, b, n)
    modifies mem
    ensures Val(mem[..], r, m + n) == Val(old(mem[..]), a, m) * Val(old(mem[..]), b, n)
    ensures SameOutside(old(mem[..]), mem[..], r, r + m + n)
  {
    ghost var S: seq<Limb> := mem[..];
    FirstRow(mem, r, b, n, mem[a]);
    assert Val(S, a, 1) == Val(S, a, 0) + Pw(0) * S[a];
    for i := 1 to m
      invariant SameOutside(S, mem[..], r, r + i + n)
      invariant Val(mem[..], r, i + n) == Val(S, a, i) * Val(S, b, n)
    {
      ghost var T: seq<Limb> := mem[..];
      AddRow(mem, r + i, b, n, mem[a + i]);
      ValSame(T, b, S, b, n);
      NextRow(S, T, mem[..], r, a, i, n, Val(S, b, n));
    }
  }

  method PMul(mem: array<Limb>, r: nat, a: nat, b: nat, an: nat, bn: nat)
    requires an >= bn > 0 && Inside(mem, r, (an + bn) * LPP) && Inside(mem, a, an * LPP) && Inside(mem, b, bn * LPP)
    requires Disjoint(r, (an + bn) * LPP, a, an * LPP) && Disjoint(r, (an + bn) * LPP, b, bn * LPP)
    modifies mem
    ensures Val(mem[..], r, (an + bn) * LPP) == Val(old(mem[..]), a, an * LPP) * Val(old(mem[..]), b, bn * LPP)
    ensures SameOutside(old(mem[..]), mem[..], r, r + (an + bn) * LPP)
  {
    MulRows(mem, r, a, b, an * LPP, bn * LPP);
  }

  method PSqr(mem: array<Limb>, r: nat, a: nat, n: nat)
    requires n > 0 && Inside(mem, r, 2 * n * LPP) && Inside(mem, a, n * LPP) && Disjoint(r, 2 * n * LPP, a, n * LPP)
    modifies mem
    ensures Val(mem[..], r, 2 * n * LPP) == Val(old(mem[..]), a, n * LPP) * Val(old(mem[..]), a, n * LPP)
    ensures SameOutside(old(mem[..]), mem[..], r, r + 2 * n * LPP)
  {
    MulRows(mem, r, a, a, n * LPP, n * LPP);
  }

  /** r := a*b for a word b; returns the overflow. */
  method PMulU(mem: array<Limb>, r: nat, a: nat, b: Limb, an: nat) returns (o: Limb)
    requires an > 0 && Inside(mem, r, an * LPP) && Inside(mem, a, an * LPP) && Ascending(r, a, an * LPP)
    modifies mem
    ensures Val(mem[..], r, an * LPP) + o * Pw(an * LPP) == b * Val(old(mem[..]), a, an * LPP)
    ensures SameOutside(old(mem[..]), mem[..], r, r + an * LPP)
  {
    var n := an * LPP;
    ghost var S: seq<Limb> := mem[..];
    o := 0;
    var i := 0;
    while i < n
      invariant 0 <= i <= n && SameOutside(S, mem[..], r, r + i)
      invariant Row(S, mem[..], r, a, i, b, 0, o)
    {
      ghost var T: seq<Limb>, o0 := mem[..], o;
      assert T[a + i] == S[a + i];
      var lo;
      lo, o := MulAddLimb(mem[a + i], b, 0, o);
      RowStep(S, T, r, a, i, b, 0, 0, o0, lo, o);
      mem[r + i] := lo;
      assert mem[..] == T[r + i := lo];
      i := i + 1;
    }
  }
}
