/** Karatsuba squaring in place in a zeroed result, with its workspace. */
module Karatsuba {
  import opened Common
  import opened Limbs
  import opened Values
  import opened Memory
  import opened Scan
  import opened AddSub
  import opened Multiply

  const SQR_CUTOFF: nat := 8

  /** Packets of workspace the recursion takes, whatever the carries. */
  ghost function Need(n: nat): nat
    decreases n, 1
  {
    if n <= SQR_CUTOFF then 0 else HalvesNeed(n, (n + 1) / 2)
  }

  /** The largest of: the half sum and its square, with a carry; the high square; the low square. */
  ghost function HalvesNeed(n: nat, m: nat): nat
    requires n > SQR_CUTOFF && m == (n + 1) / 2
    decreases n, 0
  {
    Max(m + 1 + Need(m + 1), Max(2 * (n - m) + 1 + Need(n - m), 2 * m + 1 + Need(m)))
  }

  // ----- the arithmetic -----

  /** The half products put together: x from the sums of the halves, h from the high and l from the low ones. */
  lemma Interpolate(a0: int, a1: int, b0: int, b1: int, p: int)
    ensures var x, h, l := (a0 + a1) * (b0 + b1), a1 * b1, a0 * b0;
      p * x + (p * p) * h - p * h + l - p * l == (a0 + p * a1) * (b0 + p * b1)
  {
    var c := a0 * b1 + a1 * b0;
    assert (a0 + a1) * (b0 + b1) == a0 * b0 + c + a1 * b1;
    assert p * (a0 * b0 + c + a1 * b1) == p * (a0 * b0) + p * c + p * (a1 * b1);
    CrossTerms(a0, a1, b0, b1, p);
  }

  lemma CrossTerms(a0: int, a1: int, b0: int, b1: int, p: int)
    ensures (a0 + p * a1) * (b0 + p * b1) == a0 * b0 + p * (a0 * b1 + a1 * b0) + (p * p) * (a1 * b1)
  {
    assert (a0 + p * a1) * (b0 + p * b1) == a0 * b0 + a0 * (p * b1) + (p * a1) * b0 + (p * a1) * (p * b1);
    assert a0 * (p * b1) == p * (a0 * b1) && (p * a1) * b0 == p * (a1 * b0);
    assert (p * a1) * (p * b1) == (p * p) * (a1 * b1);
  }

  /** What the result holds after each step: x, then h added high and taken off, then l. f is the product. */
  ghost predicate Stages(p: int, x: int, h: int, l: int, f: int, q: int) {
    && 0 <= p * x < q && 0 <= h && 0 <= l
    && p * x + (p * p) * h < q && 0 <= p * x + (p * p) * h - p * h
    && p * x + (p * p) * h - p * h + l < q
    && p * x + (p * p) * h - p * h + l - p * l == f && 0 <= f
  }

  /** Neither do the sums overflow q nor do the differences go below zero. */
  lemma StagesFit(a0: int, a1: int, b0: int, b1: int, p: int, t: int, q: int)
    requires 0 <= a0 < p && 0 <= a1 < p && 0 <= b0 < p && 0 <= b1 < p
    requires (a0 + p * a1) * (b0 + p * b1) < t && p * (p * p) <= t && 3 * t <= q
    ensures Stages(p, (a0 + a1) * (b0 + b1), a1 * b1, a0 * b0, (a0 + p * a1) * (b0 + p * b1), q)
  {
    var x, h, l, c := (a0 + a1) * (b0 + b1), a1 * b1, a0 * b0, a0 * b1 + a1 * b0;
    Interpolate(a0, a1, b0, b1, p);
    CrossTerms(a0, a1, b0, b1, p);
    MulLe(a1, p, b1, p);
    MulLe(a0, p, b0, p);
    MulLe(0, a0, 0, b1);
    MulLe(0, a1, 0, b0);
    MulLe(0, a0 + a1, 0, b0 + b1);
    StagesBelow(p, x, h, l, c, (a0 + p * a1) * (b0 + p * b1), t, q);
  }

  lemma StagesBelow(p: int, x: int, h: int, l: int, c: int, f: int, t: int, q: int)
    requires 0 < p && 0 <= h <= p * p && 0 <= l <= p * p && 0 <= c && 0 <= x
    requires f == l + p * c + (p * p) * h && f == p * x + (p * p) * h - p * h + l - p * l
    requires f < t && p * (p * p) <= t && 3 * t <= q
    ensures Stages(p, x, h, l, f, q)
  {
    MulLe(p, p, h, p * p);
    MulLe(p, p, l, p * p);
    MulLe(0, p, 0, c);
    MulLe(0, p, 0, x);
    MulLe(1, p, l, l);
    MulLe(0, p * p, 0, h);
  }

  // ----- steps on memory -----

  /**
   r += Pw(off)*<w> over l packets of r, where nothing is carried out of the first e of them: the others are read
   and written back as they were.
  */
  method AddAt(mem: array<Limb>, r: nat, l: nat, off: nat, w: nat, n: nat, ghost e: nat)
    requires 0 < n && off + n <= l && off <= e <= l && Inside(mem, r, l * LPP) && Inside(mem, w, n * LPP)
    requires Disjoint(r, l * LPP, w, n * LPP)
    requires Val(mem[..], r, e * LPP) + Pw(off * LPP) * Val(mem[..], w, n * LPP) < Pw(e * LPP)
    modifies mem
    ensures Val(mem[..], r, e * LPP) == Val(old(mem[..]), r, e * LPP) + Pw(off * LPP) * Val(old(mem[..]), w, n * LPP)
    ensures SameOutside(old(mem[..]), mem[..], r, r + e * LPP)
  {
    ghost var S: seq<Limb> := mem[..];
    var carry := PAddA(mem, r + off * LPP, w, l - off, n);
    ValBound(S, r, e * LPP);
    ValBound(S, w, n * LPP);
    MulLe(0, Pw(off * LPP), 0, Val(S, w, n * LPP));
    AtOffset(S, mem[..], r, off * LPP, e * LPP, l * LPP, Val(S, w, n * LPP), carry, Pw(off * LPP) * Val(S, w, n * LPP));
  }

  /** r -= Pw(off)*<w> over l packets of r, where nothing is borrowed from beyond the first e. */
  method SubAt(mem: array<Limb>, r: nat, l: nat, off: nat, w: nat, n: nat, ghost e: nat)
    requires 0 < n && off + n <= l && off <= e <= l && Inside(mem, r, l * LPP) && Inside(mem, w, n * LPP)
    requires Disjoint(r, l * LPP, w, n * LPP)
    requires 0 <= Val(mem[..], r, e * LPP) - Pw(off * LPP) * Val(mem[..], w, n * LPP)
    modifies mem
    ensures Val(mem[..], r, e * LPP) == Val(old(mem[..]), r, e * LPP) - Pw(off * LPP) * Val(old(mem[..]), w, n * LPP)
    ensures SameOutside(old(mem[..]), mem[..], r, r + e * LPP)
  {
    ghost var S: seq<Limb> := mem[..];
    ghost var v := Val(S, w, n * LPP);
    ghost var d := Pw(off * LPP) * (0 - v);
    NegProduct(Pw(off * LPP), v);
    ValBound(S, r, e * LPP);
    ValBound(S, w, n * LPP);
    MulLe(0, Pw(off * LPP), 0, v);
    var borrow := PSubA(mem, r + off * LPP, w, l - off, n);
    ghost var c: int := borrow;
    AtOffset(S, mem[..], r, off * LPP, e * LPP, l * LPP, 0 - v, 0 - c, d);
  }

  /** The n packets at p stand for v. */
  ghost predicate Holds(s: seq<Limb>, p: nat, n: nat, v: int) {
    p + n * LPP <= |s| && forall k {:trigger Unfold(k)} :: Unfold(k) ==> Val(s, p, n * LPP) == v
  }

  lemma HoldsSame(s: seq<Limb>, t: seq<Limb>, p: nat, n: nat, v: int)
    requires Holds(s, p, n, v) && |t| == |s| && forall k :: p <= k < p + n * LPP ==> t[k] == s[k]
    ensures Holds(t, p, n, v)
  {
    assert Unfold(0);
    ValSame(t, p, s, p, n * LPP);
  }

  /** z is x*y. */
  ghost predicate Times(x: int, y: int, z: int) {
    forall k {:trigger Unfold(k)} :: Unfold(k) ==> z == x * y
  }

  /** From y to up = y + Pw(hi)*v and on to down = up - Pw(m)*v, within e packets. */
  ghost predicate Path(y: int, v: int, hi: nat, m: nat, e: nat, up: int, down: int) {
    forall k {:trigger Unfold(k)} :: Unfold(k) ==>
      up == y + Pw(hi * LPP) * v && down == up - Pw(m * LPP) * v && up < Pw(e * LPP) && 0 <= down
  }

  /** r += (Pw(hi) - Pw(m))*<w>, within the first e of l packets. */
  method AddThenSub(mem: array<Limb>, r: nat, l: nat, hi: nat, m: nat, w: nat, n: nat, ghost e: nat, ghost y: int, ghost v: int, ghost up: int, ghost down: int)
    requires 0 < n && hi + n <= l && m + n <= l && hi <= e && m <= e <= l && Disjoint(r, l * LPP, w, n * LPP)
    requires Holds(mem[..], r, e, y) && Holds(mem[..], w, n, v) && Path(y, v, hi, m, e, up, down) && Inside(mem, r, l * LPP)
    modifies mem
    ensures Holds(mem[..], r, e, down)
    ensures SameOutside(old(mem[..]), mem[..], r, r + e * LPP)
  {
    ghost var S: seq<Limb> := mem[..];
    assert Unfold(0);
    AddAt(mem, r, l, hi, w, n, e);
    ValFrame(S, mem[..], r, r + e * LPP, w, n * LPP);
    SubAt(mem, r, l, m, w, n, e);
  }

  /** A value below Pw(k) has nothing above its k low limbs. */
  lemma ShortValue(s: seq<Limb>, p: nat, k: nat, n: nat)
    requires p + k + n <= |s| && Val(s, p, k + n) < Pw(k)
    ensures Val(s, p, k) == Val(s, p, k + n)
  {
    ValSplit(s, p, k, n);
    ValBound(s, p, k);
    ValBound(s, p + k, n);
    HighZero(Val(s, p, k), Val(s, p + k, n), Pw(k));
  }

  lemma HighZero(l: int, h: int, p: int)
    requires 0 < p && 0 <= l && 0 <= h && l + p * h < p
    ensures h == 0
  {
    AtLeast(h, p);
    assert p * h == h * p;
  }

  lemma NegProduct(x: int, y: int)
    ensures x * (0 - y) == 0 - x * y
  {
  }

  /** A change of v at offset k that fits the first e limbs changes these by d and none of the others; c is the carry. */
  lemma AtOffset(S: seq<Limb>, T: seq<Limb>, r: nat, k: nat, e: nat, l: nat, v: int, c: int, d: int)
    requires k <= e <= l && r + l <= |S| && SameOutside(S, T, r + k, r + l)
    requires Val(T, r + k, l - k) + c * Pw(l - k) == Val(S, r + k, l - k) + v
    requires d == Pw(k) * v && 0 <= Val(S, r, e) + d < Pw(e)
    ensures Val(T, r, e) == Val(S, r, e) + d
    ensures SameOutside(S, T, r, r + e)
  {
    OffsetParts(S, r, k, e, l);
    OffsetParts(T, r, k, e, l);
    ValFrame(S, T, r + k, r + l, r, k);
    OffsetValues(Val(S, r, k), Val(S, r + k, e - k), Val(S, r + e, l - e), Val(T, r + k, e - k), Val(T, r + e, l - e),
      Pw(k), Pw(e - k), Pw(l - e), v, c);
    RestKept(S, T, r + k, r + e, l - e);
  }

  lemma RestKept(S: seq<Limb>, T: seq<Limb>, lo: nat, p: nat, n: nat)
    requires lo <= p && p + n <= |S| && SameOutside(S, T, lo, p + n) && Val(T, p, n) == Val(S, p, n)
    ensures SameOutside(S, T, lo, p)
  {
    ValInjective(T, p, S, p, n);
  }

  lemma OffsetParts(S: seq<Limb>, r: nat, k: nat, e: nat, l: nat)
    requires k <= e <= l && r + l <= |S|
    ensures Val(S, r, e) == Val(S, r, k) + Pw(k) * Val(S, r + k, e - k)
    ensures Val(S, r + k, l - k) == Val(S, r + k, e - k) + Pw(e - k) * Val(S, r + e, l - e)
    ensures 0 <= Val(S, r, k) < Pw(k) && 0 <= Val(S, r + k, e - k) < Pw(e - k) && 0 <= Val(S, r + e, l - e) < Pw(l - e)
    ensures Pw(e) == Pw(k) * Pw(e - k) && Pw(l - k) == Pw(e - k) * Pw(l - e)
  {
    ValSplit(S, r, k, e - k);
    ValSplit(S, r + k, e - k, l - e);
    ValBound(S, r, k);
    ValBound(S, r + k, e - k);
    ValBound(S, r + e, l - e);
    PwAdd(k, e - k);
    PwAdd(e - k, l - e);
  }

  /** The part from the offset on, in two pieces of which the upper one, h, must not change. */
  lemma OffsetValues(x: int, y: int, h: int, t: int, g: int, p: int, q: int, n: int, v: int, c: int)
    requires 0 <= x < p && 0 <= t < q && 0 <= g < n && 0 <= h < n && 0 <= x + p * y + p * v < p * q
    requires (t + q * g) + c * (q * n) == (y + q * h) + v
    ensures t == y + v && g == h && p * t == p * y + p * v
  {
    WithinParts(x, p, y + v, q, p * y + p * v);
    NoCarry(t, g, c, y + v, h, q, n);
  }

  lemma WithinParts(x: int, p: int, z: int, q: int, w: int)
    requires w == p * z && 0 <= x < p && 0 <= x + w < p * q
    ensures 0 <= z < q
  {
    AtLeast(0 - z, p);
    AtLeast(z - q + 1, p);
    assert (0 - z) * p == 0 - w && (z - q + 1) * p == w - p * q + p;
  }

  lemma NoCarry(t: int, g: int, c: int, y: int, h: int, q: int, n: int)
    requires 0 <= t < q && 0 <= g < n && 0 <= y < q && 0 <= h < n && (t + q * g) + c * (q * n) == y + q * h
    ensures t == y && g == h
  {
    var k := g + c * n;
    assert q * k == q * g + c * (q * n);
    DigitsUnique(q, t, k, y, h);
    AtLeast(c, n);
    AtLeast(0 - c, n);
    assert (0 - c) * n == 0 - c * n;
  }

  /** Packets of a half sum: m, and one more exactly when it carries. */
  ghost function HalfLength(s: int, m: nat): (j: nat)
    ensures m <= j <= m + 1
  {
    if s >= Pw(m * LPP) then m + 1 else m
  }

  ghost predicate SumLength(s: int, m: nat, j: nat) {
    forall k {:trigger Unfold(k)} :: Unfold(k) ==> j == HalfLength(s, m)
  }

  /** The sum of the m low and the n high packets of a number, at w; a carry makes it a packet longer. */
  method HalfSum(mem: array<Limb>, w: nat, a: nat, m: nat, n: nat, ghost a0: int, ghost a1: int) returns (j: nat)
    requires 0 < n <= m && Inside(mem, w, (m + 1) * LPP) && Disjoint(w, (m + 1) * LPP, a, (m + n) * LPP)
    requires Holds(mem[..], a, m, a0) && Holds(mem[..], a + m * LPP, n, a1)
    modifies mem
    ensures (j == m || j == m + 1) && SumLength(a0 + a1, m, j) && Holds(mem[..], w, j, a0 + a1)
    ensures SameOutside(old(mem[..]), mem[..], w, w + j * LPP)
  {
    assert Unfold(0);
    var c := PAdd(mem, w, a, a + m * LPP, m, n);
    ghost var T: seq<Limb> := mem[..];
    ValBound(T, w, m * LPP);
    j := m;
    if c != 0 {
      PSetU(mem, w + m * LPP, c);
      ValFrame(T, mem[..], w + m * LPP, w + (m + 1) * LPP, w, m * LPP);
      ValSplit(mem[..], w, m * LPP, LPP);
      j := m + 1;
    }
  }

  // ----- squaring -----

  /** wn packets of workspace are enough to square n packets. */
  ghost predicate Room(n: nat, wn: int) {
    forall k {:trigger Unfold(k)} :: Unfold(k) ==> Need(n) <= wn
  }

  /** The halves, their sum, the three squares, and what r holds after each step. */
  datatype Plan = Plan(a0: int, a1: int, s: int, x: int, y1: int, h: int, u1: int, y2: int, z: int, u2: int)

  ghost predicate SqrPlan(t: Plan, m: nat, l: nat, f: int) {
    && t.s == t.a0 + t.a1 && Times(t.s, t.s, t.x) && Times(Pw(m * LPP), t.x, t.y1)
    && Times(t.a1, t.a1, t.h) && Path(t.y1, t.h, 2 * m, m, l, t.u1, t.y2)
    && Times(t.a0, t.a0, t.z) && Path(t.y2, t.z, 0, m, l, t.u2, f)
  }

  lemma PlanSqr(S: seq<Limb>, a: nat, m: nat, n: nat, v: int, f: int) returns (t: Plan)
    requires 0 < m && n <= m <= 2 * n && Holds(S, a, m + n, v) && Times(v, v, f)
    ensures Holds(S, a, m, t.a0) && Holds(S, a + m * LPP, n, t.a1) && SqrPlan(t, m, 2 * (m + n) + 1, f)
  {
    assert Unfold(0);
    var p, a0, a1 := Pw(m * LPP), Val(S, a, m * LPP), Val(S, a + m * LPP, n * LPP);
    var x, h, z := (a0 + a1) * (a0 + a1), a1 * a1, a0 * a0;
    SqrStages(S, a, m, n);
    var u1, y2, u2 := PlanPaths(m, 2 * (m + n) + 1, p, x, h, z, f);
    t := Plan(a0, a1, a0 + a1, x, p * x, h, u1, y2, z, u2);
  }

  lemma PlanPaths(m: nat, l: nat, p: int, x: int, h: int, z: int, f: int) returns (u1: int, y2: int, u2: int)
    requires p == Pw(m * LPP) && Stages(p, x, h, z, f, Pw(l * LPP))
    ensures Path(p * x, h, 2 * m, m, l, u1, y2) && Path(y2, z, 0, m, l, u2, f)
  {
    PwAdd(m * LPP, m * LPP);
    u1 := p * x + (p * p) * h;
    y2 := u1 - p * h;
    u2 := y2 + z;
  }

  lemma SqrStages(S: seq<Limb>, a: nat, m: nat, n: nat)
    requires 0 < m && n <= m <= 2 * n && a + (m + n) * LPP <= |S|
    ensures var a0, a1, v := Val(S, a, m * LPP), Val(S, a + m * LPP, n * LPP), Val(S, a, (m + n) * LPP);
      Stages(Pw(m * LPP), (a0 + a1) * (a0 + a1), a1 * a1, a0 * a0, v * v, Pw((2 * (m + n) + 1) * LPP))
  {
    Halves(S, a, m, n);
    Cube(m, 2 * (m + n));
    SquareBelow(Val(S, a, (m + n) * LPP), m + n);
    StagesFit(Val(S, a, m * LPP), Val(S, a + m * LPP, n * LPP), Val(S, a, m * LPP), Val(S, a + m * LPP, n * LPP),
      Pw(m * LPP), Pw(2 * (m + n) * LPP), Pw((2 * (m + n) + 1) * LPP));
  }

  lemma Halves(S: seq<Limb>, a: nat, m: nat, n: nat)
    requires n <= m && a + (m + n) * LPP <= |S|
    ensures var a0, a1, v := Val(S, a, m * LPP), Val(S, a + m * LPP, n * LPP), Val(S, a, (m + n) * LPP);
      0 <= a0 < Pw(m * LPP) && 0 <= a1 < Pw(n * LPP) <= Pw(m * LPP) && v == a0 + Pw(m * LPP) * a1 && 0 <= v < Pw((m + n) * LPP)
  {
    ValSplit(S, a, m * LPP, n * LPP);
    ValBound(S, a, m * LPP);
    ValBound(S, a + m * LPP, n * LPP);
    ValBound(S, a, (m + n) * LPP);
    PwMono(n * LPP, m * LPP);
  }

  lemma Cube(m: nat, t: nat)
    requires 3 * m <= t
    ensures var p := Pw(m * LPP); p * (p * p) <= Pw(t * LPP) && 3 * Pw(t * LPP) <= Pw((t + 1) * LPP)
  {
    PwAdd(m * LPP, m * LPP);
    PwAdd(m * LPP, 2 * m * LPP);
    PwMono(3 * m * LPP, t * LPP);
    assert Pw((t + 1) * LPP) == B * (B * Pw(t * LPP));
  }

  lemma SquareBelow(v: int, n: nat)
    requires 0 <= v < Pw(n * LPP)
    ensures 0 <= v * v < Pw(2 * n * LPP)
  {
    PwAdd(n * LPP, n * LPP);
    MulLe(0, v, 0, v);
    MulLe(v, Pw(n * LPP) - 1, v, Pw(n * LPP));
    MulLt(Pw(n * LPP) - 1, Pw(n * LPP), Pw(n * LPP));
  }

  lemma RoomParts(m: nat, n: nat, wn: int)
    requires m + n > SQR_CUTOFF && m == (m + n + 1) / 2 && Room(m + n, wn)
    ensures Room(m + 1, wn - m - 1) && Room(m, wn - m) && Room(n, wn - 2 * n - 1) && Room(m, wn - 2 * m - 1)
    ensures wn >= 2 * m + 1
  {
    assert Unfold(0);
    NeedIs(m + n, m, Need(m + 1), Need(n), Need(m));
  }

  lemma {:induction false} NeedIs(n: nat, m: nat, x: nat, y: nat, z: nat)
    requires n > SQR_CUTOFF && m == (n + 1) / 2 && x == Need(m + 1) && y == Need(n - m) && z == Need(m)
    ensures Need(n) == Max(m + 1 + x, Max(2 * (n - m) + 1 + y, 2 * m + 1 + z))
  {
  }

  /** Result, workspace and operand lie apart and the result is zeroed. */
  ghost predicate SqrReady(s: seq<Limb>, r: nat, w: nat, a: nat, n: nat, wn: nat) {
    && r + (2 * n + 1) * LPP <= |s| && w + wn * LPP <= |s| && a + n * LPP <= |s|
    && Disjoint(r, (2 * n + 1) * LPP, w, wn * LPP) && Disjoint(r, (2 * n + 1) * LPP, a, n * LPP)
    && Disjoint(w, wn * LPP, a, n * LPP) && AllZero(s, r, r + (2 * n + 1) * LPP)
  }

  /** r := a*a in a zeroed r of 2n + 1 packets, with a workspace of Need(n) packets that may hold anything. */
  method PSqrKaratsuba(mem: array<Limb>, r: nat, w: nat, a: nat, n: nat)
    requires SqrReady(mem[..], r, w, a, n, Need(n))
    modifies mem
    ensures Val(mem[..], r, (2 * n + 1) * LPP) == Val(old(mem[..]), a, n * LPP) * Val(old(mem[..]), a, n * LPP)
    ensures SameOutside2(old(mem[..]), mem[..], r, r + (2 * n + 1) * LPP, w, w + Need(n) * LPP)
  {
    Square(mem, r, w, a, n, Need(n), Val(mem[..], a, n * LPP), Val(mem[..], a, n * LPP) * Val(mem[..], a, n * LPP));
    assert Unfold(0);
  }

  /** The recursion, for the value v of a, its square f, and any workspace that has room. */
  method Square(mem: array<Limb>, r: nat, w: nat, a: nat, n: nat, ghost wn: nat, ghost v: int, ghost f: int)
    requires SqrReady(mem[..], r, w, a, n, wn) && Room(n, wn) && Holds(mem[..], a, n, v) && Times(v, v, f)
    modifies mem
    ensures Holds(mem[..], r, 2 * n + 1, f)
    ensures SameOutside2(old(mem[..]), mem[..], r, r + (2 * n + 1) * LPP, w, w + wn * LPP)
    decreases n, 0
  {
    if n <= SQR_CUTOFF {
      SquareBase(mem, r, a, n, v, f);
    } else {
      SquareSplit(mem, r, w, a, (n + 1) / 2, n / 2, wn, v, f);
    }
  }

  /** n == m or n == m - 1. */
  method SquareSplit(mem: array<Limb>, r: nat, w: nat, a: nat, m: nat, n: nat, ghost wn: nat, ghost v: int, ghost f: int)
    requires m + n > SQR_CUTOFF && m == (m + n + 1) / 2 && SqrReady(mem[..], r, w, a, m + n, wn)
    requires Room(m + n, wn) && Holds(mem[..], a, m + n, v) && Times(v, v, f)
    modifies mem
    ensures Holds(mem[..], r, 2 * (m + n) + 1, f)
    ensures SameOutside2(old(mem[..]), mem[..], r, r + (2 * (m + n) + 1) * LPP, w, w + wn * LPP)
    decreases m + 1, 4
  {
    ghost var t := PlanSqr(mem[..], a, m, n, v, f);
    RoomParts(m, n, wn);
    SquareHalves(mem, r, w, a, m, n, 2 * (m + n) + 1, wn, t, f);
  }

  /** The three squares of a number of m low and n high packets, put together in r. */
  method SquareHalves(mem: array<Limb>, r: nat, w: nat, a: nat, m: nat, n: nat, l: nat, ghost wn: nat, ghost t: Plan, ghost f: int)
    requires 0 < n <= m && 3 * m + 3 <= l && 2 * m + 2 * n <= l && 2 * m + 1 <= wn
    requires Room(m, wn - m) && Room(m + 1, wn - m - 1) && Room(n, wn - 2 * n - 1) && Room(m, wn - 2 * m - 1)
    requires Inside(mem, r, l * LPP) && Inside(mem, w, wn * LPP) && AllZero(mem[..], r, r + l * LPP)
    requires Disjoint(r, l * LPP, w, wn * LPP) && Disjoint(w, wn * LPP, a, (m + n) * LPP) && Disjoint(r, l * LPP, a, (m + n) * LPP)
    requires Holds(mem[..], a, m, t.a0) && Holds(mem[..], a + m * LPP, n, t.a1) && SqrPlan(t, m, l, f)
    modifies mem
    ensures Holds(mem[..], r, l, f)
    ensures SameOutside2(old(mem[..]), mem[..], r, r + l * LPP, w, w + wn * LPP)
    decreases m + 1, 3
  {
    ghost var S: seq<Limb> := mem[..];
    SquareSum(mem, r, w, a, m, n, l, wn, t);
    HoldsSame(S, mem[..], a + m * LPP, n, t.a1);
    SquareInto(mem, r, w, a + m * LPP, n, l, 2 * m, m, wn, t.a1, t.h, t.y1, t.u1, t.y2);
    HoldsSame(S, mem[..], a, m, t.a0);
    SquareInto(mem, r, w, a, m, l, 0, m, wn, t.a0, t.z, t.y2, t.u2, f);
  }

  /** Accumulates (a0 + a1)(a0 + a1)*B^m. */
  method SquareSum(mem: array<Limb>, r: nat, w: nat, a: nat, m: nat, n: nat, l: nat, ghost wn: nat, ghost t: Plan)
    requires 0 < n <= m && 3 * m + 3 <= l && m + 1 <= wn && Room(m, wn - m) && Room(m + 1, wn - m - 1)
    requires Inside(mem, r, l * LPP) && Inside(mem, w, wn * LPP)
    requires Disjoint(r, l * LPP, w, wn * LPP) && Disjoint(w, wn * LPP, a, (m + n) * LPP) && AllZero(mem[..], r, r + l * LPP)
    requires Holds(mem[..], a, m, t.a0) && Holds(mem[..], a + m * LPP, n, t.a1)
    requires t.s == t.a0 + t.a1 && Times(t.s, t.s, t.x) && Times(Pw(m * LPP), t.x, t.y1)
    modifies mem
    ensures Holds(mem[..], r, l, t.y1)
    ensures SameOutside2(old(mem[..]), mem[..], r, r + l * LPP, w, w + wn * LPP)
    decreases m + 1, 2
  {
    var j := HalfSum(mem, w, a, m, n, t.a0, t.a1);
    SquareAt(mem, r, w, j, m, l, wn, t.s, t.x, t.y1);
  }

  /** The square of the sum at w, m packets up in a zeroed r. */
  method SquareAt(mem: array<Limb>, r: nat, w: nat, j: nat, m: nat, l: nat, ghost wn: nat, ghost s: int, ghost x: int, ghost y: int)
    requires m + 2 * j + 1 <= l && j <= wn && Room(j, wn - j)
    requires Inside(mem, r, l * LPP) && Inside(mem, w, wn * LPP) && Disjoint(r, l * LPP, w, wn * LPP) && AllZero(mem[..], r, r + l * LPP)
    requires Holds(mem[..], w, j, s) && Times(s, s, x) && Times(Pw(m * LPP), x, y)
    modifies mem
    ensures Holds(mem[..], r, l, y)
    ensures SameOutside2(old(mem[..]), mem[..], r, r + l * LPP, w, w + wn * LPP)
    decreases j, 1
  {
    Square(mem, r + m * LPP, w + j * LPP, w, j, wn - j, s, x);
    Placed(mem[..], r, m, 2 * j + 1, l, x, y);
  }

  /** Accumulates x*x*B^hi - x*x*B^m. */
  method SquareInto(mem: array<Limb>, r: nat, w: nat, x: nat, n: nat, l: nat, hi: nat, m: nat, ghost wn: nat,
      ghost v: int, ghost f: int, ghost y: int, ghost up: int, ghost down: int)
    requires 0 < n && hi + 2 * n <= l && m + 2 * n <= l && 2 * n + 1 <= wn && Room(n, wn - 2 * n - 1)
    requires Inside(mem, w, wn * LPP) && Disjoint(r, l * LPP, w, wn * LPP) && Disjoint(w, wn * LPP, x, n * LPP)
    requires Holds(mem[..], x, n, v) && Times(v, v, f) && Holds(mem[..], r, l, y) && Path(y, f, hi, m, l, up, down)
    modifies mem
    ensures Holds(mem[..], r, l, down)
    ensures SameOutside2(old(mem[..]), mem[..], r, r + l * LPP, w, w + wn * LPP)
    decreases n, 1
  {
    ghost var S: seq<Limb> := mem[..];
    PZero(mem, w, 2 * n + 1);
    HoldsSame(S, mem[..], x, n, v);
    Square(mem, w, w + (2 * n + 1) * LPP, x, n, wn - 2 * n - 1, v, f);
    HoldsSame(S, mem[..], r, l, y);
    Shorter(S, mem[..], x, w, n, v, f);
    AddThenSub(mem, r, l, hi, m, w, 2 * n, l, y, f, up, down);
  }

  /** The square of n packets needs only 2n. */
  lemma Shorter(S: seq<Limb>, T: seq<Limb>, x: nat, w: nat, n: nat, v: int, f: int)
    requires Holds(S, x, n, v) && Times(v, v, f) && Holds(T, w, 2 * n + 1, f)
    ensures Holds(T, w, 2 * n, f)
  {
    assert Unfold(0);
    ValBound(S, x, n * LPP);
    SquareBelow(v, n);
    ShortValue(T, w, 2 * n * LPP, LPP);
  }

  method SquareBase(mem: array<Limb>, r: nat, a: nat, n: nat, ghost v: int, ghost f: int)
    requires Inside(mem, r, (2 * n + 1) * LPP) && Disjoint(r, (2 * n + 1) * LPP, a, n * LPP)
    requires AllZero(mem[..], r, r + (2 * n + 1) * LPP) && Holds(mem[..], a, n, v) && Times(v, v, f)
    modifies mem
    ensures Holds(mem[..], r, 2 * n + 1, f)
    ensures SameOutside(old(mem[..]), mem[..], r, r + (2 * n + 1) * LPP)
  {
    assert Unfold(0);
    if n > 0 { PSqr(mem, r, a, n); }
    ValTrim(mem[..], r, 2 * n * LPP, (2 * n + 1) * LPP);
  }

  /** A value among zeros. */
  lemma Placed(s: seq<Limb>, r: nat, m: nat, n: nat, l: nat, x: int, y: int)
    requires m + n <= l && r + l * LPP <= |s| && AllZero(s, r, r + m * LPP) && AllZero(s, r + (m + n) * LPP, r + l * LPP)
    requires Holds(s, r + m * LPP, n, x) && Times(Pw(m * LPP), x, y)
    ensures Holds(s, r, l, y)
  {
    assert Unfold(0);
    assert m * LPP + n * LPP == (m + n) * LPP;
    ValTrim(s, r, (m + n) * LPP, l * LPP);
    ValSplit(s, r, m * LPP, n * LPP);
    ValZero(s, r, m * LPP);
  }
}
