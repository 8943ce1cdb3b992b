/** Karatsuba multiplication: every shape is multiplied, and which shapes stay inside the result meanwhile. */
module KaratsubaMul {
  import opened Common
  import opened Limbs
  import opened Values
  import opened Memory
  import opened Scan
  import opened Multiply
  import opened Karatsuba

  const MUL_CUTOFF: nat := 8

  /** Packets of workspace the recursion takes, whatever the carries. */
  ghost function MulNeed(an: nat, bn: nat): nat
    decreases an + bn, 1, if an < bn then 1 else 0
  {
    if an < bn then MulNeed(bn, an)
    else if bn <= MUL_CUTOFF then 0
    else
      var m := (an + 1) / 2;
      if bn <= m then Max(MulNeed(m, bn), an - m + bn + 1 + MulNeed(an - m, bn)) else HalvesNeed(an, bn, m)
  }

  /** The largest of: two half sums and their product, with or without carries; the high product; the low product. */
  ghost function HalvesNeed(an: nat, bn: nat, m: nat): nat
    requires MUL_CUTOFF < bn <= an && m < bn && m == (an + 1) / 2
    decreases an + bn, 0, 0
  {
    Max(Max(2 * m + 2 + MulNeed(m + 1, m + 1), 2 * m + 1 + MulNeed(m + 1, m)),
      Max(an + bn - 2 * m + 1 + MulNeed(an - m, bn - m), 2 * m + 1 + MulNeed(m, m)))
  }

  // ----- how far the code goes -----

  /**
   Packets from r on that the code reads or writes for these operands. Long multiplication stays within an + bn; a
   product of half sums lies m packets up and is as long as the sums make it.
  */
  ghost function Extent(x: int, an: nat, y: int, bn: nat): nat
    decreases an + bn, if an < bn then 2 else 1
  {
    if an < bn then Extent(y, bn, x, an)
    else if bn <= MUL_CUTOFF then (if bn > 0 then an + bn else 0)
    else
      var m := (an + 1) / 2;
      var p := Pw(m * LPP);
      if bn <= m then Max(Extent(x % p, m, y, bn), an + bn)
      else Max(m + SumsExtent(x % p + x / p, y % p + y / p, an, bn), an + bn + 1)
  }

  /** The same for the product of two half sums. */
  ghost function SumsExtent(s: int, t: int, an: nat, bn: nat): nat
    requires MUL_CUTOFF < bn <= an && (an + 1) / 2 < bn
    decreases an + bn, 0
  {
    var m := (an + 1) / 2;
    Extent(s, HalfLength(s, m), t, HalfLength(t, m))
  }

  /** The shapes that need no more than the an + bn + 1 packets of their result. */
  predicate Fits(an: nat, bn: nat) {
    var lo, m := Min(an, bn), (Max(an, bn) + 1) / 2;
    lo <= MUL_CUTOFF || lo <= m || m < MUL_CUTOFF || 3 * m + 3 <= an + bn + 1
  }

  /** Lengths that differ by at most one take a packet more than their product, once they are split at all. */
  lemma {:induction false} NearSquareExtent(x: int, an: nat, y: int, bn: nat)
    requires bn <= an + 1 && an <= bn + 1
    ensures MUL_CUTOFF < Min(an, bn) ==> Extent(x, an, y, bn) == an + bn + 1
    ensures 0 < Min(an, bn) <= MUL_CUTOFF ==> Extent(x, an, y, bn) == an + bn
    decreases an + bn, if an < bn then 1 else 0
  {
    if an < bn {
      NearSquareExtent(y, bn, x, an);
    } else if bn > MUL_CUTOFF {
      var m := (an + 1) / 2;
      var p := Pw(m * LPP);
      NearSquareExtent(x % p + x / p, HalfLength(x % p + x / p, m), y % p + y / p, HalfLength(y % p + y / p, m));
    }
  }

  /** Two operands in halves: the product of the sums ends m + j + k packets up, or one more when it is split itself. */
  lemma {:induction false} HalvesExtent(x: int, an: nat, y: int, bn: nat)
    requires MUL_CUTOFF < bn <= an && (an + 1) / 2 < bn
    ensures var m, p := (an + 1) / 2, Pw((an + 1) / 2 * LPP);
      var j, k := HalfLength(x % p + x / p, m), HalfLength(y % p + y / p, m);
      Extent(x, an, y, bn) == Max(m + j + k + (if Min(j, k) <= MUL_CUTOFF then 0 else 1), an + bn + 1)
  {
    var m, p := (an + 1) / 2, Pw((an + 1) / 2 * LPP);
    NearSquareExtent(x % p + x / p, HalfLength(x % p + x / p, m), y % p + y / p, HalfLength(y % p + y / p, m));
  }

  /** Two packets past the result at most, and none unless both operands are halved. */
  lemma {:induction false} ExtentAtMost(x: int, an: nat, y: int, bn: nat)
    ensures Extent(x, an, y, bn) <= an + bn + 3
    ensures Fits(an, bn) ==> Extent(x, an, y, bn) <= an + bn + 1
    decreases an + bn, if an < bn then 1 else 0
  {
    if an < bn {
      ExtentAtMost(y, bn, x, an);
    } else if bn > MUL_CUTOFF {
      var m := (an + 1) / 2;
      if bn <= m {
        ExtentAtMost(x % Pw(m * LPP), m, y, bn);
      } else {
        HalvesExtent(x, an, y, bn);
      }
    }
  }

  /** n packets of ones. */
  ghost function Ones(n: nat): int { Pw(n * LPP) - 1 }

  lemma OnesSplit(n: nat, m: nat)
    requires m < n
    ensures Ones(n) % Pw(m * LPP) + Ones(n) / Pw(m * LPP) >= Pw(m * LPP)
  {
    var p, h := Pw(m * LPP), Pw((n - m) * LPP);
    PwAdd(m * LPP, (n - m) * LPP);
    assert m * LPP + (n - m) * LPP == n * LPP;
    assert (h - 1) * p == h * p - p;
    DivUnique(Ones(n), p, h - 1, p - 1);
    PwMono(1, (n - m) * LPP);
    assert Pw(1) == B;
  }

  lemma {:induction false} OnesLeave(an: nat, bn: nat)
    requires !Fits(an, bn)
    ensures 0 <= Ones(an) < Pw(an * LPP) && 0 <= Ones(bn) < Pw(bn * LPP) && Extent(Ones(an), an, Ones(bn), bn) > an + bn + 1
    decreases if an < bn then 1 else 0
  {
    if an < bn {
      OnesLeave(bn, an);
    } else {
      var m := (an + 1) / 2;
      OnesSplit(an, m);
      OnesSplit(bn, m);
      HalvesExtent(Ones(an), an, Ones(bn), bn);
    }
  }

  /** The shapes that fit are exactly those on which no operands of these lengths take the code past the result. */
  lemma {:induction false} FitsIff(an: nat, bn: nat)
    ensures Fits(an, bn) <==>
      forall x: int, y: int :: 0 <= x < Pw(an * LPP) && 0 <= y < Pw(bn * LPP) ==> Extent(x, an, y, bn) <= an + bn + 1
  {
    if Fits(an, bn) {
      forall x: int, y: int ensures Extent(x, an, y, bn) <= an + bn + 1 { ExtentAtMost(x, an, y, bn); }
    } else {
      OnesLeave(an, bn);
    }
  }

  /** Lengths that differ by at most one fit. */
  lemma NearSquareFits(an: nat, bn: nat)
    requires bn <= an + 1 && an <= bn + 1
    ensures Fits(an, bn)
  {
  }

  /** 15 by 9 packets do not fit, though 13 by 9 do. */
  lemma LopsidedShapes()
    ensures !Fits(15, 9) && Fits(13, 9)
  {
  }

  // ----- folded -----

  /** wn packets of workspace are enough. */
  ghost predicate Shape(an: nat, bn: nat, wn: int) {
    forall k {:trigger Unfold(k)} :: Unfold(k) ==> MulNeed(an, bn) <= wn
  }

  /** Memory of len limbs reaches as far as the code goes from r on. */
  ghost predicate Access(len: nat, r: nat, v: int, an: nat, u: int, bn: nat) {
    forall k {:trigger Unfold(k)} :: Unfold(k) ==> r + Extent(v, an, u, bn) * LPP <= len
  }

  /** The product f is below 4*Pw(c): c packets and a little more. */
  ghost predicate Light(f: int, c: nat) {
    forall k {:trigger Unfold(k)} :: Unfold(k) ==> 0 <= f < 4 * Pw(c * LPP)
  }

  /**
   e packets of the result are enough for a product of c packets and a little more: the code may take more of them
   into its loops, but only to write them back.
  */
  ghost predicate Enough(an: nat, bn: nat, c: nat, e: nat) {
    forall k {:trigger Unfold(k)} :: Unfold(k) ==>
      var lo, m := Min(an, bn), (Max(an, bn) + 1) / 2;
      && c + 1 <= e <= an + bn + 1
      && (lo <= MUL_CUTOFF ==> an + bn <= e)
      && (MUL_CUTOFF < lo <= m ==> c == an + bn)
      && (MUL_CUTOFF < lo && m < lo ==> 3 * m <= c && (m < MUL_CUTOFF ==> 3 * m + 2 <= e))
  }

  lemma EnoughInFull(an: nat, bn: nat)
    ensures Enough(an, bn, an + bn, an + bn + 1)
  {
  }

  lemma EnoughMeans(an: nat, bn: nat, c: nat, e: nat)
    requires Enough(an, bn, c, e) && bn <= an
    ensures c + 1 <= e <= an + bn + 1 && (bn <= MUL_CUTOFF ==> an + bn <= e)
    ensures MUL_CUTOFF < bn <= (an + 1) / 2 ==> e == an + bn + 1
    ensures MUL_CUTOFF < bn && (an + 1) / 2 < bn ==> 3 * ((an + 1) / 2) <= c
  {
    assert Unfold(0);
  }

  lemma EnoughSwap(an: nat, bn: nat, c: nat, e: nat)
    requires Enough(an, bn, c, e)
    ensures Enough(bn, an, c, e)
  {
    assert Unfold(0);
  }

  /** A product of half sums m packets up, of m packets or one more each: as much as is left of the e0 packets. */
  lemma EnoughForSums(an: nat, bn: nat, c0: nat, e0: nat, m: nat, j: nat, k: nat)
    requires MUL_CUTOFF < bn <= an && m == (an + 1) / 2 && m < bn && Enough(an, bn, c0, e0)
    requires m <= j <= m + 1 && m <= k <= m + 1
    ensures m <= e0 && Enough(j, k, 2 * m, Min(j + k + 1, e0 - m))
  {
    assert Unfold(0);
  }

  /** Room, workspace and access for the product of the half sums x and y, m packets up in the e packets at r. */
  ghost predicate SumsTurn(len: nat, r: nat, m: nat, e: nat, wn: int, x: int, y: int) {
    forall i {:trigger Unfold(i)} :: Unfold(i) ==>
      var j, k := HalfLength(x, m), HalfLength(y, m);
      && m <= e && Enough(j, k, 2 * m, Min(j + k + 1, e - m)) && Shape(j, k, wn - (j + k))
      && Access(len, r + m * LPP, x, j, y, k)
  }

  lemma SumsTurnMeans(len: nat, r: nat, m: nat, e: nat, wn: int, x: int, y: int, j: nat, k: nat) returns (e1: nat)
    requires SumsTurn(len, r, m, e, wn, x, y) && SumLength(x, m, j) && SumLength(y, m, k)
    ensures m + e1 <= e && Enough(j, k, 2 * m, e1) && Shape(j, k, wn - (j + k)) && e1 <= j + k + 1
    ensures Access(len, r + m * LPP, x, j, y, k)
  {
    assert Unfold(0);
    e1 := Min(j + k + 1, e - m);
  }

  /** The workspace of a product in the workspace begins where its result ends, and holds what goes past that. */
  lemma {:induction false} ExtentInSpace(len: nat, r: nat, v: int, an: nat, u: int, bn: nat, wn: int)
    requires Shape(an, bn, wn) && r + (an + bn + 1 + wn) * LPP <= len
    ensures Access(len, r, v, an, u, bn)
  {
    assert Unfold(0);
    PastResult(v, an, u, bn);
  }

  lemma {:induction false} PastResult(v: int, an: nat, u: int, bn: nat)
    ensures Extent(v, an, u, bn) <= an + bn + 1 + MulNeed(an, bn)
    decreases if an < bn then 1 else 0
  {
    ExtentAtMost(v, an, u, bn);
    if an < bn {
      PastResult(u, bn, v, an);
    } else if bn > MUL_CUTOFF && (an + 1) / 2 < bn {
      NeedOfHalves(an, bn, (an + 1) / 2);
      NeedOfSums(an, bn, (an + 1) / 2, (an + 1) / 2, (an + 1) / 2);
    }
  }

  lemma {:induction false} SwapFolded(an: nat, bn: nat, wn: int, len: nat, r: nat, v: int, u: int)
    requires an < bn && Shape(an, bn, wn) && Access(len, r, v, an, u, bn)
    ensures Shape(bn, an, wn) && Access(len, r, u, bn, v, an)
  {
    assert Unfold(0);
    assert MulNeed(an, bn) == MulNeed(bn, an);
    assert Extent(v, an, u, bn) == Extent(u, bn, v, an);
  }

  lemma {:induction false} ShapeShort(m: nat, n: nat, bn: nat, wn: int)
    requires Shape(m + n, bn, wn) && MUL_CUTOFF < bn <= m && m == (m + n + 1) / 2
    ensures n + bn + 1 <= wn && Shape(m, bn, wn) && Shape(n, bn, wn - (n + bn + 1))
  {
    assert Unfold(0);
    assert m + n - m == n;
    SplitNeed(m + n, bn, m, MulNeed(m, bn), MulNeed(n, bn));
  }

  lemma {:induction false} SplitNeed(an: nat, bn: nat, m: nat, x: nat, y: nat)
    requires MUL_CUTOFF < bn <= m && m == (an + 1) / 2 && x == MulNeed(m, bn) && y == MulNeed(an - m, bn)
    ensures MulNeed(an, bn) == Max(x, an - m + bn + 1 + y)
  {
  }

  /** For operands of m low packets and n1 or n2 high ones: the workspace of the product of the half sums. */
  lemma {:induction false} ShapeOfSums(m: nat, n1: nat, n2: nat, j: nat, k: nat, wn: int)
    requires Shape(m + n1, m + n2, wn) && MUL_CUTOFF < m + n2 && 0 < n2 <= n1 && m == (m + n1 + 1) / 2
    requires m <= j <= m + 1 && m <= k <= m + 1
    ensures 2 * m + 2 <= wn && Shape(j, k, wn - (j + k))
  {
    assert Unfold(0);
    NeedOfHalves(m + n1, m + n2, m);
    NeedOfSums(m + n1, m + n2, m, j, k);
  }

  /** And of the high and the low product. */
  lemma {:induction false} ShapeOfHalves(m: nat, n1: nat, n2: nat, wn: int)
    requires Shape(m + n1, m + n2, wn) && MUL_CUTOFF < m + n2 && 0 < n2 <= n1 && m == (m + n1 + 1) / 2
    ensures n1 + n2 + 1 <= wn && Shape(m, m, wn - (2 * m + 1)) && Shape(n1, n2, wn - (n1 + n2 + 1))
  {
    assert Unfold(0);
    NeedOfHalves(m + n1, m + n2, m);
    NeedOfHighAndLow(m + n1, m + n2, m, n1, n2);
  }

  lemma {:induction false} NeedOfHalves(an: nat, bn: nat, m: nat)
    requires MUL_CUTOFF < bn <= an && m < bn && m == (an + 1) / 2
    ensures MulNeed(an, bn) == HalvesNeed(an, bn, m)
  {
  }

  lemma {:induction false} NeedOfSums(an: nat, bn: nat, m: nat, j: nat, k: nat)
    requires MUL_CUTOFF < bn <= an && m < bn && m == (an + 1) / 2 && m <= j <= m + 1 && m <= k <= m + 1
    ensures j + k + MulNeed(j, k) <= HalvesNeed(an, bn, m) && 2 * m + 2 <= HalvesNeed(an, bn, m)
  {
    if j < k { assert MulNeed(j, k) == MulNeed(k, j); }
  }

  lemma {:induction false} NeedOfHighAndLow(an: nat, bn: nat, m: nat, n1: nat, n2: nat)
    requires MUL_CUTOFF < bn <= an && m < bn && m == (an + 1) / 2 && an == m + n1 && bn == m + n2
    ensures n1 + n2 + 1 + MulNeed(n1, n2) <= HalvesNeed(an, bn, m) && 2 * m + 1 + MulNeed(m, m) <= HalvesNeed(an, bn, m)
  {
    assert an - m == n1 && bn - m == n2;
  }

  /** v is put together from m packets and what is above. */
  ghost predicate Joins(v: int, m: nat, v0: int, v1: int) {
    forall k {:trigger Unfold(k)} :: Unfold(k) ==> v == v0 + Pw(m * LPP) * v1 && 0 <= v0 < Pw(m * LPP)
  }

  lemma JoinsIs(v: int, m: nat, v0: int, v1: int)
    requires Joins(v, m, v0, v1)
    ensures v % Pw(m * LPP) == v0 && v / Pw(m * LPP) == v1
  {
    assert Unfold(0);
    DivUnique(v, Pw(m * LPP), v1, v0);
  }

  lemma {:induction false} AccessLow(len: nat, r: nat, v: int, m: nat, n: nat, u: int, bn: nat, v0: int, v1: int)
    requires Access(len, r, v, m + n, u, bn) && MUL_CUTOFF < bn <= m && m == (m + n + 1) / 2 && Joins(v, m, v0, v1)
    ensures Access(len, r, v0, m, u, bn) && r + (m + n + bn) * LPP <= len
  {
    assert Unfold(0);
    JoinsIs(v, m, v0, v1);
  }

  lemma {:induction false} AccessHalves(len: nat, r: nat, v: int, u: int, m: nat, n1: nat, n2: nat, t: Terms)
    requires Access(len, r, v, m + n1, u, m + n2) && MUL_CUTOFF < m + n2 && 0 < n2 <= n1 && m == (m + n1 + 1) / 2
    requires Joins(v, m, t.a0, t.a1) && Joins(u, m, t.b0, t.b1)
    ensures Access(len, r + m * LPP, t.a0 + t.a1, HalfLength(t.a0 + t.a1, m), t.b0 + t.b1, HalfLength(t.b0 + t.b1, m))
    ensures r + (2 * m + n1 + n2 + 1) * LPP <= len
  {
    assert Unfold(0);
    JoinsIs(v, m, t.a0, t.a1);
    JoinsIs(u, m, t.b0, t.b1);
    assert Extent(v, m + n1, u, m + n2)
        == Max(m + Extent(t.a0 + t.a1, HalfLength(t.a0 + t.a1, m), t.b0 + t.b1, HalfLength(t.b0 + t.b1, m)), m + n1 + (m + n2) + 1);
  }

  lemma SumsTurnIs(len: nat, r: nat, v: int, u: int, m: nat, n1: nat, n2: nat, c: nat, e: nat, wn: int, t: Terms)
    requires Access(len, r, v, m + n1, u, m + n2) && MUL_CUTOFF < m + n2 && 0 < n2 <= n1 && m == (m + n1 + 1) / 2
    requires Joins(v, m, t.a0, t.a1) && Joins(u, m, t.b0, t.b1) && Enough(m + n1, m + n2, c, e) && Shape(m + n1, m + n2, wn)
    ensures SumsTurn(len, r, m, e, wn, t.a0 + t.a1, t.b0 + t.b1) && r + (2 * m + n1 + n2 + 1) * LPP <= len && 2 * m + 2 <= wn
  {
    var j, k := HalfLength(t.a0 + t.a1, m), HalfLength(t.b0 + t.b1, m);
    AccessHalves(len, r, v, u, m, n1, n2, t);
    EnoughForSums(m + n1, m + n2, c, e, m, j, k);
    ShapeOfSums(m, n1, n2, j, k, wn);
  }

  // ----- the products and their sum -----

  /** The halves, their sums, the three products, and what r holds after each step. */
  datatype Terms = Terms(a0: int, a1: int, b0: int, b1: int, x: int, y1: int, h: int, u1: int, y2: int, z: int, u2: int)

  ghost predicate MulPlan(t: Terms, m: nat, e: nat, f: int) {
    && Times(t.a0 + t.a1, t.b0 + t.b1, t.x) && Light(t.x, 2 * m) && Times(Pw(m * LPP), t.x, t.y1)
    && Times(t.a1, t.b1, t.h) && Path(t.y1, t.h, 2 * m, m, e, t.u1, t.y2)
    && Times(t.a0, t.b0, t.z) && Path(t.y2, t.z, 0, m, e, t.u2, f)
  }

  lemma PlanMul(S: seq<Limb>, a: nat, b: nat, m: nat, n1: nat, n2: nat, c: nat, e: nat, v: int, w: int, f: int) returns (t: Terms)
    requires 0 < n2 <= n1 <= m && Holds(S, a, m + n1, v) && Holds(S, b, m + n2, w) && Times(v, w, f)
    requires 3 * m <= c && c + 1 <= e && Light(f, c)
    ensures Holds(S, a, m, t.a0) && Holds(S, a + m * LPP, n1, t.a1) && Joins(v, m, t.a0, t.a1)
    ensures Holds(S, b, m, t.b0) && Holds(S, b + m * LPP, n2, t.b1) && Joins(w, m, t.b0, t.b1) && MulPlan(t, m, e, f)
  {
    assert Unfold(0);
    var a0, a1 := Val(S, a, m * LPP), Val(S, a + m * LPP, n1 * LPP);
    var b0, b1 := Val(S, b, m * LPP), Val(S, b + m * LPP, n2 * LPP);
    Halves(S, a, m, n1);
    Halves(S, b, m, n2);
    t := PlanTerms(a0, a1, b0, b1, m, c, e);
  }

  lemma PlanTerms(a0: int, a1: int, b0: int, b1: int, m: nat, c: nat, e: nat) returns (t: Terms)
    requires 3 * m <= c && c + 1 <= e
    requires 0 <= a0 < Pw(m * LPP) && 0 <= a1 < Pw(m * LPP) && 0 <= b0 < Pw(m * LPP) && 0 <= b1 < Pw(m * LPP)
    requires (a0 + Pw(m * LPP) * a1) * (b0 + Pw(m * LPP) * b1) < 4 * Pw(c * LPP)
    ensures t.a0 == a0 && t.a1 == a1 && t.b0 == b0 && t.b1 == b1
    ensures MulPlan(t, m, e, (a0 + Pw(m * LPP) * a1) * (b0 + Pw(m * LPP) * b1))
  {
    var p := Pw(m * LPP);
    var x, h, z := (a0 + a1) * (b0 + b1), a1 * b1, a0 * b0;
    Cube(m, c);
    RoomForFour(c, e);
    StagesFit(a0, a1, b0, b1, p, 4 * Pw(c * LPP), Pw(e * LPP));
    SumsLight(a0 + a1, b0 + b1, m);
    var u1, y2, u2 := PlanPaths(m, e, p, x, h, z, (a0 + p * a1) * (b0 + p * b1));
    t := Terms(a0, a1, b0, b1, x, p * x, h, u1, y2, z, u2);
  }

  lemma RoomForFour(c: nat, e: nat)
    requires c + 1 <= e
    ensures 12 * Pw(c * LPP) <= Pw(e * LPP)
  {
    PwMono((c + 1) * LPP, e * LPP);
    assert Pw((c + 1) * LPP) == B * (B * Pw(c * LPP));
  }

  lemma SumsLight(s: int, t: int, m: nat)
    requires 0 <= s < 2 * Pw(m * LPP) && 0 <= t < 2 * Pw(m * LPP)
    ensures 0 <= s * t < 4 * Pw(2 * m * LPP) && Light(s * t, 2 * m)
  {
    var p := Pw(m * LPP);
    PwAdd(m * LPP, m * LPP);
    assert m * LPP + m * LPP == 2 * m * LPP;
    FactorsBelow(s, 2 * p, t, 2 * p);
    assert (2 * p) * (2 * p) == 4 * (p * p);
  }

  lemma FactorsBelow(v: int, x: int, w: int, y: int)
    requires 0 <= v < x && 0 <= w < y
    ensures 0 <= v * w < x * y
  {
    MulLe(0, v, 0, w);
    MulLe(v, v, w, y);
    MulLt(v, x, y);
  }

  lemma PwSum(an: nat, bn: nat)
    ensures Pw((an + bn) * LPP) == Pw(an * LPP) * Pw(bn * LPP)
  {
    PwAdd(an * LPP, bn * LPP);
  }

  lemma PacketsBelow(v: int, an: nat, w: int, bn: nat)
    requires 0 <= v < Pw(an * LPP) && 0 <= w < Pw(bn * LPP)
    ensures 0 <= v * w < Pw((an + bn) * LPP)
  {
    PwSum(an, bn);
    FactorsBelow(v, Pw(an * LPP), w, Pw(bn * LPP));
  }

  lemma LightInFull(s: seq<Limb>, a: nat, b: nat, an: nat, bn: nat, v: int, u: int, f: int)
    requires Holds(s, a, an, v) && Holds(s, b, bn, u) && Times(v, u, f)
    ensures Light(f, an + bn)
  {
    assert Unfold(0);
    ValBound(s, a, an * LPP);
    ValBound(s, b, bn * LPP);
    PacketsBelow(v, an, u, bn);
  }

  // ----- multiplication -----

  /**
   The result is zeroed as far as its e own packets go, and lies apart from workspace and operands (which may share
   packets); the workspace lies apart from all that the code takes for the result.
  */
  ghost predicate MulReady(s: seq<Limb>, r: nat, w: nat, a: nat, b: nat, an: nat, bn: nat, e: nat, wn: nat) {
    && r + e * LPP <= |s| && w + wn * LPP <= |s| && Disjoint(r, (an + bn + 1) * LPP, w, wn * LPP)
    && Disjoint(r, e * LPP, a, an * LPP) && Disjoint(w, wn * LPP, a, an * LPP)
    && Disjoint(r, e * LPP, b, bn * LPP) && Disjoint(w, wn * LPP, b, bn * LPP)
    && AllZero(s, r, r + e * LPP)
  }

  /**
   r := a*b in a zeroed r of an + bn + 1 packets, for every shape. The code may need up to two packets more to be
   there for some shapes and operands, but leaves them as they were.
  */
  method PMulKaratsuba(mem: array<Limb>, r: nat, w: nat, a: nat, b: nat, an: nat, bn: nat)
    requires Inside(mem, a, an * LPP) && Inside(mem, b, bn * LPP)
    requires MulReady(mem[..], r, w, a, b, an, bn, an + bn + 1, MulNeed(an, bn))
    requires Inside(mem, r, Extent(Val(mem[..], a, an * LPP), an, Val(mem[..], b, bn * LPP), bn) * LPP)
    modifies mem
    ensures Val(mem[..], r, (an + bn + 1) * LPP) == Val(old(mem[..]), a, an * LPP) * Val(old(mem[..]), b, bn * LPP)
    ensures SameOutside2(old(mem[..]), mem[..], r, r + (an + bn + 1) * LPP, w, w + MulNeed(an, bn) * LPP)
  {
    ghost var v, u := Val(mem[..], a, an * LPP), Val(mem[..], b, bn * LPP);
    FullProduct(mem, r, w, a, b, an, bn, MulNeed(an, bn), v, u, v * u);
    assert Unfold(0);
  }

  /** All the an + bn + 1 packets of the result are there for the product. */
  method FullProduct(mem: array<Limb>, r: nat, w: nat, a: nat, b: nat, an: nat, bn: nat, ghost wn: nat, ghost v: int, ghost u: int, ghost f: int)
    requires Shape(an, bn, wn) && MulReady(mem[..], r, w, a, b, an, bn, an + bn + 1, wn) && Access(mem.Length, r, v, an, u, bn)
    requires Holds(mem[..], a, an, v) && Holds(mem[..], b, bn, u) && Times(v, u, f)
    modifies mem
    ensures Holds(mem[..], r, an + bn + 1, f)
    ensures SameOutside2(old(mem[..]), mem[..], r, r + (an + bn + 1) * LPP, w, w + wn * LPP)
    decreases an + bn, 6
  {
    EnoughInFull(an, bn);
    LightInFull(mem[..], a, b, an, bn, v, u, f);
    Product(mem, r, w, a, b, an, bn, an + bn, an + bn + 1, wn, v, u, f);
  }

  /** The recursion: operands are put in order first. */
  method Product(mem: array<Limb>, r: nat, w: nat, a: nat, b: nat, an: nat, bn: nat, ghost c: nat, ghost e: nat, ghost wn: nat,
      ghost v: int, ghost u: int, ghost f: int)
    requires Shape(an, bn, wn) && MulReady(mem[..], r, w, a, b, an, bn, e, wn) && Access(mem.Length, r, v, an, u, bn)
    requires Enough(an, bn, c, e) && Light(f, c)
    requires Holds(mem[..], a, an, v) && Holds(mem[..], b, bn, u) && Times(v, u, f)
    modifies mem
    ensures Holds(mem[..], r, e, f)
    ensures SameOutside2(old(mem[..]), mem[..], r, r + e * LPP, w, w + wn * LPP)
    decreases an + bn, 5
  {
    if an < bn {
      SwapFolded(an, bn, wn, mem.Length, r, v, u);
      EnoughSwap(an, bn, c, e);
      TimesSwap(v, u, f);
      ProductOrdered(mem, r, w, b, a, bn, an, c, e, wn, u, v, f);
    } else {
      ProductOrdered(mem, r, w, a, b, an, bn, c, e, wn, v, u, f);
    }
  }

  lemma TimesSwap(v: int, u: int, f: int)
    requires Times(v, u, f)
    ensures Times(u, v, f)
  {
    assert Unfold(0);
  }

  method ProductOrdered(mem: array<Limb>, r: nat, w: nat, a: nat, b: nat, an: nat, bn: nat, ghost c: nat, ghost e: nat, ghost wn: nat,
      ghost v: int, ghost u: int, ghost f: int)
    requires an >= bn && Shape(an, bn, wn) && MulReady(mem[..], r, w, a, b, an, bn, e, wn) && Access(mem.Length, r, v, an, u, bn)
    requires Enough(an, bn, c, e) && Light(f, c)
    requires Holds(mem[..], a, an, v) && Holds(mem[..], b, bn, u) && Times(v, u, f)
    modifies mem
    ensures Holds(mem[..], r, e, f)
    ensures SameOutside2(old(mem[..]), mem[..], r, r + e * LPP, w, w + wn * LPP)
    decreases an + bn, 4
  {
    EnoughMeans(an, bn, c, e);
    if bn <= MUL_CUTOFF {
      ProductBase(mem, r, a, b, an, bn, e, v, u, f);
    } else {
      ProductParted(mem, r, w, a, b, an, bn, c, e, wn, v, u, f);
    }
  }

  /** The long operand is split in the middle. */
  method ProductParted(mem: array<Limb>, r: nat, w: nat, a: nat, b: nat, an: nat, bn: nat, ghost c: nat, ghost e: nat, ghost wn: nat,
      ghost v: int, ghost u: int, ghost f: int)
    requires an >= bn > MUL_CUTOFF && Shape(an, bn, wn) && MulReady(mem[..], r, w, a, b, an, bn, e, wn) && Access(mem.Length, r, v, an, u, bn)
    requires Enough(an, bn, c, e) && Light(f, c)
    requires Holds(mem[..], a, an, v) && Holds(mem[..], b, bn, u) && Times(v, u, f)
    modifies mem
    ensures Holds(mem[..], r, e, f)
    ensures SameOutside2(old(mem[..]), mem[..], r, r + e * LPP, w, w + wn * LPP)
    decreases an + bn, 3
  {
    var m := (an + 1) / 2;
    EnoughMeans(an, bn, c, e);
    if bn <= m {
      ProductSplit(mem, r, w, a, b, m, an - m, bn, wn, v, u, f);
    } else {
      ProductHalves(mem, r, w, a, b, m, an - m, bn - m, c, e, wn, v, u, f);
    }
  }

  method ProductBase(mem: array<Limb>, r: nat, a: nat, b: nat, an: nat, bn: nat, ghost e: nat, ghost v: int, ghost u: int, ghost f: int)
    requires an >= bn && an + bn <= e && Inside(mem, r, e * LPP)
    requires Disjoint(r, e * LPP, a, an * LPP) && Disjoint(r, e * LPP, b, bn * LPP) && AllZero(mem[..], r, r + e * LPP)
    requires Holds(mem[..], a, an, v) && Holds(mem[..], b, bn, u) && Times(v, u, f)
    modifies mem
    ensures Holds(mem[..], r, e, f)
    ensures SameOutside(old(mem[..]), mem[..], r, r + e * LPP)
  {
    assert Unfold(0);
    if bn > 0 {
      PMul(mem, r, a, b, an, bn);
      ValTrim(mem[..], r, (an + bn) * LPP, e * LPP);
    } else {
      ValTrim(mem[..], r, 0, e * LPP);
    }
  }

  /** A short operand: the products with the low m and the high n packets of the long one. */
  method ProductSplit(mem: array<Limb>, r: nat, w: nat, a: nat, b: nat, m: nat, n: nat, bn: nat, ghost wn: nat, ghost v: int, ghost u: int, ghost f: int)
    requires MUL_CUTOFF < bn <= m && m == (m + n + 1) / 2 && Shape(m + n, bn, wn) && Access(mem.Length, r, v, m + n, u, bn)
    requires MulReady(mem[..], r, w, a, b, m + n, bn, m + n + bn + 1, wn)
    requires Holds(mem[..], a, m + n, v) && Holds(mem[..], b, bn, u) && Times(v, u, f)
    modifies mem
    ensures Holds(mem[..], r, m + n + bn + 1, f)
    ensures SameOutside2(old(mem[..]), mem[..], r, r + (m + n + bn + 1) * LPP, w, w + wn * LPP)
    decreases m + n + bn, 2
  {
    ShapeShort(m, n, bn, wn);
    ghost var v0, v1, f0, f1 := SplitPlan(mem[..], a, b, m, n, bn, v, u, f);
    AccessLow(mem.Length, r, v, m, n, u, bn, v0, v1);
    LowThenHigh(mem, r, w, a, b, m, n, bn, wn, v0, v1, u, f0, f1, f);
  }

  method LowThenHigh(mem: array<Limb>, r: nat, w: nat, a: nat, b: nat, m: nat, n: nat, bn: nat, ghost wn: nat,
      ghost v0: int, ghost v1: int, ghost u: int, ghost f0: int, ghost f1: int, ghost f: int)
    requires 0 < n <= m && 0 < bn && n + bn + 1 <= wn && Shape(m, bn, wn) && Shape(n, bn, wn - (n + bn + 1))
    requires MulReady(mem[..], r, w, a, b, m + n, bn, m + n + bn + 1, wn) && Added(f0, f1, m, m + n + bn, f)
    requires Holds(mem[..], a, m, v0) && Holds(mem[..], a + m * LPP, n, v1) && Holds(mem[..], b, bn, u)
    requires Times(v0, u, f0) && Times(v1, u, f1) && Access(mem.Length, r, v0, m, u, bn)
    modifies mem
    ensures Holds(mem[..], r, m + n + bn + 1, f)
    ensures SameOutside2(old(mem[..]), mem[..], r, r + (m + n + bn + 1) * LPP, w, w + wn * LPP)
    decreases m + n + bn, 1
  {
    ghost var S: seq<Limb> := mem[..];
    FullProduct(mem, r, w, a, b, m, bn, wn, v0, u, f0);
    HoldsSame(S, mem[..], a + m * LPP, n, v1);
    HoldsSame(S, mem[..], b, bn, u);
    HighProduct(mem, r, w, a + m * LPP, b, m, n, bn, wn, v1, u, f0, f1, f);
  }

  /** The product with the n high packets, added to the one already in r. */
  method HighProduct(mem: array<Limb>, r: nat, w: nat, x: nat, b: nat, m: nat, n: nat, bn: nat, ghost wn: nat,
      ghost v: int, ghost u: int, ghost f0: int, ghost f1: int, ghost f: int)
    requires 0 < n <= m && 0 < bn && n + bn + 1 <= wn && Shape(n, bn, wn - (n + bn + 1))
    requires Inside(mem, r, (m + n + bn + 1) * LPP) && Inside(mem, w, wn * LPP) && Disjoint(r, (m + n + bn + 1) * LPP, w, wn * LPP)
    requires Disjoint(w, wn * LPP, x, n * LPP) && Disjoint(w, wn * LPP, b, bn * LPP)
    requires Holds(mem[..], x, n, v) && Holds(mem[..], b, bn, u) && Times(v, u, f1)
    requires Holds(mem[..], r, m + bn + 1, f0) && AllZero(mem[..], r + (m + bn + 1) * LPP, r + (m + n + bn + 1) * LPP) && Added(f0, f1, m, m + n + bn, f)
    modifies mem
    ensures Holds(mem[..], r, m + n + bn + 1, f)
    ensures SameOutside2(old(mem[..]), mem[..], r, r + (m + n + bn + 1) * LPP, w, w + wn * LPP)
    decreases n + bn, 8
  {
    ghost var T: seq<Limb> := mem[..];
    FreshProduct(mem, w, x, b, n, bn, wn, v, u, f1);
    HoldsSame(T, mem[..], r, m + bn + 1, f0);
    AddHigh(mem, r, w, m, n, bn, f0, f1, f);
  }

  lemma SplitPlan(S: seq<Limb>, a: nat, b: nat, m: nat, n: nat, bn: nat, v: int, u: int, f: int) returns (v0: int, v1: int, f0: int, f1: int)
    requires Holds(S, a, m + n, v) && Holds(S, b, bn, u) && Times(v, u, f)
    ensures Holds(S, a, m, v0) && Holds(S, a + m * LPP, n, v1) && Times(v0, u, f0) && Times(v1, u, f1)
    ensures Added(f0, f1, m, m + n + bn, f) && Joins(v, m, v0, v1)
  {
    assert Unfold(0);
    v0, v1 := Val(S, a, m * LPP), Val(S, a + m * LPP, n * LPP);
    assert m * LPP + n * LPP == (m + n) * LPP;
    ValSplit(S, a, m * LPP, n * LPP);
    ValBound(S, a, (m + n) * LPP);
    ValBound(S, a, m * LPP);
    ValBound(S, a + m * LPP, n * LPP);
    ValBound(S, b, bn * LPP);
    PacketsBelow(v, m + n, u, bn);
    f0, f1 := v0 * u, v1 * u;
    MulLe(0, v1, 0, u);
    SplitFactor(v0, v1, Pw(m * LPP), u);
  }

  lemma SplitFactor(v0: int, v1: int, p: int, u: int)
    ensures (v0 + p * v1) * u == v0 * u + p * (v1 * u)
  {
  }

  /** f is f0 with f1 added m packets up, and has l packets. */
  ghost predicate Added(f0: int, f1: int, m: nat, l: nat, f: int) {
    forall k {:trigger Unfold(k)} :: Unfold(k) ==> f == f0 + Pw(m * LPP) * f1 && f < Pw(l * LPP) && 0 <= f1
  }

  /** Adds the high product, w, at packet m of r; what r already holds has zeros above it. */
  method AddHigh(mem: array<Limb>, r: nat, w: nat, m: nat, n: nat, bn: nat, ghost f0: int, ghost f1: int, ghost f: int)
    requires 0 < n <= m && 0 < bn && Inside(mem, r, (m + n + bn + 1) * LPP) && Disjoint(r, (m + n + bn + 1) * LPP, w, (n + bn) * LPP)
    requires Holds(mem[..], r, m + bn + 1, f0) && AllZero(mem[..], r + (m + bn + 1) * LPP, r + (m + n + bn + 1) * LPP) && Holds(mem[..], w, n + bn, f1)
    requires Added(f0, f1, m, m + n + bn, f)
    modifies mem
    ensures Holds(mem[..], r, m + n + bn + 1, f)
    ensures SameOutside(old(mem[..]), mem[..], r, r + (m + n + bn + 1) * LPP)
  {
    assert Unfold(0);
    ghost var S: seq<Limb> := mem[..];
    ValTrim(S, r, (m + bn + 1) * LPP, (m + n + bn) * LPP);
    ValTrim(S, r, (m + bn + 1) * LPP, (m + n + bn + 1) * LPP);
    ValSplit(S, r, (m + n + bn) * LPP, LPP);
    AddAt(mem, r, m + n + bn, m, w, n + bn, m + n + bn);
    ValFrame(S, mem[..], r, r + (m + n + bn) * LPP, r + (m + n + bn) * LPP, LPP);
    ValSplit(mem[..], r, (m + n + bn) * LPP, LPP);
  }

  /** x*y in the workspace, in n1 + n2 packets after all. */
  method FreshProduct(mem: array<Limb>, w: nat, x: nat, y: nat, n1: nat, n2: nat, ghost wn: nat, ghost v: int, ghost u: int, ghost f: int)
    requires n1 + n2 + 1 <= wn && Shape(n1, n2, wn - (n1 + n2 + 1)) && Inside(mem, w, wn * LPP)
    requires Disjoint(w, wn * LPP, x, n1 * LPP) && Disjoint(w, wn * LPP, y, n2 * LPP)
    requires Holds(mem[..], x, n1, v) && Holds(mem[..], y, n2, u) && Times(v, u, f)
    modifies mem
    ensures Holds(mem[..], w, n1 + n2, f)
    ensures SameOutside(old(mem[..]), mem[..], w, w + wn * LPP)
    decreases n1 + n2, 7
  {
    ghost var S: seq<Limb> := mem[..];
    PZero(mem, w, n1 + n2 + 1);
    HoldsSame(S, mem[..], x, n1, v);
    HoldsSame(S, mem[..], y, n2, u);
    ExtentInSpace(mem.Length, w, v, n1, u, n2, wn - (n1 + n2 + 1));
    FullProduct(mem, w, w + (n1 + n2 + 1) * LPP, x, y, n1, n2, wn - (n1 + n2 + 1), v, u, f);
    ShorterProduct(S, mem[..], x, y, w, n1, n2, v, u, f);
  }

  lemma ShorterProduct(S: seq<Limb>, T: seq<Limb>, x: nat, y: nat, w: nat, n1: nat, n2: nat, v: int, u: int, f: int)
    requires Holds(S, x, n1, v) && Holds(S, y, n2, u) && Times(v, u, f) && Holds(T, w, n1 + n2 + 1, f)
    ensures Holds(T, w, n1 + n2, f)
  {
    assert Unfold(0);
    ValBound(S, x, n1 * LPP);
    ValBound(S, y, n2 * LPP);
    PacketsBelow(v, n1, u, n2);
    ShortValue(T, w, (n1 + n2) * LPP, LPP);
  }

  /** The three products of numbers of m low packets and n1 or n2 high ones, put together in r. */
  method ProductHalves(mem: array<Limb>, r: nat, w: nat, a: nat, b: nat, m: nat, n1: nat, n2: nat, ghost c: nat, ghost e: nat, ghost wn: nat,
      ghost v: int, ghost u: int, ghost f: int)
    requires MUL_CUTOFF < m + n2 && 0 < n2 <= n1 && m == (m + n1 + 1) / 2 && Shape(m + n1, m + n2, wn)
    requires MulReady(mem[..], r, w, a, b, m + n1, m + n2, e, wn) && Access(mem.Length, r, v, m + n1, u, m + n2)
    requires Enough(m + n1, m + n2, c, e) && Light(f, c)
    requires Holds(mem[..], a, m + n1, v) && Holds(mem[..], b, m + n2, u) && Times(v, u, f)
    modifies mem
    ensures Holds(mem[..], r, e, f)
    ensures SameOutside2(old(mem[..]), mem[..], r, r + e * LPP, w, w + wn * LPP)
    decreases 2 * m + n1 + n2, 2
  {
    ShapeOfHalves(m, n1, n2, wn);
    EnoughMeans(m + n1, m + n2, c, e);
    ghost var t := PlanMul(mem[..], a, b, m, n1, n2, c, e, v, u, f);
    SumsTurnIs(mem.Length, r, v, u, m, n1, n2, c, e, wn, t);
    ProductPlanned(mem, r, w, a, b, m, n1, n2, 2 * m + n1 + n2 + 1, e, wn, t, f);
  }

  /** The halves of both operands, apart from the e packets of the result and from the workspace. */
  ghost predicate Operands(s: seq<Limb>, r: nat, w: nat, a: nat, b: nat, m: nat, n1: nat, n2: nat, e: nat, wn: nat, t: Terms) {
    && Disjoint(r, e * LPP, a, (m + n1) * LPP) && Disjoint(w, wn * LPP, a, (m + n1) * LPP)
    && Disjoint(r, e * LPP, b, (m + n2) * LPP) && Disjoint(w, wn * LPP, b, (m + n2) * LPP)
    && Holds(s, a, m, t.a0) && Holds(s, a + m * LPP, n1, t.a1) && Holds(s, b, m, t.b0) && Holds(s, b + m * LPP, n2, t.b1)
  }

  lemma OperandsStay(S: seq<Limb>, T: seq<Limb>, r: nat, w: nat, a: nat, b: nat, m: nat, n1: nat, n2: nat, e: nat, wn: nat, t: Terms)
    requires Operands(S, r, w, a, b, m, n1, n2, e, wn, t) && SameOutside2(S, T, r, r + e * LPP, w, w + wn * LPP)
    ensures Operands(T, r, w, a, b, m, n1, n2, e, wn, t)
  {
    HoldsSame(S, T, a, m, t.a0);
    HoldsSame(S, T, a + m * LPP, n1, t.a1);
    HoldsSame(S, T, b, m, t.b0);
    HoldsSame(S, T, b + m * LPP, n2, t.b1);
  }

  method ProductPlanned(mem: array<Limb>, r: nat, w: nat, a: nat, b: nat, m: nat, n1: nat, n2: nat, l: nat, ghost e: nat, ghost wn: nat,
      ghost t: Terms, ghost f: int)
    requires 0 < n2 <= n1 <= m <= n1 + n2 && 2 < n1 + n2 && l == 2 * m + n1 + n2 + 1 && 2 * m <= e <= l && 2 * m + 2 <= wn && n1 + n2 + 1 <= wn
    requires Shape(m, m, wn - (2 * m + 1)) && Shape(n1, n2, wn - (n1 + n2 + 1))
    requires Inside(mem, r, l * LPP) && Inside(mem, w, wn * LPP) && Disjoint(r, l * LPP, w, wn * LPP) && AllZero(mem[..], r, r + e * LPP)
    requires Operands(mem[..], r, w, a, b, m, n1, n2, e, wn, t) && MulPlan(t, m, e, f)
    requires SumsTurn(mem.Length, r, m, e, wn, t.a0 + t.a1, t.b0 + t.b1)
    modifies mem
    ensures Holds(mem[..], r, e, f)
    ensures SameOutside2(old(mem[..]), mem[..], r, r + e * LPP, w, w + wn * LPP)
    decreases 2 * m + n1 + n2, 1
  {
    ghost var S: seq<Limb> := mem[..];
    ProductOfSums(mem, r, w, a, b, m, n1, n2, l, e, wn, t);
    OperandsStay(S, mem[..], r, w, a, b, m, n1, n2, e, wn, t);
    HighAndLow(mem, r, w, a, b, m, n1, n2, l, e, wn, t, f);
  }

  method HighAndLow(mem: array<Limb>, r: nat, w: nat, a: nat, b: nat, m: nat, n1: nat, n2: nat, l: nat, ghost e: nat, ghost wn: nat,
      ghost t: Terms, ghost f: int)
    requires 0 < n2 <= n1 <= m <= n1 + n2 && l == 2 * m + n1 + n2 + 1 && 2 * m <= e <= l && 2 * m + 2 <= wn && n1 + n2 + 1 <= wn
    requires Shape(m, m, wn - (2 * m + 1)) && Shape(n1, n2, wn - (n1 + n2 + 1))
    requires Inside(mem, r, l * LPP) && Inside(mem, w, wn * LPP) && Disjoint(r, l * LPP, w, wn * LPP)
    requires Operands(mem[..], r, w, a, b, m, n1, n2, e, wn, t) && Holds(mem[..], r, e, t.y1) && MulPlan(t, m, e, f)
    modifies mem
    ensures Holds(mem[..], r, e, f)
    ensures SameOutside2(old(mem[..]), mem[..], r, r + e * LPP, w, w + wn * LPP)
    decreases 2 * m + n1 + n2, 0
  {
    ghost var S: seq<Limb> := mem[..];
    ProductInto(mem, r, w, a + m * LPP, b + m * LPP, n1, n2, l, 2 * m, m, e, wn, t.a1, t.b1, t.h, t.y1, t.u1, t.y2);
    HoldsSame(S, mem[..], a, m, t.a0);
    HoldsSame(S, mem[..], b, m, t.b0);
    ProductInto(mem, r, w, a, b, m, m, l, 0, m, e, wn, t.a0, t.b0, t.z, t.y2, t.u2, f);
  }

  lemma ZeroStays(S: seq<Limb>, T: seq<Limb>, r: nat, n: nat, w: nat, k: nat)
    requires AllZero(S, r, r + n) && SameOutside(S, T, w, w + k) && Disjoint(r, n, w, k)
    ensures AllZero(T, r, r + n)
  {
  }

  /** Accumulates (a0 + a1)(b0 + b1)*B^m. */
  method ProductOfSums(mem: array<Limb>, r: nat, w: nat, a: nat, b: nat, m: nat, n1: nat, n2: nat, l: nat, ghost e: nat, ghost wn: nat, ghost t: Terms)
    requires 0 < n2 <= n1 <= m && 2 < n1 + n2 && 3 * m + 1 <= l && m <= e <= l && 2 * m + 2 <= wn
    requires Inside(mem, r, l * LPP) && Inside(mem, w, wn * LPP) && Disjoint(r, l * LPP, w, wn * LPP) && AllZero(mem[..], r, r + e * LPP)
    requires Operands(mem[..], r, w, a, b, m, n1, n2, e, wn, t) && SumsTurn(mem.Length, r, m, e, wn, t.a0 + t.a1, t.b0 + t.b1)
    requires Times(t.a0 + t.a1, t.b0 + t.b1, t.x) && Light(t.x, 2 * m) && Times(Pw(m * LPP), t.x, t.y1)
    modifies mem
    ensures Holds(mem[..], r, e, t.y1)
    ensures SameOutside2(old(mem[..]), mem[..], r, r + e * LPP, w, w + wn * LPP)
    decreases 2 * m + n1 + n2, 0
  {
    ghost var S: seq<Limb> := mem[..];
    var j, k := HalfSums(mem, w, a, b, m, n1, n2, t);
    ZeroStays(S, mem[..], r, e * LPP, w, (j + k) * LPP);
    ProductAt(mem, r, w, j, k, m, l, e, wn, t.a0 + t.a1, t.b0 + t.b1, t.x, t.y1);
  }

  /** What the code takes for the product of the sums may reach into the sums, but not into the workspace behind them. */
  lemma SumsReady(s: seq<Limb>, r: nat, w: nat, j: nat, k: nat, m: nat, l: nat, e: nat, e1: nat, wn: nat)
    requires 0 < m && 3 * m + 1 <= l && e <= l && m + e1 <= e && j + k <= wn && m <= j <= m + 1 && m <= k <= m + 1
    requires r + e * LPP <= |s| && w + wn * LPP <= |s| && Disjoint(r, l * LPP, w, wn * LPP) && AllZero(s, r, r + e * LPP)
    ensures MulReady(s, r + m * LPP, w + (j + k) * LPP, w, w + j * LPP, j, k, e1, wn - (j + k))
  {
  }

  /** The product of the sums at w, m packets up in the e packets of a zeroed r. */
  method ProductAt(mem: array<Limb>, r: nat, w: nat, j: nat, k: nat, m: nat, ghost l: nat, ghost e: nat, ghost wn: nat,
      ghost v: int, ghost u: int, ghost x: int, ghost y: int)
    requires 0 < m && 3 * m + 1 <= l && e <= l && 2 * m + 2 <= wn && m <= j <= m + 1 && m <= k <= m + 1
    requires SumsTurn(mem.Length, r, m, e, wn, v, u) && SumLength(v, m, j) && SumLength(u, m, k) && Light(x, 2 * m)
    requires Inside(mem, r, e * LPP) && Inside(mem, w, wn * LPP) && AllZero(mem[..], r, r + e * LPP)
    requires Disjoint(r, l * LPP, w, wn * LPP)
    requires Holds(mem[..], w, j, v) && Holds(mem[..], w + j * LPP, k, u) && Times(v, u, x) && Times(Pw(m * LPP), x, y)
    modifies mem
    ensures Holds(mem[..], r, e, y)
    ensures SameOutside2(old(mem[..]), mem[..], r, r + e * LPP, w, w + wn * LPP)
    decreases j + k, 7
  {
    ghost var e1 := SumsTurnMeans(mem.Length, r, m, e, wn, v, u, j, k);
    SumsReady(mem[..], r, w, j, k, m, l, e, e1, wn);
    ProductPlaced(mem, r, w, j, k, m, e, e1, wn, v, u, x, y);
  }

  /** It gets e1 of the e packets. */
  method ProductPlaced(mem: array<Limb>, r: nat, w: nat, j: nat, k: nat, m: nat, ghost e: nat, ghost e1: nat, ghost wn: nat,
      ghost v: int, ghost u: int, ghost x: int, ghost y: int)
    requires j + k <= wn && m + e1 <= e && Inside(mem, r, e * LPP) && Inside(mem, w, wn * LPP) && AllZero(mem[..], r, r + e * LPP)
    requires Disjoint(r, e * LPP, w, wn * LPP) && MulReady(mem[..], r + m * LPP, w + (j + k) * LPP, w, w + j * LPP, j, k, e1, wn - (j + k))
    requires Enough(j, k, 2 * m, e1) && Shape(j, k, wn - (j + k)) && Light(x, 2 * m) && Access(mem.Length, r + m * LPP, v, j, u, k)
    requires Holds(mem[..], w, j, v) && Holds(mem[..], w + j * LPP, k, u) && Times(v, u, x) && Times(Pw(m * LPP), x, y)
    modifies mem
    ensures Holds(mem[..], r, e, y)
    ensures SameOutside2(old(mem[..]), mem[..], r, r + e * LPP, w, w + wn * LPP)
    decreases j + k, 6
  {
    Product(mem, r + m * LPP, w + (j + k) * LPP, w, w + j * LPP, j, k, 2 * m, e1, wn - (j + k), v, u, x);
    Placed(mem[..], r, m, e1, e, x, y);
  }

  /** Both half sums, one after the other. */
  method HalfSums(mem: array<Limb>, w: nat, a: nat, b: nat, m: nat, n1: nat, n2: nat, ghost t: Terms) returns (j: nat, k: nat)
    requires 0 < n2 <= n1 <= m && Inside(mem, w, (2 * m + 2) * LPP)
    requires Disjoint(w, (2 * m + 2) * LPP, a, (m + n1) * LPP) && Disjoint(w, (2 * m + 2) * LPP, b, (m + n2) * LPP)
    requires Holds(mem[..], a, m, t.a0) && Holds(mem[..], a + m * LPP, n1, t.a1)
    requires Holds(mem[..], b, m, t.b0) && Holds(mem[..], b + m * LPP, n2, t.b1)
    modifies mem
    ensures m <= j <= m + 1 && SumLength(t.a0 + t.a1, m, j) && Holds(mem[..], w, j, t.a0 + t.a1)
    ensures m <= k <= m + 1 && SumLength(t.b0 + t.b1, m, k) && Holds(mem[..], w + j * LPP, k, t.b0 + t.b1)
    ensures SameOutside(old(mem[..]), mem[..], w, w + (j + k) * LPP)
  {
    ghost var S: seq<Limb> := mem[..];
    j := HalfSum(mem, w, a, m, n1, t.a0, t.a1);
    ghost var T: seq<Limb> := mem[..];
    HoldsSame(S, T, b, m, t.b0);
    HoldsSame(S, T, b + m * LPP, n2, t.b1);
    k := HalfSum(mem, w + j * LPP, b, m, n2, t.b0, t.b1);
    HoldsSame(T, mem[..], w, j, t.a0 + t.a1);
  }

  /** Accumulates x*y*B^hi - x*y*B^m. */
  method ProductInto(mem: array<Limb>, r: nat, w: nat, x: nat, y: nat, n1: nat, n2: nat, l: nat, hi: nat, m: nat, ghost e: nat, ghost wn: nat,
      ghost v: int, ghost u: int, ghost f: int, ghost was: int, ghost up: int, ghost down: int)
    requires 0 < n1 + n2 && hi + n1 + n2 <= l && m + n1 + n2 <= l && hi <= e && m <= e <= l
    requires n1 + n2 + 1 <= wn && Shape(n1, n2, wn - (n1 + n2 + 1))
    requires Inside(mem, r, l * LPP) && Inside(mem, w, wn * LPP) && Disjoint(r, l * LPP, w, wn * LPP)
    requires Disjoint(w, wn * LPP, x, n1 * LPP) && Disjoint(w, wn * LPP, y, n2 * LPP)
    requires Holds(mem[..], x, n1, v) && Holds(mem[..], y, n2, u) && Times(v, u, f)
    requires Holds(mem[..], r, e, was) && Path(was, f, hi, m, e, up, down)
    modifies mem
    ensures Holds(mem[..], r, e, down)
    ensures SameOutside2(old(mem[..]), mem[..], r, r + e * LPP, w, w + wn * LPP)
    decreases n1 + n2, 8
  {
    ghost var S: seq<Limb> := mem[..];
    FreshProduct(mem, w, x, y, n1, n2, wn, v, u, f);
    HoldsSame(S, mem[..], r, e, was);
    AddThenSub(mem, r, l, hi, m, w, n1 + n2, e, was, f, up, down);
  }
}
