/** Signed integers over packets: assignment, addition and subtraction under aliasing, truncated division. */
module Integer {
  import opened Common
  import opened Limbs
  import opened Values
  import opened Memory
  import opened Scan
  import opened AddSub
  import opened Divide

  /** A hebi_z object: a block of resv packets at packs, of which used hold the magnitude when sign is not 0. */
  class Int {
    var packs: nat
    var resv: nat
    var used: nat
    var sign: int

    ghost predicate Live(s: seq<Limb>)
      reads this
    {
      && packs + resv * LPP <= |s| && used <= resv && -1 <= sign <= 1
      && (sign != 0 ==> (0 < used && IsLength(Val(s, packs, used * LPP), used)))
    }

    ghost function Magnitude(s: seq<Limb>): int
      requires Live(s)
      reads this
    {
      if sign == 0 then 0 else Val(s, packs, used * LPP)
    }

    ghost function Value(s: seq<Limb>): int
      requires Live(s)
      reads this
    {
      sign * Magnitude(s)
    }

    /** This object's block and n packets at p have no limb in common. */
    ghost predicate Clear(p: nat, n: nat)
      reads this
    {
      Disjoint(packs, resv * LPP, p, n * LPP)
    }
  }

  /** Different objects have disjoint blocks. */
  ghost predicate Apart(x: Int, y: Int)
    reads x, y
  {
    x == y || x.Clear(y.packs, y.resv)
  }

  /** Gives r a block of at least n packets: its own, or the free one at blk; copies the packets over if asked to. */
  method GrowCopyIf(mem: array<Limb>, r: Int, n: nat, copy: bool, blk: nat)
    requires r.Live(mem[..])
    requires r.resv < n ==> (Inside(mem, blk, n * LPP) && r.Clear(blk, n))
    modifies mem, r`packs, r`resv
    ensures r.resv >= n && r.resv == (if old(r.resv) < n then n else old(r.resv))
    ensures r.packs == if old(r.resv) < n then blk else old(r.packs)
    ensures r.packs + r.resv * LPP <= mem.Length
    ensures copy || old(r.resv) >= n ==>
      Val(mem[..], r.packs, r.used * LPP) == Val(old(mem[..]), old(r.packs), r.used * LPP)
    ensures SameOutside(old(mem[..]), mem[..], r.packs, r.packs + r.resv * LPP)
  {
    if r.resv < n {
      ghost var S: seq<Limb> := mem[..];
      if copy {
        PCopy(mem, blk, r.packs, r.used * LPP);
      }
      r.packs, r.resv := blk, n;
    }
  }

  method PCopy(mem: array<Limb>, r: nat, a: nat, n: nat)
    requires Inside(mem, r, n) && Inside(mem, a, n) && Disjoint(r, n, a, n)
    modifies mem
    ensures Val(mem[..], r, n) == Val(old(mem[..]), a, n)
    ensures SameOutside(old(mem[..]), mem[..], r, r + n)
  {
    ghost var S: seq<Limb> := mem[..];
    forall k | 0 <= k < n { mem[r + k] := mem[a + k]; }
    ValSame(mem[..], r, S, a, n);
  }

  /** hebi_zset: a block of a's length is taken from blk when r's own is too small. */
  method ZSet(mem: array<Limb>, r: Int, a: Int, blk: nat)
    requires r.Live(mem[..]) && a.Live(mem[..]) && Apart(r, a)
    requires r.resv < a.used && a.sign != 0 ==> (Inside(mem, blk, a.used * LPP) && a.Clear(blk, a.used))
    modifies mem, r
    ensures r.Live(mem[..]) && r.Value(mem[..]) == old(a.Value(mem[..]))
    ensures SameOutside(old(mem[..]), mem[..], r.packs, r.packs + r.resv * LPP)
    ensures r.packs == (if r != a && a.sign != 0 && old(r.resv) < a.used then blk else old(r.packs))
    ensures r.resv == (if r != a && a.sign != 0 && old(r.resv) < a.used then a.used else old(r.resv))
  {
    if r != a {
      if a.sign != 0 {
        if a.used > r.resv {
          r.packs, r.resv := blk, a.used;
        }
        PCopy(mem, r.packs, a.packs, a.used * LPP);
        r.used := a.used;
        r.sign := a.sign;
      } else {
        r.sign := 0;
      }
    }
  }

  // ----- addition and subtraction -----

  /** A non-zero operand may share its object with r, or else lies apart from r and from the block r may move to. */
  ghost predicate Operand(s: seq<Limb>, r: Int, x: Int, blk: nat, n: nat)
    reads r, x
  {
    x.Live(s) && x.sign != 0 && Apart(r, x) && (r.resv < n ==> x.Clear(blk, n))
  }

  lemma SumLength(x: int, y: int, n: nat, z: int, c: Limb)
    requires 0 < n && IsLength(x, n) && 0 <= y && x + y == z + Pw(n * LPP) * c && 0 <= z < Pw(n * LPP) && c <= 1
    ensures IsLength(x + y, if c != 0 then n + 1 else n)
  {
    assert Pw((n + 1) * LPP) == B * (B * Pw(n * LPP));
  }

  /** Where x lies after r was given room: still in place, or where r now is. */
  ghost predicate Placed(s: seq<Limb>, r: Int, x: Int, v: int)
    reads r, x
  {
    && r.packs + r.resv * LPP <= |s| && x.packs + x.used * LPP <= |s| && Val(s, x.packs, x.used * LPP) == v
    && (if r == x then x.used <= r.resv else Disjoint(r.packs, r.resv * LPP, x.packs, x.used * LPP))
  }

  /** Room for n packets in r, without losing the operands. */
  method MakeRoom(mem: array<Limb>, r: Int, x: Int, y: Int, n: nat, blk: nat)
    requires r.Live(mem[..]) && Operand(mem[..], r, x, blk, n) && Operand(mem[..], r, y, blk, n)
    requires r.resv < n ==> Inside(mem, blk, n * LPP) && r.Clear(blk, n)
    modifies mem, r`packs, r`resv
    ensures n <= r.resv && Placed(mem[..], r, x, old(x.Magnitude(mem[..]))) && Placed(mem[..], r, y, old(y.Magnitude(mem[..])))
    ensures SameOutside(old(mem[..]), mem[..], r.packs, r.packs + r.resv * LPP)
  {
    ghost var S: seq<Limb>, vx, vy := mem[..], x.Magnitude(mem[..]), y.Magnitude(mem[..]);
    GrowCopyIf(mem, r, n, r == x || r == y, blk);
    StillPlaced(S, mem[..], r, x, vx);
    StillPlaced(S, mem[..], r, y, vy);
  }

  lemma StillPlaced(S: seq<Limb>, T: seq<Limb>, r: Int, x: Int, v: int)
    requires SameOutside(S, T, r.packs, r.packs + r.resv * LPP) && r.packs + r.resv * LPP <= |T|
    requires r == x ==> x.used <= r.resv && Val(T, x.packs, x.used * LPP) == v
    requires r != x ==> (x.packs + x.used * LPP <= |S| && Val(S, x.packs, x.used * LPP) == v
      && Disjoint(r.packs, r.resv * LPP, x.packs, x.used * LPP))
    ensures Placed(T, r, x, v)
  {
    if r != x { ValFrame(S, T, r.packs, r.packs + r.resv * LPP, x.packs, x.used * LPP); }
  }

  /** |x| + |y| into r, which may be x or y. */
  method AddMagnitudes(mem: array<Limb>, r: Int, x: Int, y: Int, blk: nat) returns (n: nat)
    requires r.Live(mem[..]) && x.used >= y.used
    requires Operand(mem[..], r, x, blk, x.used + 1) && Operand(mem[..], r, y, blk, x.used + 1)
    requires r.resv < x.used + 1 ==> Inside(mem, blk, (x.used + 1) * LPP) && r.Clear(blk, x.used + 1)
    modifies mem, r`packs, r`resv
    ensures var v := old(x.Magnitude(mem[..]) + y.Magnitude(mem[..]));
      && r.packs + r.resv * LPP <= mem.Length && 0 < n <= r.resv
      && IsLength(v, n) && Val(mem[..], r.packs, n * LPP) == v
    ensures SameOutside(old(mem[..]), mem[..], r.packs, r.packs + r.resv * LPP)
  {
    ghost var vx, vy := x.Magnitude(mem[..]), y.Magnitude(mem[..]);
    n := x.used;
    ValBound(mem[..], y.packs, y.used * LPP);
    MakeRoom(mem, r, x, y, n + 1, blk);
    var carry := AddPlaced(mem, r, x, y, vx, vy);
    n := StoreCarry(mem, r.packs, n, carry, vx, vy);
  }

  method StoreCarry(mem: array<Limb>, rp: nat, n: nat, carry: Limb, ghost vx: int, ghost vy: int) returns (m: nat)
    requires 0 < n && Inside(mem, rp, (n + 1) * LPP) && carry <= 1
    requires Val(mem[..], rp, n * LPP) + carry * Pw(n * LPP) == vx + vy && IsLength(vx, n) && 0 <= vy
    modifies mem
    ensures n <= m <= n + 1 && IsLength(vx + vy, m) && Val(mem[..], rp, m * LPP) == vx + vy
    ensures SameOutside(old(mem[..]), mem[..], rp, rp + (n + 1) * LPP)
  {
    ValBound(mem[..], rp, n * LPP);
    SumLength(vx, vy, n, Val(mem[..], rp, n * LPP), carry);
    m := n;
    if carry != 0 {
      StoreExtra(mem, rp, n * LPP, carry, 0, 0);
      m := n + 1;
    }
  }

  method AddPlaced(mem: array<Limb>, r: Int, x: Int, y: Int, ghost vx: int, ghost vy: int) returns (carry: Limb)
    requires 0 < y.used <= x.used < r.resv && Placed(mem[..], r, x, vx) && Placed(mem[..], r, y, vy)
    modifies mem
    ensures carry <= 1 && Val(mem[..], r.packs, x.used * LPP) + carry * Pw(x.used * LPP) == vx + vy
    ensures SameOutside(old(mem[..]), mem[..], r.packs, r.packs + x.used * LPP)
  {
    if r == x {
      carry := PAddA(mem, r.packs, y.packs, x.used, y.used);
    } else {
      carry := PAdd(mem, r.packs, x.packs, y.packs, x.used, y.used);
    }
  }

  /** |x| - |y| into r, for |x| > |y|. */
  method SubMagnitudes(mem: array<Limb>, r: Int, x: Int, y: Int, blk: nat) returns (n: nat)
    requires r.Live(mem[..]) && x.used >= y.used
    requires Operand(mem[..], r, x, blk, x.used) && Operand(mem[..], r, y, blk, x.used)
    requires r.resv < x.used ==> Inside(mem, blk, x.used * LPP) && r.Clear(blk, x.used)
    requires x.Magnitude(mem[..]) > y.Magnitude(mem[..])
    modifies mem, r`packs, r`resv
    ensures var v := old(x.Magnitude(mem[..]) - y.Magnitude(mem[..]));
      && r.packs + r.resv * LPP <= mem.Length && 0 < n <= r.resv
      && IsLength(v, n) && Val(mem[..], r.packs, n * LPP) == v
    ensures SameOutside(old(mem[..]), mem[..], r.packs, r.packs + r.resv * LPP)
  {
    ghost var vx, vy := x.Magnitude(mem[..]), y.Magnitude(mem[..]);
    n := x.used;
    if r != x { MakeRoom(mem, r, x, y, n, blk); }
    SubPlaced(mem, r, x, y, vx, vy);
    n := PNorm(mem, r.packs, n);
  }

  method SubPlaced(mem: array<Limb>, r: Int, x: Int, y: Int, ghost vx: int, ghost vy: int)
    requires 0 < y.used <= x.used <= r.resv && Placed(mem[..], r, x, vx) && Placed(mem[..], r, y, vy) && vx > vy
    modifies mem
    ensures Val(mem[..], r.packs, x.used * LPP) == vx - vy
    ensures SameOutside(old(mem[..]), mem[..], r.packs, r.packs + x.used * LPP)
  {
    var borrow;
    if r == x {
      borrow := PSubA(mem, r.packs, y.packs, x.used, y.used);
    } else {
      borrow := PSub(mem, r.packs, x.packs, y.packs, x.used, y.used);
    }
    ValBound(mem[..], r.packs, x.used * LPP);
  }

  function Neg(sign: int): int { 0 - sign }

  /** The packets just written to r become its value. */
  method Finish(mem: array<Limb>, r: Int, n: nat, sign: int, ghost v: int)
    requires r.packs + r.resv * LPP <= mem.Length && 0 < n <= r.resv && sign in {-1, 1}
    requires IsLength(v, n) && Val(mem[..], r.packs, n * LPP) == v
    modifies r`used, r`sign
    ensures r.Live(mem[..]) && r.Value(mem[..]) == sign * v
  {
    r.used := n;
    r.sign := sign;
  }

  /** Unlike signs: the larger magnitude's sign wins. */
  method SubSigned(mem: array<Limb>, r: Int, a: Int, b: Int, sign: int, blk: nat)
    requires r.Live(mem[..]) && sign in {-1, 1} && a.used >= b.used
    requires Operand(mem[..], r, a, blk, a.used) && Operand(mem[..], r, b, blk, a.used)
    requires r.resv < a.used ==> Inside(mem, blk, a.used * LPP) && r.Clear(blk, a.used)
    modifies mem, r
    ensures r.Live(mem[..]) && r.Value(mem[..]) == sign * old(a.Magnitude(mem[..]) - b.Magnitude(mem[..]))
    ensures SameOutside(old(mem[..]), mem[..], r.packs, r.packs + r.resv * LPP)
  {
    ghost var va, vb := a.Magnitude(mem[..]), b.Magnitude(mem[..]);
    var x, y, xs := a, b, sign;
    if a.used == b.used {
      var c := PCmp(mem, a.packs, b.packs, a.used);
      if c == 0 {
        r.sign := 0;
        return;
      }
      if c < 0 {
        x, y, xs := b, a, Neg(sign);
      }
    } else {
      LongerIsLarger(va, a.used, vb, b.used);
    }
    var n := SubMagnitudes(mem, r, x, y, blk);
    Finish(mem, r, n, xs, if x == a && xs == sign then va - vb else vb - va);
  }

  lemma LongerIsLarger(x: int, n: nat, y: int, m: nat)
    requires m < n && IsLength(x, n) && IsLength(y, m)
    ensures y < x
  {
    PwMono(m * LPP, (n - 1) * LPP);
  }

  /** The result is aSign*|a| + bSign*|b| whichever of the objects are the same. */
  method ZAddSub(mem: array<Limb>, r: Int, a: Int, b: Int, aSign: int, bSign: int, blk: nat)
    requires r.Live(mem[..]) && aSign in {-1, 1} && bSign in {-1, 1}
    requires var n := (if a.used < b.used then b.used else a.used) + 1;
      && Operand(mem[..], r, a, blk, n) && Operand(mem[..], r, b, blk, n)
      && (r.resv < n ==> Inside(mem, blk, n * LPP) && r.Clear(blk, n))
    modifies mem, r
    ensures r.Live(mem[..]) && r.Value(mem[..]) == old(aSign * a.Magnitude(mem[..]) + bSign * b.Magnitude(mem[..]))
    ensures SameOutside(old(mem[..]), mem[..], r.packs, r.packs + r.resv * LPP)
  {
    var x, y, xs, ys := a, b, aSign, bSign;
    if x.used < y.used || (x.used == y.used && r == y) {
      x, y, xs, ys := y, x, ys, xs;
    }
    AddSubOrdered(mem, r, x, y, xs, ys, blk);
  }

  method AddSubOrdered(mem: array<Limb>, r: Int, x: Int, y: Int, xs: int, ys: int, blk: nat)
    requires r.Live(mem[..]) && xs in {-1, 1} && ys in {-1, 1} && x.used >= y.used
    requires Operand(mem[..], r, x, blk, x.used + 1) && Operand(mem[..], r, y, blk, x.used + 1)
    requires r.resv < x.used + 1 ==> Inside(mem, blk, (x.used + 1) * LPP) && r.Clear(blk, x.used + 1)
    modifies mem, r
    ensures r.Live(mem[..]) && r.Value(mem[..]) == old(xs * x.Magnitude(mem[..]) + ys * y.Magnitude(mem[..]))
    ensures SameOutside(old(mem[..]), mem[..], r.packs, r.packs + r.resv * LPP)
  {
    ghost var vx, vy := x.Magnitude(mem[..]), y.Magnitude(mem[..]);
    if xs == ys {
      var n := AddMagnitudes(mem, r, x, y, blk);
      Finish(mem, r, n, xs, vx + vy);
    } else {
      SubSigned(mem, r, x, y, xs, blk);
    }
  }

  /** The caller's objects, and at blk the n packets the allocator would hand out should r be too small. */
  ghost predicate Ready(s: seq<Limb>, r: Int, a: Int, b: Int, blk: nat, n: nat)
    reads r, a, b
  {
    && r.Live(s) && a.Live(s) && b.Live(s) && Apart(r, a) && Apart(r, b)
    && (r.resv < n ==> (blk + n * LPP <= |s| && r.Clear(blk, n) && a.Clear(blk, n) && b.Clear(blk, n)))
  }

  method ZAdd(mem: array<Limb>, r: Int, a: Int, b: Int, blk: nat)
    requires Ready(mem[..], r, a, b, blk, Max(a.used, b.used) + 1)
    modifies mem, r
    ensures r.Live(mem[..]) && r.Value(mem[..]) == old(a.Value(mem[..]) + b.Value(mem[..]))
    ensures SameOutside(old(mem[..]), mem[..], r.packs, r.packs + r.resv * LPP)
  {
    if a.sign == 0 {
      ZSet(mem, r, b, blk);
    } else if b.sign == 0 {
      ZSet(mem, r, a, blk);
    } else {
      ZAddSub(mem, r, a, b, a.sign, b.sign, blk);
    }
  }

  lemma Negated(sign: int, v: int)
    ensures Neg(sign) * v == Neg(sign * v)
  {
  }

  method ZSub(mem: array<Limb>, r: Int, a: Int, b: Int, blk: nat)
    requires Ready(mem[..], r, a, b, blk, Max(a.used, b.used) + 1)
    modifies mem, r
    ensures r.Live(mem[..]) && r.Value(mem[..]) == old(a.Value(mem[..]) - b.Value(mem[..]))
    ensures SameOutside(old(mem[..]), mem[..], r.packs, r.packs + r.resv * LPP)
  {
    Negated(b.sign, b.Magnitude(mem[..]));
    if a.sign == 0 {
      ZSet(mem, r, b, blk);
      Negated(r.sign, r.Magnitude(mem[..]));
      r.sign := Neg(r.sign);
    } else if b.sign == 0 {
      ZSet(mem, r, a, blk);
    } else {
      ZAddSub(mem, r, a, b, a.sign, Neg(b.sign), blk);
    }
  }

  // ----- division -----

  datatype Status = Ok | DivZero | ZeroDivZero

  /** Division that truncates toward zero. */
  function TruncDiv(x: int, y: int): int
    requires y != 0
  {
    if (x < 0) == (y < 0) then Abs(x) / Abs(y) else 0 - Abs(x) / Abs(y)
  }

  function TruncRem(x: int, y: int): int
    requires y != 0
  {
    if x < 0 then 0 - Abs(x) % Abs(y) else Abs(x) % Abs(y)
  }

  /** The pair meant by truncation: |r| < |y|, r has the sign of x unless it is 0, and there is no other such pair. */
  lemma TruncationUnique(x: int, y: int, q: int, r: int)
    requires y != 0
    ensures (q == TruncDiv(x, y) && r == TruncRem(x, y))
      <==> (x == q * y + r && Abs(r) < Abs(y) && (r != 0 ==> (r < 0 <==> x < 0)))
  {
    var p := if (x < 0) == (y < 0) then q else Neg(q);
    var t := p * Abs(y);
    MagnitudeProduct(q, y, t, x);
    Unique(Abs(x), Abs(y), p, t, Abs(r));
    assert q == TruncDiv(x, y) <==> p == Abs(x) / Abs(y);
  }

  lemma Unique(n: int, d: int, q: int, t: int, r: int)
    requires 0 < d && t == q * d
    ensures (q == n / d && r == n % d) <==> (n == t + r && 0 <= r < d)
  {
    if n == t + r && 0 <= r < d { DivUnique(n, d, q, r); }
    assert n == n / d * d + n % d;
  }

  /** q*y has the magnitude t and the sign of x, where t is q*|y| up to the sign that makes it so. */
  lemma MagnitudeProduct(q: int, y: int, t: int, x: int)
    requires t == (if (x < 0) == (y < 0) then q else Neg(q)) * Abs(y)
    ensures q * y == if x < 0 then 0 - t else t
  {
    Negated(q, Abs(y));
    Negated(y, q);
  }

  /** Signs multiply: the quotient and remainder of the magnitudes, with their signs. */
  lemma SignedDivision(x: int, y: int, vx: int, vy: int, xs: int, ys: int, qs: int)
    requires 0 < vx && 0 < vy && xs in {-1, 1} && ys in {-1, 1} && x == xs * vx && y == ys * vy
    requires qs == if xs == ys then 1 else -1
    ensures y != 0 && TruncDiv(x, y) == qs * (vx / vy) && TruncRem(x, y) == xs * (vx % vy)
  {
  }

  /** The result blocks and the scratch space, free of the operands and of each other; as large as the code asks for. */
  ghost predicate Blocks(s: seq<Limb>, a: Int, b: Int, qp: nat, rp: nat, wp: nat, qn: nat)
    reads a, b
  {
    var n := a.used + b.used + 2;
    && qp + qn * LPP <= |s| && rp + b.used * LPP <= |s| && wp + n * LPP <= |s|
    && a.Clear(qp, qn) && b.Clear(qp, qn) && a.Clear(rp, b.used) && b.Clear(rp, b.used) && a.Clear(wp, n) && b.Clear(wp, n)
    && Disjoint(qp, qn * LPP, wp, n * LPP) && Disjoint(rp, b.used * LPP, wp, n * LPP) && Disjoint(qp, qn * LPP, rp, b.used * LPP)
  }

  /** Takes the freshly written block for z; the old one is given back. */
  method Adopt(z: Int, p: nat, resv: nat, n: nat, sign: int, ghost s: seq<Limb>, ghost v: int)
    requires p + resv * LPP <= |s| && n <= resv && IsLength(v, n) && Val(s, p, n * LPP) == v && sign in {-1, 1}
    modifies z
    ensures z.Live(s) && z.Value(s) == sign * v && z.packs == p && z.resv == resv
  {
    z.packs, z.resv, z.used := p, resv, n;
    z.sign := if n != 0 then sign else 0;
    assert n == 0 ==> Pw(0) == 1;
  }

  /** Quotient and remainder of the magnitudes, in their blocks. */
  method DivideMagnitudes(mem: array<Limb>, wantR: bool, a: Int, b: Int, qp: nat, rp: nat, wp: nat, repaired: bool)
    returns (qn: nat, rn: nat)
    requires a.Live(mem[..]) && b.Live(mem[..]) && a.sign != 0 && b.sign != 0 && a.used >= b.used
    requires Blocks(mem[..], a, b, qp, rp, wp, a.used - b.used + 1)
    modifies mem
    ensures qn <= a.used - b.used + 1 && IsLength(Val(mem[..], qp, qn * LPP), qn)
    ensures wantR ==> rn <= b.used && IsLength(Val(mem[..], rp, rn * LPP), rn)
    ensures var x, y := old(a.Magnitude(mem[..])), old(b.Magnitude(mem[..]));
      0 < y && (LoopRight(x, a.used, y, b.used, repaired) ==>
        Val(mem[..], qp, qn * LPP) == x / y && (wantR ==> Val(mem[..], rp, rn * LPP) == x % y))
    ensures Untouched(old(mem[..]), mem[..], qp, (a.used + 1) * LPP, At(rp), b.used * LPP, wp, (a.used + b.used + 2) * LPP)
  {
    NonZero(b.Magnitude(mem[..]), b.used);
    qn, rn := PDivRem(mem, qp, if wantR then At(rp) else Null, wp, wantR, a.packs, b.packs, a.used, b.used, repaired);
  }

  /** Where they are wanted, r holds the remainder and q the quotient of x and y. */
  ghost predicate QuotRem(s: seq<Limb>, q: Int?, r: Int?, x: int, y: int)
    reads q, r
  {
    && y != 0
    && (r != null && r != q ==> (r.Live(s) && r.Value(s) == TruncRem(x, y)))
    && (q != null ==> (q.Live(s) && q.Value(s) == TruncDiv(x, y)))
  }

  /** The loop is right about the magnitudes, or does not run. */
  ghost predicate LoopMagnitudes(s: seq<Limb>, a: Int, b: Int, repaired: bool)
    requires a.Live(s) && b.Live(s)
    reads a, b
  {
    a.used < b.used || LoopRight(a.Magnitude(s), a.used, b.Magnitude(s), b.used, repaired)
  }

  lemma FewerPackets(s: seq<Limb>, a: Int, b: Int)
    requires a.Live(s) && b.Live(s) && a.sign != 0 && b.sign != 0 && a.used < b.used
    ensures b.Value(s) != 0 && TruncDiv(a.Value(s), b.Value(s)) == 0 && TruncRem(a.Value(s), b.Value(s)) == a.Value(s)
  {
    LongerIsLarger(b.Magnitude(s), b.used, a.Magnitude(s), a.used);
    SmallQuotient(a.Value(s), b.Value(s));
  }

  /** A dividend of fewer packets is the remainder. */
  method SmallDividend(mem: array<Limb>, q: Int?, r: Int?, a: Int, b: Int, rp: nat)
    requires a.Live(mem[..]) && b.Live(mem[..]) && a.sign != 0 && b.sign != 0 && a.used < b.used
    requires (q != null ==> q.Live(mem[..])) && (r != null ==> (r.Live(mem[..]) && Apart(r, a)))
    requires Inside(mem, rp, b.used * LPP) && a.Clear(rp, b.used)
    modifies mem, q, r
    ensures QuotRem(mem[..], q, r, old(a.Value(mem[..])), old(b.Value(mem[..])))
    ensures Written(old(mem[..]), mem[..], 0, 0, rp, old(b.used) * LPP, 0, 0,
      if r == null then 0 else old(r.packs), if r == null then 0 else old(r.resv * LPP))
  {
    FewerPackets(mem[..], a, b);
    if r != null {
      ZSet(mem, r, a, rp);
    }
    if q != null { q.sign := 0; }
  }

  lemma SmallQuotient(x: int, y: int)
    requires Abs(x) < Abs(y)
    ensures TruncDiv(x, y) == 0 && TruncRem(x, y) == x
  {
    DivUnique(Abs(x), Abs(y), 0, Abs(x));
  }

  /** Only these four stretches of memory are written. */
  ghost predicate Written(s: seq<int>, t: seq<int>, p: nat, pn: nat, q: nat, qn: nat, w: nat, wn: nat, r: nat, rn: nat) {
    |s| == |t| && forall k :: 0 <= k < |s| && !(p <= k < p + pn) && !(q <= k < q + qn) && !(w <= k < w + wn) && !(r <= k < r + rn) ==>
      t[k] == s[k]
  }

  /**
   Truncated division with the library's error cases. q and r may be null and may be a or b. The quotient is
   computed at qp: the block of a temporary that q then takes over, or else the end of the scratch space.
  */
  method ZDivRem(mem: array<Limb>, q: Int?, r: Int?, a: Int, b: Int, qp: nat, rp: nat, wp: nat, repaired: bool)
    returns (e: Status)
    requires a.Live(mem[..]) && b.Live(mem[..])
    requires (q != null ==> q.Live(mem[..])) && (r != null ==> (r.Live(mem[..]) && Apart(r, a)))
    requires Inside(mem, rp, b.used * LPP) && a.Clear(rp, b.used)
    requires b.sign != 0 && a.sign != 0 && a.used >= b.used ==> Blocks(mem[..], a, b, qp, rp, wp, a.used - b.used + 1)
    modifies mem, q, r
    ensures e == if old(b.sign) != 0 then Ok else if old(a.sign) != 0 then DivZero else ZeroDivZero
    ensures e != Ok ==> (mem[..] == old(mem[..]) && (q != null ==> unchanged(q)) && (r != null ==> unchanged(r)))
    ensures (q != null ==> q.Live(mem[..])) && (r != null ==> r.Live(mem[..]))
    ensures e == Ok && old(LoopMagnitudes(mem[..], a, b, repaired)) ==> QuotRem(mem[..], q, r, old(a.Value(mem[..])), old(b.Value(mem[..])))
    ensures Written(old(mem[..]), mem[..], qp, old(a.used + 1) * LPP, rp, old(b.used) * LPP, wp, old(a.used + b.used + 2) * LPP,
      if r == null then 0 else old(r.packs), if r == null then 0 else old(r.resv * LPP))
  {
    var rs, qs := a.sign, b.sign;
    if qs == 0 {
      return if rs != 0 then DivZero else ZeroDivZero;
    } else if rs == 0 {
      NonZero(b.Magnitude(mem[..]), b.used);
      SmallQuotient(0, b.Value(mem[..]));
      if r != null { r.sign := 0; }
      if q != null { q.sign := 0; }
      return Ok;
    }
    if a.used < b.used {
      SmallDividend(mem, q, r, a, b, rp);
      return Ok;
    }
    LargeDividend(mem, q, r, a, b, qp, rp, wp, rs, if (qs < 0) != (rs < 0) then -1 else 1, repaired);
    return Ok;
  }

  method LargeDividend(mem: array<Limb>, q: Int?, r: Int?, a: Int, b: Int, qp: nat, rp: nat, wp: nat, rs: int, qs: int, repaired: bool)
    requires a.Live(mem[..]) && b.Live(mem[..]) && a.sign != 0 && b.sign != 0 && a.used >= b.used
    requires (q != null ==> q.Live(mem[..])) && (r != null ==> (r.Live(mem[..]) && Apart(r, a)))
    requires Blocks(mem[..], a, b, qp, rp, wp, a.used - b.used + 1)
    requires rs == a.sign && qs == if a.sign == b.sign then 1 else -1
    modifies mem, q, r
    ensures (q != null ==> q.Live(mem[..])) && (r != null ==> r.Live(mem[..]))
    ensures old(LoopMagnitudes(mem[..], a, b, repaired)) ==> QuotRem(mem[..], q, r, old(a.Value(mem[..])), old(b.Value(mem[..])))
    ensures Written(old(mem[..]), mem[..], qp, old(a.used + 1) * LPP, rp, old(b.used) * LPP, wp, old(a.used + b.used + 2) * LPP, 0, 0)
  {
    ghost var vx, vy := a.Magnitude(mem[..]), b.Magnitude(mem[..]);
    NonZero(vx, a.used);
    NonZero(vy, b.used);
    SignedDivision(a.Value(mem[..]), b.Value(mem[..]), vx, vy, rs, b.sign, qs);
    var qn, rn := DivideMagnitudes(mem, r != null, a, b, qp, rp, wp, repaired);
    HandOver(q, r, qp, a.used - b.used + 1, qn, qs, rp, b.used, rn, rs, mem[..]);
  }

  /** r and q take over their blocks, q last. */
  method HandOver(q: Int?, r: Int?, qp: nat, qResv: nat, qn: nat, qs: int, rp: nat, rResv: nat, rn: nat, rs: int, ghost s: seq<Limb>)
    requires q != null ==> qp + qResv * LPP <= |s| && qn <= qResv && IsLength(Val(s, qp, qn * LPP), qn) && qs in {-1, 1}
    requires r != null ==> rp + rResv * LPP <= |s| && rn <= rResv && IsLength(Val(s, rp, rn * LPP), rn) && rs in {-1, 1}
    modifies q, r
    ensures q != null ==> q.Live(s) && q.Value(s) == qs * Val(s, qp, qn * LPP)
    ensures r != null ==> r.Live(s) && (r != q ==> r.Value(s) == rs * Val(s, rp, rn * LPP))
  {
    if r != null {
      Adopt(r, rp, rResv, rn, rs, s, Val(s, rp, rn * LPP));
    }
    if q != null {
      Adopt(q, qp, qResv, qn, qs, s, Val(s, qp, qn * LPP));
    }
  }

  lemma NonZero(v: int, n: nat)
    requires 0 < n && IsLength(v, n)
    ensures 0 < v
  {
  }
}
