/** The carry and borrow chains. */
module AddSub {
  import opened Limbs
  import opened Values
  import opened Memory

  lemma CarryStep(p: int, c: int, x: int, y: int, z: int, c': int)
    requires z + B * c' == x + y + c
    ensures p * z + c' * (B * p) == c * p + p * x + p * y
  {
    assert p * (z + B * c') == p * x + p * y + p * c;
  }

  /** The carry test of the code is the carry. */
  lemma LimbSum(x: Limb, y: Limb, c: int)
    requires 0 <= c <= 1
    ensures var z := Low(x + y + c); z + B * (if z < x || (z == x && c != 0) then 1 else 0) == x + y + c
  {
  }

  /** One more limb of a sum, written at r + i; w and w' are the value of the other operand before and after. */
  lemma AddStep(S: seq<Limb>, T: seq<Limb>, r: nat, a: nat, i: nat, w: int, w': int, c: int, y: Limb, z: Limb, c': int)
    requires r + i < |T| && a + i < |S|
    requires Val(T, r, i) + c * Pw(i) == Val(S, a, i) + w && w' == w + Pw(i) * y
    requires 0 <= c <= 1 && z == Low(S[a + i] + y + c)
    requires c' == (if z < S[a + i] || (z == S[a + i] && c != 0) then 1 else 0)
    ensures Val(T[r + i := z], r, i + 1) + c' * Pw(i + 1) == Val(S, a, i + 1) + w'
  {
    ValFrame(T, T[r + i := z], r + i, r + i + 1, r, i);
    LimbSum(S[a + i], y, c);
    CarryStep(Pw(i), c, S[a + i], y, z, c');
  }

  method PAdd(mem: array<Limb>, r: nat, a: nat, b: nat, an: nat, bn: nat) returns (carry: Limb)
    requires an >= bn > 0
    requires Inside(mem, r, an * LPP) && Inside(mem, a, an * LPP) && Inside(mem, b, bn * LPP)
    requires Ascending(r, a, an * LPP) && Ascending(r, b, bn * LPP)
    modifies mem
    ensures carry <= 1
    ensures Val(mem[..], r, an * LPP) + carry * Pw(an * LPP)
         == Val(old(mem[..]), a, an * LPP) + Val(old(mem[..]), b, bn * LPP)
    ensures SameOutside(old(mem[..]), mem[..], r, r + an * LPP)
  {
    var n := bn * LPP;
    ghost var S: seq<Limb> := mem[..];
    carry := 0;
    var i := 0;
    while i < n
      invariant 0 <= i <= n && carry <= 1
      invariant SameOutside(S, mem[..], r, r + i)
      invariant Val(mem[..], r, i) + carry * Pw(i) == Val(S, a, i) + Val(S, b, i)
    {
      ghost var T: seq<Limb>, c := mem[..], carry;
      assert T[a + i] == S[a + i] && T[b + i] == S[b + i];
      var sum := Low(mem[a + i] + mem[b + i] + carry);
      carry := if sum < mem[a + i] || (sum == mem[a + i] && carry != 0) then 1 else 0;
      AddStep(S, T, r, a, i, Val(S, b, i), Val(S, b, i + 1), c, S[b + i], sum, carry);
      mem[r + i] := sum;
      assert mem[..] == T[r + i := sum];
      i := i + 1;
    }
    carry := PropagateCarry(mem, r, a, n, an * LPP, carry, S, Val(S, b, n));
  }

  /** The second loop: only the carry is left to add. S is the memory before the first. */
  method PropagateCarry(mem: array<Limb>, r: nat, a: nat, n: nat, m: nat, c0: Limb, ghost S: seq<Limb>, ghost w: int)
    returns (carry: Limb)
    requires n <= m && c0 <= 1 && Inside(mem, r, m) && Inside(mem, a, m) && Ascending(r, a, m)
    requires SameOutside(S, mem[..], r, r + n)
    requires Val(mem[..], r, n) + c0 * Pw(n) == Val(S, a, n) + w
    modifies mem
    ensures carry <= 1
    ensures Val(mem[..], r, m) + carry * Pw(m) == Val(S, a, m) + w
    ensures SameOutside(S, mem[..], r, r + m)
  {
    var i := n;
    carry := c0;
    while i < m
      invariant n <= i <= m && carry <= 1
      invariant SameOutside(S, mem[..], r, r + i)
      invariant Val(mem[..], r, i) + carry * Pw(i) == Val(S, a, i) + w
    {
      ghost var T: seq<Limb>, c := mem[..], carry;
      assert T[a + i] == S[a + i];
      var sum := Low(mem[a + i] + carry);
      carry := if sum < mem[a + i] then 1 else 0;
      AddStep(S, T, r, a, i, w, w, c, 0, sum, carry);
      mem[r + i] := sum;
      assert mem[..] == T[r + i := sum];
      i := i + 1;
    }
  }

  /** The same loops with the first operand in place. */
  method PAddA(mem: array<Limb>, r: nat, a: nat, rn: nat, an: nat) returns (carry: Limb)
    requires rn >= an > 0
    requires Inside(mem, r, rn * LPP) && Inside(mem, a, an * LPP) && Ascending(r, a, an * LPP)
    modifies mem
    ensures carry <= 1
    ensures Val(mem[..], r, rn * LPP) + carry * Pw(rn * LPP)
         == Val(old(mem[..]), r, rn * LPP) + Val(old(mem[..]), a, an * LPP)
    ensures SameOutside(old(mem[..]), mem[..], r, r + rn * LPP)
  {
    carry := PAdd(mem, r, r, a, rn, an);
  }

  /** The borrow test of the code is the borrow. */
  lemma LimbDifference(x: Limb, y: Limb, c: int)
    requires 0 <= c <= 1
    ensures var z := Low(x - y - c); z - B * (if z > x || (z == x && c != 0) then 1 else 0) == x - y - c
  {
  }

  lemma BorrowStep(p: int, c: int, x: int, y: int, z: int, c': int)
    requires z - B * c' == x - y - c
    ensures p * z - c' * (B * p) == p * x - p * y - c * p
  {
    assert p * (z - B * c') == p * x - p * y - p * c;
  }

  lemma SubStep(S: seq<Limb>, T: seq<Limb>, r: nat, a: nat, i: nat, w: int, w': int, c: int, y: Limb, z: Limb, c': int)
    requires r + i < |T| && a + i < |S|
    requires Val(T, r, i) - c * Pw(i) == Val(S, a, i) - w && w' == w + Pw(i) * y
    requires 0 <= c <= 1 && z == Low(S[a + i] - y - c)
    requires c' == (if z > S[a + i] || (z == S[a + i] && c != 0) then 1 else 0)
    ensures Val(T[r + i := z], r, i + 1) - c' * Pw(i + 1) == Val(S, a, i + 1) - w'
  {
    ValFrame(T, T[r + i := z], r + i, r + i + 1, r, i);
    LimbDifference(S[a + i], y, c);
    BorrowStep(Pw(i), c, S[a + i], y, z, c');
  }

  method PSub(mem: array<Limb>, r: nat, a: nat, b: nat, an: nat, bn: nat) returns (borrow: Limb)
    requires an >= bn > 0
    requires Inside(mem, r, an * LPP) && Inside(mem, a, an * LPP) && Inside(mem, b, bn * LPP)
    requires Ascending(r, a, an * LPP) && Ascending(r, b, bn * LPP)
    modifies mem
    ensures borrow <= 1
    ensures Val(mem[..], r, an * LPP) - borrow * Pw(an * LPP)
         == Val(old(mem[..]), a, an * LPP) - Val(old(mem[..]), b, bn * LPP)
    ensures SameOutside(old(mem[..]), mem[..], r, r + an * LPP)
  {
    var n := bn * LPP;
    ghost var S: seq<Limb> := mem[..];
    borrow := 0;
    var i := 0;
    while i < n
      invariant 0 <= i <= n && borrow <= 1
      invariant SameOutside(S, mem[..], r, r + i)
      invariant Val(mem[..], r, i) - borrow * Pw(i) == Val(S, a, i) - Val(S, b, i)
    {
      ghost var T: seq<Limb>, c := mem[..], borrow;
      assert T[a + i] == S[a + i] && T[b + i] == S[b + i];
      var diff := Low(mem[a + i] - mem[b + i] - borrow);
      borrow := if diff > mem[a + i] || (diff == mem[a + i] && borrow != 0) then 1 else 0;
      SubStep(S, T, r, a, i, Val(S, b, i), Val(S, b, i + 1), c, S[b + i], diff, borrow);
      mem[r + i] := diff;
      assert mem[..] == T[r + i := diff];
      i := i + 1;
    }
    borrow := PropagateBorrow(mem, r, a, n, an * LPP, borrow, S, Val(S, b, n));
  }

  method PropagateBorrow(mem: array<Limb>, r: nat, a: nat, n: nat, m: nat, c0: Limb, ghost S: seq<Limb>, ghost w: int)
    returns (borrow: Limb)
    requires n <= m && c0 <= 1 && Inside(mem, r, m) && Inside(mem, a, m) && Ascending(r, a, m)
    requires SameOutside(S, mem[..], r, r + n)
    requires Val(mem[..], r, n) - c0 * Pw(n) == Val(S, a, n) - w
    modifies mem
    ensures borrow <= 1
    ensures Val(mem[..], r, m) - borrow * Pw(m) == Val(S, a, m) - w
    ensures SameOutside(S, mem[..], r, r + m)
  {
    var i := n;
    borrow := c0;
    while i < m
      invariant n <= i <= m && borrow <= 1
      invariant SameOutside(S, mem[..], r, r + i)
      invariant Val(mem[..], r, i) - borrow * Pw(i) == Val(S, a, i) - w
    {
      ghost var T: seq<Limb>, c := mem[..], borrow;
      assert T[a + i] == S[a + i];
      var diff := Low(mem[a + i] - borrow);
      borrow := if diff > mem[a + i] then 1 else 0;
      SubStep(S, T, r, a, i, w, w, c, 0, diff, borrow);
      mem[r + i] := diff;
      assert mem[..] == T[r + i := diff];
      i := i + 1;
    }
  }

  method PSubA(mem: array<Limb>, r: nat, a: nat, rn: nat, an: nat) returns (borrow: Limb)
    requires rn >= an > 0
    requires Inside(mem, r, rn * LPP) && Inside(mem, a, an * LPP) && Ascending(r, a, an * LPP)
    modifies mem
    ensures borrow <= 1
    ensures Val(mem[..], r, rn * LPP) - borrow * Pw(rn * LPP)
         == Val(old(mem[..]), r, rn * LPP) - Val(old(mem[..]), a, an * LPP)
    ensures SameOutside(old(mem[..]), mem[..], r, r + rn * LPP)
  {
    borrow := PSub(mem, r, r, a, rn, an);
  }

  // ----- one word -----

  lemma WordStep(S: seq<Limb>, T: seq<Limb>, r: nat, a: nat, i: nat, b: Limb, c: Limb, z: Limb, c': Limb)
    requires r + i < |T| && a + i < |S|
    requires Val(T, r, i) + c * Pw(i) == Val(S, a, i) + b
    requires z == Low(S[a + i] + c) && c' == (if z < S[a + i] then 1 else 0)
    ensures Val(T[r + i := z], r, i + 1) + c' * Pw(i + 1) == Val(S, a, i + 1) + b
  {
    ValFrame(T, T[r + i := z], r + i, r + i + 1, r, i);
    CarryStep(Pw(i), c, S[a + i], 0, z, c');
  }

  /** r := a + b for a word b; the carry is the word itself at first. */
  method PAddU(mem: array<Limb>, r: nat, a: nat, b: Limb, an: nat) returns (carry: Limb)
    requires an > 0 && Inside(mem, r, an * LPP) && Inside(mem, a, an * LPP) && Ascending(r, a, an * LPP)
    modifies mem
    ensures carry <= 1
    ensures Val(mem[..], r, an * LPP) + carry * Pw(an * LPP) == Val(old(mem[..]), a, an * LPP) + b
    ensures SameOutside(old(mem[..]), mem[..], r, r + an * LPP)
  {
    var n := an * LPP;
    ghost var S: seq<Limb> := mem[..];
    carry := b;
    var i := 0;
    while i < n
      invariant 0 <= i <= n && (i > 0 ==> carry <= 1)
      invariant SameOutside(S, mem[..], r, r + i)
      invariant Val(mem[..], r, i) + carry * Pw(i) == Val(S, a, i) + b
    {
      ghost var T: seq<Limb>, c := mem[..], carry;
      assert T[a + i] == S[a + i];
      var sum := Low(mem[a + i] + carry);
      carry := if sum < mem[a + i] then 1 else 0;
      WordStep(S, T, r, a, i, b, c, sum, carry);
      mem[r + i] := sum;
      assert mem[..] == T[r + i := sum];
      i := i + 1;
    }
  }
}
