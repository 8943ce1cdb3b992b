/** The closed form for the squaring workspace, against what the recursion takes. */
module KaratsubaSpace {
  import opened Common
  import opened Limbs
  import opened Karatsuba
  import opened Log2

  /** hebi_psqr_karatsuba_space, in 64-bit size arithmetic. */
  function SqrSpace(n: nat): nat {
    if n <= SQR_CUTOFF then 0 else
      var x0 := CeilLog2(SQR_CUTOFF - 2);
      var y0 := CeilLog2(SQR_CUTOFF - 3);
      var x1 := 2 * x0 + Pow2(x0 - 1);
      var y1 := 3 * y0 + Pow2(y0 - 1);
      var x := Low(2 * Low(n - x1 + 2 * CeilLog2(n - 2)));
      var y := Low(2 * Low(n - y1 + 3 * FloorLog2(n - 3)));
      Max(x, y)
  }

  lemma Constants()
    ensures CeilLog2(6) == 3 && CeilLog2(5) == 3 && Pow2(2) == 4
  {
    assert CeilLog2(3) == 2;
  }

  /** Without wrap-around. */
  lemma SqrSpaceIs(n: nat)
    requires SQR_CUTOFF < n <= PACKET_MAXLEN
    ensures 2 <= FloorLog2(n - 3) && 3 <= CeilLog2(n - 2)
    ensures SqrSpace(n) == Max(2 * (n - 10 + 2 * CeilLog2(n - 2)), 2 * (n - 13 + 3 * FloorLog2(n - 3)))
  {
    Constants();
    LogRange(n);
    NoWrap(n - 10 + 2 * CeilLog2(n - 2));
    NoWrap(n - 13 + 3 * FloorLog2(n - 3));
  }

  lemma LogRange(n: nat)
    requires 9 <= n
    ensures 3 <= CeilLog2(n - 2) <= n && 2 <= FloorLog2(n - 3) <= n
  {
    Constants();
    CeilLog2Small(n - 2);
    FloorLog2Small(n - 3);
    CeilLog2Mono(5, n - 2);
    assert FloorLog2((n - 3) / 2) >= 1;
  }

  lemma NoWrap(x: int)
    requires 0 <= x < HALF
    ensures Low(2 * Low(x)) == 2 * x
  {
  }

  /** Need(n) is v. */
  ghost predicate Needs(n: nat, v: int) {
    forall k {:trigger Unfold(k)} :: Unfold(k) ==> Need(n) == v
  }

  lemma NeedsStep(n: nat, m: nat, x: nat, y: nat, z: nat)
    requires n > SQR_CUTOFF && m == (n + 1) / 2 && Needs(m + 1, x) && Needs(n - m, y) && Needs(m, z)
    ensures Needs(n, Max(m + 1 + x, Max(2 * (n - m) + 1 + y, 2 * m + 1 + z)))
  {
    assert Unfold(0);
    NeedIs(n, m, x, y, z);
  }

  /** The lengths at which the recursion passes through 9. */
  lemma {:induction false} NeedSmall(n: nat) returns (v: nat)
    requires n <= 19
    ensures Needs(n, v)
    ensures v == if n <= 8 then 0 else if n <= 10 then 11 else if n <= 12 then 13 else if n <= 14 then 15
      else if n <= 16 then 20 else if n <= 18 then 30 else 32
  {
    var m := (n + 1) / 2;
    if n <= SQR_CUTOFF {
      v := 0;
    } else {
      var x := NeedSmall(m + 1);
      var y := NeedSmall(n - m);
      var z := NeedSmall(m);
      NeedsStep(n, m, x, y, z);
      v := Max(m + 1 + x, Max(2 * (n - m) + 1 + y, 2 * m + 1 + z));
    }
  }

  lemma LogSmall(n: nat)
    requires 10 <= n <= 19
    ensures CeilLog2(n - 2) == if n == 10 then 3 else if n <= 18 then 4 else 5
  {
    assert CeilLog2(2) == 1;
    assert CeilLog2(3) == 2 && CeilLog2(4) == 2;
    assert forall k :: 5 <= k <= 8 ==> CeilLog2(k) == 3;
    assert CeilLog2(9) == 4;
  }

  /** From 10 packets on the first of the two terms is enough. */
  lemma {:induction false} NeedBelow(n: nat) returns (v: nat)
    requires n >= 10
    ensures Needs(n, v) && v <= 2 * (n - 10 + 2 * CeilLog2(n - 2))
  {
    if n <= 19 {
      v := NeedSmall(n);
      LogSmall(n);
    } else {
      var m := (n + 1) / 2;
      var x := NeedBelow(m + 1);
      var y := NeedBelow(n - m);
      var z := NeedBelow(m);
      NeedsStep(n, m, x, y, z);
      v := Max(m + 1 + x, Max(2 * (n - m) + 1 + y, 2 * m + 1 + z));
      LogHalves(n, m);
    }
  }

  lemma LogHalves(n: nat, m: nat)
    requires n >= 20 && m == (n + 1) / 2
    ensures CeilLog2(n - 2) == 1 + CeilLog2(m - 1)
    ensures CeilLog2(m - 2) <= CeilLog2(m - 1) && CeilLog2(n - m - 2) <= CeilLog2(m - 1)
  {
    assert (n - 2 + 1) / 2 == m - 1;
    CeilLog2Mono(m - 2, m - 1);
    CeilLog2Mono(n - m - 2, m - 1);
  }

  lemma {:induction false} SpaceShortAtNine()
    ensures Need(9) > SqrSpace(9)
  {
    SqrSpaceIs(9);
    var v := NeedSmall(9);
    NeedsValue(9, v);
    assert CeilLog2(7) == 3 by { assert CeilLog2(4) == 2; }
    assert FloorLog2(6) == 2;
  }

  lemma {:induction false} SpaceEnough(n: nat)
    requires 10 <= n <= PACKET_MAXLEN
    ensures Need(n) <= SqrSpace(n)
  {
    SqrSpaceIs(n);
    var v := NeedBelow(n);
    NeedsValue(n, v);
  }

  lemma NeedsValue(n: nat, v: int)
    requires Needs(n, v)
    ensures Need(n) == v
  {
    assert Unfold(0);
  }

  /** The closed form is enough for every length but 9, where it is one packet short. */
  lemma {:induction false} SpaceEnoughIff(n: nat)
    requires n <= PACKET_MAXLEN
    ensures Need(n) <= SqrSpace(n) <==> n != 9
  {
    if n == 9 {
      SpaceShortAtNine();
    } else if n > 9 {
      SpaceEnough(n);
    }
  }
}
