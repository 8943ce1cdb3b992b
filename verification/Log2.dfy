/** Base 2 logarithms, rounded down and up. */
module Log2 {
  import opened Limbs

  function FloorLog2(x: nat): nat {
    if x <= 1 then 0 else 1 + FloorLog2(x / 2)
  }

  function CeilLog2(x: nat): nat {
    if x <= 1 then 0 else 1 + CeilLog2((x + 1) / 2)
  }

  lemma {:induction false} FloorLog2Bounds(x: nat)
    requires 0 < x
    ensures Pow2(FloorLog2(x)) <= x < Pow2(FloorLog2(x) + 1)
  {
    if x > 1 { FloorLog2Bounds(x / 2); }
  }

  lemma {:induction false} CeilLog2Bounds(x: nat)
    requires 0 < x
    ensures x <= Pow2(CeilLog2(x)) && (x > 1 ==> Pow2(CeilLog2(x) - 1) < x)
  {
    if x > 1 { CeilLog2Bounds((x + 1) / 2); }
  }

  /** The portable loops. */
  method FloorLog2Loop(x0: nat) returns (r: nat)
    ensures r == FloorLog2(x0)
  {
    var x := x0 / 2;
    r := 0;
    while x != 0
      invariant 0 <= x && FloorLog2(x0) == if x == 0 then r else r + 1 + FloorLog2(x)
      decreases x
    {
      r := r + 1;
      x := x / 2;
    }
  }

  method CeilLog2Loop(x0: nat) returns (r: nat)
    ensures r == CeilLog2(x0)
  {
    r := 0;
    if x0 != 0 {
      var x := x0 - 1;
      while x > 0
        invariant 0 <= x && CeilLog2(x0) == r + CeilLog2(x + 1)
        decreases x
      {
        assert (x + 1 + 1) / 2 == x / 2 + 1;
        x := x / 2;
        r := r + 1;
      }
    }
  }

  lemma {:induction false} CeilLog2Small(x: nat)
    ensures CeilLog2(x) <= x
  {
    if x > 1 { CeilLog2Small((x + 1) / 2); }
  }

  lemma {:induction false} FloorLog2Small(x: nat)
    ensures FloorLog2(x) <= x
  {
    if x > 1 { FloorLog2Small(x / 2); }
  }

  lemma {:induction false} CeilLog2Mono(x: nat, y: nat)
    requires x <= y
    ensures CeilLog2(x) <= CeilLog2(y)
  {
    if x > 1 { CeilLog2Mono((x + 1) / 2, (y + 1) / 2); }
  }
}
