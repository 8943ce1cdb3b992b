/** Limbs, little-endian limb sequences, and the fixed-width arithmetic the kernels are written in. */
module Limbs {

  const B: int := 0x1_0000_0000_0000_0000
  const HALF: int := 0x8000_0000_0000_0000

  /** An MLIMB: one 64-bit machine word. */
  type Limb = x: int | 0 <= x < B

  /** A DLIMB: a double word. */
  type Wide = x: int | 0 <= x < B * B

  // ----- wrapping machine arithmetic -----

  function Low(p: int): Limb { p % B }

  function MulLow(x: int, y: int): Limb { Low(x * y) }

  function Wrap2(p: int): Wide { p % (B * B) }

  /** Bitwise or. */
  function Or(x: nat, y: nat): nat {
    if x == 0 then y
    else if y == 0 then x
    else 2 * Or(x / 2, y / 2) + (if x % 2 == 1 || y % 2 == 1 then 1 else 0)
  }

  function Pow2(n: nat): (p: int)
    ensures 0 < p
  {
    if n == 0 then 1 else 2 * Pow2(n - 1)
  }

  // ----- products -----

  lemma MulLe(a: int, b: int, c: int, d: int)
    requires 0 <= a <= b && 0 <= c <= d
    ensures 0 <= a * c <= b * d
  {
    assert (b - a) * c >= 0;
    assert b * (d - c) >= 0;
  }

  lemma MulLt(a: int, b: int, c: int)
    requires a < b && 0 < c
    ensures a * c < b * c
  {
    MulLe(0, b - a - 1, 0, c);
    assert (b - a - 1) * c == b * c - a * c - c;
  }

  lemma AtLeast(k: int, d: int)
    ensures 1 <= k && 0 <= d ==> d <= k * d
  {
    if 1 <= k && 0 <= d { MulLe(1, k, d, d); }
  }

  /** The only way to write n as q*d + r with 0 <= r < d. */
  lemma DivUnique(n: int, d: int, q: int, r: int)
    requires 0 <= r < d
    requires n == q * d + r
    ensures q == n / d && r == n % d
  {
    var q', r' := n / d, n % d;
    assert n == q' * d + r';
    assert (q - q') * d == r' - r && (q' - q) * d == r - r';
    AtLeast(q' - q, d);
    AtLeast(q - q', d);
  }

  lemma ModShift(x: int, k: int, d: int)
    requires 0 < d
    ensures (x + k * d) % d == x % d
  {
    assert x + k * d == (x / d + k) * d + x % d;
    DivUnique(x + k * d, d, x / d + k, x % d);
  }

  lemma LowMul(x: int, y: int)
    ensures Low(Low(x) * y) == Low(x * y)
  {
    var j := x / B;
    assert Low(x) * y == x * y + (-(j * y)) * B by { assert x == j * B + Low(x); }
    ModShift(x * y, -(j * y), B);
  }

  lemma LowAdd(x: int, y: int)
    ensures Low(Low(x) + y) == Low(x + y)
  {
    ModShift(x + y, 0 - x / B, B);
    assert Low(x) + y == x + y + (0 - x / B) * B;
  }

  lemma LowSmall(x: int)
    requires 0 <= x < B
    ensures Low(x) == x
  {
  }

  lemma LowBelow(x: int)
    requires 0 - B <= x < 0
    ensures Low(x) == x + B
  {
    DivUnique(x, B, -1, x + B);
  }

  lemma WrapSmall(x: int)
    requires 0 <= x < B * B
    ensures Wrap2(x) == x
  {
  }

  lemma WrapBelow(x: int)
    requires 0 - B * B <= x < 0
    ensures Wrap2(x) == x + B * B
  {
    DivUnique(x, B * B, -1, x + B * B);
  }

  lemma LowCarry(x: int)
    requires B <= x < 2 * B
    ensures Low(x) == x - B
  {
    DivUnique(x, B, 1, x - B);
  }

  lemma WrapCarry(x: int)
    requires 0 <= x < B * B
    ensures Wrap2(x + B * B) == x
  {
    DivUnique(x + B * B, B * B, 1, x);
  }

  lemma LowSub(x: int, y: int)
    ensures Low(x - Low(y)) == Low(x - y)
  {
    ModShift(x - y, y / B, B);
  }

  lemma {:induction false} Pow2Add(m: nat, n: nat)
    ensures Pow2(m + n) == Pow2(m) * Pow2(n)
  {
    if m == 0 {
    } else {
      Pow2Add(m - 1, n);
      assert 2 * (Pow2(m - 1) * Pow2(n)) == (2 * Pow2(m - 1)) * Pow2(n);
    }
  }

  lemma {:induction false} Pow2Mono(m: nat, n: nat)
    requires m <= n
    ensures Pow2(m) <= Pow2(n)
  {
    Pow2Add(m, n - m);
    MulLe(Pow2(m), Pow2(m), 1, Pow2(n - m));
  }

  lemma Pow2Word()
    ensures Pow2(64) == B && Pow2(63) == HALF && Pow2(128) == B * B
  {
    assert Pow2(8) == 0x100;
    Pow2Add(8, 8);
    assert Pow2(16) == 0x1_0000;
    Pow2Add(16, 16);
    assert Pow2(32) == 0x1_0000_0000;
    Pow2Add(32, 32);
    assert Pow2(64) == 2 * Pow2(63);
    Pow2Add(64, 64);
  }

  /** Or of numbers without a common bit is their sum. */
  lemma {:induction false} OrIsSum(x: nat, y: nat, k: nat)
    requires x % Pow2(k) == 0 && y < Pow2(k)
    ensures Or(x, y) == x + y
  {
    if x != 0 && y != 0 {
      var h := Pow2(k - 1);
      var c := x / (2 * h);
      assert x == 2 * (c * h);
      DivUnique(c * h, h, c, 0);
      OrIsSum(x / 2, y / 2, k - 1);
    }
  }
}
