/** Exact division of two limbs by one and of three limbs by two, by multiplying with a reciprocal. */
module DivideLimbs {
  import opened Limbs
  import Reciprocal64

  /** v is the reciprocal of a normalised limb: B + v is the largest multiplier that keeps d below B^2. */
  ghost predicate IsRecip(d: Limb, v: int) {
    HALF <= d && 0 < B * B - (B + v) * d <= d
  }

  /** The same for a normalised pair of limbs, below B^3. */
  ghost predicate IsRecip2(d1: Limb, d0: Limb, v: int) {
    HALF <= d1 && 0 < B * B * B - (B + v) * (d1 * B + d0) <= d1 * B + d0
  }

  lemma RecipIsQuotient(d: Limb, v: int)
    requires HALF <= d
    ensures IsRecip(d, v) <==> v == (B * B - 1) / d - B
  {
    var q := (B * B - 1) / d;
    assert B * B - 1 == q * d + (B * B - 1) % d;
    if IsRecip(d, v) {
      DivUnique(B * B - 1, d, B + v, B * B - 1 - (B + v) * d);
    }
  }

  lemma RecipFits(d: Limb, v: int)
    requires IsRecip(d, v)
    ensures 0 <= v < B
  {
    var y := (B + v) * d;
    assert (-v) * d == B * d - y;
    AtLeast(-v, d);
    if v >= B { MulLe(2 * B, B + v, HALF, d); }
  }

  // ----- two limbs by one -----

  /** How the remainder c left by the candidate quotient is told from what the low half q0 of the product says. */
  ghost predicate Told(c: int, q0: Limb, d: Limb) {
    0 <= c + d && c < B && (c < 0 ==> c + B > q0) && (c >= 0 ==> c <= q0 || c < B - d)
  }

  /** With p = u1*v + u1*B + u0 = q1*B + q0, the remainder r left by the quotient q1 + 1. */
  lemma Candidate2x1(u1: int, u0: Limb, d: Limb, v: int, q1: int, q0: Limb, r: int)
    requires IsRecip(d, v) && 0 <= u1 < d
    requires u1 * v + u1 * B + u0 == q1 * B + q0
    requires r == u1 * B + u0 - (q1 + 1) * d
    ensures 0 <= q1 < B
    ensures Told(r, q0, d)
  {
    RecipFits(d, v);
    var k := B * B - (B + v) * d;
    var s, t, w := u1 * k, u0 * (B - d), q0 * d;
    Scale2x1(u1, u0, d, v, q1, q0);
    MulLe(0, u1, 0, k);
    MulLe(u1, d - 1, k, d);
    MulLe(0, u0, 0, B - d);
    MulLe(u0, B - 1, B - d, B - d);
    Small2x1(d, q0, w, r, s + t);
    MulLe(0, u1, 0, v);
    if q1 >= B { MulLe(B + 1, q1 + 1, d, d); }
  }

  lemma Scale2x1(u1: int, u0: int, d: int, v: int, q1: int, q0: int)
    requires u1 * v + u1 * B + u0 == q1 * B + q0
    ensures B * (u1 * B + u0 - (q1 + 1) * d) == u1 * (B * B - (B + v) * d) + u0 * (B - d) + q0 * d - B * d
  {
    assert (u1 * v + u1 * B + u0) * d == (q1 * B + q0) * d;
    assert (u1 * v) * d == u1 * (v * d);
  }

  lemma Small2x1(d: Limb, q0: Limb, w: int, r: int, s: int)
    requires HALF <= d && w == q0 * d
    requires 0 <= s <= (d - 1) * d + (B - 1) * (B - d)
    requires B * r == s + w - B * d
    ensures 0 <= r + d && r < B
    ensures r < 0 ==> r + B > q0
    ensures r >= 0 ==> r <= q0 || r < B - d
  {
    MulLe(0, q0, 0, d);
    MulLe(q0, B - 1, d, d);
    if r < 0 {
      MulLt(0, B - q0, B - d);
      assert (B - q0) * (B - d) == B * B - B * d - B * q0 + w;
    }
    if r > q0 && r >= B - d {
      MulLe(q0, r - 1, d, d);
      MulLe(B - d, r, B - d, B - d);
      assert false;
    }
  }

  /** The sum p fits two limbs, and the wrapped remainder is the candidate modulo B. */
  lemma Wrapped2x1(u1: Limb, u0: Limb, d: Limb, v: Limb, p: int, e: int, c: int)
    requires IsRecip(d, v) && u1 < d
    requires p == u1 * v + (u1 * B + u0) && e == p / B
    requires c == u1 * B + u0 - (e + 1) * d
    ensures Wrap2(p) == p && 0 <= e < B
    ensures Low(u0 - MulLow(Low(e + 1), d)) == Low(c)
    ensures Told(c, p % B, d)
  {
    Candidate2x1(u1, u0, d, v, e, p % B, c);
    MulLe(0, u1, 0, v);
    Fits2(p, e, p % B);
    WrappedCandidate(u1, u0, d, e, c);
  }

  /** The remainder of the code is the candidate modulo B. */
  lemma WrappedCandidate(u1: Limb, u0: Limb, d: Limb, e: int, c: int)
    requires c == u1 * B + u0 - (e + 1) * d
    ensures Low(u0 - MulLow(Low(e + 1), d)) == Low(c)
  {
    var x := (e + 1) * d;
    LowMul(e + 1, d);
    LowSub(u0, x);
    ModShift(u0 - x, u1, B);
  }

  method DivRem2x1(u1: Limb, u0: Limb, d: Limb, v: Limb) returns (q: Limb, r: Limb)
    requires IsRecip(d, v) && u1 < d
    ensures q == (u1 * B + u0) / d && r == (u1 * B + u0) % d
    ensures u1 * B + u0 == q * d + r && r < d
  {
    ghost var w := u1 * v + (u1 * B + u0);
    ghost var e := w / B;
    ghost var c: int := u1 * B + u0 - (e + 1) * d;
    Wrapped2x1(u1, u0, d, v, w, e, c);
    var q1, q0;
    q1, q0, r := FirstGuess2x1(u1, u0, d, v, w, e, c);
    ghost var e';
    q, r, e' := Adjust2x1(q1, q0, r, d, e, c);
    Quotient(u1 * B + u0, d, e, c, e', q, r);
  }

  /** Quotient e + 1 from the reciprocal, and the remainder it leaves in one limb. */
  method FirstGuess2x1(u1: Limb, u0: Limb, d: Limb, v: Limb, ghost w: int, ghost e: int, ghost c: int) returns (q1: Limb, q0: Limb, r: Limb)
    requires Wrap2(u1 * v + (u1 * B + u0)) == w && e == w / B && Low(u0 - MulLow(Low(e + 1), d)) == Low(c)
    ensures q1 == Low(e + 1) && q0 == Low(w) && r == Low(c)
  {
    var p := Wrap2(u1 * v + (u1 * B + u0));
    q0, q1 := p % B, p / B;
    q1 := Low(q1 + 1);
    r := Low(u0 - MulLow(q1, d));
  }

  /** The two conditional corrections; the quotient e + 1 leaves c, possibly negative. */
  method Adjust2x1(q1: Limb, q0: Limb, r1: Limb, d: Limb, ghost e: int, ghost c: int)
    returns (q: Limb, r: Limb, ghost e': int)
    requires HALF <= d && 0 <= e < B && q1 == Low(e + 1) && r1 == Low(c)
    requires Told(c, q0, d)
    ensures r < d && q == Low(e' + 1)
    ensures (e' == e && r == c) || (e' == e - 1 && r == c + d) || (e' == e + 1 && r == c - d)
  {
    q, r, e' := q1, r1, e;
    ghost var x := c;
    CandidateLimb(c, d, q0);
    if r > q0 {
      LowAdd(e + 1, -1);
      q := Low(q - 1);
      r := Low(r + d);
      e', x := e' - 1, x + d;
    }
    assert r == x && q == Low(e' + 1);
    if r >= d {
      LowAdd(e' + 1, 1);
      LowSmall(r - d);
      q := Low(q + 1);
      r := Low(r - d);
      e' := e' + 1;
    }
  }

  /** The wrapped candidate remainder, and what adding d makes of it. */
  lemma CandidateLimb(c: int, d: Limb, q0: Limb)
    requires Told(c, q0, d)
    ensures Low(c) == if c < 0 then c + B else c
    ensures Low(c) > q0 ==> 0 <= c + d < B && Low(Low(c) + d) == c + d
    ensures Low(c) <= q0 ==> c >= 0
  {
    if c < 0 { DivUnique(c, B, -1, c + B); } else { LowSmall(c); }
    LowAdd(c, d);
    if 0 <= c + d < B { LowSmall(c + d); }
  }

  /** A quotient and remainder moved by at most one step, the quotient taken modulo B. */
  lemma Quotient(n: int, d: int, e0: int, c0: int, e: int, q: Limb, r: int)
    requires 0 <= n < d * B && 0 <= r < d
    requires c0 == n - (e0 + 1) * d && q == Low(e + 1)
    requires (e == e0 && r == c0) || (e == e0 - 1 && r == c0 + d) || (e == e0 + 1 && r == c0 - d)
    ensures q == n / d && r == n % d && n == q * d + r
  {
    var k := e + 1;
    assert n == k * d + r;
    DivUnique(n, d, k, r);
    QuotientFits(n, d, k, r);
  }

  lemma QuotientFits(n: int, d: int, k: int, r: int)
    requires 0 <= n < d * B && 0 <= r < d && n == k * d + r
    ensures 0 <= k < B
  {
    if k >= B { MulLe(B, k, d, d); }
    if k < 0 { MulLe(1, -k, d, d); }
  }

  // ----- three limbs by two -----

  lemma Recip2IsQuotient(d1: Limb, d0: Limb, v: int)
    requires HALF <= d1
    ensures IsRecip2(d1, d0, v) <==> v == (B * B * B - 1) / (d1 * B + d0) - B
  {
    var d := d1 * B + d0;
    var q := (B * B * B - 1) / d;
    assert B * B * B - 1 == q * d + (B * B * B - 1) % d;
    if IsRecip2(d1, d0, v) {
      DivUnique(B * B * B - 1, d, B + v, B * B * B - 1 - (B + v) * d);
    }
  }

  /** B^2*r for the remainder r left by q1 + 1, where p = u2*v + u2*B + u1 = q1*B + q0. */
  lemma Scale3x2(u2: int, u1: int, u0: int, d: int, v: int, q1: int, q0: int)
    requires u2 * v + u2 * B + u1 == q1 * B + q0
    ensures B * (u2 * B * B + u1 * B + u0 - (q1 + 1) * d)
         == u2 * (B * B * B - (B + v) * d) + u1 * (B * B - d) + u0 * B + q0 * d - B * d
  {
    assert (u2 * v + u2 * B + u1) * d == (q1 * B + q0) * d;
    assert (u2 * v) * d == u2 * (v * d);
  }

  /** The bound the second correction rests on, for s = u2*k + u1*f + u0*B with f = B^2 - d. */
  lemma Bound3x2(u2: Limb, u1: Limb, u0: Limb, d1: Limb, d0: Limb, v: int)
    requires IsRecip2(d1, d0, v) && u2 * B + u1 < d1 * B + d0
    ensures var d := d1 * B + d0; var k := B * B * B - (B + v) * d; var f := B * B - d;
      && 0 <= u2 * k + u1 * f + u0 * B
      && B * (u2 * k + u1 * f + u0 * B) < B * B * B * B - B * B * f + f * f
  {
    var d := d1 * B + d0;
    var k, f := B * B * B - (B + v) * d, B * B - d;
    MulLe(0, u2, 0, k);
    MulLe(0, u1, 0, f);
    if u2 < d1 {
      MulLe(u2, d1 - 1, k, d);
      MulLe(u1, B - 1, f, f);
      BelowTop(d1, d0, d, f, u2 * k + u1 * f + u0 * B);
    } else if d1 < B - 1 {
      MulLe(u2, d1, k, d);
      MulLe(u1, d0 - 1, f, f);
      AtTop(d1, d0, d, f, u2 * k + u1 * f + u0 * B);
    } else {
      AllOnes(d0, d, v, f);
      MulLe(u1, d0 - 1, f, f);
      AtAllOnes(d0, f, u2 * k + u1 * f + u0 * B);
    }
  }

  lemma BelowTop(d1: Limb, d0: Limb, d: int, f: int, s: int)
    requires d == d1 * B + d0 && f == B * B - d
    requires s <= (d1 - 1) * d + (B - 1) * f + (B - 1) * B
    ensures B * s < B * B * B * B - B * B * f + f * f
  {
    var e := d0 * d;
    MulLe(0, d0, 0, d);
    assert d * d == B * (d1 * d) + e;
    assert d * d == B * B * B * B - 2 * B * B * f + f * f;
    assert (d1 - 1) * d == d1 * d - d;
  }

  lemma AtTop(d1: Limb, d0: Limb, d: int, f: int, s: int)
    requires d == d1 * B + d0 && f == B * B - d && d1 < B - 1
    requires s <= d1 * d + (d0 - 1) * f + (B - 1) * B
    ensures B * s < B * B * B * B - B * B * f + f * f
  {
    var e, g := d0 * d, (d0 - 1) * f;
    assert d * d == B * (d1 * d) + e;
    assert d * d == B * B * B * B - 2 * B * B * f + f * f;
    AtTopGap(d0, d, f, e, g);
  }

  lemma AtTopGap(d0: Limb, d: int, f: int, e: int, g: int)
    requires f == B * B - d && 2 * B - d0 <= f && e == d0 * d && g == (d0 - 1) * f
    ensures B * B * f + e - B * g - B * B * B + B * B > 0
  {
    var x := B - d0;
    var y := x * f;
    assert g == B * f - f - y;
    assert e == B * d - x * d && x * d == B * B * x - y;
    MulLe(x, x, B + x, f);
    SquareNonNeg(x);
    assert x * (B + x) == B * x + x * x;
  }

  lemma SquareNonNeg(x: int)
    ensures 0 <= x * x
  {
  }

  lemma AllOnes(d0: Limb, d: int, v: int, f: int)
    requires d == (B - 1) * B + d0 && f == B * B - d && 0 < d0
    requires 0 < B * B * B - (B + v) * d <= d
    ensures v == 0
  {
    var y := (B + v) * d;
    assert y == B * d + v * d;
    AtLeast(v, d);
    AtLeast(-v, d);
    assert (-v) * d == -(v * d);
  }

  lemma AtAllOnes(d0: Limb, f: int, s: int)
    requires f == B - d0 && 0 < d0
    requires s <= (B - 1) * (B * f) + (d0 - 1) * f + (B - 1) * B
    ensures B * s < B * B * B * B - B * B * f + f * f
  {
    assert (d0 - 1) * f == B * f - f - f * f;
    SquareNonNeg(f);
  }

  lemma Small3x2(d: int, q0: Limb, w: int, r: int, s: int)
    requires HALF * B <= d < B * B && w == q0 * d
    requires 0 <= s && B * s < B * B * B * B - B * B * (B * B - d) + (B * B - d) * (B * B - d)
    requires B * r == s + w - B * d
    ensures 0 <= r + d && r < B * B
    ensures r < 0 ==> r + B * B >= q0 * B
    ensures r >= q0 * B ==> r < B * B - d
  {
    var f := B * B - d;
    MulLe(0, q0, 0, d);
    MulLe(B - q0, B - q0, d, B * B);
    assert (B - q0) * d == B * d - w;
    if r >= q0 * B {
      MulLe(q0 * B, r, d, d);
      assert (q0 * B) * d == B * w;
      assert r * d == B * B * r - r * f;
      assert r * f < f * f;
      CancelLt(r, f);
    }
  }

  lemma CancelLt(r: int, f: int)
    requires 0 < f && r * f < f * f
    ensures r < f
  {
    if r >= f { MulLe(f, r, f, f); }
  }

  /** The wrapped two-limb remainder of the code is the candidate modulo B^2. */
  lemma Wrapped3x2(u2: Limb, u1: Limb, u0: Limb, d1: Limb, d0: Limb, q1: Limb)
    ensures var d := d1 * B + d0;
      Remainder3x2(u1, u0, d1, d0, q1) == Wrap2(u2 * B * B + u1 * B + u0 - (q1 + 1) * d)
  {
    var d := d1 * B + d0;
    var x := u1 - q1 * d1;
    var y := Low(x) * B + u0 - q1 * d0;
    LowSub(u1, q1 * d1);
    assert (q1 + 1) * d == q1 * d1 * B + q1 * d0 + d;
    ModShift(y - d, -(y / (B * B)), B * B);
    ModShift(y - d, u2 + x / B, B * B);
  }

  /** The code, for any input at all: quotient limb and two-limb remainder. */
  function Divide3x2(u2: Limb, u1: Limb, u0: Limb, d1: Limb, d0: Limb, v: Limb): (Limb, Wide) {
    var p := Wrap2(u2 * v + (u2 * B + u1));
    var q1: Limb := p / B;
    Correct3x2(Low(q1 + 1), p % B, Remainder3x2(u1, u0, d1, d0, q1), d1 * B + d0)
  }

  /** What the quotient q1 + 1 leaves, in two limbs. */
  function Remainder3x2(u1: Limb, u0: Limb, d1: Limb, d0: Limb, q1: Limb): Wide {
    Wrap2(Wrap2(Low(u1 - Low(q1 * d1)) * B + u0 - q1 * d0) - (d1 * B + d0))
  }

  /** The two conditional corrections. */
  function Correct3x2(q1: Limb, q0: Limb, r: Wide, d: Wide): (Limb, Wide) {
    if r / B >= q0 then Correct3x2Up(Low(q1 - 1), Wrap2(r + d), d) else Correct3x2Up(q1, r, d)
  }

  function Correct3x2Up(q1: Limb, r: Wide, d: Wide): (Limb, Wide) {
    if r >= d then (Low(q1 + 1), Wrap2(r - d)) else (q1, r)
  }

  method DivRem3x2(u2: Limb, u1: Limb, u0: Limb, d1: Limb, d0: Limb, v: Limb) returns (q: Limb, r1: Limb, r0: Limb)
    ensures (q, r1 * B + r0) == Divide3x2(u2, u1, u0, d1, d0, v)
  {
    var p := Wrap2(u2 * v + (u2 * B + u1));
    var q0, q1: Limb := p % B, p / B;
    var r := MulSub3x2(u1, u0, d1, d0, q1);
    q1 := Low(q1 + 1);
    q, r := Adjust3x2(q1, q0, r, d1 * B + d0);
    r0, r1 := r % B, r / B;
  }

  method MulSub3x2(u1: Limb, u0: Limb, d1: Limb, d0: Limb, q1: Limb) returns (r: Wide)
    ensures r == Remainder3x2(u1, u0, d1, d0, q1)
  {
    r := Low(u1 - Low(q1 * d1)) * B + u0;
    r := Wrap2(r - q1 * d0);
    r := Wrap2(r - (d1 * B + d0));
  }

  method Adjust3x2(q1: Limb, q0: Limb, r1: Wide, d: Wide) returns (q: Limb, r: Wide)
    ensures (q, r) == Correct3x2(q1, q0, r1, d)
  {
    q, r := q1, r1;
    if r / B >= q0 {
      q := Low(q - 1);
      r := Wrap2(r + d);
    }
    if r >= d {
      q := Low(q + 1);
      r := Wrap2(r - d);
    }
  }

  lemma {:induction false} Divide3x2Exact(u2: Limb, u1: Limb, u0: Limb, d1: Limb, d0: Limb, v: Limb)
    requires IsRecip2(d1, d0, v) && u2 * B + u1 < d1 * B + d0
    ensures var n := u2 * B * B + u1 * B + u0; var d := d1 * B + d0; var (q, r) := Divide3x2(u2, u1, u0, d1, d0, v);
      && q == n / d && r == n % d
      && n == q * d + r && r < d
  {
    var d := d1 * B + d0;
    var w := u2 * v + (u2 * B + u1);
    var e, q0 := w / B, w % B;
    var c := u2 * B * B + u1 * B + u0 - (e + 1) * d;
    Candidate3x2(u2, u1, u0, d1, d0, v, e, q0, c);
    Divide3x2Is(u2, u1, u0, d1, d0, v, w, e, q0, c);
    var e' := Corrected3x2(e, q0, d, c);
    var (q, r) := Correct3x2(Low(e + 1), q0, Wrap2(c), d);
    Quotient(u2 * B * B + u1 * B + u0, d, e, c, e', q, r);
  }

  /** The code up to the corrections. */
  lemma Divide3x2Is(u2: Limb, u1: Limb, u0: Limb, d1: Limb, d0: Limb, v: Limb, w: int, e: Limb, q0: Limb, c: int)
    requires w == u2 * v + (u2 * B + u1) && Wrap2(w) == w && e == w / B && q0 == w % B
    requires c == u2 * B * B + u1 * B + u0 - (e + 1) * (d1 * B + d0)
    ensures Divide3x2(u2, u1, u0, d1, d0, v) == Correct3x2(Low(e + 1), q0, Wrap2(c), d1 * B + d0)
  {
    Wrapped3x2(u2, u1, u0, d1, d0, e);
  }

  lemma Candidate3x2(u2: Limb, u1: Limb, u0: Limb, d1: Limb, d0: Limb, v: Limb, e: int, q0: Limb, c: int)
    requires IsRecip2(d1, d0, v) && u2 * B + u1 < d1 * B + d0
    requires u2 * v + u2 * B + u1 == e * B + q0
    requires c == u2 * B * B + u1 * B + u0 - (e + 1) * (d1 * B + d0)
    ensures var d := d1 * B + d0;
      && Wrap2(u2 * v + (u2 * B + u1)) == u2 * v + (u2 * B + u1)
      && 0 <= e < B && 0 <= c + d && c < B * B
      && (c < 0 ==> c + B * B >= q0 * B)
      && (c >= q0 * B ==> c < B * B - d)
  {
    var d := d1 * B + d0;
    Scale3x2(u2, u1, u0, d, v, e, q0);
    Bound3x2(u2, u1, u0, d1, d0, v);
    Small3x2(d, q0, q0 * d, c, u2 * (B * B * B - (B + v) * d) + u1 * (B * B - d) + u0 * B);
    MulLe(0, u2, 0, v);
    if e >= B { MulLe(B + 1, e + 1, d, d); }
    Fits2(u2 * v + (u2 * B + u1), e, q0);
  }

  lemma Fits2(w: int, e: Limb, q0: Limb)
    requires w == e * B + q0
    ensures Wrap2(w) == w
  {
  }

  lemma Corrected3x2(e: Limb, q0: Limb, d: Wide, c: int) returns (e': int)
    requires HALF * B <= d
    requires 0 <= c + d && c < B * B
    requires c < 0 ==> c + B * B >= q0 * B
    requires c >= q0 * B ==> c < B * B - d
    ensures var (q, r) := Correct3x2(Low(e + 1), q0, Wrap2(c), d);
      && r < d && q == Low(e' + 1)
      && ((e' == e && r == c) || (e' == e - 1 && r == c + d) || (e' == e + 1 && r == c - d))
  {
    LowAdd(e + 1, -1);
    LowAdd(e + 1, 1);
    LowAdd(e, 1);
    if c < 0 {
      WrapBelow(c);
      WrapCarry(c + d);
      e' := e - 1;
    } else {
      WrapSmall(c);
      if c >= q0 * B { WrapSmall(c + d); }
      if c >= d { WrapSmall(c - d); }
      e' := if c >= d && c < q0 * B then e + 1 else e;
    }
  }

  // ----- the reciprocal of two limbs -----

  method Recip3x2(d1: Limb, d0: Limb) returns (v: Limb)
    requires HALF <= d1
    ensures IsRecip2(d1, d0, v)
  {
    v := Reciprocal64.Recip2x1(d1);
    Reciprocal64.Recip2x1Exact(d1);
    RecipIsQuotient(d1, v);
    var p := Low(v * d1 + d0);
    HighLimb(v, d1, d0, (B + v) * d1);
    ghost var y;
    v, p, y := SubtractHighLimb(v, d1, d0, p, (B + v) * d1);
    v := AddLowLimb(v, d1, d0, p, y);
  }

  /** The first half: lower v until (B + v)*d1 + d0 is below B^2. Here y is (B + v)*d1. */
  method SubtractHighLimb(v0: Limb, d1: Limb, d0: Limb, p0: Limb, ghost y0: int) returns (v: Limb, p: Limb, ghost y: int)
    requires HALF <= d1 && y0 == (B + v0) * d1 && B * B <= y0 + d1
    requires y0 + d0 == B * B - B + p0 + (if p0 < d0 then B else 0)
    ensures y == (B + v) * d1
    ensures y + d0 == B * B - B + p && B * B <= y + d1 + d0
  {
    v, p, y := v0, p0, y0;
    if p < d0 {
      DecrementHigh(v, d1, d0, y);
      LowSmall(v - 1);
      v := Low(v - 1);
      y := y - d1;
      if p >= d1 {
        DecrementHigh(v, d1, d0, y);
        LowSmall(v - 1);
        LowSmall(p - d1);
        v := Low(v - 1);
        y := y - d1;
        p := Low(p - d1);
      }
      LowBelow(p - d1);
      p := Low(p - d1);
    }
  }

  /** The second half: take the low limb of the divisor into account. Here y is (B + v)*d1. */
  method AddLowLimb(v0: Limb, d1: Limb, d0: Limb, p0: Limb, ghost y: int) returns (v: Limb)
    requires HALF <= d1 && y == (B + v0) * d1
    requires y + d0 == B * B - B + p0 && B * B <= y + d1 + d0
    ensures IsRecip2(d1, d0, v)
  {
    v := v0;
    var t := v * d0;
    MulLe(0, v, 0, d0);
    MulLe(v, B - 1, d0, B - 1);
    var t0: Limb, t1: Limb := t % B, t / B;
    var p := Low(p0 + t1);
    ghost var z := (B + v) * (d1 * B + d0);
    assert z == B * B * B - B * B + B * (p0 + t1) + t0 by { TwoLimbProduct(v, d1, d0); }
    DecrementBoth(v, d1, d0, z);
    NextIsTooLarge(v, d1, d0, y, z);
    if p0 + t1 >= B { LowCarry(p0 + t1); } else { LowSmall(p0 + t1); }
    if p < t1 {
      LowSmall(v - 1);
      v := Low(v - 1);
      z := z - (d1 * B + d0);
      DecrementBoth(v, d1, d0, z);
      if p > d1 || (p == d1 && t0 >= d0) {
        LowSmall(v - 1);
        v := Low(v - 1);
      }
    }
  }

  lemma HighLimb(v: Limb, d1: Limb, d0: Limb, y: int)
    requires IsRecip(d1, v) && y == (B + v) * d1
    ensures var p := Low(v * d1 + d0); y + d0 == B * B - B + p + (if p < d0 then B else 0)
  {
    assert v * d1 == y - B * d1;
    ModShift(v * d1 + d0, d1 - B + 1, B);
  }

  lemma DecrementHigh(v: Limb, d1: Limb, d0: Limb, y: int)
    requires y == (B + v) * d1 && B * B <= y + d0
    ensures 1 <= v && (B + v - 1) * d1 == y - d1
  {
    assert v == 0 ==> y == B * d1;
  }

  lemma TwoLimbProduct(v: int, d1: int, d0: int)
    ensures (B + v) * (d1 * B + d0) == B * ((B + v) * d1 + d0) + v * d0
  {
  }

  lemma DecrementBoth(v: Limb, d1: Limb, d0: Limb, z: int)
    requires HALF <= d1 && z == (B + v) * (d1 * B + d0)
    ensures z >= B * B * B ==> 1 <= v && (B + v - 1) * (d1 * B + d0) == z - (d1 * B + d0)
  {
    assert v == 0 ==> z == B * (d1 * B + d0);
  }

  lemma NextIsTooLarge(v: Limb, d1: Limb, d0: Limb, y: int, z: int)
    requires y == (B + v) * d1 && B * B <= y + d1 + d0 && z == (B + v) * (d1 * B + d0)
    ensures B * B * B <= z + d1 * B + d0
  {
    TwoLimbProduct(v, d1, d0);
    MulLe(0, v, 0, d0);
  }
}
