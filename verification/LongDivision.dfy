/**
 Long division one limb at a time, on numbers: what each pass of the loop computes, as the code is
 written and as it is meant, for any state it may be entered in. The divisor d has n + 2 limbs, the
 remainder is kept in n + 2 limbs of which the second from the top also lives in a register u0.
*/
module LongDivision {
  import opened Limbs
  import opened Values
  import opened DivideLimbs

  /** The two top limbs of a number of n + 2 limbs. */
  ghost function Top(n: nat, x: int): Limb { Low(x / Pw(n + 1)) }

  ghost function Second(n: nat, x: int): Limb { Low(x / Pw(n)) }

  /** The estimate where the two top limbs of remainder and divisor are equal, as the code has it. */
  ghost function EqualTopAsWritten(u1: Limb, u0: Limb, d1: Limb, d0: Limb): Wide {
    var s := Low(u0 + d0);
    var c0 := if d0 > s then 1 else 0;
    var p0 := d0 - (if d0 > 0 then 1 else 0);
    var c1 := Low(p0 - c0);
    Low(u1 + d1 - c1) * B + s
  }

  /** Quotient estimate, and what it leaves of the three top limbs <u1,u0,x>. */
  ghost function Estimate(u1: Limb, u0: Limb, x: Limb, d1: Limb, d0: Limb, v: Limb, repaired: bool): (Limb, int) {
    if u1 < d1 || u0 < d0 then
      Divide3x2(u1, u0, x, d1, d0, v)
    else
      (B - 1, if repaired then d1 * B + d0 + x else EqualTopAsWritten(u1, u0, d1, d0))
  }

  /** The remainder after the lower limbs of the product are subtracted; negative means borrow. */
  ghost function Subtracted(n: nat, d: int, w: int, qe: int, p: int): int {
    w % Pw(n) + Pw(n) * p - qe * (d % Pw(n))
  }

  /** One pass: digit, stored remainder, and register u0. Here w is the value of the n + 1 limbs below u0. */
  datatype Pass = Pass(q: Limb, r: int, u0: Limb)

  /** The pass once the estimate is made. */
  ghost function Finish(n: nat, d: int, w: int, qe: Limb, p: int, repaired: bool): Pass {
    var a := Subtracted(n, d, w, qe, p);
    if a >= 0 then
      Pass(qe, a, Second(n, a))
    else
      var r := (a + d) % Pw(n + 2);
      Pass(Low(qe - 1), r, if repaired then Second(n, r) else Second(n, a + Pw(n + 2)))
  }

  ghost function Digit(n: nat, d: int, v: Limb, u1: Limb, u0: Limb, w: int, repaired: bool): Pass {
    var (qe, p) := Estimate(u1, u0, Low(w / Pw(n)), Top(n, d), Second(n, d), v, repaired);
    Finish(n, d, w, qe, p, repaired)
  }

  /** The pass that brings down limb y, from the remainder r and the register u0. */
  ghost function Step(n: nat, d: int, v: Limb, repaired: bool): (int, Limb, Limb) -> Pass {
    (r: int, u0: Limb, y: Limb) => Digit(n, d, v, Top(n, r), u0, y + B * (r % Pw(n)), repaired)
  }

  /** The whole loop over the m low limbs of the dividend, q being the quotient so far. */
  ghost function Run(step: (int, Limb, Limb) -> Pass, m: nat, low: int, r: int, u0: Limb, q: int): (int, int) {
    if m == 0 then (q, r)
    else
      var s := step(r, u0, Low(low / Pw(m - 1)));
      Run(step, m - 1, low % Pw(m - 1), s.r, s.u0, B * q + s.q)
  }

  /** d has n + 2 limbs with the top bit set, and v is the reciprocal of its two top limbs. */
  ghost predicate Divisor(n: nat, d: int, v: int) {
    HALF * Pw(n + 1) <= d < Pw(n + 2) && IsRecip2(Top(n, d), Second(n, d), v)
  }

  lemma TopLimbs(n: nat, x: int)
    requires 0 <= x < Pw(n + 2)
    ensures x == x % Pw(n) + Pw(n) * (Top(n, x) * B + Second(n, x))
    ensures Top(n, x) == x / Pw(n + 1)
  {
    var p := Pw(n);
    var h, l := x / p, x % p;
    assert x == h * p + l;
    assert Pw(n + 1) == B * p && Pw(n + 2) == B * (B * p);
    TopTwo(x, p, h, l);
  }

  lemma TopTwo(x: int, p: int, h: int, l: int)
    requires 0 < p && x == h * p + l && 0 <= l < p && 0 <= x < B * (B * p)
    ensures 0 <= h < B * B
    ensures x / (B * p) == h / B
  {
    if h < 0 { MulLe(1, -h, p, p); }
    if h >= B * B { MulLe(B * B, h, p, p); }
    var t, s := h / B, h % B;
    assert h * p == t * (B * p) + s * p by { assert h == t * B + s; }
    MulLe(0, s, 0, p);
    MulLe(s + 1, B, p, p);
    assert (s + 1) * p == s * p + p;
    DivUnique(x, B * p, t, s * p + l);
  }

  // ----- the pass as it is meant -----

  lemma EstimateMeant(u1: Limb, u0: Limb, x: Limb, d1: Limb, d0: Limb, v: Limb)
    requires IsRecip2(d1, d0, v) && u1 * B + u0 <= d1 * B + d0
    ensures var (qe, p) := Estimate(u1, u0, x, d1, d0, v, true); var h := d1 * B + d0;
      && (u1 * B + u0) * B + x == qe * h + p && 0 <= p
      && (p < h || qe == B - 1)
  {
    if u1 < d1 || u0 < d0 {
      Divide3x2Exact(u1, u0, x, d1, d0, v);
    }
  }

  lemma TopAtMost(p: int, h: int, w: int, d: int, t: int, k: int, kk: int)
    requires 0 < k && kk == B * k && 0 <= w && w + kk * p < B * d && d == t + k * h && t < k
    ensures p <= h
  {
    assert kk * p == B * (k * p);
    assert k * (h + 1) == k * h + k;
    if p >= h + 1 { MulLe(k, k, h + 1, p); }
  }

  /** a = w - qe*d, without the products cancelling in front of the solver. */
  lemma SubtractedIs(full: int, w: int, l: int, x: int, hi: int, k: int, d: int, t: int, h: int, qe: int, p: int)
    requires w == l + k * x && full == w + B * k * hi && d == t + k * h
    requires hi * B + x == qe * h + p
    ensures l + k * p - qe * t == full - qe * d
  {
    assert k * (hi * B + x) == k * (qe * h + p);
    assert qe * (t + k * h) == qe * t + k * (qe * h);
    assert B * k * hi == k * (hi * B);
  }

  lemma SubtractedRange(a: int, l: int, k: int, p: int, qe: Limb, t: int, d: int, h: int)
    requires a == l + k * p - qe * t && 0 <= l < k && 0 <= t < k && 0 <= p && d == t + k * h && B <= h
    requires p < h || a < d
    ensures -d < a < d
  {
    MulLe(0, qe, 0, t);
    MulLe(qe, B - 1, t, k);
    MulLe(k, k, B, h);
    MulLe(0, k, 0, p);
    if p < h {
      MulLe(k, k, p + 1, h);
      assert k * (p + 1) == k * p + k;
    }
  }

  lemma MeantRemainder(n: nat, d: int, v: Limb, u1: Limb, u0: Limb, w: int)
    requires Divisor(n, d, v) && 0 <= w < Pw(n + 1)
    requires w + Pw(n + 1) * (u1 * B + u0) < B * d
    ensures var (qe, p) := Estimate(u1, u0, Low(w / Pw(n)), Top(n, d), Second(n, d), v, true);
      var a := Subtracted(n, d, w, qe, p);
      a == w + Pw(n + 1) * (u1 * B + u0) - qe * d && -d < a < d
  {
    var k, hi := Pw(n), u1 * B + u0;
    LowLimb(w, k);
    var x := Low(w / k);
    TopLimbs(n, d);
    var d1, d0 := Top(n, d), Second(n, d);
    TopAtMost(hi, d1 * B + d0, w, d, d % k, k, Pw(n + 1));
    EstimateMeant(u1, u0, x, d1, d0, v);
    var (qe, p) := Estimate(u1, u0, x, d1, d0, v, true);
    MeantArithmetic(w, w % k, x, hi, k, Pw(n + 1), d, d % k, d1 * B + d0, qe, p);
  }

  lemma MeantArithmetic(w: int, l: int, x: int, hi: int, k: int, kk: int, d: int, t: int, h: int, qe: Limb, p: int)
    requires w == l + k * x && 0 <= l < k && d == t + k * h && 0 <= t < k && B <= h
    requires hi * B + x == qe * h + p && 0 <= p && (p < h || qe == B - 1)
    requires kk == B * k && w + kk * hi < B * d
    ensures var a := l + k * p - qe * t; a == w + kk * hi - qe * d && -d < a < d
  {
    assert kk * hi == B * k * hi;
    SubtractedIs(w + kk * hi, w, l, x, hi, k, d, t, h, qe, p);
    assert (B - 1) * d == B * d - d;
    SubtractedRange(l + k * p - qe * t, l, k, p, qe, t, d, h);
  }

  lemma {:induction false} DigitMeant(n: nat, d: int, v: Limb, u1: Limb, u0: Limb, w: int)
    requires Divisor(n, d, v) && 0 <= w < Pw(n + 1)
    requires w + Pw(n + 1) * (u1 * B + u0) < B * d
    ensures var s := Digit(n, d, v, u1, u0, w, true);
      && w + Pw(n + 1) * (u1 * B + u0) == s.q * d + s.r
      && 0 <= s.r < d && s.u0 == Second(n, s.r)
  {
    MeantRemainder(n, d, v, u1, u0, w);
    var (qe, p) := Estimate(u1, u0, Low(w / Pw(n)), Top(n, d), Second(n, d), v, true);
    MulLe(0, Pw(n + 1), 0, u1 * B + u0);
    FinishMeant(n, d, w, qe, p, w + Pw(n + 1) * (u1 * B + u0));
  }

  lemma FinishMeant(n: nat, d: int, w: int, qe: Limb, p: int, full: int)
    requires 0 < d < Pw(n + 2) && 0 <= full
    requires Subtracted(n, d, w, qe, p) == full - qe * d && -d < full - qe * d < d
    ensures var s := Finish(n, d, w, qe, p, true);
      full == s.q * d + s.r && 0 <= s.r < d && s.u0 == Second(n, s.r)
  {
    AddBack(n, d, full - qe * d);
    OneLess(qe, d, full, full - qe * d);
  }

  lemma OneLess(qe: Limb, d: int, full: int, a: int)
    requires 0 < d && 0 <= full && a == full - qe * d
    ensures a < 0 ==> Low(qe - 1) == qe - 1 && full == (qe - 1) * d + (a + d)
  {
    assert (qe - 1) * d == qe * d - d;
    if qe == 0 { assert qe * d == 0; }
  }

  lemma LowLimb(w: int, k: int)
    requires 0 < k && 0 <= w < B * k
    ensures 0 <= w / k < B && Low(w / k) == w / k && w == w % k + k * (w / k)
  {
    var q := w / k;
    assert w == q * k + w % k;
    if q >= B { MulLe(B, q, k, k); }
    if q < 0 { MulLe(1, -q, k, k); }
  }

  lemma AddBack(n: nat, d: int, a: int)
    requires 0 < d < Pw(n + 2) && -d < a < d
    ensures a < 0 ==> (a + d) % Pw(n + 2) == a + d
  {
    if a < 0 { DivUnique(a + d, Pw(n + 2), 0, a + d); }
  }

  lemma StepMeant(n: nat, d: int, v: Limb, r: int, y: Limb)
    requires Divisor(n, d, v) && 0 <= r < d
    ensures var s := Step(n, d, v, true)(r, Second(n, r), y);
      y + B * r == s.q * d + s.r && 0 <= s.r < d && s.u0 == Second(n, s.r)
  {
    TopLimbs(n, r);
    var w := y + B * (r % Pw(n));
    Regroup(y, r % Pw(n), Pw(n), Top(n, r) * B + Second(n, r), r);
    DigitMeant(n, d, v, Top(n, r), Second(n, r), w);
  }

  lemma Regroup(y: Limb, l: int, k: int, h: int, r: int)
    requires r == l + k * h && 0 <= l < k
    ensures y + B * l + (B * k) * h == y + B * r
    ensures 0 <= y + B * l < B * k
  {
    assert (B * k) * h == B * (k * h);
  }

  ghost predicate IsDivision(t: int, d: int, qr: (int, int)) {
    t == qr.0 * d + qr.1 && 0 <= qr.1 < d
  }

  /** A pass that divides, for every remainder and every limb brought down. */
  ghost predicate Divides(step: (int, Limb, Limb) -> Pass, n: nat, d: int) {
    forall r: int, y: Limb {:trigger step(r, Second(n, r), y)} :: 0 <= r < d ==>
      var s := step(r, Second(n, r), y);
      y + B * r == s.q * d + s.r && 0 <= s.r < d && s.u0 == Second(n, s.r)
  }

  /** A loop of such passes divides <r, low>, with q*d taken off already. */
  lemma {:induction false} RunDivides(step: (int, Limb, Limb) -> Pass, n: nat, d: int, m: nat, low: int, r: int, q: int)
    requires Divides(step, n, d) && 0 <= r < d && 0 <= low < Pw(m)
    ensures IsDivision(low + Pw(m) * (q * d + r), d, Run(step, m, low, r, Second(n, r), q))
  {
    if m > 0 {
      var k := Pw(m - 1);
      LowLimb(low, k);
      var y := Low(low / k);
      var s := step(r, Second(n, r), y);
      RunDivides(step, n, d, m - 1, low % k, s.r, B * q + s.q);
      RunArithmetic(low, low % k, y, k, q, d, r, s.q, s.r);
    }
  }

  /** The repaired loop divides. */
  lemma RunMeant(n: nat, d: int, v: Limb, m: nat, low: int, r: int, q: int)
    requires Divisor(n, d, v) && 0 <= r < d && 0 <= low < Pw(m)
    ensures IsDivision(low + Pw(m) * (q * d + r), d, Run(Step(n, d, v, true), m, low, r, Second(n, r), q))
  {
    StepDivides(n, d, v);
    RunDivides(Step(n, d, v, true), n, d, m, low, r, q);
  }

  lemma StepDivides(n: nat, d: int, v: Limb)
    requires Divisor(n, d, v)
    ensures Divides(Step(n, d, v, true), n, d)
  {
    var step := Step(n, d, v, true);
    forall r: int, y: Limb {:trigger step(r, Second(n, r), y)} | 0 <= r < d
      ensures var s := step(r, Second(n, r), y);
        y + B * r == s.q * d + s.r && 0 <= s.r < d && s.u0 == Second(n, s.r)
    {
      StepMeant(n, d, v, r, y);
    }
  }

  lemma RunArithmetic(low: int, l: int, y: int, k: int, q: int, d: int, r: int, x: int, r': int)
    requires low == l + k * y && y + B * r == x * d + r'
    ensures l + k * ((B * q + x) * d + r') == low + (B * k) * (q * d + r)
  {
    assert (B * q + x) * d + r' == B * (q * d) + (x * d + r');
    assert k * (B * (q * d) + (y + B * r)) == (B * k) * (q * d + r) + k * y;
  }

  // ----- the pass as it is written -----

  /** The equal-top estimate is right: the top limbs differ, or d0 = d1 + 1 and the third limb is d0 too. */
  ghost predicate TopOk(n: nat, d: int, r: int, y: Limb) {
    var d1, d0 := Top(n, d), Second(n, d);
    || Top(n, r) < d1 || Second(n, r) < d0
    || (d0 == d1 + 1 && Low((y + B * (r % Pw(n))) / Pw(n)) == d0)
  }

  /** Reusing the register is right: no add-back, or one that leaves the second limb as it was. */
  ghost predicate RegisterOk(n: nat, d: int, v: Limb, r: int, y: Limb) {
    var w := y + B * (r % Pw(n));
    var (qe, p) := Estimate(Top(n, r), Second(n, r), Low(w / Pw(n)), Top(n, d), Second(n, d), v, true);
    var a := Subtracted(n, d, w, qe, p);
    a >= 0 || Second(n, a + Pw(n + 2)) == Second(n, a + d)
  }

  lemma EqualTopExactIff(d1: Limb, d0: Limb, x: Limb)
    requires HALF <= d1
    ensures EqualTopAsWritten(d1, d0, d1, d0) == d1 * B + d0 + x <==> d0 == d1 + 1 && x == d0
  {
  }

  /** At an equal top the written estimate p differs from the meant one p'; then digit or remainder differ too. */
  lemma EqualTopDiffers(k: int, kkk: int, l: int, t: int, d: int, p: int, p': int, a: int, a': int)
    requires 0 < k && kkk == B * (B * k) && 0 <= l < k && 0 <= t < k && 0 < d < kkk
    requires 0 <= p < B * B && p != p'
    requires a == l + k * p - (B - 1) * t && a' == l + k * p' - (B - 1) * t && -d < a' < d
    ensures a != a'
    ensures a < 0 && a' < 0 ==> (a + d) % kkk != a' + d
  {
    assert a - a' == k * (p - p');
    if p < p' { MulLe(k, k, 1, p' - p); } else { MulLe(k, k, 1, p - p'); }
    MulLe(0, k, 0, p);
    if a < 0 && a + d < 0 { DivUnique(a + d, kkk, -1, a + d + kkk); }
    if a < 0 && a + d >= 0 { DivUnique(a + d, kkk, 0, a + d); }
  }

  lemma TopNotAbove(n: nat, d: int, r: int)
    requires 0 <= r < d < Pw(n + 2)
    ensures Top(n, r) * B + Second(n, r) <= Top(n, d) * B + Second(n, d)
  {
    TopLimbs(n, r);
    TopLimbs(n, d);
    var k, h, h' := Pw(n), Top(n, r) * B + Second(n, r), Top(n, d) * B + Second(n, d);
    assert k * (h' + 1) == k * h' + k;
    if h > h' { MulLe(k, k, h' + 1, h); }
  }

  /** What both passes start from in a sound state. */
  lemma SoundPass(n: nat, d: int, v: Limb, r: int, y: Limb)
    requires Divisor(n, d, v) && 0 <= r < d
    ensures Top(n, r) * B + Second(n, r) <= Top(n, d) * B + Second(n, d) && HALF <= Top(n, d)
    ensures var w := y + B * (r % Pw(n));
      var (qe, p) := Estimate(Top(n, r), Second(n, r), Low(w / Pw(n)), Top(n, d), Second(n, d), v, true);
      -d < Subtracted(n, d, w, qe, p) < d
  {
    TopLimbs(n, r);
    Regroup(y, r % Pw(n), Pw(n), Top(n, r) * B + Second(n, r), r);
    MeantRemainder(n, d, v, Top(n, r), Second(n, r), y + B * (r % Pw(n)));
    TopNotAbove(n, d, r);
  }

  lemma EqualTopIff(n: nat, d: int, w: int, p: int, p': int)
    requires 0 < d < Pw(n + 2) && 0 <= p < B * B
    requires -d < Subtracted(n, d, w, B - 1, p') < d
    ensures var s, t := Finish(n, d, w, B - 1, p, false), Finish(n, d, w, B - 1, p', true);
      s.q == t.q && s.r == t.r <==> p == p'
  {
    var k := Pw(n);
    var a, a' := Subtracted(n, d, w, B - 1, p), Subtracted(n, d, w, B - 1, p');
    AddBack(n, d, a');
    if p != p' {
      EqualTopDiffers(k, Pw(n + 2), w % k, d % k, d, p, p', a, a');
    }
  }

  /** From a sound state the written pass gives the right digit and remainder exactly when TopOk. */
  lemma {:induction false} PassExactIff(n: nat, d: int, v: Limb, r: int, y: Limb)
    requires Divisor(n, d, v) && 0 <= r < d
    ensures var s, t := Step(n, d, v, false)(r, Second(n, r), y), Step(n, d, v, true)(r, Second(n, r), y);
      s.q == t.q && s.r == t.r <==> TopOk(n, d, r, y)
  {
    var w, d1, d0 := y + B * (r % Pw(n)), Top(n, d), Second(n, d);
    SoundPass(n, d, v, r, y);
    if Top(n, r) >= d1 && Second(n, r) >= d0 {
      var x := Low(w / Pw(n));
      EqualTopExactIff(d1, d0, x);
      EqualTopIff(n, d, w, EqualTopAsWritten(d1, d0, d1, d0), d1 * B + d0 + x);
    }
  }

  /** The same estimate, finished both ways: only the register can differ. */
  lemma FinishRegister(n: nat, d: int, w: int, qe: Limb, p: int)
    requires 0 < d < Pw(n + 2) && -d < Subtracted(n, d, w, qe, p) < d
    ensures var a, s, t := Subtracted(n, d, w, qe, p), Finish(n, d, w, qe, p, false), Finish(n, d, w, qe, p, true);
      s == t <==> a >= 0 || Second(n, a + Pw(n + 2)) == Second(n, a + d)
  {
    AddBack(n, d, Subtracted(n, d, w, qe, p));
  }

  /** Where TopOk holds the written estimate is the meant one. */
  lemma SameEstimate(u1: Limb, u0: Limb, x: Limb, d1: Limb, d0: Limb, v: Limb)
    requires HALF <= d1 && u1 * B + u0 <= d1 * B + d0
    requires u1 < d1 || u0 < d0 || (d0 == d1 + 1 && x == d0)
    ensures Estimate(u1, u0, x, d1, d0, v, false) == Estimate(u1, u0, x, d1, d0, v, true)
  {
    if u1 >= d1 && u0 >= d0 { EqualTopExactIff(d1, d0, x); }
  }

  /** And then the register is right exactly when RegisterOk. */
  lemma {:induction false} RegisterExactIff(n: nat, d: int, v: Limb, r: int, y: Limb)
    requires Divisor(n, d, v) && 0 <= r < d && TopOk(n, d, r, y)
    ensures var s, t := Step(n, d, v, false)(r, Second(n, r), y), Step(n, d, v, true)(r, Second(n, r), y);
      s == t <==> RegisterOk(n, d, v, r, y)
  {
    var w, u1, u0, d1, d0 := y + B * (r % Pw(n)), Top(n, r), Second(n, r), Top(n, d), Second(n, d);
    var x := Low(w / Pw(n));
    SoundPass(n, d, v, r, y);
    SameEstimate(u1, u0, x, d1, d0, v);
    var (qe, p) := Estimate(u1, u0, x, d1, d0, v, true);
    FinishRegister(n, d, w, qe, p);
  }

  // ----- the loop as it is written -----

  /** Every pass but the last is good, along the run of step. */
  ghost predicate Always(step: (int, Limb, Limb) -> Pass, good: (int, Limb) -> bool, n: nat, m: nat, low: int, r: int) {
    m <= 1 ||
    var y := Low(low / Pw(m - 1));
    good(r, y) && Always(step, good, n, m - 1, low % Pw(m - 1), step(r, Second(n, r), y).r)
  }

  /** The remainder and the limb the last pass starts from. */
  ghost function Last(step: (int, Limb, Limb) -> Pass, n: nat, m: nat, low: int, r: int): (int, Limb)
    requires 0 < m
  {
    var y := Low(low / Pw(m - 1));
    if m == 1 then (r, y) else Last(step, n, m - 1, low % Pw(m - 1), step(r, Second(n, r), y).r)
  }

  /** Two loops whose passes agree where good holds differ in their last pass at most. */
  lemma {:induction false} RunsAgree(f: (int, Limb, Limb) -> Pass, g: (int, Limb, Limb) -> Pass, good: (int, Limb) -> bool,
        n: nat, d: int, m: nat, low: int, r: int, q: int)
    returns (q': int)
    requires 0 < m && Divides(g, n, d) && 0 <= r < d
    requires forall r: int, y: Limb {:trigger good(r, y)} :: 0 <= r < d && good(r, y) ==>
      f(r, Second(n, r), y) == g(r, Second(n, r), y)
    requires Always(g, good, n, m, low, r)
    ensures var (r1, y1) := Last(g, n, m, low, r);
      && 0 <= r1 < d
      && (var s := f(r1, Second(n, r1), y1); Run(f, m, low, r, Second(n, r), q) == (B * q' + s.q, s.r))
      && (var t := g(r1, Second(n, r1), y1); Run(g, m, low, r, Second(n, r), q) == (B * q' + t.q, t.r))
  {
    var y := Low(low / Pw(m - 1));
    var s, t := f(r, Second(n, r), y), g(r, Second(n, r), y);
    if m == 1 {
      q' := q;
    } else {
      q' := RunsAgree(f, g, good, n, d, m - 1, low % Pw(m - 1), t.r, B * q + t.q);
    }
  }

  ghost function GoodPass(n: nat, d: int, v: Limb): (int, Limb) -> bool {
    (r: int, y: Limb) => TopOk(n, d, r, y) && RegisterOk(n, d, v, r, y)
  }

  lemma GoodPassesAgree(n: nat, d: int, v: Limb, r: int, y: Limb)
    requires Divisor(n, d, v) && 0 <= r < d && GoodPass(n, d, v)(r, y)
    ensures Step(n, d, v, false)(r, Second(n, r), y) == Step(n, d, v, true)(r, Second(n, r), y)
  {
    RegisterExactIff(n, d, v, r, y);
  }

  /**
   The loop as written, on every dividend whose passes before the last neither estimate at an unsuitable equal
   top nor keep a register that an add-back has changed: it divides exactly when the last pass is TopOk.
  */
  lemma RunAsWrittenIff(n: nat, d: int, v: Limb, m: nat, low: int, r: int, q: int)
    requires Divisor(n, d, v) && 0 < m && 0 <= r < d && 0 <= low < Pw(m)
    requires Always(Step(n, d, v, true), GoodPass(n, d, v), n, m, low, r)
    ensures IsDivision(low + Pw(m) * (q * d + r), d, Run(Step(n, d, v, false), m, low, r, Second(n, r), q))
      <==> (var (r1, y1) := Last(Step(n, d, v, true), n, m, low, r); TopOk(n, d, r1, y1))
  {
    var f, g, good := Step(n, d, v, false), Step(n, d, v, true), GoodPass(n, d, v);
    StepDivides(n, d, v);
    forall r: int, y: Limb {:trigger good(r, y)} | 0 <= r < d && good(r, y)
      ensures f(r, Second(n, r), y) == g(r, Second(n, r), y)
    {
      GoodPassesAgree(n, d, v, r, y);
    }
    var q' := RunsAgree(f, g, good, n, d, m, low, r, q);
    var (r1, y1) := Last(g, n, m, low, r);
    PassExactIff(n, d, v, r1, y1);
    RunMeant(n, d, v, m, low, r, q);
    DivisionUnique(low + Pw(m) * (q * d + r), d, Run(f, m, low, r, Second(n, r), q), Run(g, m, low, r, Second(n, r), q));
  }

  lemma DivisionUnique(t: int, d: int, x: (int, int), y: (int, int))
    requires IsDivision(t, d, y)
    ensures IsDivision(t, d, x) <==> x == y
  {
    if IsDivision(t, d, x) {
      DivUnique(t, d, x.0, x.1);
      DivUnique(t, d, y.0, y.1);
    }
  }

  // ----- runs that never meet an equal top -----

  /** The pass estimates by dividing three limbs by two, in the state the code is in. */
  ghost predicate Clear(n: nat, d: int, r: int, u0: Limb) {
    Top(n, r) < Top(n, d) || u0 < Second(n, d)
  }

  /** The remainder the next pass works on: the stored one, with the register for its second limb. */
  ghost function Seen(n: nat, r: int, u0: Limb): int {
    r + (u0 - Second(n, r)) * Pw(n)
  }

  lemma SeenParts(n: nat, d: int, r: int, u0: Limb, y: Limb)
    requires 0 <= r < d < Pw(n + 2) && Clear(n, d, r, u0)
    ensures y + B * (r % Pw(n)) + Pw(n + 1) * (Top(n, r) * B + u0) == y + B * Seen(n, r, u0) < B * d
    ensures 0 <= y + B * (r % Pw(n)) < Pw(n + 1)
  {
    TopLimbs(n, r);
    TopLimbs(n, d);
    TopNotAbove(n, d, r);
    Regroup(y, r % Pw(n), Pw(n), Top(n, r) * B + u0, r % Pw(n) + Pw(n) * (Top(n, r) * B + u0));
    SeenBelow(r % Pw(n), Pw(n), Top(n, r) * B, Second(n, r), u0, r, d % Pw(n), Top(n, d) * B + Second(n, d), d);
  }

  lemma SeenBelow(l: int, k: int, t: int, s: Limb, u0: Limb, r: int, l': int, h: int, d: int)
    requires r == l + k * (t + s) && 0 <= l < k && d == l' + k * h && 0 <= l' && t + u0 < h
    ensures r + (u0 - s) * k == l + k * (t + u0) < d
  {
    assert k * (t + s) + (u0 - s) * k == k * (t + u0);
    MulLe(0, h - t - u0 - 1, 0, k);
    assert (h - t - u0 - 1) * k == k * h - k * (t + u0) - k;
  }

  /** A clear pass divides what it sees, whatever the register held. */
  lemma {:induction false} ClearPassDivides(n: nat, d: int, v: Limb, r: int, u0: Limb, y: Limb)
    requires Divisor(n, d, v) && 0 <= r < d && Clear(n, d, r, u0)
    ensures var s := Step(n, d, v, false)(r, u0, y);
      y + B * Seen(n, r, u0) == s.q * d + s.r && 0 <= s.r < d
  {
    SeenParts(n, d, r, u0, y);
    DigitMeant(n, d, v, Top(n, r), u0, y + B * (r % Pw(n)));
  }

  ghost predicate AlwaysClear(step: (int, Limb, Limb) -> Pass, n: nat, d: int, m: nat, low: int, r: int, u0: Limb) {
    m == 0 ||
    var s := step(r, u0, Low(low / Pw(m - 1)));
    Clear(n, d, r, u0) && AlwaysClear(step, n, d, m - 1, low % Pw(m - 1), s.r, s.u0)
  }

  /** Every pass but the last leaves the second limb of its remainder in the register. */
  ghost predicate AlwaysKept(step: (int, Limb, Limb) -> Pass, n: nat, m: nat, low: int, r: int, u0: Limb) {
    m <= 1 ||
    var s := step(r, u0, Low(low / Pw(m - 1)));
    s.u0 == Second(n, s.r) && AlwaysKept(step, n, m - 1, low % Pw(m - 1), s.r, s.u0)
  }

  ghost predicate ClearPassesDivide(step: (int, Limb, Limb) -> Pass, n: nat, d: int) {
    forall r: int, u0: Limb, y: Limb {:trigger step(r, u0, y)} :: 0 <= r < d && Clear(n, d, r, u0) ==>
      var s := step(r, u0, y); y + B * Seen(n, r, u0) == s.q * d + s.r && 0 <= s.r < d
  }

  /** The wrong registers of a run add up to an error in which the first one decides: it is 0 exactly when there is none. */
  lemma {:induction false} RunError(step: (int, Limb, Limb) -> Pass, n: nat, d: int, m: nat, low: int, r: int, u0: Limb, q: int)
    returns (g: int)
    requires ClearPassesDivide(step, n, d) && 0 < m && 0 <= r < d && 0 <= low < Pw(m) && AlwaysClear(step, n, d, m, low, r, u0)
    ensures 0 - Pw(m - 1) < g < Pw(m - 1) && (g == 0 <==> AlwaysKept(step, n, m, low, r, u0))
    ensures var x := Run(step, m, low, r, u0, q);
      low + Pw(m) * (q * d + Seen(n, r, u0)) + Pw(n + 1) * g == x.0 * d + x.1 && 0 <= x.1 < d
  {
    var k := Pw(m - 1);
    LowLimb(low, k);
    var y := Low(low / k);
    var s := step(r, u0, y);
    RunArithmetic(low, low % k, y, k, q, d, Seen(n, r, u0), s.q, s.r);
    if m == 1 {
      g := 0;
      assert Run(step, 0, low % k, s.r, s.u0, B * q + s.q) == (B * q + s.q, s.r);
    } else {
      var g' := RunError(step, n, d, m - 1, low % k, s.r, s.u0, B * q + s.q);
      var delta := s.u0 - Second(n, s.r);
      g := Pw(m - 2) * delta + g';
      FirstDecides(Pw(m - 2), delta, g');
      ErrorUp(k, Pw(m - 2), Pw(n), (B * q + s.q) * d + s.r, delta, g');
    }
  }

  lemma FirstDecides(p: int, delta: int, g: int)
    requires 0 < p && 0 - B < delta < B && 0 - p < g < p
    ensures var e := p * delta + g; 0 - B * p < e < B * p && (e == 0 <==> delta == 0 && g == 0)
  {
    if delta > 0 { MulLe(p, p, 1, delta); MulLe(p, p, delta, B - 1); }
    if delta < 0 { MulLe(p, p, 1, 0 - delta); MulLe(p, p, 0 - delta, B - 1); assert p * (0 - delta) == 0 - p * delta; }
  }

  /** k = B*p: the register's error, one pass further up. */
  lemma ErrorUp(k: int, p: int, w: int, x: int, delta: int, g: int)
    requires k == B * p
    ensures k * (x + delta * w) + (B * w) * g == k * x + (B * w) * (p * delta + g)
  {
    assert k * (delta * w) == (B * w) * (p * delta);
  }

  /**
   The loop as written, on every dividend with which no pass meets an equal top: it divides exactly when no pass
   but the last leaves a wrong second limb in the register.
  */
  lemma {:induction false} RunClearIff(n: nat, d: int, v: Limb, m: nat, low: int, r: int, q: int)
    requires Divisor(n, d, v) && 0 < m && 0 <= r < d && 0 <= low < Pw(m)
    requires AlwaysClear(Step(n, d, v, false), n, d, m, low, r, Second(n, r))
    ensures IsDivision(low + Pw(m) * (q * d + r), d, Run(Step(n, d, v, false), m, low, r, Second(n, r), q))
      <==> AlwaysKept(Step(n, d, v, false), n, m, low, r, Second(n, r))
  {
    var step := ClearPasses(n, d, v);
    var g := RunError(step, n, d, m, low, r, Second(n, r), q);
    assert Seen(n, r, Second(n, r)) == r;
    ErrorShows(low + Pw(m) * (q * d + r), d, Run(step, m, low, r, Second(n, r), q), Pw(n + 1), g);
  }

  lemma ClearPasses(n: nat, d: int, v: Limb) returns (step: (int, Limb, Limb) -> Pass)
    requires Divisor(n, d, v)
    ensures step == Step(n, d, v, false) && ClearPassesDivide(step, n, d)
  {
    step := Step(n, d, v, false);
    forall r: int, u0: Limb, y: Limb {:trigger step(r, u0, y)} | 0 <= r < d && Clear(n, d, r, u0)
      ensures var s := step(r, u0, y); y + B * Seen(n, r, u0) == s.q * d + s.r && 0 <= s.r < d
    {
      ClearPassDivides(n, d, v, r, u0, y);
    }
  }

  /** A run that is off by p*g divides exactly when g is 0. */
  lemma ErrorShows(t: int, d: int, x: (int, int), p: int, g: int)
    requires 0 < p && t + p * g == x.0 * d + x.1 && 0 <= x.1 < d
    ensures IsDivision(t, d, x) <==> g == 0
  {
    AtLeast(g, p);
    AtLeast(0 - g, p);
    assert (0 - g) * p == 0 - p * g;
  }

  // ----- two dividends on which the loop as written is wrong -----

  lemma Powers()
    ensures Pw(0) == 1 && Pw(1) == B && Pw(2) == B * B && Pw(3) == B * B * B && Pw(4) == B * B * B * B
  {
    assert Pw(1) == B * Pw(0);
    assert Pw(2) == B * Pw(1);
    assert Pw(3) == B * Pw(2);
    assert Pw(4) == B * Pw(3);
  }

  /** 2^383 by 2^255 + 1: the top limbs are equal, and the first digit comes out one too small. */
  lemma EqualTopCounterexample()
    ensures var d, r := HALF * B * B * B + 1, HALF * B * B * B;
      && Divisor(2, d, B - 1) && 0 <= r < d
      && !IsDivision(Pw(2) * r, d, Run(Step(2, d, B - 1, false), 2, 0, r, Second(2, r), 0))
  {
    var d, r := HALF * B * B * B + 1, HALF * B * B * B;
    EqualTopFirstPass(d, r, 0);
    var f, g := Step(2, d, B - 1, false), Step(2, d, B - 1, true);
    DifferentDigits(f, g, 0, r, Second(2, r));
    RunMeant(2, d, B - 1, 2, 0, r, 0);
    DivisionUnique(0 + Pw(2) * (0 * d + r), d, Run(f, 2, 0, r, Second(2, r), 0), Run(g, 2, 0, r, Second(2, r), 0));
  }

  lemma RunTwo(step: (int, Limb, Limb) -> Pass, low: int, r: int, u0: Limb)
    ensures var s := step(r, u0, Low(low / Pw(1))); var t := step(s.r, s.u0, Low(low % Pw(1) / Pw(0)));
      Run(step, 2, low, r, u0, 0) == (B * s.q + t.q, t.r)
  {
    var s := step(r, u0, Low(low / Pw(1)));
    var t := step(s.r, s.u0, Low(low % Pw(1) / Pw(0)));
    assert Run(step, 1, low % Pw(1), s.r, s.u0, s.q) == Run(step, 0, low % Pw(1) % Pw(0), t.r, t.u0, B * s.q + t.q);
  }

  lemma DifferentDigits(f: (int, Limb, Limb) -> Pass, g: (int, Limb, Limb) -> Pass, low: int, r: int, u0: Limb)
    requires var y := Low(low / Pw(1)); f(r, u0, y).q != g(r, u0, y).q
    ensures Run(f, 2, low, r, u0, 0) != Run(g, 2, low, r, u0, 0)
  {
    RunTwo(f, low, r, u0);
    RunTwo(g, low, r, u0);
  }

  lemma EqualTopFirstPass(d: int, r: int, y: Limb)
    requires d == HALF * B * B * B + 1 && r == HALF * B * B * B && y == 0
    ensures Divisor(2, d, B - 1) && 0 < Pw(2) && 0 <= r < d && Low(0 / Pw(1)) == 0
    ensures Step(2, d, B - 1, false)(r, Second(2, r), y).q == B - 2
    ensures Step(2, d, B - 1, true)(r, Second(2, r), y).q == B - 1
  {
    Powers();
    assert Top(2, d) == HALF && Second(2, d) == 0 && Top(2, r) == HALF && Second(2, r) == 0;
    assert y + B * (r % Pw(2)) == 0;
    assert Estimate(HALF, 0, 0, HALF, 0, B - 1, false) == (B - 1, 0);
    assert Estimate(HALF, 0, 0, HALF, 0, B - 1, true) == (B - 1, HALF * B);
    assert Step(2, d, B - 1, false)(r, Second(2, r), y) == Finish(2, d, 0, B - 1, 0, false);
    assert Step(2, d, B - 1, true)(r, Second(2, r), y) == Finish(2, d, 0, B - 1, HALF * B, true);
  }

  /** (3*2^127 + 3*2^64)*2^128 by 2^255 + 2^129 - 1: an add-back after the first digit leaves the register stale. */
  lemma StaleRegisterCounterexample()
    ensures var d, r := HALF * B * B * B + 2 * B * B - 1, 3 * HALF * B * B + 3 * B;
      && Divisor(2, d, B - 1) && 0 <= r < d
      && !IsDivision(Pw(2) * r, d, Run(Step(2, d, B - 1, false), 2, 0, r, Second(2, r), 0))
  {
    var d, r := HALF * B * B * B + 2 * B * B - 1, 3 * HALF * B * B + 3 * B;
    var step := Step(2, d, B - 1, false);
    StaleFirstPass(d, r, 0);
    var s := step(r, Second(2, r), 0);
    assert AlwaysClear(step, 2, d, 2, 0, r, Second(2, r)) && !AlwaysKept(step, 2, 2, 0, r, Second(2, r)) by {
      TwoClear(step, 2, d, r, Second(2, r), s);
    }
    RunClearIff(2, d, B - 1, 2, 0, r, 0);
  }

  lemma TwoClear(step: (int, Limb, Limb) -> Pass, n: nat, d: int, r: int, u0: Limb, s: Pass)
    requires s == step(r, u0, 0) && Clear(n, d, r, u0) && Clear(n, d, s.r, s.u0)
    ensures AlwaysClear(step, n, d, 2, 0, r, u0)
    ensures AlwaysKept(step, n, 2, 0, r, u0) <==> s.u0 == Second(n, s.r)
  {
    Powers();
    var t := step(s.r, s.u0, Low(0 / Pw(0)));
    assert AlwaysClear(step, n, d, 0, 0 % Pw(0), t.r, t.u0);
    assert AlwaysClear(step, n, d, 1, 0, s.r, s.u0);
  }

  lemma StaleFirstPass(d: int, r: int, y: Limb)
    requires d == HALF * B * B * B + 2 * B * B - 1 && r == 3 * HALF * B * B + 3 * B && y == 0
    ensures Divisor(2, d, B - 1) && 0 < Pw(2) && 0 <= r < d
    ensures Clear(2, d, r, Second(2, r))
    ensures var s := Step(2, d, B - 1, false)(r, Second(2, r), y);
      Clear(2, d, s.r, s.u0) && s.u0 != Second(2, s.r)
  {
    StaleLimbs(d, r);
    StaleEstimate();
    assert y + B * (r % Pw(2)) == 3 * B * B;
    StaleFinish(d, 3 * B * B);
    assert Step(2, d, B - 1, false)(r, HALF, y) == Finish(2, d, 3 * B * B, 3, 0, false);
  }

  lemma StaleLimbs(d: int, r: int)
    requires d == HALF * B * B * B + 2 * B * B - 1 && r == 3 * HALF * B * B + 3 * B
    ensures Top(2, d) == HALF && Second(2, d) == 1 && Top(2, r) == 1 && Second(2, r) == HALF
    ensures Divisor(2, d, B - 1) && 0 <= r < d && r % Pw(2) == 3 * B && Low(0 / Pw(1)) == 0
  {
    Powers();
  }

  lemma StaleFinish(d: int, w: int)
    requires d == HALF * B * B * B + 2 * B * B - 1 && w == 3 * B * B
    ensures Low(w / Pw(2)) == 3
    ensures Subtracted(2, d, w, 3, 0) == 3 - 3 * B * B
    ensures Finish(2, d, w, 3, 0, false).r == HALF * B * B * B - B * B + 2
    ensures Top(2, HALF * B * B * B - B * B + 2) == HALF - 1
    ensures Finish(2, d, w, 3, 0, false).u0 == B - 3 && Second(2, HALF * B * B * B - B * B + 2) == B - 1
  {
    Powers();
    assert w % Pw(2) == 0 && d % Pw(2) == B * B - 1;
  }

  lemma StaleEstimate()
    ensures Estimate(1, HALF, 3, HALF, 1, B - 1, false) == Estimate(1, HALF, 3, HALF, 1, B - 1, true) == (3, 0)
  {
    Divide3x2Exact(1, HALF, 3, HALF, 1, B - 1);
  }
}
