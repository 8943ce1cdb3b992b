/**
 Runs of the long division loop as it is written that go wrong: at an equal top before the last pass, and on operands
 of hebi_pdivrem.
*/
module WrongRuns {
  import opened Limbs
  import opened Values
  import opened Scan
  import opened DivideLimbs
  import opened LongDivision
  import opened LongDivide
  import opened Divide

  // ----- how far one pass can be off -----

  /** A pass at an equal top takes off too much or too little by a multiple of Pw(n), whether it adds back or not. */
  lemma EqualTopError(w: int, l: int, x: int, hi: int, k: int, d: int, t: int, h: int, p: int, a: int, kkk: int)
    requires w == l + k * x && d == t + k * h && a == l + k * p - (B - 1) * t && 0 < kkk && kkk == B * (B * k)
    ensures var e := x + B * hi - (B - 1) * h - p; w + B * k * hi == (B - 1) * d + a + k * e
    ensures var e := x + B * hi - (B - 1) * h - p + B * B * ((a + d) / kkk); w + B * k * hi == (B - 2) * d + (a + d) % kkk + k * e
  {
    var e, j := x + B * hi - (B - 1) * h - p, (a + d) / kkk;
    assert k * e == k * x + k * (B * hi) - k * ((B - 1) * h) - k * p;
    assert k * (B * hi) == B * k * hi;
    assert (B - 1) * d == (B - 1) * t + (B - 1) * (k * h) && (B - 1) * (k * h) == k * ((B - 1) * h);
    assert (B - 2) * d == (B - 1) * d - d;
    assert a + d == j * kkk + (a + d) % kkk && j * kkk == k * (B * B * j);
    assert k * (e + B * B * j) == k * e + k * (B * B * j);
  }

  /** From a sound state digit and remainder of the written pass are off by a multiple e of Pw(n). */
  lemma {:induction false} PassError(n: nat, d: int, v: Limb, r: int, y: Limb) returns (e: int)
    requires Divisor(n, d, v) && 0 <= r < d
    ensures var s := Step(n, d, v, false)(r, Second(n, r), y); y + B * r == s.q * d + s.r + Pw(n) * e
  {
    var s := Step(n, d, v, false)(r, Second(n, r), y);
    if Top(n, r) < Top(n, d) || Second(n, r) < Second(n, d) {
      PassExactIff(n, d, v, r, y);
      StepMeant(n, d, v, r, y);
      e := 0;
    } else {
      e := WrittenTop(n, d, v, r, y);
    }
  }

  lemma {:induction false} WrittenTop(n: nat, d: int, v: Limb, r: int, y: Limb) returns (e: int)
    requires Divisor(n, d, v) && 0 <= r < d && Top(n, d) <= Top(n, r) && Second(n, d) <= Second(n, r)
    ensures var s := Step(n, d, v, false)(r, Second(n, r), y); y + B * r == s.q * d + s.r + Pw(n) * e
  {
    var w, k, hi := y + B * (r % Pw(n)), Pw(n), Top(n, r) * B + Second(n, r);
    TopLimbs(n, r);
    Regroup(y, r % k, k, hi, r);
    var p := EqualTopAsWritten(Top(n, r), Second(n, r), Top(n, d), Second(n, d));
    e := FinishError(n, d, w, hi, p);
    assert Step(n, d, v, false)(r, Second(n, r), y) == Finish(n, d, w, B - 1, p, false);
  }

  lemma FinishError(n: nat, d: int, w: int, hi: int, p: int) returns (e: int)
    requires 0 <= d < Pw(n + 2) && 0 <= w < B * Pw(n)
    ensures var s := Finish(n, d, w, B - 1, p, false); w + B * Pw(n) * hi == s.q * d + s.r + Pw(n) * e
  {
    TopLimbs(n, d);
    LowLimb(w, Pw(n));
    var x, a, h := Low(w / Pw(n)), Subtracted(n, d, w, B - 1, p), Top(n, d) * B + Second(n, d);
    EqualTopError(w, w % Pw(n), x, hi, Pw(n), d, d % Pw(n), h, p, a, Pw(n + 2));
    e := x + B * hi - (B - 1) * h - p + if a >= 0 then 0 else B * B * ((a + d) / Pw(n + 2));
  }

  // ----- one wrong pass, and clear ones after it -----

  /** A pass that is off by e, and only clear passes after it. */
  lemma {:induction false} OneWrongRun(step: (int, Limb, Limb) -> Pass, n: nat, d: int, m: nat, low: int, r: int, u0: Limb, q: int, s: Pass, e: int)
    requires ClearPassesDivide(step, n, d) && 2 <= m && 0 <= low < Pw(m) && s == step(r, u0, Low(low / Pw(m - 1)))
    requires Low(low / Pw(m - 1)) + B * r == s.q * d + s.r + Pw(n) * e && 0 <= s.r < d
    requires AlwaysClear(step, n, d, m - 1, low % Pw(m - 1), s.r, s.u0)
    ensures IsDivision(low + Pw(m) * (q * d + r), d, Run(step, m, low, r, u0, q)) <==>
      (Low(low / Pw(m - 1)) + B * r == s.q * d + Seen(n, s.r, s.u0) && AlwaysKept(step, n, m - 1, low % Pw(m - 1), s.r, s.u0))
  {
    var y, k, delta := Low(low / Pw(m - 1)), Pw(m - 1), s.u0 - Second(n, s.r);
    LowLimb(low, k);
    var g := RunError(step, n, d, m - 1, low % k, s.r, s.u0, B * q + s.q);
    var z := y + B * r - s.q * d - Seen(n, s.r, s.u0);
    Unseen(Pw(n), e, delta);
    Total(low, low % k, y, k, q, d, r, s.q, Seen(n, s.r, s.u0), z);
    assert Run(step, m, low, r, u0, q) == Run(step, m - 1, low % k, s.r, s.u0, B * q + s.q);
    WrongTotal(low + (B * k) * (q * d + r), Run(step, m, low, r, u0, q), d, k, Pw(m - 2), Pw(n), Pw(n + 1), e - delta, g, z);
  }

  /**
   A pass from a sound state that may be wrong but leaves a remainder below d, with only clear passes after it: the
   run divides exactly when remainder and register together are right after all, and are so after every later pass
   but the last.
  */
  lemma {:induction false} OneWrongPassIff(n: nat, d: int, v: Limb, m: nat, low: int, r: int, q: int, s: Pass)
    requires Divisor(n, d, v) && 2 <= m && 0 <= r < d && 0 <= low < Pw(m)
    requires s == Step(n, d, v, false)(r, Second(n, r), Low(low / Pw(m - 1))) && 0 <= s.r < d
    requires AlwaysClear(Step(n, d, v, false), n, d, m - 1, low % Pw(m - 1), s.r, s.u0)
    ensures IsDivision(low + Pw(m) * (q * d + r), d, Run(Step(n, d, v, false), m, low, r, Second(n, r), q)) <==>
      (Low(low / Pw(m - 1)) + B * r == s.q * d + Seen(n, s.r, s.u0)
        && AlwaysKept(Step(n, d, v, false), n, m - 1, low % Pw(m - 1), s.r, s.u0))
  {
    var e := PassError(n, d, v, r, Low(low / Pw(m - 1)));
    var step := ClearPasses(n, d, v);
    OneWrongRun(step, n, d, m, low, r, Second(n, r), q, s, e);
  }

  lemma Unseen(k: int, e: int, delta: int)
    ensures k * e - delta * k == k * (e - delta)
  {
  }

  /** The dividend, in terms of what is left of it after one pass. */
  lemma Total(low: int, l: int, y: int, k: int, q: int, d: int, r: int, x: int, seen: int, z: int)
    requires low == l + k * y && z == y + B * r - x * d - seen
    ensures low + (B * k) * (q * d + r) == l + k * ((B * q + x) * d + seen) + k * z
  {
    assert (B * q + x) * d == B * (q * d) + x * d;
    assert k * ((B * q + x) * d + seen) + k * z == k * (B * (q * d) + y + B * r);
    assert (B * k) * (q * d + r) == k * (B * (q * d) + B * r);
  }

  /** An error of f a whole pass up cannot be made good by one of g below it. */
  lemma WrongTotal(t: int, x: (int, int), d: int, k: int, p: int, w: int, ww: int, f: int, g: int, z: int)
    requires k == B * p && 0 < p && ww == B * w && 0 < w && z == w * f && 0 - p < g < p
    requires t - k * z + ww * g == x.0 * d + x.1 && 0 <= x.1 < d
    ensures IsDivision(t, d, x) <==> z == 0 && g == 0
  {
    var h := g - p * f;
    assert ww * h == ww * g - ww * (p * f);
    assert k * z == ww * (p * f) by { assert k * z == (B * p) * (w * f) && ww * (p * f) == (B * w) * (p * f); Across(p, w, f); }
    ErrorShows(t, d, x, ww, h);
    AtLeast(f, p);
    AtLeast(0 - f, p);
    assert f * p == p * f && (0 - f) * p == 0 - p * f;
    AtLeast(f, w);
    AtLeast(0 - f, w);
    assert f * w == w * f && (0 - f) * w == 0 - w * f;
  }

  lemma Across(p: int, w: int, f: int)
    ensures (B * p) * (w * f) == (B * w) * (p * f)
  {
    assert p * (w * f) == w * (p * f);
  }

  /** Without an add-back nothing makes up for a wrong equal top when all later passes are clear. */
  lemma {:induction false} WrongTopNeverDivides(n: nat, d: int, v: Limb, m: nat, low: int, r: int, q: int, s: Pass)
    requires Divisor(n, d, v) && 2 <= m && 0 <= r < d && 0 <= low < Pw(m) && !TopOk(n, d, r, Low(low / Pw(m - 1)))
    requires s == Step(n, d, v, false)(r, Second(n, r), Low(low / Pw(m - 1))) && 0 <= s.r < d && s.u0 == Second(n, s.r)
    requires AlwaysClear(Step(n, d, v, false), n, d, m - 1, low % Pw(m - 1), s.r, s.u0)
    ensures !IsDivision(low + Pw(m) * (q * d + r), d, Run(Step(n, d, v, false), m, low, r, Second(n, r), q))
  {
    OneWrongPassIff(n, d, v, m, low, r, q, s);
    NotMeant(n, d, v, r, Low(low / Pw(m - 1)), s);
    assert Seen(n, s.r, s.u0) == s.r + 0 * Pw(n);
  }

  lemma {:induction false} NotMeant(n: nat, d: int, v: Limb, r: int, y: Limb, s: Pass)
    requires Divisor(n, d, v) && 0 <= r < d && !TopOk(n, d, r, y) && s == Step(n, d, v, false)(r, Second(n, r), y) && 0 <= s.r < d
    ensures y + B * r != s.q * d + s.r
  {
    PassExactIff(n, d, v, r, y);
    StepMeant(n, d, v, r, y);
    var t := Step(n, d, v, true)(r, Second(n, r), y);
    SameDivision(y + B * r, d, s.q, s.r, t.q, t.r);
  }

  lemma SameDivision(t: int, d: int, q: int, r: int, q': int, r': int)
    requires 0 <= r < d && 0 <= r' < d && t == q' * d + r'
    ensures t == q * d + r ==> q == q' && r == r'
  {
    if t == q * d + r {
      DivUnique(t, d, q, r);
      DivUnique(t, d, q', r');
    }
  }

  // ----- two wrong passes that cancel -----

  /**
   2^128*(2^255 + 2^129) by 2^255 + 2^129 + 2^65: both passes meet an equal top, the first leaves a wrong remainder, and
   the second one's error makes up for it.
  */
  lemma CancellationExample()
    ensures var d, r := HALF * B * B * B + 2 * B * B + 2 * B, HALF * B * B * B + 2 * B * B;
      && Divisor(2, d, B - 1) && 0 <= r < d && !TopOk(2, d, r, 0)
      && IsDivision(Pw(2) * r, d, Run(Step(2, d, B - 1, false), 2, 0, r, Second(2, r), 0))
  {
    var d, r, r1 := HALF * B * B * B + 2 * B * B + 2 * B, HALF * B * B * B + 2 * B * B, (B - 1) * B * B * B + 2 * B * B + 2 * B;
    FirstCancelled(d, r, r1, 0);
    SecondCancelled(d, r, r1, 0);
    NoLimbs();
    RunTwo(Step(2, d, B - 1, false), 0, r, 2);
    CancelledTotal(d, r);
  }

  lemma NoLimbs()
    ensures Low(0 / Pw(1)) == 0 && Low(0 % Pw(1) / Pw(0)) == 0
  {
    Powers();
  }

  lemma CancelledTotal(d: int, r: int)
    requires d == HALF * B * B * B + 2 * B * B + 2 * B && r == HALF * B * B * B + 2 * B * B
    ensures IsDivision(Pw(2) * r, d, (B * (B - 1) + (B - 1), (HALF - 2) * B * B * B + 2 * B * B + 2 * B))
  {
    Powers();
  }

  /** The limbs of the divisor, the dividend and the first remainder. */
  lemma CancelledLimbs(d: int, r: int, r1: int)
    requires d == HALF * B * B * B + 2 * B * B + 2 * B && r == HALF * B * B * B + 2 * B * B
    requires r1 == (B - 1) * B * B * B + 2 * B * B + 2 * B
    ensures Top(2, d) == HALF && Second(2, d) == 2 && d % Pw(2) == 2 * B
    ensures Top(2, r) == HALF && Second(2, r) == 2 && r % Pw(2) == 0
    ensures Top(2, r1) == B - 1 && Second(2, r1) == 2 && r1 % Pw(2) == 2 * B
  {
    Powers();
  }

  lemma FirstCancelled(d: int, r: int, r1: int, y: Limb)
    requires d == HALF * B * B * B + 2 * B * B + 2 * B && r == HALF * B * B * B + 2 * B * B && y == 0
    requires r1 == (B - 1) * B * B * B + 2 * B * B + 2 * B
    ensures Divisor(2, d, B - 1) && 0 <= r < d && Second(2, r) == 2 && !TopOk(2, d, r, y)
    ensures Step(2, d, B - 1, false)(r, 2, y) == Pass(B - 1, r1, 2)
  {
    CancelledLimbs(d, r, r1);
    Powers();
    assert Estimate(HALF, 2, 0, HALF, 2, B - 1, false) == (B - 1, (B - 1) * B + 4);
    FirstSubtracted(d, r1);
    assert Step(2, d, B - 1, false)(r, 2, y) == Finish(2, d, 0, B - 1, (B - 1) * B + 4, false);
  }

  lemma FirstSubtracted(d: int, r1: int)
    requires d % Pw(2) == 2 * B && r1 == (B - 1) * B * B * B + 2 * B * B + 2 * B
    ensures Subtracted(2, d, 0, B - 1, (B - 1) * B + 4) == r1
  {
    Powers();
  }

  lemma SecondCancelled(d: int, r: int, r1: int, y: Limb)
    requires d == HALF * B * B * B + 2 * B * B + 2 * B && r == HALF * B * B * B + 2 * B * B && y == 0
    requires r1 == (B - 1) * B * B * B + 2 * B * B + 2 * B
    ensures var s := Step(2, d, B - 1, false)(r1, 2, y); s.q == B - 1 && s.r == (HALF - 2) * B * B * B + 2 * B * B + 2 * B
  {
    CancelledLimbs(d, r, r1);
    SecondSubtracted(d);
    assert Estimate(B - 1, 2, 2, HALF, 2, B - 1, false) == (B - 1, (HALF - 2) * B + 4);
    assert Step(2, d, B - 1, false)(r1, 2, y) == Finish(2, d, 2 * B * B, B - 1, (HALF - 2) * B + 4, false);
  }

  lemma SecondSubtracted(d: int)
    requires d % Pw(2) == 2 * B
    ensures Low(2 * B * B / Pw(2)) == 2
    ensures Subtracted(2, d, 2 * B * B, B - 1, (HALF - 2) * B + 4) == (HALF - 2) * B * B * B + 2 * B * B + 2 * B
  {
    Powers();
    assert 2 * B * B % Pw(2) == 0;
  }

  // ----- operands of hebi_pdivrem -----

  /** A divisor with its top bit set is not shifted. */
  lemma NoShift(y: int, bits: nat)
    requires Normalises(y, 2, bits) && HALF * Pw(3) <= y
    ensures bits == 0 && Pow2(bits) == 1
  {
    Powers();
    if bits > 0 {
      Pow2Mono(1, bits);
      assert Pow2(1) == 2 * Pow2(0);
      MulLe(y, y, 2, Pow2(bits));
    }
  }

  lemma OneReciprocal(n: nat, d: int, v: Limb, v': Limb)
    requires Divisor(n, d, v) && Divisor(n, d, v')
    ensures v == v'
  {
    TopLimbs(n, d);
    TopBitSet(n, d);
    Recip2IsQuotient(Top(n, d), Second(n, d), v);
    Recip2IsQuotient(Top(n, d), Second(n, d), v');
  }

  lemma TopBitSet(n: nat, d: int)
    requires HALF * Pw(n + 1) <= d < Pw(n + 2)
    ensures HALF <= Top(n, d)
  {
    TopLimbs(n, d);
    var k := Pw(n + 1);
    LowLimb(d, k);
    if d / k < HALF { MulLe(k, k, d / k + 1, HALF); }
  }

  /**
   A dividend of three packets, whose four high limbs t are below a divisor of two packets with its top bit set: if the
   loop goes wrong on them then that is what the kernel leaves.
  */
  lemma WrongInKernel(S: seq<Limb>, w: nat, m: nat, t: int, y: int, bits: nat, v: Limb, qh: Limb, q: int, r: int)
    requires 0 <= t < y && HALF * Pw(3) <= y && Shifted(S, w, m, 2, bits, Pw(2) * t, 3, y) && Divisor(2, y, B - 1)
    requires !IsDivision(Pw(2) * t, y, Run(Step(2, y, B - 1, false), 2, 0, t, Second(2, t), 0))
    requires Divisor(2, y * Pow2(bits), v)
    requires KernelResult(2, (m - 2) * LPP, y * Pow2(bits), v, false, Val(S, w, (m - 2) * LPP), Val(S, w + (m - 2) * LPP, 4), qh, q, r)
    ensures bits == 0 && m == 3 && !IsDivision(Pw(2) * t, y, (Pw(2) * qh + q, r))
  {
    NoShift(y, bits);
    Unshifted(S, w, m, Pw(2) * t, y, bits);
    WrongUnshifted(S, w, t, y, v, (m - 2) * LPP, y * Pow2(bits), qh, q, r);
  }

  lemma Unshifted(S: seq<Limb>, w: nat, m: nat, x: int, y: int, bits: nat)
    requires Shifted(S, w, m, 2, bits, x, 3, y) && Pow2(bits) == 1
    ensures m == 3 && y * Pow2(bits) == y && w + 6 <= |S| && Val(S, w, 6) == x
  {
    assert x * Pow2(bits) == x;
    LengthUnique(x, m, 3);
  }

  lemma {:induction false} WrongUnshifted(S: seq<Limb>, w: nat, t: int, y: int, v: Limb, k: nat, d: int, qh: Limb, q: int, r: int)
    requires k == 2 && d == y && 0 <= t < y && w + 6 <= |S| && Val(S, w, 6) == Pw(2) * t
    requires Divisor(2, y, B - 1) && Divisor(2, d, v)
    requires KernelResult(2, k, d, v, false, Val(S, w, k), Val(S, w + k, 4), qh, q, r)
    requires !IsDivision(Pw(2) * t, y, Run(Step(2, y, B - 1, false), 2, 0, t, Second(2, t), 0))
    ensures !IsDivision(Pw(2) * t, y, (Pw(2) * qh + q, r))
  {
    OneReciprocal(2, y, v, B - 1);
    LowAndHigh(S, w, t);
    KernelLeaves(t, y, qh, q, r);
  }

  lemma LowAndHigh(S: seq<Limb>, w: nat, t: int)
    requires w + 6 <= |S| && Val(S, w, 6) == Pw(2) * t
    ensures Val(S, w, 2) == 0 && Val(S, w + 2, 4) == t
  {
    ValSplit(S, w, 2, 4);
    ValBound(S, w, 2);
    DigitsUnique(Pw(2), Val(S, w, 2), Val(S, w + 2, 4), 0, t);
  }

  lemma {:induction false} KernelLeaves(t: int, y: int, qh: Limb, q: int, r: int)
    requires KernelResult(2, 2, y, B - 1, false, 0, t, qh, q, r) && 0 <= t < y
    requires !IsDivision(Pw(2) * t, y, Run(Step(2, y, B - 1, false), 2, 0, t, Second(2, t), 0))
    ensures !IsDivision(Pw(2) * t, y, (Pw(2) * qh + q, r))
  {
    assert qh == 0 && Pw(2) * qh == 0 && t - qh * y == t;
  }

  /** 2^383 by 2^255 + 1, as hebi_pdivrem hands them to the kernel: what is left is not quotient and remainder. */
  lemma EqualTopInKernel(S: seq<Limb>, w: nat, m: nat, bits: nat, v: Limb, qh: Limb, q: int, r: int, x: int, y: int)
    requires x == B * B * (HALF * B * B * B) && y == HALF * B * B * B + 1
    requires Shifted(S, w, m, 2, bits, x, 3, y) && Divisor(2, y * Pow2(bits), v)
    requires KernelResult(2, (m - 2) * LPP, y * Pow2(bits), v, false, Val(S, w, (m - 2) * LPP), Val(S, w + (m - 2) * LPP, 4), qh, q, r)
    ensures m == 3 && bits == 0 && (Pw(2) * qh + q, r) != (x / y, x % y)
  {
    Powers();
    EqualTopCounterexample();
    WrongInKernel(S, w, m, HALF * B * B * B, y, bits, v, qh, q, r);
    NotQuotient(x, y, Pw(2) * qh + q, r);
  }

  lemma NotQuotient(x: int, y: int, q: int, r: int)
    requires 0 < y && !IsDivision(x, y, (q, r))
    ensures (q, r) != (x / y, x % y)
  {
    assert x == x / y * y + x % y;
  }

  /** And the same for a register that an add-back leaves stale. */
  lemma StaleRegisterInKernel(S: seq<Limb>, w: nat, m: nat, bits: nat, v: Limb, qh: Limb, q: int, r: int, x: int, y: int)
    requires x == B * B * (3 * HALF * B * B + 3 * B) && y == HALF * B * B * B + 2 * B * B - 1
    requires Shifted(S, w, m, 2, bits, x, 3, y) && Divisor(2, y * Pow2(bits), v)
    requires KernelResult(2, (m - 2) * LPP, y * Pow2(bits), v, false, Val(S, w, (m - 2) * LPP), Val(S, w + (m - 2) * LPP, 4), qh, q, r)
    ensures m == 3 && bits == 0 && (Pw(2) * qh + q, r) != (x / y, x % y)
  {
    Powers();
    StaleRegisterCounterexample();
    WrongInKernel(S, w, m, 3 * HALF * B * B + 3 * B, y, bits, v, qh, q, r);
    NotQuotient(x, y, Pw(2) * qh + q, r);
  }
}
