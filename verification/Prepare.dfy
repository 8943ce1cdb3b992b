/** Preparing to read a string: sign, radix prefix, leading zeros, and room for the digits. */
module Prepare {
  import opened Common
  import opened Limbs
  import opened Values
  import opened Scan
  import opened Shift
  import opened Digits
  import opened Parse

  // ----- sign and radix -----

  predicate Peek(str: seq<char>, cur: nat, chars: set<char>) { cur < |str| && str[cur] in chars }

  /** The sign read, and where the rest begins. */
  function ReadSign(a: Alphabet, str: seq<char>): (int, nat) {
    if Peek(str, 0, {'-'}) then (-1, 1)
    else if !a.Rfc4648Base64? && Peek(str, 0, {'+'}) then (1, 1)
    else (1, 0)
  }

  /** The radix, from a prefix if base is 0, and where the digits begin. */
  function ReadRadix(a: Alphabet, str: seq<char>, cur: nat, base: nat): (nat, nat) {
    if a.Rfc4648Base32? then (if base != 0 then base else 32, cur)
    else if a.Rfc4648Base64? then (if base != 0 then base else 64, cur)
    else if base == 0 then
      if !Peek(str, cur, {'0'}) then (10, cur)
      else if Peek(str, cur + 1, {'x', 'X'}) then (16, cur + 2)
      else if Peek(str, cur + 1, {'b', 'B'}) then (2, cur + 2)
      else (8, cur + 1)
    else if Peek(str, cur, {'0'})
      && ((base == 16 && Peek(str, cur + 1, {'x', 'X'})) || (base == 2 && Peek(str, cur + 1, {'b', 'B'}))) then (base, cur + 2)
    else (base, cur)
  }

  method TrimLeft(str: seq<char>, start: nat, end: nat, c: char) returns (i: nat)
    requires start <= end <= |str|
    ensures start <= i <= end && (forall k :: start <= k < i ==> str[k] == c) && (i < end ==> str[i] != c)
  {
    i := start;
    while i < end && str[i] == c
      invariant start <= i <= end && forall k :: start <= k < i ==> str[k] == c
    {
      i := i + 1;
    }
  }

  /** Where sign and radix prefix end, and what they say. */
  datatype Header = Header(sign: int, radix: nat, digits: nat)

  function HeaderOf(a: Alphabet, str: seq<char>, base: nat, radixFlag: bool, signFlag: bool): Header {
    var (sign, c0) := if signFlag then ReadSign(a, str) else (1, 0);
    var (radix, c1) := if base == 0 || radixFlag then ReadRadix(a, str, c0, base) else (base, c0);
    Header(sign, radix, c1)
  }

  // ----- what sign and prefix look like -----

  /** A minus sign, and a plus sign where it is no digit, take one character from the front of any string. */
  lemma SignTaken(a: Alphabet, c: char, t: seq<char>, base: nat, radixFlag: bool)
    ensures var h, h' := HeaderOf(a, [c] + t, base, radixFlag, true), HeaderOf(a, t, base, radixFlag, false);
      && (c == '-' ==> h == Header(-1, h'.radix, h'.digits + 1))
      && (c == '+' && !a.Rfc4648Base64? ==> h == Header(1, h'.radix, h'.digits + 1))
  {
    var s := [c] + t;
    assert forall k :: 0 < k < |s| ==> s[k] == t[k - 1];
  }

  /** A string without one is read as it would be if signs were not allowed; then its sign is 1. */
  lemma NoSignTaken(a: Alphabet, s: seq<char>, base: nat, radixFlag: bool)
    requires s == [] || !(s[0] == '-' || (s[0] == '+' && !a.Rfc4648Base64?))
    ensures var h := HeaderOf(a, s, base, radixFlag, true); h == HeaderOf(a, s, base, radixFlag, false) && h.sign == 1
  {
  }

  /** The radix of a string without a sign, and what is taken for a prefix of it, for every beginning it may have. */
  lemma RadixTaken(a: Alphabet, s: seq<char>, base: nat, radixFlag: bool)
    ensures HeaderOf(a, s, base, radixFlag, false) ==
      if a.Rfc4648Base32? then Header(1, if base == 0 then 32 else base, 0)
      else if a.Rfc4648Base64? then Header(1, if base == 0 then 64 else base, 0)
      else if ("0x" <= s || "0X" <= s) && (base == 0 || (base == 16 && radixFlag)) then Header(1, 16, 2)
      else if ("0b" <= s || "0B" <= s) && (base == 0 || (base == 2 && radixFlag)) then Header(1, 2, 2)
      else if "0" <= s && base == 0 then Header(1, 8, 1)
      else Header(1, if base == 0 then 10 else base, 0)
  {
    Begins(s, '0');
    BeginsTwo(s, '0', 'x');
    BeginsTwo(s, '0', 'X');
    BeginsTwo(s, '0', 'b');
    BeginsTwo(s, '0', 'B');
  }

  lemma Begins(s: seq<char>, c: char)
    ensures [c] <= s <==> Peek(s, 0, {c})
  {
  }

  lemma BeginsTwo(s: seq<char>, c: char, x: char)
    ensures [c, x] <= s <==> Peek(s, 0, {c}) && Peek(s, 1, {x})
  {
  }

  /** What preparing str comes to: errors with the place where they were found, or the digits and the room for them. */
  ghost predicate Prepared(str: seq<char>, base: nat, index: nat, radixFlag: bool, signFlag: bool, ratios: seq<Limb>,
      err: Error, cur: nat, radix: nat, sign: int, space: nat)
    requires |ratios| == 64
  {
    var a := AlphabetOf(index);
    if a.None? then err == BadValue && space == SIZE_MAX && cur == 0 && radix == 0 && sign == 1
    else
      var h := HeaderOf(a.value, str, base, radixFlag, signFlag);
      if h.radix < 2 || MaxRadix(a.value) < h.radix then
        err == BadValue && space == SIZE_MAX && cur == h.digits && radix == h.radix && sign == h.sign
      else if h.digits >= |str| then
        err == BadSyntax && space == SIZE_MAX && cur == h.digits && radix == h.radix && sign == h.sign
      else
        && radix == h.radix && h.digits <= cur <= |str|
        && (forall k :: h.digits <= k < cur ==> str[k] == ZeroChar(a.value))
        && (cur < |str| ==> str[cur] != ZeroChar(a.value))
        && var e := EstimateSpace(ratios[h.radix - 1], |str| - cur);
           if cur == |str| then err == NoError && space == 0 && sign == 0
           else if e >= PACKET_MAXLEN then err == BadLength && space == SIZE_MAX && sign == h.sign
           else err == NoError && space == e + 1 && sign == h.sign
  }

  /** hebi_psetstrprepare for the flags that name the alphabet, a radix prefix and a sign; ratios is its table. */
  method PSetStrPrepare(st: State, str: seq<char>, base: nat, index: nat, radixFlag: bool, signFlag: bool, ratios: seq<Limb>)
    returns (space: nat)
    requires |ratios| == 64
    modifies st
    ensures st.str == str && st.start == 0 && st.end == |str| && st.alphabet == index
    ensures Prepared(str, base, index, radixFlag, signFlag, ratios, st.err, st.cur, st.radix, st.sign, space)
  {
    st.str, st.start, st.end, st.radix, st.sign, st.alphabet, st.cur := str, 0, |str|, 0, 1, index, 0;
    var a := AlphabetOf(index);
    if a.None? {
      st.err := BadValue;
      return SIZE_MAX;
    }
    var h := HeaderOf(a.value, str, base, radixFlag, signFlag);
    st.sign, st.radix := h.sign, h.radix;
    if h.radix < 2 || MaxRadix(a.value) < h.radix {
      st.cur, st.err := h.digits, BadValue;
      return SIZE_MAX;
    }
    if h.digits >= |str| {
      st.cur, st.err := h.digits, BadSyntax;
      return SIZE_MAX;
    }
    var cur := TrimLeft(str, h.digits, |str|, ZeroChar(a.value));
    st.cur := cur;
    if cur >= |str| {
      st.sign, st.err := 0, NoError;
      return 0;
    }
    space := EstimateSpace(ratios[h.radix - 1], |str| - cur);
    if space >= PACKET_MAXLEN {
      st.err := BadLength;
      return SIZE_MAX;
    }
    st.err := NoError;
    space := space + 1;
  }

  // ----- the room is enough -----

  /** The inequality the table of ratios stands for: radix^s <= 2^(128*ratio), where s is 2^64. */
  ghost predicate RatioOk(radix: nat, ratio: nat, s: nat) {
    Pow(radix, s) <= Pow2(128 * ratio)
  }

  lemma {:induction false} PowPow(b: nat, m: nat, n: nat)
    ensures Pow(Pow(b, m), n) == Pow(b, m * n)
  {
    if n > 0 {
      PowPow(b, m, n - 1);
      PowAdd(b, m, m * (n - 1));
      assert m * n == m + m * (n - 1);
    } else {
      assert m * n == 0;
    }
  }

  lemma {:induction false} Pow2Pow(m: nat, n: nat)
    ensures Pow(Pow2(m), n) == Pow2(m * n)
  {
    if n > 0 {
      Pow2Pow(m, n - 1);
      Pow2Add(m, m * (n - 1));
      assert m * n == m + m * (n - 1);
    } else {
      assert m * n == 0;
    }
  }

  lemma {:induction false} PowLe(x: nat, y: nat, n: nat)
    requires x <= y
    ensures Pow(x, n) <= Pow(y, n)
  {
    if n > 0 {
      PowLe(x, y, n - 1);
      MulLe(x, y, Pow(x, n - 1), Pow(y, n - 1));
    }
  }

  /** k digits stay below the estimate's packets and one more. */
  lemma DigitsBelow(radix: nat, ratio: nat, k: nat, s: nat, t: nat)
    requires RatioOk(radix, ratio, s) && 0 < s && ratio * k < (t + 1) * s
    ensures Pow(radix, k) < Pow2(128 * (t + 1))
  {
    var x, y := Pow(radix, k), Pow2(128 * (t + 1));
    if x >= y {
      PowLe(y, x, s);
      Pow2Pow(128 * (t + 1), s);
      PowPow(radix, k, s);
      PowPow(radix, s, k);
      Swap(k, s);
      PowLe(Pow(radix, s), Pow2(128 * ratio), k);
      Pow2Pow(128 * ratio, k);
      Exponents(ratio, k, t, s);
      Pow2Strict(128 * ratio * k, 128 * (t + 1) * s);
    }
  }

  lemma Exponents(ratio: nat, k: nat, t: nat, s: nat)
    requires ratio * k < (t + 1) * s
    ensures 128 * ratio * k < 128 * (t + 1) * s
  {
    assert 128 * ratio * k == 128 * (ratio * k) && 128 * (t + 1) * s == 128 * ((t + 1) * s);
  }

  lemma Pow2Strict(m: nat, n: nat)
    requires m < n
    ensures Pow2(m) < Pow2(n)
  {
    Pow2Mono(m, n - 1);
  }

  /** The estimate is the whole part of the product with a ratio that is scaled by 2^64. */
  lemma EstimateIs(ratio: nat, digits: nat)
    ensures var e := EstimateSpace(ratio, digits); e * 0x1_0000_0000_0000_0000 <= ratio * digits < (e + 1) * 0x1_0000_0000_0000_0000
  {
    var x := ratio * digits;
    assert x == x / B * B + x % B;
  }

  /** The estimate for all the digits covers every prefix of them. */
  lemma EstimateCovers(ratio: nat, k: nat, n: nat, s: nat)
    requires k <= n && s == B
    ensures ratio * k < (EstimateSpace(ratio, n) + 1) * s
  {
    MulLe(ratio, ratio, k, n);
    var x := ratio * n;
    assert x == x / B * B + x % B;
  }

  /** What the first k of n digits stand for fits the packets that are estimated for n digits, and one more. */
  lemma NumberFits(str: seq<char>, c0: nat, cur: nat, end: nat, read: char -> nat, radix: nat, ratio: nat)
    requires c0 <= cur <= end <= |str| && AllDigits(str, c0, cur, read, radix) && RatioOk(radix, ratio, B)
    ensures Number(str, c0, cur, read, radix) < Pw((EstimateSpace(ratio, end - c0) + 1) * LPP)
  {
    var t := EstimateSpace(ratio, end - c0);
    NumberBelow(str, c0, cur, read, radix);
    EstimateCovers(ratio, cur - c0, end - c0, B);
    DigitsBelow(radix, ratio, cur - c0, B, t);
    PacketBits(t + 1);
  }

  /** With one packet to spare for a power of two, reading never runs out of room after preparing. */
  lemma NeverOutOfRoom(s: seq<Limb>, r: nat, n: nat, str: seq<char>, c0: nat, end: nat, read: char -> nat, radix: nat, ratio: nat,
      err: Error, cur: nat, size: nat)
    requires c0 <= end <= |str| && n >= EstimateSpace(ratio, end - c0) + 1 + Slack(radix) && RatioOk(radix, ratio, B)
    requires Outcome(s, r, n, str, c0, end, read, radix, err, cur, size, n - Slack(radix))
    ensures err != BadLength && (err == NoError <==> AllDigits(str, c0, end, read, radix))
  {
    if err == BadLength {
      NumberFits(str, c0, cur, end, read, radix, ratio);
      PwMono((EstimateSpace(ratio, end - c0) + 1) * LPP, (n - Slack(radix)) * LPP);
    }
  }

  /** The table's entry for a radix of rb bits. */
  function ShiftRatio(rb: nat): nat { rb * 0x200_0000_0000_0000 }

  /** For a radix with rb bits the inequality is an equality. */
  lemma ShiftRatioExact(radix: nat, rb: nat, s: nat)
    requires Bits(radix, rb) && s == B
    ensures RatioOk(radix, ShiftRatio(rb), s)
    ensures Pow(radix, s) == Pow2(128 * ShiftRatio(rb))
  {
    Pow2Pow(rb, s);
    assert rb * s == 128 * ShiftRatio(rb);
  }

  // ----- exactly when the prepared room is enough for a power of two -----

  lemma ShiftEstimate(rb: nat, digits: nat)
    ensures EstimateSpace(ShiftRatio(rb), digits) == rb * digits / 128
  {
    var x, y := rb * digits, rb * digits / 128;
    assert ShiftRatio(rb) * digits == x * 0x200_0000_0000_0000;
    assert x == y * 128 + x % 128;
    DivUnique(x * 0x200_0000_0000_0000, B, y, x % 128 * 0x200_0000_0000_0000);
  }

  /** The first of p digits says how large the number is. */
  lemma FirstDigit(str: seq<char>, lo: nat, hi: nat, read: char -> nat, radix: nat)
    requires lo < hi <= |str| && AllDigits(str, lo, hi, read, radix)
    ensures var d, q := read(str[lo]), Pow(radix, hi - lo - 1); d * q <= Number(str, lo, hi, read, radix) < d * q + q
  {
    NumberSplit(str, lo, lo + 1, hi, read, radix);
    NumberBelow(str, lo + 1, hi, read, radix);
    assert Number(str, lo, lo, read, radix) == 0 && Number(str, lo, lo + 1, read, radix) == read(str[lo]);
  }

  /** x is d*2^e and some bits below. */
  lemma AtLeastPow2(x: nat, d: nat, e: nat, t: nat)
    requires d * Pow2(e) <= x < d * Pow2(e) + Pow2(e) && 0 < d
    ensures Pow2(t) <= x <==> Pow2(t) <= d * Pow2(e)
  {
    if t <= e {
      Pow2Mono(t, e);
      AtLeast(d, Pow2(e));
    } else {
      Pow2Add(t - e, e);
      NoneBetween(x, d, Pow2(e), Pow2(t - e));
    }
  }

  lemma NoneBetween(x: nat, d: nat, p: int, k: int)
    requires d * p <= x < d * p + p && 0 < p
    ensures k * p <= x <==> k * p <= d * p
  {
    assert (k - d) * p == k * p - d * p && (d - k) * p == d * p - k * p;
    AtLeast(k - d, p);
    MulLe(0, if d < k then 0 else d - k, 0, p);
  }

  /**
   Digits of a radix of rb bits, the first of them not zero, read into the room that was prepared for them: it is too
   short exactly when there is more than one chunk and the p digits of all chunks but the last, which are
   as many bits as the first digit has and rb*(p - 1) more, take at least n packets.
  */
  lemma PreparedRoomIff(s: seq<Limb>, r: nat, n: nat, str: seq<char>, c0: nat, end: nat, read: char -> nat, radix: nat, rb: nat,
      err: Error, cur: nat, size: nat)
    requires Bits(radix, rb) && c0 < end <= |str| && AllDigits(str, c0, end, read, radix) && 0 < read(str[c0])
    requires n == EstimateSpace(ShiftRatio(rb), end - c0) + 1
    requires Outcome(s, r, n, str, c0, end, read, radix, err, cur, size, n - 1)
    requires ShiftStops(str, c0, end, read, radix, 64 / rb, n, err, cur)
    ensures n == rb * (end - c0) / 128 + 1
    ensures var p := ChunkStart(c0, end, 64 / rb) - c0;
      err == BadLength <==> p > 0 && Pow2(128 * (n - 1)) <= read(str[c0]) * Pow2(rb * (p - 1))
    ensures err != BadLength ==> err == NoError
  {
    var q := ChunkStart(c0, end, 64 / rb);
    ShiftEstimate(rb, end - c0);
    ShiftRoomIff(s, r, n, str, c0, end, end, read, radix, 64 / rb, err, cur, size);
    PacketBits(n - 1);
    if q > c0 {
      FirstDigit(str, c0, q, read, radix);
      RadixPow(radix, rb, q - c0 - 1);
      AtLeastPow2(Number(str, c0, q, read, radix), read(str[c0]), rb * (q - c0 - 1), 128 * (n - 1));
    }
  }

  /**
   No number of one digit more than a chunk, 17 digits in base 16 for instance, is read into the one packet that is
   prepared for it, though it would fit.
  */
  lemma OneDigitOver(s: seq<Limb>, r: nat, str: seq<char>, c0: nat, end: nat, read: char -> nat, radix: nat, rb: nat,
      err: Error, cur: nat, size: nat)
    requires Bits(radix, rb) && c0 < end <= |str| && end - c0 == 64 / rb + 1
    requires AllDigits(str, c0, end, read, radix) && 0 < read(str[c0])
    requires Outcome(s, r, 1, str, c0, end, read, radix, err, cur, size, 0)
    requires ShiftStops(str, c0, end, read, radix, 64 / rb, 1, err, cur)
    ensures EstimateSpace(ShiftRatio(rb), end - c0) + 1 == 1 && err == BadLength
    ensures Number(str, c0, end, read, radix) < Pw(1 * LPP)
  {
    var c := 64 / rb;
    ChunkBits(rb);
    ShiftEstimate(rb, c + 1);
    PreparedRoomIff(s, r, 1, str, c0, end, read, radix, rb, err, cur, size);
    ChunkStartIs(c0, c0 + c, end, c);
    OneBit(read(str[c0]), rb * (c - 1));
    NumberBelow(str, c0, end, read, radix);
    RadixPow(radix, rb, c + 1);
    Pow2Mono(rb * (c + 1), 128);
    PacketBits(1);
  }

  lemma ChunkBits(rb: nat)
    requires 0 < rb <= 6
    ensures 0 < 64 / rb && rb * (64 / rb + 1) < 128
  {
  }

  lemma OneBit(d: nat, e: nat)
    requires 0 < d
    ensures Pow2(128 * (1 - 1)) <= d * Pow2(e)
  {
    assert Pow2(0) == 1;
    AtLeast(d, Pow2(e));
  }

  // ----- a second attempt -----

  /** The number fits one packet more than was reported. */
  lemma ReportedAndOne(n: nat, str: seq<char>, c0: nat, cur: nat, end: nat, read: char -> nat, radix: nat, ratio: nat, size: nat)
    requires ShortOfRoom(n, str, c0, cur, end, read, radix, ratio, size) && size <= PACKET_MAXLEN
    requires AllDigits(str, c0, end, read, radix) && RatioOk(radix, ratio, B)
    ensures Number(str, c0, end, read, radix) < Pw((size + 1) * LPP)
  {
    var t, k, v := EstimateSpace(ratio, end - cur), end - cur, Number(str, c0, cur, read, radix);
    NumberSplit(str, c0, cur, end, read, radix);
    NumberBelow(str, cur, end, read, radix);
    EstimateCovers(ratio, k, k, B);
    DigitsBelow(radix, ratio, k, B, t);
    PacketBits(t + 1);
    PwAdd((n + 1) * LPP, (t + 1) * LPP);
    assert (n + 1) * LPP + (t + 1) * LPP == (size + 1) * LPP;
    Together(v, Pw((n + 1) * LPP), Pow(radix, k), Pw((t + 1) * LPP), Number(str, cur, end, read, radix));
  }

  lemma Together(v: nat, p: int, k: nat, q: int, w: nat)
    requires v < p && w < k <= q
    ensures v * k + w < p * q
  {
    MulLe(v + 1, p, k, q);
    assert (v + 1) * k == v * k + k;
  }

  /**
   The second attempt at digits only, on the multiply path: with as many packets as were reported it fails exactly
   when the number takes one more.
  */
  lemma SecondAttemptIff(n: nat, str: seq<char>, c0: nat, cur: nat, end: nat, read: char -> nat, radix: nat, ratio: nat, size: nat,
      s: seq<Limb>, r: nat, err: Error, cur': nat, size': nat)
    requires ShortOfRoom(n, str, c0, cur, end, read, radix, ratio, size) && size <= PACKET_MAXLEN
    requires AllDigits(str, c0, end, read, radix) && RatioOk(radix, ratio, B) && 0 < radix
    requires Outcome(s, r, size, str, c0, end, read, radix, err, cur', size', size)
    ensures err == BadLength <==> IsLength(Number(str, c0, end, read, radix), size + 1)
  {
    ReportedAndOne(n, str, c0, cur, end, read, radix, ratio, size);
    MultiplyRoomIff(s, r, size, str, c0, end, read, radix, err, cur', size');
  }

  /** With one packet more than reported, and the reader's slack, the second attempt does not run out of room. */
  lemma SecondAttemptAndOne(n: nat, str: seq<char>, c0: nat, cur: nat, end: nat, read: char -> nat, radix: nat, ratio: nat, size: nat,
      s: seq<Limb>, r: nat, n': nat, err: Error, cur': nat, size': nat)
    requires ShortOfRoom(n, str, c0, cur, end, read, radix, ratio, size) && size <= PACKET_MAXLEN
    requires AllDigits(str, c0, end, read, radix) && RatioOk(radix, ratio, B) && 0 < radix
    requires n' >= size + 1 + Slack(radix) && Outcome(s, r, n', str, c0, end, read, radix, err, cur', size', n' - Slack(radix))
    ensures err == NoError
  {
    ReportedAndOne(n, str, c0, cur, end, read, radix, ratio, size);
    if err == BadLength {
      NumberMono(str, c0, cur', end, read, radix);
      PwMono((size + 1) * LPP, (n' - Slack(radix)) * LPP);
    }
  }

  /** 2*10^77, written in full: the reader of one packet reports two, but the number takes three. */
  lemma ReportedTooSmall(s: seq<Limb>, r: nat, str: seq<char>, err: Error, cur: nat, size: nat)
    requires |str| == 78 && str[0] == '2' && forall k :: 1 <= k < 78 ==> str[k] == '0'
    requires var read := Reader(Base36);
      Outcome(s, r, 1, str, 0, 78, read, 10, err, cur, size, 1)
      && (err == BadLength ==> ShortOfRoom(1, str, 0, cur, 78, read, 10, 0x06A4_D3C2_5E68_DC58, size))
    ensures err == BadLength && size == 2 && Pw(size * LPP) <= Number(str, 0, 78, Reader(Base36), 10)
  {
    var read := Reader(Base36);
    assert forall k :: 0 <= k < 78 ==> str[k] == '0' || str[k] == '2';
    assert read(str[0]) == 2;
    TwoAndZeros(str, 78);
    TenPowers();
    MultiplyRoomIff(s, r, 1, str, 0, 78, read, 10, err, cur, size);
    if cur <= 39 {
      NumberMono(str, 0, cur, 39, read, 10);
      TwoAndZeros(str, 39);
    }
    assert cur >= 40;
    SmallRest(cur);
  }

  lemma SmallRest(cur: nat)
    requires 40 <= cur <= 78
    ensures EstimateSpace(0x06A4_D3C2_5E68_DC58, 78 - cur) == 0
  {
  }

  lemma TwoAndZeros(str: seq<char>, k: nat)
    requires 0 < k <= |str| && str[0] == '2' && forall i :: 1 <= i < k ==> str[i] == '0'
    ensures 2 * Pow(10, k - 1) <= Number(str, 0, k, Reader(Base36), 10) < 3 * Pow(10, k - 1)
  {
    assert forall i :: 0 <= i < k ==> str[i] == '0' || str[i] == '2';
    assert Reader(Base36)(str[0]) == 2;
    FirstDigit(str, 0, k, Reader(Base36), 10);
  }

  lemma TenPowers()
    ensures 3 * Pow(10, 38) <= Pw(1 * LPP) && Pw(2 * LPP) <= 2 * Pow(10, 77)
  {
    TenTo77();
    assert Pw(1) == B;
    assert Pw(2) == B * B && Pw(3) == B * B * B;
    assert Pw(4) == B * B * B * B;
  }

  lemma TenTo77()
    ensures Pow(10, 38) == 100_000_000_000_000_000_000_000_000_000_000_000_000
    ensures Pow(10, 77) == Pow(10, 38) * Pow(10, 38) * 10
  {
    assert Pow(10, 5) == 100000;
    PowAdd(10, 5, 5);
    PowAdd(10, 10, 9);
    PowAdd(10, 19, 19);
    PowAdd(10, 38, 38);
    PowAdd(10, 76, 1);
    assert Pow(10, 1) == 10;
  }
}
