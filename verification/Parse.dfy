/** Strings to numbers: prefix and sign, the space a string needs, and the two ways of reading digits. */
module Parse {
  import opened Common
  import opened Limbs
  import opened Values
  import opened Memory
  import opened Scan
  import opened AddSub
  import opened Multiply
  import opened Shift
  import opened Log2
  import opened Digits
  import opened Print

  datatype Error = NoError | BadValue | BadSyntax | BadLength

  /** hebi_psetstrstate. */
  class State {
    var str: seq<char>
    var start: nat
    var end: nat
    var cur: nat
    var radix: nat
    var alphabet: nat
    var sign: int
    var err: Error
  }

  // ----- a chunk of digits that fits a word -----

  /** The most digits whose number always fits a word. */
  function MaxDigits(radix: nat): (d: nat)
    requires 2 <= radix
    ensures radix < B ==> 1 <= d && Pow(radix, d) < B
    ensures B <= Pow(radix, d + 1)
  {
    if B <= radix then
      assert Pow(radix, 1) == radix * Pow(radix, 0);
      0
    else
      assert Pow(radix, 1) == radix * Pow(radix, 0);
      DigitsFrom(radix, 1, radix)
  }

  function DigitsFrom(radix: nat, d: nat, p: nat): (r: nat)
    requires 2 <= radix && p == Pow(radix, d) < B && 0 < p
    ensures d <= r && Pow(radix, r) < B <= Pow(radix, r + 1)
    decreases B - p
  {
    MulLe(p, p, 2, radix);
    if B <= radix * p then d else DigitsFrom(radix, d + 1, radix * p)
  }

  /** base^exp in word arithmetic, by squaring. */
  method PowU64(base0: Limb, exp0: nat) returns (r: Limb)
    ensures r == Low(Pow(base0, exp0))
  {
    var base, exp := base0, exp0;
    r := 1;
    while exp > 0
      invariant 0 <= exp && Low(r * Pow(base, exp)) == Low(Pow(base0, exp0))
      decreases exp
    {
      var odd, half := exp % 2 == 1, exp / 2;
      SquareStep(r, base, half, Pow(base, exp), odd);
      if odd {
        r := MulLow(r, base);
      }
      exp := half;
      base := MulLow(base, base);
    }
  }

  lemma SquareStep(r: Limb, base: Limb, half: nat, p: nat, odd: bool)
    requires p == Pow(base, 2 * half + (if odd then 1 else 0))
    ensures Low((if odd then MulLow(r, base) else r) * Pow(MulLow(base, base), half)) == Low(r * p)
  {
    var q, q' := Pow(base * base, half), Pow(Low(base * base), half);
    PowSquare(base, half);
    PowLow(base * base, half);
    if odd {
      assert p == base * q;
      LowMul(r * base, q');
      SameLow(r * base, q, q');
      Reassociate(r, base, q);
    } else {
      SameLow(r, q, q');
    }
  }

  lemma SameLow(x: int, y: int, z: int)
    requires Low(y) == Low(z)
    ensures Low(x * y) == Low(x * z)
  {
    LowMul(y, x);
    LowMul(z, x);
    assert x * y == y * x && x * z == z * x;
  }

  lemma Reassociate(r: int, b: int, p: int)
    ensures (r * b) * p == r * (b * p)
  {
  }

  lemma {:induction false} PowSquare(b: nat, h: nat)
    ensures Pow(b, 2 * h) == Pow(b * b, h)
  {
    if h > 0 {
      PowSquare(b, h - 1);
      assert Pow(b, 2 * h) == b * Pow(b, 2 * h - 1) && Pow(b, 2 * h - 1) == b * Pow(b, 2 * (h - 1));
      Reassociate(b, b, Pow(b, 2 * (h - 1)));
    }
  }

  lemma {:induction false} PowLow(x: nat, h: nat)
    ensures Low(Pow(Low(x), h)) == Low(Pow(x, h))
  {
    if h > 0 {
      PowLow(x, h - 1);
      var p, q := Pow(Low(x), h - 1), Pow(x, h - 1);
      LowMul(x, p);
      LowMul(p, x);
      LowMul(q, x);
      assert Low(x) * p == p * Low(x) && x * p == p * x && x * q == q * x;
    }
  }

  /** limb*radix + digit, which does not overflow. */
  method NextDigit(str: seq<char>, cur0: nat, cur: nat, read: char -> nat, radix: nat, maxDigits: nat, limb: Limb) returns (next: Limb)
    requires cur0 <= cur < |str| && 2 <= radix <= 64 && cur - cur0 < maxDigits && Pow(radix, maxDigits) < B
    requires AllDigits(str, cur0, cur + 1, read, radix) && limb == Number(str, cur0, cur, read, radix)
    ensures next == Number(str, cur0, cur + 1, read, radix)
  {
    NumberBelow(str, cur0, cur + 1, read, radix);
    PowMono(radix, cur + 1 - cur0, maxDigits);
    NoOverflow(limb, radix, read(str[cur]));
    next := Low(limb * radix);
    next := Low(next + read(str[cur]));
  }

  lemma NoOverflow(limb: Limb, radix: nat, digit: nat)
    requires limb * radix + digit < B
    ensures Low(limb * radix) == limb * radix && Low(limb * radix + digit) == limb * radix + digit
  {
    MulLe(0, limb, 0, radix);
  }

  method ReadChunk(str: seq<char>, cur0: nat, end: nat, read: char -> nat, radix: nat, maxDigits: nat)
    returns (limb: Limb, numDigits: nat, cur: nat, bad: bool)
    requires cur0 < end <= |str| && 2 <= radix <= 64 && 0 < maxDigits && Pow(radix, maxDigits) < B
    ensures cur0 <= cur <= end && numDigits == cur - cur0 <= maxDigits && AllDigits(str, cur0, cur, read, radix)
    ensures bad ==> cur < end && read(str[cur]) >= radix
    ensures !bad ==> cur0 < cur && (cur == end || numDigits == maxDigits) && limb == Number(str, cur0, cur, read, radix)
  {
    limb, numDigits, cur, bad := 0, 0, cur0, false;
    while cur < end && numDigits < maxDigits
      invariant cur0 <= cur <= end && numDigits == cur - cur0 <= maxDigits
      invariant AllDigits(str, cur0, cur, read, radix) && limb == Number(str, cur0, cur, read, radix)
      decreases end - cur
    {
      var digit := read(str[cur]);
      if digit >= radix {
        bad := true;
        return;
      }
      limb := NextDigit(str, cur0, cur, read, radix, maxDigits, limb);
      numDigits, cur := numDigits + 1, cur + 1;
    }
  }

  // ----- the multiply path -----

  /** size packets at r are exactly what x takes. */
  ghost predicate Stored(s: seq<Limb>, r: nat, n: nat, size: nat, x: int) {
    size <= n && r + n * LPP <= |s| && Val(s, r, size * LPP) == x && IsLength(x, size)
  }

  /** x is what size packets and the word val above them stand for, and val is only non-zero when it is needed. */
  ghost predicate Pending(s: seq<Limb>, r: nat, n: nat, size: nat, val: Limb, x: int) {
    size <= n && r + n * LPP <= |s| && Val(s, r, size * LPP) + val * Pw(size * LPP) == x
    && IsLength(x, if val != 0 then size + 1 else size)
  }

  /** A non-zero word takes one more packet, if there is one. */
  method PushLimb(mem: array<Limb>, r: nat, n: nat, size0: nat, val: Limb, ghost x: int) returns (size: nat, ok: bool)
    requires Pending(mem[..], r, n, size0, val, x)
    modifies mem
    ensures if ok then Stored(mem[..], r, n, size, x) else size == n + 1 && IsLength(x, size)
    ensures SameOutside(old(mem[..]), mem[..], r, r + n * LPP)
  {
    size, ok := size0, true;
    if val != 0 {
      size := size + 1;
      if size > n {
        ok := false;
        return;
      }
      ghost var T: seq<Limb> := mem[..];
      PSetU(mem, r + (size - 1) * LPP, val);
      ValFrame(T, mem[..], r + (size - 1) * LPP, r + size * LPP, r, (size - 1) * LPP);
      ValSplit(mem[..], r, (size - 1) * LPP, LPP);
    }
  }

  lemma MulPending(s: seq<Limb>, r: nat, n: nat, size: nat, v: int, scale: Limb, o: Limb)
    requires 0 < size <= n && r + n * LPP <= |s| && IsLength(v, size) && 0 < scale
    requires Val(s, r, size * LPP) + o * Pw(size * LPP) == scale * v
    ensures Pending(s, r, n, size, o, scale * v)
  {
    ValBound(s, r, size * LPP);
    WordAbove(Val(s, r, size * LPP), o, Pw(size * LPP));
    AtLeast(scale, v);
    assert Pw((size + 1) * LPP) == B * (B * Pw(size * LPP));
  }

  lemma WordAbove(l: int, o: Limb, p: int)
    requires 0 <= l < p
    ensures 0 <= l + o * p < B * p && (o != 0 ==> p <= l + o * p)
  {
    MulLe(0, o, p, p);
    MulLe(o, B - 1, p, p);
    if o != 0 { MulLe(1, o, p, p); }
  }

  lemma AddPending(s: seq<Limb>, r: nat, n: nat, size: nat, x: int, limb: Limb, c: Limb)
    requires 0 < size <= n && r + n * LPP <= |s| && IsLength(x, size)
    requires Val(s, r, size * LPP) + c * Pw(size * LPP) == x + limb
    ensures Pending(s, r, n, size, c, x + limb)
  {
    ValBound(s, r, size * LPP);
    WordAbove(Val(s, r, size * LPP), c, Pw(size * LPP));
    assert Pw((size + 1) * LPP) == B * (B * Pw(size * LPP));
  }

  /** The number so far times scale plus limb; without room it stops, having established that n packets are too few. */
  method Absorb(mem: array<Limb>, r: nat, n: nat, size0: nat, scale: Limb, limb0: Limb, ghost v: int) returns (size: nat, ok: bool)
    requires Stored(mem[..], r, n, size0, v) && 0 < scale
    modifies mem
    ensures if ok then Stored(mem[..], r, n, size, scale * v + limb0) else size == n + 1 && Pw(n * LPP) <= scale * v + limb0
    ensures SameOutside(old(mem[..]), mem[..], r, r + n * LPP)
  {
    var limb := limb0;
    size, ok := size0, true;
    ghost var x := scale * v;
    if size > 0 {
      var overflow := PMulU(mem, r, r, scale, size);
      MulPending(mem[..], r, n, size, v, scale, overflow);
      size, ok := PushLimb(mem, r, n, size, overflow, x);
      if !ok { return; }
      limb := AddWord(mem, r, n, size, limb, x);
    } else {
      EmptyPending(mem[..], r, n, limb, v, scale);
    }
    size, ok := PushLimb(mem, r, n, size, limb, x + limb0);
  }

  method AddWord(mem: array<Limb>, r: nat, n: nat, size: nat, limb: Limb, ghost x: int) returns (c: Limb)
    requires 0 < size && Stored(mem[..], r, n, size, x)
    modifies mem
    ensures Pending(mem[..], r, n, size, c, x + limb)
    ensures SameOutside(old(mem[..]), mem[..], r, r + n * LPP)
  {
    c := PAddU(mem, r, r, limb, size);
    AddPending(mem[..], r, n, size, x, limb, c);
  }

  lemma EmptyPending(s: seq<Limb>, r: nat, n: nat, limb: Limb, v: int, scale: Limb)
    requires Stored(s, r, n, 0, v)
    ensures Pending(s, r, n, 0, limb, scale * v + limb)
  {
    assert v == 0 && Pw(0) == 1;
    assert Pw(1) == B;
    assert Pw(1 * LPP) == B * B;
  }

  /** The table entry for the radix times the number of digits, in packets, rounded down. */
  function EstimateSpace(ratio: nat, digits: nat): nat { ratio * digits / B }

  /** The packets reported as needed once size are known to be and some digits are left; never fewer than size. */
  function Needed(ratio: nat, digits: nat, size: nat): (x: nat)
    ensures size <= SIZE_MAX ==> size <= x
  {
    var x := EstimateSpace(ratio, digits) + size;
    if x > PACKET_MAXLEN then SIZE_MAX else x
  }

  /** Stops for lack of room. */
  method OutOfSpace(st: State, cur: nat, size: nat, ratio: Limb) returns (space: nat)
    requires cur <= st.end
    modifies st`cur, st`err
    ensures st.cur == cur && st.err == BadLength && space == Needed(ratio, st.end - cur, size)
  {
    st.cur := cur;
    st.err := BadLength;
    space := EstimateSpace(ratio, st.end - cur);
    space := space + size;
    if space > PACKET_MAXLEN { space := SIZE_MAX; }
  }

  /**
   What reading the digits c0.. up to end comes to: the number, exactly in its normalised length; the first
   character that is no digit; or the place where the number so far takes more than room packets.
  */
  ghost predicate Outcome(s: seq<Limb>, r: nat, n: nat, str: seq<char>, c0: nat, end: nat, read: char -> nat, radix: nat,
      err: Error, cur: nat, size: nat, room: nat)
    requires c0 <= end <= |str|
  {
    match err
    case NoError => AllDigits(str, c0, end, read, radix) && Stored(s, r, n, size, Number(str, c0, end, read, radix))
    case BadSyntax => size == SIZE_MAX && c0 <= cur < end && AllDigits(str, c0, cur, read, radix) && read(str[cur]) >= radix
    case BadLength => c0 <= cur <= end && AllDigits(str, c0, cur, read, radix)
      && Pw(room * LPP) <= Number(str, c0, cur, read, radix)
    case BadValue => false
  }

  /** At cur the number has come to n + 1 packets at most, and what it may still come to is estimated from there. */
  ghost predicate ShortOfRoom(n: nat, str: seq<char>, c0: nat, cur: nat, end: nat, read: char -> nat, radix: nat, ratio: nat, size: nat) {
    && c0 <= cur <= end <= |str| && Number(str, c0, cur, read, radix) < Pw((n + 1) * LPP)
    && size == Needed(ratio, end - cur, n + 1)
  }

  /** One chunk more than n packets is less than n + 1. */
  lemma ChunkAbove(v: nat, size: nat, n: nat, scale: int, limb: Limb)
    requires IsLength(v, size) && size <= n && limb < scale <= B
    ensures scale * v + limb < Pw((n + 1) * LPP)
  {
    PwMono(size * LPP, n * LPP);
    MulLe(v + 1, Pw(n * LPP), scale, B);
    assert scale * v + scale == (v + 1) * scale;
    assert Pw((n + 1) * LPP) == B * (B * Pw(n * LPP));
  }

  lemma ChunkJoins(str: seq<char>, c0: nat, c1: nat, c2: nat, read: char -> nat, radix: nat, scale: int)
    requires c0 <= c1 <= c2 <= |str| && scale == Pow(radix, c2 - c1)
    requires AllDigits(str, c0, c1, read, radix) && AllDigits(str, c1, c2, read, radix)
    ensures AllDigits(str, c0, c2, read, radix)
    ensures Number(str, c0, c2, read, radix) == scale * Number(str, c0, c1, read, radix) + Number(str, c1, c2, read, radix)
  {
    NumberSplit(str, c0, c1, c2, read, radix);
    Swap(scale, Number(str, c0, c1, read, radix));
  }

  lemma Swap(x: int, y: int)
    ensures x * y == y * x
  {
  }

  /** radix^numDigits, from the table when the chunk is full. */
  method Scale(radix: nat, numDigits: nat, maxDigits: nat) returns (scale: Limb)
    requires 2 <= radix <= 64 && numDigits <= maxDigits && Pow(radix, maxDigits) < B
    ensures scale == Pow(radix, numDigits) && 0 < scale
  {
    PowMono(radix, numDigits, maxDigits);
    PowPositive(radix, numDigits);
    scale := Pow(radix, maxDigits);
    if numDigits != maxDigits {
      scale := PowU64(radix, numDigits);
    }
  }

  method ReadMultiply(mem: array<Limb>, r: nat, n: nat, st: State, read: char -> nat, radix: nat, ratio: Limb) returns (size: nat)
    requires st.cur <= st.end <= |st.str| && st.err == NoError && 2 <= radix <= 64 && Inside(mem, r, n * LPP)
    modifies mem, st`cur, st`err
    ensures Outcome(mem[..], r, n, st.str, old(st.cur), st.end, read, radix, st.err, st.cur, size, n)
    ensures st.err == NoError ==> st.cur == old(st.cur)
    ensures st.err == BadLength ==> ShortOfRoom(n, st.str, old(st.cur), st.cur, st.end, read, radix, ratio, size)
    ensures SameOutside(old(mem[..]), mem[..], r, r + n * LPP)
  {
    ghost var S: seq<Limb> := mem[..];
    var str, end, c0 := st.str, st.end, st.cur;
    var maxDigits := MaxDigits(radix);
    var cur: nat := c0;
    size := 0;
    assert Pw(0) == 1;
    while cur < end
      invariant st.err == NoError && st.cur == c0 <= cur <= end && AllDigits(str, c0, cur, read, radix)
      invariant Stored(mem[..], r, n, size, Number(str, c0, cur, read, radix))
      invariant SameOutside(S, mem[..], r, r + n * LPP)
      decreases end - cur
    {
      ghost var c1, v := cur, Number(str, c0, cur, read, radix);
      var limb, numDigits, bad;
      limb, numDigits, cur, bad := ReadChunk(str, cur, end, read, radix, maxDigits);
      if bad {
        st.cur, st.err := cur, BadSyntax;
        return SIZE_MAX;
      }
      var scale := Scale(radix, numDigits, maxDigits);
      ChunkJoins(str, c0, c1, cur, read, radix, scale);
      NumberBelow(str, c1, cur, read, radix);
      ChunkAbove(v, size, n, scale, limb);
      var ok;
      size, ok := Absorb(mem, r, n, size, scale, limb, v);
      if !ok {
        size := OutOfSpace(st, cur, size, ratio);
        return;
      }
    }
  }

  // ----- the shift path -----

  /** radix is the power of two with rb bits. */
  ghost predicate Bits(radix: nat, rb: nat) {
    0 < rb <= 6 && radix == Pow2(rb)
  }

  lemma {:induction false} RadixPow(radix: nat, rb: nat, k: nat)
    requires radix == Pow2(rb)
    ensures Pow(radix, k) == Pow2(rb * k)
  {
    if k > 0 {
      RadixPow(radix, rb, k - 1);
      Pow2Add(rb, rb * (k - 1));
      assert rb * k == rb + rb * (k - 1);
    }
  }

  /** limb << rb | digit. */
  method ShiftDigit(limb: Limb, rb: nat, digit: nat, bits: nat) returns (next: Limb)
    requires rb <= 6 && digit < Pow2(rb) && limb < Pow2(bits) && bits + rb <= 64
    ensures next == limb * Pow2(rb) + digit && next < Pow2(bits + rb)
  {
    Pow2Add(bits, rb);
    Pow2Mono(bits + rb, 64);
    Pow2Word();
    ghost var high := DigitFits(limb, digit, rb, Pow2(rb), Pow2(bits), Pow2(bits + rb));
    next := Or(Shl(limb, rb), digit);
  }

  lemma DigitFits(limb: Limb, digit: nat, rb: nat, p: int, q: int, w: int) returns (high: nat)
    requires p == Pow2(rb) && digit < p && limb < q && w == q * p && w <= B
    ensures high == limb * p && high + digit < w && Low(high) == high && Or(high, digit) == high + digit
  {
    high := limb * p;
    HighPart(limb, digit, p, q, w, high);
    LowSmall(high);
    OrIsSum(high, digit, rb);
  }

  lemma HighPart(limb: Limb, digit: nat, p: int, q: int, w: int, high: int)
    requires digit < p && limb < q && w == q * p && high == limb * p
    ensures 0 <= high && high + digit < w && high % p == 0
  {
    MulLe(limb + 1, q, p, p);
    MulLe(0, limb, 0, p);
    DivUnique(high, p, limb, 0);
  }

  method ReadBits(str: seq<char>, cur0: nat, end: nat, read: char -> nat, radix: nat, rb: nat, maxBits: nat, ghost digits: nat)
    returns (limb: Limb, bits: nat, cur: nat, bad: bool)
    requires cur0 < end <= |str| && Bits(radix, rb) && maxBits == rb * digits && 0 < digits && maxBits <= 64
    ensures cur0 <= cur <= end && bits <= maxBits && AllDigits(str, cur0, cur, read, radix)
    ensures bad ==> cur < end && read(str[cur]) >= radix
    ensures !bad ==> cur0 < cur && 0 < bits && limb == Number(str, cur0, cur, read, radix) < Pow2(bits) && Pow2(bits) == Pow(radix, cur - cur0)
    ensures cur - cur0 <= digits && (bad ==> cur - cur0 < digits) && (!bad ==> cur == end || cur - cur0 == digits)
  {
    limb, bits, cur, bad := 0, 0, cur0, false;
    while cur < end && bits < maxBits
      invariant cur0 <= cur <= end && cur - cur0 <= digits && bits == rb * (cur - cur0) && bits <= maxBits
      invariant AllDigits(str, cur0, cur, read, radix) && limb == Number(str, cur0, cur, read, radix) < Pow2(bits)
      decreases end - cur
    {
      var digit := read(str[cur]);
      if digit >= radix {
        bad := true;
        return;
      }
      OneMoreFits(rb, cur - cur0, digits);
      limb := ShiftDigit(limb, rb, digit, bits);
      bits, cur := bits + rb, cur + 1;
    }
    RadixPow(radix, rb, cur - cur0);
    AllBits(rb, cur - cur0, digits);
  }

  lemma AllBits(rb: nat, k: nat, digits: nat)
    requires 0 < rb && k <= digits
    ensures rb * digits <= rb * k ==> k == digits
  {
    if k < digits { MulLt(k, digits, rb); }
  }

  lemma OneMoreFits(rb: nat, k: nat, digits: nat)
    requires rb * k < rb * digits
    ensures k < digits && rb * (k + 1) == rb * k + rb <= rb * digits
  {
    if k >= digits { MulLe(rb, rb, digits, k); }
    MulLe(rb, rb, k + 1, digits);
  }

  /** The lowest limb of a number shifted left has room for as many bits. */
  lemma LowLimbRoom(x: Limb, h: int, v: int, bits: nat, limb: Limb)
    requires 0 < bits <= 64 && x + B * h == v * Pow2(bits) && limb < Pow2(bits)
    ensures Or(x, limb) == x + limb < B
  {
    Pow2Add(bits, 64 - bits);
    Pow2Word();
    MultipleOf(x, h, v, Pow2(bits), Pow2(64 - bits));
    OrIsSum(x, limb, bits);
    RoomBelow(x, limb, Pow2(bits), Pow2(64 - bits));
  }

  lemma MultipleOf(x: Limb, h: int, v: int, p: int, e: int)
    requires 0 < p && p * e == B && x + B * h == v * p
    ensures x % p == 0
  {
    assert x == (v - e * h) * p by { assert (e * h) * p == B * h; }
    DivUnique(x, p, v - e * h, 0);
  }

  /** Shifts the number so far left and puts the chunk below it. */
  method ShiftIn(mem: array<Limb>, r: nat, n: nat, size0: nat, bits: nat, limb: Limb, ghost v: int) returns (size: nat)
    requires 0 < size0 < n && Stored(mem[..], r, n, size0, v) && 0 < bits <= 64 && limb < Pow2(bits)
    modifies mem
    ensures Stored(mem[..], r, n, size, Pow2(bits) * v + limb)
    ensures SameOutside(old(mem[..]), mem[..], r, r + n * LPP)
  {
    ShlIsLength(v, size0, bits);
    size := PShl(mem, r, r, bits, size0);
    ShiftedNonZero(v, size0, Pow2(bits), size);
    SetLowBits(mem, r, size, bits, limb, v);
    LengthBelow(v, bits, limb, size);
    Swap(v, Pow2(bits));
  }

  lemma ShiftedNonZero(v: int, n: nat, p: int, m: nat)
    requires 0 < n && IsLength(v, n) && 0 < p && IsLength(v * p, m)
    ensures 0 < m
  {
    MulLe(1, v, 1, p);
    assert Pw(0) == 1;
  }

  method SetLowBits(mem: array<Limb>, r: nat, size: nat, ghost bits: nat, limb: Limb, ghost v: int)
    requires 0 < size && Inside(mem, r, size * LPP) && Val(mem[..], r, size * LPP) == v * Pow2(bits) && 0 < bits <= 64 && limb < Pow2(bits)
    modifies mem
    ensures Val(mem[..], r, size * LPP) == v * Pow2(bits) + limb
    ensures SameOutside(old(mem[..]), mem[..], r, r + 1)
  {
    ghost var T: seq<Limb> := mem[..];
    ValCons(T, r, size * LPP - 1);
    LowLimbRoom(T[r], Val(T, r + 1, size * LPP - 1), v, bits, limb);
    mem[r] := Or(mem[r], limb);
    assert mem[..] == T[r := Or(T[r], limb)];
    ValFrame(T, mem[..], r, r + 1, r + 1, size * LPP - 1);
    ValCons(mem[..], r, size * LPP - 1);
  }

  /** Bits below a shifted number do not change its length. */
  lemma LengthBelow(v: int, bits: nat, limb: Limb, size: nat)
    requires 0 < size && bits <= 64 && IsLength(v * Pow2(bits), size) && limb < Pow2(bits)
    ensures IsLength(v * Pow2(bits) + limb, size)
  {
    Pow2Limbs(size * LPP);
    Pow2Add(bits, 64 * (size * LPP) - bits);
    GapAbove(v, Pow2(64 * (size * LPP) - bits), Pow2(bits));
  }

  lemma GapAbove(v: int, e: int, p: int)
    requires 0 < p && v * p < p * e
    ensures v * p + p <= p * e
  {
    if v >= e { MulLe(0, v - e, 0, p); }
    MulLe(0, e - v - 1, 0, p);
  }

  /** One chunk of the shift path: shifted in, or the first non-zero word. */
  method ShiftAbsorb(mem: array<Limb>, r: nat, n: nat, size0: nat, bits: nat, limb: Limb, ghost v: int) returns (size: nat)
    requires 0 < n && size0 < n && Stored(mem[..], r, n, size0, v) && 0 < bits <= 64 && limb < Pow2(bits)
    modifies mem
    ensures Stored(mem[..], r, n, size, Pow2(bits) * v + limb)
    ensures SameOutside(old(mem[..]), mem[..], r, r + n * LPP)
  {
    size := size0;
    if size > 0 {
      size := ShiftIn(mem, r, n, size, bits, limb, v);
    } else {
      OneWord(v, limb, Pow2(bits));
      if limb != 0 {
        PSetU(mem, r, limb);
        size := 1;
      }
    }
  }

  lemma OneWord(v: int, limb: Limb, p: int)
    requires IsLength(v, 0)
    ensures v == 0 && p * v + limb == limb && IsLength(limb, if limb != 0 then 1 else 0)
  {
    assert Pw(0) == 1;
    assert Pw(1) == B;
    assert Pw(1 * LPP) == B * B;
  }

  // ----- where the shift path stops -----

  /** Where the last chunk begins, when the digits c0.. up to stop are taken in chunks of c. */
  function ChunkStart(c0: nat, stop: nat, c: nat): (q: nat)
    requires c0 <= stop && 0 < c
    ensures c0 <= q <= stop
  {
    if c0 == stop then c0 else c0 + (stop - c0 - 1) / c * c
  }

  lemma ChunkStartIs(c0: nat, cur: nat, next: nat, c: nat)
    requires 0 < c && c0 <= cur < next <= cur + c && (cur - c0) % c == 0
    ensures ChunkStart(c0, next, c) == cur && (next == cur + c ==> (next - c0) % c == 0)
  {
    var i := (cur - c0) / c;
    DivUnique(next - c0 - 1, c, i, next - c0 - 1 - i * c);
    if next == cur + c { DivUnique(next - c0, c, i + 1, 0); }
  }

  /** Where the last complete chunk ends that is not cut short by a character that is no digit, at stop. */
  function LastChunk(c0: nat, stop: nat, end: nat, c: nat): (q: nat)
    requires c0 <= stop <= end && 0 < c
    ensures c0 <= q <= stop
  {
    if stop == end then stop else stop - (stop - c0) % c
  }

  /** The digits c0.. up to q take at most n - 1 packets. */
  ghost predicate LeavesPacket(str: seq<char>, c0: nat, q: nat, read: char -> nat, radix: nat, n: nat)
    requires c0 <= q <= |str| && 0 < n
  {
    Number(str, c0, q, read, radix) < Pw((n - 1) * LPP)
  }

  /**
   When reading stops: there has to be a packet left over whenever another chunk is shifted in, and this is
   looked at once the chunk has been read.
  */
  ghost predicate ShiftStops(str: seq<char>, c0: nat, end: nat, read: char -> nat, radix: nat, c: nat, n: nat, err: Error, cur: nat)
    requires c0 <= end <= |str| && 0 < c && 0 < n
  {
    match err
    case NoError => LeavesPacket(str, c0, ChunkStart(c0, end, c), read, radix, n)
    case BadSyntax => c0 <= cur < end && LeavesPacket(str, c0, ChunkStart(c0, LastChunk(c0, cur, end, c), c), read, radix, n)
    case BadLength => c0 < cur <= end && (cur == end || (cur - c0) % c == 0)
      && !LeavesPacket(str, c0, ChunkStart(c0, cur, c), read, radix, n)
    case BadValue => false
  }

  /** More digits, larger numbers. */
  lemma NumberMono(str: seq<char>, lo: nat, mid: nat, hi: nat, read: char -> nat, radix: nat)
    requires lo <= mid <= hi <= |str| && 0 < radix
    ensures Number(str, lo, mid, read, radix) <= Number(str, lo, hi, read, radix)
  {
    NumberSplit(str, lo, mid, hi, read, radix);
    PowPositive(radix, hi - mid);
    AtLeast(Pow(radix, hi - mid), Number(str, lo, mid, read, radix));
    Swap(Number(str, lo, mid, read, radix), Pow(radix, hi - mid));
  }

  lemma ChunkStartMono(c0: nat, x: nat, y: nat, c: nat)
    requires c0 <= x <= y && 0 < c
    ensures ChunkStart(c0, x, c) <= ChunkStart(c0, y, c)
  {
    if c0 < x {
      DivMono(x - c0 - 1, y - c0 - 1, c);
      MulLe((x - c0 - 1) / c, (y - c0 - 1) / c, c, c);
    }
  }

  lemma DivMono(x: nat, y: nat, c: nat)
    requires x <= y && 0 < c
    ensures 0 <= x / c <= y / c
  {
    var i, j := x / c, y / c;
    assert x == i * c + x % c && y == j * c + y % c;
    assert (i - j) * c == i * c - j * c && (0 - i) * c == 0 - i * c;
    AtLeast(i - j, c);
    AtLeast(0 - i, c);
  }

  /** A multiple of c up to stop is not beyond the last complete chunk. */
  lemma CompleteChunk(c0: nat, cur: nat, stop: nat, c: nat)
    requires c0 <= cur <= stop && 0 < c && (cur - c0) % c == 0
    ensures cur <= stop - (stop - c0) % c
  {
    var x, y := cur - c0, stop - c0;
    DivMono(x, y, c);
    MulLe(x / c, y / c, c, c);
    assert x == x / c * c + x % c && y == y / c * c + y % c;
  }

  /**
   Where the digits end, at the end of the string or at a character that is none, decides whether the room is too
   short: exactly when a chunk has to be shifted in above which there is no packet left.
  */
  lemma ShiftRoomIff(s: seq<Limb>, r: nat, n: nat, str: seq<char>, c0: nat, stop: nat, end: nat, read: char -> nat, radix: nat, c: nat,
      err: Error, cur: nat, size: nat)
    requires c0 <= stop <= end <= |str| && 0 < c && 0 < n && 0 < radix
    requires AllDigits(str, c0, stop, read, radix) && (stop == end || read(str[stop]) >= radix)
    requires Outcome(s, r, n, str, c0, end, read, radix, err, cur, size, n - 1) && ShiftStops(str, c0, end, read, radix, c, n, err, cur)
    ensures err == BadLength <==> !LeavesPacket(str, c0, ChunkStart(c0, LastChunk(c0, stop, end, c), c), read, radix, n)
    ensures err != BadLength ==> (err == NoError <==> stop == end)
  {
    if err == BadLength {
      if stop < end { CompleteChunk(c0, cur, stop, c); }
      var q := LastChunk(c0, stop, end, c);
      ChunkStartMono(c0, cur, q, c);
      NumberMono(str, c0, ChunkStart(c0, cur, c), ChunkStart(c0, q, c), read, radix);
    }
  }

  /** On the multiply path the number itself decides. */
  lemma MultiplyRoomIff(s: seq<Limb>, r: nat, n: nat, str: seq<char>, c0: nat, end: nat, read: char -> nat, radix: nat,
      err: Error, cur: nat, size: nat)
    requires c0 <= end <= |str| && 0 < radix && AllDigits(str, c0, end, read, radix)
    requires Outcome(s, r, n, str, c0, end, read, radix, err, cur, size, n)
    ensures err == BadLength <==> Pw(n * LPP) <= Number(str, c0, end, read, radix)
    ensures err != BadLength ==> err == NoError
  {
    if err == BadLength {
      NumberMono(str, c0, cur, end, read, radix);
    } else {
      PwMono(size * LPP, n * LPP);
    }
  }

  /** The digits up to cur are in r, in whole chunks while there are more, and the last one found a packet left over. */
  ghost predicate ChunksIn(s: seq<Limb>, r: nat, n: nat, size: nat, str: seq<char>, c0: nat, cur: nat, end: nat, read: char -> nat,
      radix: nat, c: nat)
    requires c0 <= cur <= end <= |str| && 0 < c && 0 < n
  {
    && AllDigits(str, c0, cur, read, radix) && Stored(s, r, n, size, Number(str, c0, cur, read, radix))
    && (cur < end ==> (cur - c0) % c == 0) && LeavesPacket(str, c0, ChunkStart(c0, cur, c), read, radix, n)
  }

  /** Where and why no more chunks are shifted in. */
  ghost predicate ChunksEnd(n: nat, size: nat, str: seq<char>, c0: nat, cur: nat, end: nat, read: char -> nat, radix: nat, c: nat, err: Error)
    requires c0 <= cur <= end <= |str| && 0 < c && 0 < n
  {
    && AllDigits(str, c0, cur, read, radix) && ShiftStops(str, c0, end, read, radix, c, n, err, cur)
    && (err == BadSyntax ==> cur < end && read(str[cur]) >= radix)
    && (err == BadLength ==> Pw((n - 1) * LPP) <= Number(str, c0, cur, read, radix) < Pw((n + 1) * LPP) && size == n)
  }

  method NextChunk(mem: array<Limb>, r: nat, n: nat, size0: nat, str: seq<char>, ghost c0: nat, cur0: nat, end: nat, read: char -> nat,
      radix: nat, rb: nat, maxBits: nat)
    returns (size: nat, cur: nat, err: Error)
    requires c0 <= cur0 < end <= |str| && Bits(radix, rb) && maxBits == 64 / rb * rb && 0 < n && Inside(mem, r, n * LPP)
    requires ChunksIn(mem[..], r, n, size0, str, c0, cur0, end, read, radix, 64 / rb)
    modifies mem
    ensures cur0 <= cur <= end
    ensures if err == NoError then cur0 < cur && ChunksIn(mem[..], r, n, size, str, c0, cur, end, read, radix, 64 / rb)
            else ChunksEnd(n, size, str, c0, cur, end, read, radix, 64 / rb, err)
    ensures SameOutside(old(mem[..]), mem[..], r, r + n * LPP)
  {
    ghost var c, v := 64 / rb, Number(str, c0, cur0, read, radix);
    size, err := size0, NoError;
    var limb, bits, bad;
    limb, bits, cur, bad := ReadBits(str, cur0, end, read, radix, rb, maxBits, c);
    if bad {
      ChunkCut(c0, cur0, cur, end, c);
      err := BadSyntax;
      return;
    }
    ShiftedChunk(str, c0, cur0, cur, end, read, radix, c, n, size, bits, limb);
    if size > 0 && size + 1 > n {
      err := BadLength;
      return;
    }
    size := ShiftAbsorb(mem, r, n, size, bits, limb, v);
  }

  /** Chunks of digits are shifted in until they end, one is no chunk of digits, or there is no packet left over. */
  method ShiftChunks(mem: array<Limb>, r: nat, n: nat, str: seq<char>, c0: nat, end: nat, read: char -> nat, radix: nat, rb: nat)
    returns (size: nat, cur: nat, err: Error)
    requires c0 <= end <= |str| && Bits(radix, rb) && 0 < n && Inside(mem, r, n * LPP)
    modifies mem
    ensures c0 <= cur <= end && ChunksEnd(n, size, str, c0, cur, end, read, radix, 64 / rb, err)
    ensures err == NoError ==> cur == end && Stored(mem[..], r, n, size, Number(str, c0, end, read, radix))
    ensures SameOutside(old(mem[..]), mem[..], r, r + n * LPP)
  {
    ghost var S: seq<Limb> := mem[..];
    var maxBits := 64 / rb * rb;
    size, cur, err := 0, c0, NoError;
    assert Pw(0) == 1;
    while cur < end
      invariant c0 <= cur <= end && err == NoError
      invariant ChunksIn(mem[..], r, n, size, str, c0, cur, end, read, radix, 64 / rb)
      invariant SameOutside(S, mem[..], r, r + n * LPP)
      decreases end - cur
    {
      size, cur, err := NextChunk(mem, r, n, size, str, c0, cur, end, read, radix, rb, maxBits);
      if err != NoError { return; }
    }
  }

  /** Digit by digit into a word, word by word into r, for a radix with rb bits. */
  method ReadShift(mem: array<Limb>, r: nat, n: nat, st: State, read: char -> nat, radix: nat, rb: nat, ratio: Limb) returns (size: nat)
    requires st.cur <= st.end <= |st.str| && st.err == NoError && Bits(radix, rb) && 0 < n && Inside(mem, r, n * LPP)
    modifies mem, st`cur, st`err
    ensures Outcome(mem[..], r, n, st.str, old(st.cur), st.end, read, radix, st.err, st.cur, size, n - 1)
    ensures ShiftStops(st.str, old(st.cur), st.end, read, radix, 64 / rb, n, st.err, st.cur)
    ensures st.err == NoError ==> st.cur == old(st.cur)
    ensures st.err == BadLength ==> ShortOfRoom(n, st.str, old(st.cur), st.cur, st.end, read, radix, ratio, size)
    ensures SameOutside(old(mem[..]), mem[..], r, r + n * LPP)
  {
    var cur, err;
    size, cur, err := ShiftChunks(mem, r, n, st.str, st.cur, st.end, read, radix, rb);
    if err == BadSyntax {
      st.cur, st.err := cur, BadSyntax;
      return SIZE_MAX;
    }
    if err == BadLength {
      size := OutOfSpace(st, cur, size + 1, ratio);
    }
  }

  /** A chunk that is cut short begins where the last complete one ends. */
  lemma ChunkCut(c0: nat, cur: nat, stop: nat, end: nat, c: nat)
    requires 0 < c && c0 <= cur <= stop < cur + c && stop < end && (cur - c0) % c == 0
    ensures LastChunk(c0, stop, end, c) == cur
  {
    DivUnique(stop - c0, c, (cur - c0) / c, stop - cur);
  }

  /** What one more chunk makes of the number, and that the test for room is the one that LeavesPacket makes. */
  lemma ShiftedChunk(str: seq<char>, c0: nat, c1: nat, cur: nat, end: nat, read: char -> nat, radix: nat, c: nat,
      n: nat, size: nat, bits: nat, limb: Limb)
    requires 0 < c && 0 < n && c0 <= c1 < cur <= end <= |str| && (c1 - c0) % c == 0 && cur <= c1 + c && (cur == end || cur == c1 + c)
    requires AllDigits(str, c0, c1, read, radix) && AllDigits(str, c1, cur, read, radix)
    requires IsLength(Number(str, c0, c1, read, radix), size) && size <= n && bits <= 64
    requires limb == Number(str, c1, cur, read, radix) < Pow2(bits) && Pow2(bits) == Pow(radix, cur - c1)
    ensures AllDigits(str, c0, cur, read, radix) && ChunkStart(c0, cur, c) == c1 && (cur == end || (cur - c0) % c == 0)
    ensures Number(str, c0, cur, read, radix) == Pow2(bits) * Number(str, c0, c1, read, radix) + limb
    ensures Number(str, c0, cur, read, radix) < Pw((n + 1) * LPP)
    ensures LeavesPacket(str, c0, c1, read, radix, n) <==> !(size > 0 && size + 1 > n)
    ensures size > 0 && size + 1 > n ==> Pw((n - 1) * LPP) <= Number(str, c0, cur, read, radix)
  {
    var v := Number(str, c0, c1, read, radix);
    ChunkStartIs(c0, c1, cur, c);
    ChunkJoins(str, c0, c1, cur, read, radix, Pow2(bits));
    Pow2Mono(bits, 64);
    Pow2Word();
    ChunkAbove(v, size, n, Pow2(bits), limb);
    NotSmaller(v, Pow2(bits), limb);
    RoomLeft(v, size, n);
  }

  lemma RoomLeft(v: nat, size: nat, n: nat)
    requires IsLength(v, size) && 0 < n && size <= n
    ensures v < Pw((n - 1) * LPP) <==> (size == 0 || size + 1 <= n)
  {
    if size < n { PwMono(size * LPP, (n - 1) * LPP); }
  }

  lemma NotSmaller(v: nat, p: int, limb: Limb)
    requires 0 < p
    ensures v <= p * v + limb
  {
    AtLeast(p, v);
  }

  // ----- the whole -----

  /** The test radix & (radix - 1) for the radices there are. */
  predicate PowerOfTwo(radix: nat) { radix in {2, 4, 8, 16, 32, 64} }

  lemma SmallPowers(e: nat)
    requires Pow2(e) <= 64
    ensures e <= 6 && (0 < e ==> Pow2(e) in {2, 4, 8, 16, 32, 64})
  {
    assert Pow2(3) == 8;
    assert Pow2(6) == 64 && Pow2(7) == 128;
    if e >= 7 { Pow2Mono(7, e); }
  }

  /** They are the powers of two. */
  lemma PowerOfTwoIff(radix: nat)
    requires radix <= 64
    ensures PowerOfTwo(radix) <==> exists e: nat :: 0 < e && radix == Pow2(e)
  {
    if PowerOfTwo(radix) { RadixBits(radix); }
    if e: nat :| 0 < e && radix == Pow2(e) { SmallPowers(e); }
  }

  lemma RadixBits(radix: nat)
    requires PowerOfTwo(radix)
    ensures Bits(radix, FloorLog2(radix))
  {
    assert FloorLog2(1) == 0 && FloorLog2(2) == 1 && FloorLog2(4) == 2 && FloorLog2(8) == 3;
    assert FloorLog2(16) == 4;
    assert FloorLog2(32) == 5;
    assert FloorLog2(64) == 6;
    assert Pow2(3) == 8;
    assert Pow2(6) == 64;
  }

  /** Packets of room the reader insists on leaving unused before it goes on. */
  function Slack(radix: nat): nat { if PowerOfTwo(radix) then 1 else 0 }

  /** The digits in a chunk of the shift path. */
  function Chunk(radix: nat): (c: nat)
    requires PowerOfTwo(radix)
    ensures 0 < c
  {
    RadixBits(radix);
    64 / FloorLog2(radix)
  }

  /** What reading the digits c0.. up to end into n packets comes to, on either path. */
  ghost predicate DigitsRead(s: seq<Limb>, r: nat, n: nat, str: seq<char>, c0: nat, end: nat, read: char -> nat, radix: nat, ratio: nat,
      err: Error, cur: nat, size: nat)
    requires c0 <= end <= |str| && 0 < n
  {
    && Outcome(s, r, n, str, c0, end, read, radix, err, cur, size, n - Slack(radix))
    && (PowerOfTwo(radix) ==> ShiftStops(str, c0, end, read, radix, Chunk(radix), n, err, cur))
    && (err == NoError ==> cur == c0)
    && (err == BadLength ==> ShortOfRoom(n, str, c0, cur, end, read, radix, ratio, size))
  }

  /** hebi_psetstr: reads the digits that hebi_psetstrprepare has found. */
  method PSetStr(mem: array<Limb>, r: nat, n: nat, st: State, ratio: Limb) returns (size: nat)
    requires 0 < n && Inside(mem, r, n * LPP)
    requires st.cur <= st.end <= |st.str| && st.err == NoError
    requires AlphabetOf(st.alphabet).Some? && 2 <= st.radix <= MaxRadix(AlphabetOf(st.alphabet).value)
    modifies mem, st`cur, st`err
    ensures DigitsRead(mem[..], r, n, st.str, old(st.cur), st.end, Reader(AlphabetOf(st.alphabet).value), st.radix, ratio,
      st.err, st.cur, size)
    ensures SameOutside(old(mem[..]), mem[..], r, r + n * LPP)
  {
    var read := Reader(AlphabetOf(st.alphabet).value);
    if PowerOfTwo(st.radix) {
      RadixBits(st.radix);
      size := ReadShift(mem, r, n, st, read, st.radix, FloorLog2(st.radix), ratio);
    } else {
      size := ReadMultiply(mem, r, n, st, read, st.radix, ratio);
    }
  }
}
