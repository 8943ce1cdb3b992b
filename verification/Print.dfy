/** Numbers to strings: digits come out in reverse, into a ring buffer when the string is too short for them. */
module Print {
  import opened Common
  import opened Limbs
  import opened Values
  import opened Memory
  import opened Scan
  import opened DivideLimbs
  import opened Digits
  import Reciprocal64
  import SmallDivide

  /** The radix prefix, where the alphabet has any. */
  function Prefix(a: Alphabet, radixFlag: bool, base: nat): seq<char> {
    if !radixFlag || a.Rfc4648Base32? || a.Rfc4648Base64? then []
    else if base == 16 then ['0', 'x']
    else if base == 8 then ['0']
    else if base == 2 then ['0', 'b']
    else []
  }

  /** What is still to be spelled of x in wn packets; one digit at least while there are packets. */
  ghost function Todo(wn: nat, x: nat, base: nat, write: nat -> char): seq<char>
    requires base >= 2
  {
    if wn == 0 then [] else Spell(Rest(x, base), base, write) + [write(x % base)]
  }

  /** The whole string for the value v of n packets. */
  ghost function Printed(n: nat, v: nat, base: nat, a: Alphabet, radixFlag: bool): seq<char>
    requires base >= 2
  {
    var p := Prefix(a, radixFlag, base);
    if n > 0 then p + Todo(n, v, base, Writer(a))
    else if p == [] || base != 8 then p + [ZeroChar(a)]
    else p
  }

  lemma TodoStep(wn: nat, x: nat, wn': nat, base: nat, write: nat -> char)
    requires base >= 2 && wn > 0 && IsLength(x / base, wn')
    ensures Todo(wn, x, base, write) == Todo(wn', Rest(x, base), base, write) + [write(x % base)]
  {
    LastDigit(x, base);
    assert Pw(0) == 1;
  }

  lemma PlainIs(n: nat, v: nat, base: nat, a: Alphabet)
    requires 2 <= base && (n == 0 ==> v == 0)
    ensures var s := Printed(n, v, base, a, false);
      if v > 0 then s == Spell(v, base, Writer(a)) else s == [ZeroChar(a)] || s == [Writer(a)(0)]
  {
  }

  lemma SingleZero(s: seq<char>, base: nat, write: nat -> char, read: char -> nat, zero: char)
    requires 2 <= base && Inverse(write, read, zero, base) && (s == [zero] || s == [write(0)])
    ensures s == [zero] && AllDigits(s, 0, 1, read, base) && Number(s, 0, 1, read, base) == 0 && zero == write(read(zero))
  {
    assert read(write(0)) == 0;
  }

  /**
   What is printed without a prefix: the digits of v in the alphabet's own characters, and no zero in front of them;
   for zero the zero character alone.
  */
  lemma PrintedPlain(n: nat, v: nat, base: nat, a: Alphabet)
    requires 2 <= base <= MaxRadix(a) && (n == 0 ==> v == 0)
    ensures var s := Printed(n, v, base, a, false);
      && |s| > 0 && AllDigits(s, 0, |s|, Reader(a), base) && Number(s, 0, |s|, Reader(a), base) == v
      && Written(s, Writer(a), Reader(a)) && (v > 0 ==> s[0] != ZeroChar(a)) && (v == 0 ==> s == [ZeroChar(a)])
  {
    PlainIs(n, v, base, a);
    AlphabetInverse(a, base);
    Plain(Printed(n, v, base, a, false), v, base, Writer(a), Reader(a), ZeroChar(a));
  }

  lemma Plain(s: seq<char>, v: nat, base: nat, write: nat -> char, read: char -> nat, zero: char)
    requires 2 <= base && Inverse(write, read, zero, base)
    requires if v > 0 then s == Spell(v, base, write) else s == [zero] || s == [write(0)]
    ensures |s| > 0 && AllDigits(s, 0, |s|, read, base) && Number(s, 0, |s|, read, base) == v
    ensures Written(s, write, read)
    ensures if v > 0 then s[0] != zero else s == [zero]
  {
    if v > 0 {
      SpellReads(v, base, write, read, zero);
      SpellWrites(v, base, write, read, zero);
    } else {
      SingleZero(s, base, write, read, zero);
    }
  }

  /** And with one: 0x, 0b or 0 in front of that, but not in front of the single digit of an empty zero in base 8. */
  lemma PrintedWithRadix(n: nat, v: nat, base: nat, a: Alphabet)
    requires 2 <= base <= MaxRadix(a)
    ensures var s, plain := Printed(n, v, base, a, true), Printed(n, v, base, a, false);
      s == if a.Rfc4648Base32? || a.Rfc4648Base64? || base !in {2, 8, 16} then plain
           else if base == 16 then "0x" + plain
           else if base == 2 then "0b" + plain
           else if n == 0 then plain else "0" + plain
  {
  }

  /** One digit off the number at w; returns it and the new length. */
  method DivRem(mem: array<Limb>, w: nat, n: nat, ghost base: nat, bits: nat, d: Limb, v: Limb) returns (rem: nat, wn: nat)
    requires n > 0 && Inside(mem, w, n * LPP) && bits < 64 && IsRecip(d, v) && d == base * Pow2(bits)
    modifies mem
    ensures 0 < base && rem == Val(old(mem[..]), w, n * LPP) % base && wn <= n
    ensures Val(mem[..], w, wn * LPP) == Val(old(mem[..]), w, n * LPP) / base
    ensures IsLength(Val(old(mem[..]), w, n * LPP) / base, wn)
    ensures SameOutside(old(mem[..]), mem[..], w, w + n * LPP)
  {
    DivUnique(d, Pow2(bits), base, 0);
    ghost var x := Val(mem[..], w, n * LPP);
    rem := SmallDivide.PDivRemU2x1(mem, w, w, n * LPP, bits, d, v);
    DivUnique(x, base, Val(mem[..], w, n * LPP), rem);
    wn := PNorm(mem, w, n);
  }

  /** The base shifted up until its top bit is set, and its reciprocal. */
  method NormaliseBase(base: nat) returns (bits: nat, d: Limb, v: Limb)
    requires 2 <= base <= 64
    ensures bits < 64 && d == base * Pow2(bits) && IsRecip(d, v)
  {
    bits := Clz(base);
    ClzFits(base);
    d := base * Pow2(bits);
    v := Reciprocal64.Recip2x1(d);
    Reciprocal64.Recip2x1Exact(d);
    RecipIsQuotient(d, v);
  }

  method Write(str: array<char>, cur: nat, end: nat, c: char) returns (next: nat)
    requires cur <= end <= str.Length
    modifies str
    ensures next == if cur < end then cur + 1 else cur
    ensures str[..] == if cur < end then old(str[..])[cur := c] else old(str[..])
  {
    next := cur;
    if cur < end {
      str[cur] := c;
      next := cur + 1;
    }
  }

  /** The first characters of p, from at on, that fit before end. */
  ghost predicate Begun(s: seq<char>, t: seq<char>, at: nat, cur: nat, end: nat, p: seq<char>) {
    && |s| == |t| && at <= end && cur == at + Min(|p|, end - at) <= |t| && t[at..cur] == p[..cur - at]
    && forall k :: 0 <= k < |s| && !(at <= k < cur) ==> t[k] == s[k]
  }

  method WriteRadix(str: array<char>, at: nat, end: nat, a: Alphabet, base: nat, radixFlag: bool) returns (cur: nat, rlen: nat)
    requires at <= end <= str.Length
    modifies str
    ensures rlen == |Prefix(a, radixFlag, base)|
    ensures Begun(old(str[..]), str[..], at, cur, end, Prefix(a, radixFlag, base))
  {
    cur, rlen := at, 0;
    if radixFlag && !a.Rfc4648Base32? && !a.Rfc4648Base64? {
      if base == 16 {
        cur := Write(str, cur, end, '0');
        cur := Write(str, cur, end, 'x');
        rlen := 2;
      } else if base == 8 {
        cur := Write(str, cur, end, '0');
        rlen := 1;
      } else if base == 2 {
        cur := Write(str, cur, end, '0');
        cur := Write(str, cur, end, 'b');
        rlen := 2;
      }
    }
  }

  /** Reverses the characters first..last; nothing when there are fewer than two. */
  method Reverse(str: array<char>, first: nat, last: int)
    requires last < str.Length
    modifies str
    ensures forall k :: first <= k <= last ==> str[k] == old(str[first + last - k])
    ensures forall k :: 0 <= k < str.Length && !(first <= k <= last) ==> str[k] == old(str[k])
  {
    var i, j := first, last;
    while i < j
      invariant first <= i && i + j == first + last && (i <= j + 1 || (i == first && j == last))
      invariant forall k :: 0 <= k < str.Length && !(first <= k < i) && !(j < k <= last) ==> str[k] == old(str[k])
      invariant forall k :: first <= k < i ==> str[k] == old(str[first + last - k])
      invariant forall k :: j < k <= last ==> str[k] == old(str[first + last - k])
    {
      str[i], str[j] := str[j], str[i];
      i, j := i + 1, j - 1;
    }
  }

  // ----- the ring -----

  /**
   The k digits produced so far, least significant first, of the string ds, as they lie in [start, end): the
   latest ones below cur, and above it what is left of the pass before.
  */
  ghost predicate Ring(s: seq<char>, start: nat, end: nat, cur: nat, ds: seq<char>, k: nat) {
    && start <= cur <= end <= |s| && cur - start <= k <= |ds|
    && (k > cur - start ==> k - (cur - start) >= end - start)
    && (forall i :: start <= i < cur ==> s[i] == ds[|ds| - 1 - k + cur - i])
    && (k > cur - start ==> forall i :: cur <= i < end ==> s[i] == ds[|ds| - 1 - k + cur + end - start - i])
  }

  /** The next digit overwrites the oldest one. */
  lemma RingStep(s: seq<char>, t: seq<char>, start: nat, end: nat, cur: nat, ds: seq<char>, k: nat)
    requires Ring(s, start, end, cur, ds, k) && cur < end && k < |ds|
    requires t == s[cur := ds[|ds| - 1 - k]]
    ensures Ring(t, start, end, cur + 1, ds, k + 1)
  {
    forall i | start <= i < cur + 1 ensures t[i] == ds[|ds| - 1 - (k + 1) + (cur + 1) - i] {}
  }

  /** A full pass can be gone over again. */
  lemma RingAgain(s: seq<char>, start: nat, end: nat, ds: seq<char>, k: nat)
    requires Ring(s, start, end, end, ds, k) && start < end
    ensures Ring(s, start, end, start, ds, k)
  {
  }

  ghost function Num(s: seq<Limb>, p: nat, n: nat): (v: nat)
    requires p + n <= |s|
    ensures v == Val(s, p, n)
  {
    ValBound(s, p, n);
    Val(s, p, n)
  }

  /** The wn packets at w are what remains of ds after k digits. */
  ghost predicate Remains(s: seq<Limb>, w: nat, wn: nat, base: nat, write: nat -> char, ds: seq<char>, k: nat) {
    base >= 2 && w + wn * LPP <= |s| && k <= |ds| && ds[..|ds| - k] == Todo(wn, Num(s, w, wn * LPP), base, write)
  }

  lemma RemainsStep(S: seq<Limb>, T: seq<Limb>, w: nat, wn: nat, wn': nat, base: nat, write: nat -> char, ds: seq<char>, k: nat, digit: nat)
    requires wn > 0 && Remains(S, w, wn, base, write, ds, k) && w + wn' * LPP <= |T|
    requires digit == Val(S, w, wn * LPP) % base && Val(T, w, wn' * LPP) == Val(S, w, wn * LPP) / base
    requires IsLength(Val(S, w, wn * LPP) / base, wn')
    ensures k < |ds| && ds[|ds| - 1 - k] == write(digit) && Remains(T, w, wn', base, write, ds, k + 1)
  {
    var x := Num(S, w, wn * LPP);
    TodoStep(wn, x, wn', base, write);
    assert ds[..|ds| - k][..|ds| - k - 1] == ds[..|ds| - k - 1];
    assert ds[..|ds| - k][|ds| - k - 1] == ds[|ds| - 1 - k];
  }

  /** The next digit into str[cur]. */
  method NextDigit(str: array<char>, start: nat, end: nat, cur: nat, mem: array<Limb>, w: nat, wn0: nat, ghost base: nat, bits: nat,
      d: Limb, v: Limb, write: nat -> char, ghost ds: seq<char>, ghost k: nat)
    returns (wn: nat)
    requires base >= 2 && bits < 64 && IsRecip(d, v) && d == base * Pow2(bits) && cur < end <= str.Length
    requires 0 < wn0 && Inside(mem, w, wn0 * LPP) && Ring(str[..], start, end, cur, ds, k)
    requires Remains(mem[..], w, wn0, base, write, ds, k)
    modifies str, mem
    ensures wn <= wn0 && Ring(str[..], start, end, cur + 1, ds, k + 1) && Remains(mem[..], w, wn, base, write, ds, k + 1)
    ensures SameOutside(old(mem[..]), mem[..], w, w + wn0 * LPP)
    ensures forall i :: 0 <= i < str.Length && i != cur ==> str[i] == old(str[i])
  {
    ghost var S: seq<Limb>, t := mem[..], str[..];
    var digit;
    digit, wn := DivRem(mem, w, wn0, base, bits, d, v);
    RemainsStep(S, mem[..], w, wn0, wn, base, write, ds, k, digit);
    str[cur] := write(digit);
    assert str[..] == t[cur := write(digit)];
    RingStep(t, str[..], start, end, cur, ds, k);
  }

  /** Digits until the string is full or the number is used up. */
  method Pass(str: array<char>, start: nat, end: nat, mem: array<Limb>, w: nat, wn0: nat, ghost base: nat, bits: nat, d: Limb, v: Limb,
      write: nat -> char, ghost ds: seq<char>, ghost k0: nat)
    returns (cur: nat, wn: nat, ghost k: nat)
    requires base >= 2 && bits < 64 && IsRecip(d, v) && d == base * Pow2(bits) && start < end <= str.Length
    requires 0 < wn0 && Inside(mem, w, wn0 * LPP) && Ring(str[..], start, end, start, ds, k0)
    requires Remains(mem[..], w, wn0, base, write, ds, k0)
    modifies str, mem
    ensures wn <= wn0 && start < cur && (wn > 0 ==> cur == end) && k == k0 + (cur - start)
    ensures Ring(str[..], start, end, cur, ds, k) && Remains(mem[..], w, wn, base, write, ds, k)
    ensures SameOutside(old(mem[..]), mem[..], w, w + wn0 * LPP)
    ensures forall i :: 0 <= i < str.Length && !(start <= i < end) ==> str[i] == old(str[i])
  {
    ghost var S: seq<Limb>, s0 := mem[..], str[..];
    cur, wn, k := start, wn0, k0;
    while cur < end && wn > 0
      invariant start <= cur <= end && wn <= wn0 && k == k0 + (cur - start) && (cur == start ==> wn == wn0)
      invariant Ring(str[..], start, end, cur, ds, k) && Remains(mem[..], w, wn, base, write, ds, k)
      invariant SameOutside(S, mem[..], w, w + wn0 * LPP)
      invariant forall i :: 0 <= i < str.Length && !(start <= i < end) ==> str[i] == s0[i]
      decreases end - cur
    {
      wn := NextDigit(str, start, end, cur, mem, w, wn, base, bits, d, v, write, ds, k);
      cur, k := cur + 1, k + 1;
    }
  }

  /** Passes over the string until the number is used up. */
  method Passes(str: array<char>, start: nat, end: nat, mem: array<Limb>, w: nat, n: nat, ghost base: nat, bits: nat, d: Limb, v: Limb,
      write: nat -> char, rlen0: nat, ghost ds: seq<char>)
    returns (cur: nat, rlen: nat)
    requires base >= 2 && bits < 64 && IsRecip(d, v) && d == base * Pow2(bits) && start < end <= str.Length
    requires 0 < n && Inside(mem, w, n * LPP) && ds == Todo(n, Num(mem[..], w, n * LPP), base, write)
    modifies str, mem
    ensures rlen == rlen0 + |ds| && start < cur && Ring(str[..], start, end, cur, ds, |ds|)
    ensures SameOutside(old(mem[..]), mem[..], w, w + n * LPP)
    ensures forall i :: 0 <= i < str.Length && !(start <= i < end) ==> str[i] == old(str[i])
  {
    ghost var S: seq<Limb>, s0 := mem[..], str[..];
    var wn := n;
    cur, rlen := start, rlen0;
    ghost var k := 0;
    assert ds[..|ds| - k] == ds;
    while true
      invariant 0 < wn <= n && Ring(str[..], start, end, start, ds, k) && Remains(mem[..], w, wn, base, write, ds, k)
      invariant rlen == rlen0 + k
      invariant SameOutside(S, mem[..], w, w + n * LPP)
      invariant forall i :: 0 <= i < str.Length && !(start <= i < end) ==> str[i] == s0[i]
      decreases |ds| - k
    {
      cur, wn, k := Pass(str, start, end, mem, w, wn, base, bits, d, v, write, ds, k);
      rlen := rlen + (cur - start);
      if wn == 0 {
        assert ds[..|ds| - k] == [];
        break;
      }
      RingAgain(str[..], start, end, ds, k);
    }
  }

  /** From at on there are the first len - 1 characters of full, or all of it, and a terminator. */
  ghost predicate Holds(s: seq<char>, at: nat, len: nat, full: seq<char>) {
    len > 0 ==> var k := Min(len - 1, |full|); at + k < |s| && s[at..at + k] == full[..k] && s[at + k] == '\0'
  }

  /** Turns the ring around, in two pieces if digits were lost: what is left is the string's beginning. */
  method Finish(str: array<char>, at: nat, start0: nat, cur0: nat, len: nat, rlen: nat, ghost ds: seq<char>)
    requires 0 < len && at + len <= str.Length && at <= start0 < cur0
    requires Ring(str[..], start0, at + len - 1, cur0, ds, |ds|) && rlen == start0 - at + |ds|
    modifies str
    ensures var k := Min(at + len - 1 - start0, |ds|);
      str[start0 + k] == '\0' && forall i :: start0 <= i < start0 + k ==> str[i] == ds[i - start0]
    ensures forall i :: 0 <= i < str.Length && !(start0 <= i < at + len) ==> str[i] == old(str[i])
  {
    ghost var s0 := str[..];
    var start, cur := start0, cur0;
    if rlen >= len {
      Reverse(str, start, cur - 1);
      start := cur;
      cur := at + len - 1;
    }
    str[cur] := '\0';
    ghost var s1 := str[..];
    Reverse(str, start, cur - 1);
    Turned(s0, s1, str[..], start0, cur0, at + len, ds);
  }

  lemma Turned(s: seq<char>, t: seq<char>, u: seq<char>, start: nat, cur: nat, len: nat, ds: seq<char>)
    requires 0 < len <= |s| == |t| == |u| && start < cur && Ring(s, start, len - 1, cur, ds, |ds|)
    requires start + |ds| >= len ==>
      (forall k :: start <= k < cur ==> t[k] == s[start + cur - 1 - k]) && (forall k :: cur <= k < len - 1 ==> t[k] == s[k])
      && (forall k :: cur <= k < len - 1 ==> u[k] == t[cur + len - 2 - k]) && (forall k :: start <= k < cur ==> u[k] == t[k])
    requires start + |ds| < len ==>
      (forall k :: start <= k < cur ==> t[k] == s[k]) && (forall k :: start <= k < cur ==> u[k] == t[start + cur - 1 - k])
    ensures start + |ds| < len ==> cur == start + |ds|
    ensures forall i :: start <= i < start + Min(len - 1 - start, |ds|) ==> u[i] == ds[i - start]
  {
    forall i | start <= i < start + Min(len - 1 - start, |ds|) ensures u[i] == ds[i - start] {
      if start + |ds| >= len && i >= cur {
        assert u[i] == t[cur + len - 2 - i] == s[cur + len - 2 - i];
      } else {
        assert u[i] == s[start + cur - 1 - i];
      }
    }
  }

  /** Only counts the digits. */
  method Count(mem: array<Limb>, w: nat, n: nat, ghost base: nat, bits: nat, d: Limb, v: Limb, rlen0: nat, ghost write: nat -> char, ghost ds: seq<char>)
    returns (rlen: nat)
    requires base >= 2 && bits < 64 && IsRecip(d, v) && d == base * Pow2(bits)
    requires Inside(mem, w, n * LPP) && Remains(mem[..], w, n, base, write, ds, 0)
    modifies mem
    ensures rlen == rlen0 + |ds|
    ensures SameOutside(old(mem[..]), mem[..], w, w + n * LPP)
  {
    ghost var S: seq<Limb> := mem[..];
    var wn: nat := n;
    rlen := rlen0;
    ghost var k: nat := 0;
    while wn > 0
      invariant wn <= n && Remains(mem[..], w, wn, base, write, ds, k) && rlen == rlen0 + k
      invariant SameOutside(S, mem[..], w, w + n * LPP)
      decreases |ds| - k
    {
      wn := DropDigit(mem, w, wn, base, bits, d, v, write, ds, k);
      rlen, k := rlen + 1, k + 1;
    }
    assert ds[..|ds| - k] == [];
  }

  method DropDigit(mem: array<Limb>, w: nat, wn0: nat, ghost base: nat, bits: nat, d: Limb, v: Limb, ghost write: nat -> char,
      ghost ds: seq<char>, ghost k: nat)
    returns (wn: nat)
    requires base >= 2 && bits < 64 && IsRecip(d, v) && d == base * Pow2(bits)
    requires 0 < wn0 && Inside(mem, w, wn0 * LPP) && Remains(mem[..], w, wn0, base, write, ds, k)
    modifies mem
    ensures wn <= wn0 && Remains(mem[..], w, wn, base, write, ds, k + 1)
    ensures SameOutside(old(mem[..]), mem[..], w, w + wn0 * LPP)
  {
    ghost var S: seq<Limb> := mem[..];
    var digit;
    digit, wn := DivRem(mem, w, wn0, base, bits, d, v);
    RemainsStep(S, mem[..], w, wn0, wn, base, write, ds, k, digit);
  }

  /**
   hebi_pgetstr: the string of the n packets at w, which are used up, goes to the len characters at at. Whatever their
   number, they get the beginning of the full string, and the full string's length is returned.
  */
  method PGetStr(str: array<char>, at: nat, len: nat, mem: array<Limb>, w: nat, n: nat, base: nat, index: nat, radixFlag: bool)
    returns (rlen: nat)
    requires at + len <= str.Length && Inside(mem, w, n * LPP)
    modifies str, mem
    ensures var a := AlphabetOf(index);
      if a.None? || base < 2 || MaxRadix(a.value) < base then rlen == SIZE_MAX && str[..] == old(str[..]) && mem[..] == old(mem[..])
      else
        var full := Printed(n, Num(old(mem[..]), w, n * LPP), base, a.value, radixFlag);
        rlen == |full| && Holds(str[..], at, len, full)
    ensures forall k :: 0 <= k < str.Length && !(at <= k < at + len) ==> str[k] == old(str[k])
    ensures SameOutside(old(mem[..]), mem[..], w, w + n * LPP)
  {
    var a := AlphabetOf(index);
    if a.None? || base < 2 || MaxRadix(a.value) < base {
      return SIZE_MAX;
    }
    var end := at + if len > 0 then len - 1 else 0;
    var cur;
    cur, rlen := WriteRadix(str, at, end, a.value, base, radixFlag);
    if n == 0 {
      rlen := WriteZero(str, at, len, end, cur, rlen, base, ZeroChar(a.value), Prefix(a.value, radixFlag, base));
    } else {
      rlen := WriteDigits(str, at, len, end, cur, rlen, mem, w, n, base, a.value, Prefix(a.value, radixFlag, base));
    }
  }

  /** For no packets at all the zero character, unless the prefix is it. */
  method WriteZero(str: array<char>, at: nat, len: nat, end: nat, cur0: nat, rlen0: nat, base: nat, zero: char, ghost p: seq<char>)
    returns (rlen: nat)
    requires at + len <= str.Length && end == at + (if len > 0 then len - 1 else 0)
    requires rlen0 == |p| && cur0 == at + Min(|p|, end - at) && str[at..cur0] == p[..cur0 - at]
    modifies str
    ensures var full := if p == [] || base != 8 then p + [zero] else p; rlen == |full| && Holds(str[..], at, len, full)
    ensures forall k :: 0 <= k < str.Length && !(at <= k < at + len) ==> str[k] == old(str[k])
  {
    var cur := cur0;
    rlen := rlen0;
    if rlen == 0 || base != 8 {
      cur := Write(str, cur, end, zero);
      rlen := rlen + 1;
    }
    if len > 0 { str[cur] := '\0'; }
  }

  method WriteDigits(str: array<char>, at: nat, len: nat, end: nat, cur0: nat, rlen0: nat, mem: array<Limb>, w: nat, n: nat, base: nat,
      a: Alphabet, ghost p: seq<char>)
    returns (rlen: nat)
    requires at + len <= str.Length && end == at + (if len > 0 then len - 1 else 0) && 2 <= base <= 64
    requires 0 < n && Inside(mem, w, n * LPP)
    requires rlen0 == |p| && cur0 == at + Min(|p|, end - at) && str[at..cur0] == p[..cur0 - at]
    modifies str, mem
    ensures var full := p + Todo(n, Num(old(mem[..]), w, n * LPP), base, Writer(a)); rlen == |full| && Holds(str[..], at, len, full)
    ensures forall k :: 0 <= k < str.Length && !(at <= k < at + len) ==> str[k] == old(str[k])
    ensures SameOutside(old(mem[..]), mem[..], w, w + n * LPP)
  {
    ghost var ds := Todo(n, Num(mem[..], w, n * LPP), base, Writer(a));
    var bits, d, v := NormaliseBase(base);
    if cur0 >= end {
      if len > 0 {
        str[cur0] := '\0';
        CutShort(str[..], at, len, p, ds);
      }
      assert ds[..|ds| - 0] == ds;
      rlen := Count(mem, w, n, base, bits, d, v, rlen0, Writer(a), ds);
    } else {
      rlen := FillDigits(str, at, len, cur0, rlen0, mem, w, n, base, bits, d, v, Writer(a), ds);
      Assembled(str[..], at, len, p, ds);
    }
  }

  method FillDigits(str: array<char>, at: nat, len: nat, start: nat, rlen0: nat, mem: array<Limb>, w: nat, n: nat, ghost base: nat,
      bits: nat, d: Limb, v: Limb, write: nat -> char, ghost ds: seq<char>)
    returns (rlen: nat)
    requires base >= 2 && bits < 64 && IsRecip(d, v) && d == base * Pow2(bits)
    requires at + len <= str.Length && at <= start && start + 1 < at + len && rlen0 == start - at
    requires 0 < n && Inside(mem, w, n * LPP) && ds == Todo(n, Num(mem[..], w, n * LPP), base, write)
    modifies str, mem
    ensures rlen == rlen0 + |ds|
    ensures var k := Min(at + len - 1 - start, |ds|);
      str[start + k] == '\0' && forall i :: start <= i < start + k ==> str[i] == ds[i - start]
    ensures forall i :: 0 <= i < str.Length && !(start <= i < at + len) ==> str[i] == old(str[i])
    ensures SameOutside(old(mem[..]), mem[..], w, w + n * LPP)
  {
    var cur;
    cur, rlen := Passes(str, start, at + len - 1, mem, w, n, base, bits, d, v, write, rlen0, ds);
    Finish(str, at, start, cur, len, rlen, ds);
  }

  lemma CutShort(s: seq<char>, at: nat, len: nat, p: seq<char>, ds: seq<char>)
    requires 0 < len <= |p| + 1 && at + len <= |s| && s[at..at + (len - 1)] == p[..len - 1] && s[at + (len - 1)] == '\0'
    ensures Holds(s, at, len, p + ds)
  {
    assert (p + ds)[..len - 1] == p[..len - 1];
  }

  lemma Assembled(s: seq<char>, at: nat, len: nat, p: seq<char>, ds: seq<char>)
    requires 0 < len && at + len <= |s| && |p| + 1 < len && s[at..at + |p|] == p
    requires var k := Min(len - 1 - |p|, |ds|);
      s[at + |p| + k] == '\0' && forall i :: at + |p| <= i < at + |p| + k ==> s[i] == ds[i - at - |p|]
    ensures Holds(s, at, len, p + ds)
  {
    var k := Min(len - 1, |p + ds|);
    forall i | 0 <= i < k ensures s[at..at + k][i] == (p + ds)[..k][i] {
      if i < |p| { assert s[at + i] == s[at..at + |p|][i]; }
    }
  }
}
