/** Printing and parsing are inverse. */
module RoundTrip {
  import opened Common
  import opened Limbs
  import opened Values
  import opened Memory
  import opened Scan
  import opened Digits
  import opened Print
  import opened Parse
  import opened Prepare

  /** The digits of a printed number. */
  ghost function PrintedDigits(v: nat, base: nat, a: Alphabet): seq<char>
    requires base >= 2
  {
    Spell(v, base, Writer(a))
  }

  lemma PrintedIs(n: nat, v: nat, base: nat, a: Alphabet, radixFlag: bool)
    requires base >= 2 && IsLength(v, n)
    ensures var p := Prefix(a, radixFlag, base);
      && (n > 0 ==> v > 0 && Printed(n, v, base, a, radixFlag) == p + PrintedDigits(v, base, a))
      && (n == 0 ==> v == 0 && Printed(n, v, base, a, radixFlag) == if p == [] || base != 8 then p + [ZeroChar(a)] else p)
  {
    assert Pw(0) == 1;
  }

  /** What the parser takes for sign and prefix of a printed number is its prefix, or nothing where that is the digit 0. */
  lemma {:induction false} HeaderOfPrinted(n: nat, v: nat, base: nat, a: Alphabet, radixFlag: bool)
    requires 2 <= base <= MaxRadix(a) && IsLength(v, n)
    ensures var p, s := Prefix(a, radixFlag, base), Printed(n, v, base, a, radixFlag);
      HeaderOf(a, s, base, radixFlag, false) == Header(1, base, Skipped(a, radixFlag, base)) && Skipped(a, radixFlag, base) < |s|
  {
    PrintedIs(n, v, base, a, radixFlag);
    var p, s := Prefix(a, radixFlag, base), Printed(n, v, base, a, radixFlag);
    assert forall k :: 0 <= k < |p| ==> s[k] == p[k];
  }

  /** cur is where the zeros that follow index start end. */
  ghost predicate Trimmed(s: seq<char>, start: nat, cur: nat, zero: char) {
    start <= cur <= |s| && (forall k :: start <= k < cur ==> s[k] == zero) && (cur < |s| ==> s[cur] != zero)
  }

  lemma AfterPrefix(p: seq<char>, ds: seq<char>, start: nat, cur: nat, read: char -> nat, zero: char, radix: nat)
    requires Trimmed(p + ds, start, cur, zero) && start <= |p| && |ds| > 0 && ds[0] != zero
    requires forall k :: start <= k < |p| ==> p[k] == zero
    requires AllDigits(ds, 0, |ds|, read, radix)
    ensures var s := p + ds;
      && cur == |p| && AllDigits(s, cur, |s|, read, radix)
      && Number(s, cur, |s|, read, radix) == Number(ds, 0, |ds|, read, radix)
  {
    var s := p + ds;
    assert s[|p|] == ds[0];
    assert forall k :: start <= k < |p| ==> s[k] == p[k];
    assert forall k :: |p| <= k < |s| ==> s[k] == ds[k - |p|];
    NumberSame(s, |p|, |s|, ds, 0, read, radix);
  }

  /** Index of the first character that is not taken for sign or prefix. */
  function Skipped(a: Alphabet, radixFlag: bool, base: nat): nat {
    if base == 8 then 0 else |Prefix(a, radixFlag, base)|
  }

  lemma PrefixZeros(a: Alphabet, radixFlag: bool, base: nat)
    ensures ZerosFrom(Prefix(a, radixFlag, base), Skipped(a, radixFlag, base), ZeroChar(a))
  {
  }

  /** From start on the prefix p has nothing but zeros. */
  ghost predicate ZerosFrom(p: seq<char>, start: nat, zero: char) {
    start <= |p| && forall k :: start <= k < |p| ==> p[k] == zero
  }

  /** Where the digits begin once the prefix and leading zeros are skipped, and that they stand for v. */
  lemma {:induction false} DigitsOfPrinted(n: nat, v: nat, base: nat, a: Alphabet, radixFlag: bool, start: nat, cur: nat)
    requires 2 <= base <= MaxRadix(a) && IsLength(v, n) && ZerosFrom(Prefix(a, radixFlag, base), start, ZeroChar(a))
    requires Trimmed(Printed(n, v, base, a, radixFlag), start, cur, ZeroChar(a))
    ensures var s := Printed(n, v, base, a, radixFlag);
      && AllDigits(s, cur, |s|, Reader(a), base) && Number(s, cur, |s|, Reader(a), base) == v
      && cur <= |s| && |s| - cur == |PrintedDigits(v, base, a)| && (cur == |s| <==> n == 0)
  {
    var read, write, zero, p := Reader(a), Writer(a), ZeroChar(a), Prefix(a, radixFlag, base);
    PrintedIs(n, v, base, a, radixFlag);
    if n > 0 {
      AlphabetInverse(a, base);
      SpellReads(v, base, write, read, zero);
      AfterPrefix(p, Spell(v, base, write), start, cur, read, zero, base);
    } else {
      ZeroTrimmed(p, Printed(n, v, base, a, radixFlag), start, cur, zero);
    }
  }

  lemma ZeroTrimmed(p: seq<char>, s: seq<char>, start: nat, cur: nat, zero: char)
    requires Trimmed(s, start, cur, zero) && (s == p || s == p + [zero])
    requires start <= |p| && forall k :: start <= k < |p| ==> p[k] == zero
    ensures cur == |s|
  {
    assert forall k :: start <= k < |p| ==> s[k] == p[k];
  }

  /** The room r must have to read len digits back: what is estimated for them, one more, and the reader's slack. */
  ghost predicate RoomFor(m: nat, ratio: nat, len: nat, radix: nat) {
    m >= EstimateSpace(ratio, len) + 1 + Slack(radix) && EstimateSpace(ratio, len) < PACKET_MAXLEN && RatioOk(radix, ratio, B)
  }

  /**
   Prints the n packets at w, which are used up, prepares the string and reads it into r: the same packets come
   back in their normalised length, for every value, base and alphabet, with or without a prefix.
  */
  method PrintThenParse(str: array<char>, len: nat, mem: array<Limb>, w: nat, n: nat, r: nat, m: nat, base: nat, index: nat, radixFlag: bool,
      st: State, ratios: seq<Limb>, ghost a: Alphabet)
    returns (size: nat)
    requires AlphabetOf(index) == Some(a) && 2 <= base <= MaxRadix(a) && |ratios| == 64
    requires Inside(mem, w, n * LPP) && Inside(mem, r, m * LPP) && IsLength(Val(mem[..], w, n * LPP), n)
    requires |Printed(n, Num(mem[..], w, n * LPP), base, a, radixFlag)| < len <= str.Length
    requires RoomFor(m, ratios[base - 1], |PrintedDigits(Num(mem[..], w, n * LPP), base, a)|, base)
    modifies str, mem, st
    ensures st.err == NoError && size == n <= m && Val(mem[..], r, size * LPP) == Val(old(mem[..]), w, n * LPP)
  {
    ghost var v := Num(mem[..], w, n * LPP);
    var k := PGetStr(str, 0, len, mem, w, n, base, index, radixFlag);
    assert str[..k] == Printed(n, v, base, a, radixFlag);
    HeaderOfPrinted(n, v, base, a, radixFlag);
    PrefixZeros(a, radixFlag, base);
    size := ReadBack(mem, r, m, st, str[..k], n, v, base, base, index, radixFlag, radixFlag, ratios, Skipped(a, radixFlag, base), a);
  }

  /** Reads a printed string in which base given, with or without the flag for a prefix, shows the digits to begin at start. */
  method ReadBack(mem: array<Limb>, r: nat, m: nat, st: State, str: seq<char>, ghost n: nat, ghost v: nat, ghost base: nat, given: nat,
      index: nat, ghost printFlag: bool, radixFlag: bool, ratios: seq<Limb>, ghost start: nat, ghost a: Alphabet)
    returns (size: nat)
    requires AlphabetOf(index) == Some(a) && 2 <= base <= MaxRadix(a) && |ratios| == 64
    requires Inside(mem, r, m * LPP) && IsLength(v, n) && str == Printed(n, v, base, a, printFlag)
    requires HeaderOf(a, str, given, radixFlag, false) == Header(1, base, start) && start < |str|
    requires ZerosFrom(Prefix(a, printFlag, base), start, ZeroChar(a))
    requires RoomFor(m, ratios[base - 1], |PrintedDigits(v, base, a)|, base)
    modifies mem, st
    ensures st.err == NoError && size == n <= m && Val(mem[..], r, size * LPP) == v
  {
    var space := PSetStrPrepare(st, str, given, index, radixFlag, false, ratios);
    DigitsOfPrinted(n, v, base, a, printFlag, start, st.cur);
    size := ReadPrepared(mem, r, m, st, n, v, ratios[st.radix - 1], a);
  }

  method ReadPrepared(mem: array<Limb>, r: nat, m: nat, st: State, ghost n: nat, ghost v: nat, ratio: Limb, ghost a: Alphabet)
    returns (size: nat)
    requires AlphabetOf(st.alphabet) == Some(a) && 2 <= st.radix <= MaxRadix(a) && st.err == NoError
    requires Inside(mem, r, m * LPP) && IsLength(v, n) && st.cur <= st.end == |st.str|
    requires AllDigits(st.str, st.cur, st.end, Reader(a), st.radix) && Number(st.str, st.cur, st.end, Reader(a), st.radix) == v
    requires RoomFor(m, ratio, st.end - st.cur, st.radix)
    modifies mem, st
    ensures st.err == NoError && size == n <= m && Val(mem[..], r, size * LPP) == v
  {
    ghost var cur, read := st.cur, Reader(a);
    size := PSetStr(mem, r, m, st, ratio);
    NeverOutOfRoom(mem[..], r, m, st.str, cur, st.end, read, st.radix, ratio, st.err, st.cur, size);
    LengthUnique(v, size, n);
  }

  /** The bases that the parser finds by itself. */
  predicate Automatic(a: Alphabet, base: nat) {
    if a.Rfc4648Base32? then base == 32 else if a.Rfc4648Base64? then base == 64 else base in {2, 8, 10, 16}
  }

  /**
   With base 0 the parser finds the radix from the prefix: it takes a printed string for what it is exactly when the
   base is one that it can find, and the string is not the bare 0, which it takes for a prefix without digits.
  */
  lemma {:induction false} AutomaticRadixIff(n: nat, v: nat, base: nat, a: Alphabet)
    requires 2 <= base <= MaxRadix(a) && IsLength(v, n)
    ensures var s := Printed(n, v, base, a, true); var h := HeaderOf(a, s, 0, false, false);
      && (h.radix == base && h.digits < |s| <==> Automatic(a, base) && !(n == 0 && base in {8, 10}))
      && (h.radix == base && h.digits < |s| ==> h == Header(1, base, |Prefix(a, true, base)|))
  {
    PrintedIs(n, v, base, a, true);
    if n > 0 && Automatic(a, base) {
      AlphabetInverse(a, base);
      SpellReads(v, base, Writer(a), Reader(a), ZeroChar(a));
      var ds := Spell(v, base, Writer(a));
      assert CharDigit(a, ds[0]) == Reader(a)(ds[0]);
      if base in {2, 8, 10, 16} && !a.Rfc4648Base32? && !a.Rfc4648Base64? { AutomaticPrefix(a, base, ds); }
    }
  }

  lemma AutomaticPrefix(a: Alphabet, base: nat, ds: seq<char>)
    requires base in {2, 8, 10, 16} && !a.Rfc4648Base32? && !a.Rfc4648Base64?
    requires |ds| > 0 && CharDigit(a, ds[0]) < base && ds[0] != '0'
    ensures var s := Prefix(a, true, base) + ds; ReadRadix(a, s, 0, 0) == (base, |Prefix(a, true, base)|)
  {
    var p, s := Prefix(a, true, base), Prefix(a, true, base) + ds;
    SecondDigit(a, ds[0], base);
    assert s[|p|] == ds[0] && forall k :: 0 <= k < |p| ==> s[k] == p[k];
  }

  /** No digit of these bases is one of the letters of a prefix. */
  lemma SecondDigit(a: Alphabet, c: char, base: nat)
    requires base in {2, 8, 10, 16} && !a.Rfc4648Base32? && !a.Rfc4648Base64? && CharDigit(a, c) < base
    ensures c !in {'x', 'X'} && (base < 11 ==> c !in {'b', 'B'})
  {
  }

  /** And then the value comes back too: printing with a prefix and reading with base 0. */
  method PrintThenParseAutomatic(str: array<char>, len: nat, mem: array<Limb>, w: nat, n: nat, r: nat, m: nat, base: nat, index: nat,
      st: State, ratios: seq<Limb>, ghost a: Alphabet)
    returns (size: nat)
    requires AlphabetOf(index) == Some(a) && 2 <= base <= MaxRadix(a) && |ratios| == 64
    requires Inside(mem, w, n * LPP) && Inside(mem, r, m * LPP) && IsLength(Val(mem[..], w, n * LPP), n)
    requires Automatic(a, base) && !(n == 0 && base in {8, 10})
    requires |Printed(n, Num(mem[..], w, n * LPP), base, a, true)| < len <= str.Length
    requires RoomFor(m, ratios[base - 1], |PrintedDigits(Num(mem[..], w, n * LPP), base, a)|, base)
    modifies str, mem, st
    ensures st.err == NoError && size == n <= m && Val(mem[..], r, size * LPP) == Val(old(mem[..]), w, n * LPP)
  {
    ghost var v := Num(mem[..], w, n * LPP);
    var k := PGetStr(str, 0, len, mem, w, n, base, index, true);
    assert str[..k] == Printed(n, v, base, a, true);
    AutomaticRadixIff(n, v, base, a);
    size := ReadBack(mem, r, m, st, str[..k], n, v, base, 0, index, true, false, ratios, |Prefix(a, true, base)|, a);
  }

  // ----- with a sign -----

  /** The sign that is written in front of a number; plus asks for one even if it is not negative. */
  function SignChars(z: int, plus: bool): seq<char> {
    if z < 0 then ['-'] else if plus then ['+'] else []
  }

  /** An integer's string: its sign, and its magnitude of n packets. */
  ghost function SignedPrinted(n: nat, z: int, base: nat, a: Alphabet, radixFlag: bool, plus: bool): seq<char>
    requires base >= 2
  {
    SignChars(z, plus) + Printed(n, Abs(z), base, a, radixFlag)
  }

  /** No digit is a minus sign, and a plus sign is one in the last alphabet only, where it stands for 62. */
  lemma SignIsNoDigit(a: Alphabet)
    ensures Reader(a)('-') >= MaxRadix(a)
    ensures if a.Rfc4648Base64? then Reader(a)('+') == 62 else Reader(a)('+') >= MaxRadix(a)
  {
  }

  /** No printed number begins with what is taken for a sign. */
  lemma PrintedUnsigned(n: nat, v: nat, base: nat, a: Alphabet, radixFlag: bool)
    requires 2 <= base <= MaxRadix(a) && (n == 0 ==> v == 0)
    ensures var s := Printed(n, v, base, a, radixFlag); s != [] && s[0] != '-' && (s[0] == '+' ==> a.Rfc4648Base64?)
  {
    PrintedPlain(n, v, base, a);
    PrintedWithRadix(n, v, base, a);
    SignIsNoDigit(a);
    var plain := Printed(n, v, base, a, false);
    assert Reader(a)(plain[0]) < base;
  }

  /** Allowing a prefix does no harm to a number that is printed without one. */
  lemma HeaderAllowed(n: nat, v: nat, base: nat, a: Alphabet, printFlag: bool, readFlag: bool)
    requires 2 <= base <= MaxRadix(a) && IsLength(v, n) && (printFlag ==> readFlag)
    ensures HeaderOf(a, Printed(n, v, base, a, printFlag), base, readFlag, false) == Header(1, base, Skipped(a, printFlag, base))
  {
    HeaderOfPrinted(n, v, base, a, printFlag);
    if !printFlag && readFlag {
      var s := Printed(n, v, base, a, false);
      assert Pw(0) == 1;
      PrintedPlain(n, v, base, a);
      RadixTaken(a, s, base, true);
    }
  }

  /** Sign and prefix of an integer's string are taken for what they are, unless the sign is a plus that is a digit. */
  lemma SignedHeader(n: nat, z: int, base: nat, a: Alphabet, printFlag: bool, readFlag: bool, plus: bool)
    requires 2 <= base <= MaxRadix(a) && IsLength(Abs(z), n) && (printFlag ==> readFlag)
    ensures var s := SignedPrinted(n, z, base, a, printFlag, plus);
      HeaderOf(a, s, base, readFlag, true)
        == (if z >= 0 && plus && a.Rfc4648Base64? then Header(1, base, 0)
            else Header(if z < 0 then -1 else 1, base, |SignChars(z, plus)| + Skipped(a, printFlag, base)))
  {
    var t := Printed(n, Abs(z), base, a, printFlag);
    assert Pw(0) == 1;
    HeaderAllowed(n, Abs(z), base, a, printFlag, readFlag);
    PrintedUnsigned(n, Abs(z), base, a, printFlag);
    if SignChars(z, plus) == [] {
      assert [] + t == t;
      NoSignTaken(a, t, base, readFlag);
    } else if z >= 0 && a.Rfc4648Base64? {
      NoSignTaken(a, ['+'] + t, base, readFlag);
      RadixTaken(a, ['+'] + t, base, readFlag);
    } else {
      SignTaken(a, SignChars(z, plus)[0], t, base, readFlag);
    }
  }

  /** What stands behind a sign stands for the same number. */
  lemma BehindSign(sgn: seq<char>, s: seq<char>, start: nat, cur: nat, read: char -> nat, radix: nat, zero: char)
    requires Trimmed(s, start, cur, zero) && AllDigits(s, cur, |s|, read, radix)
    ensures var t := sgn + s;
      && Trimmed(t, |sgn| + start, |sgn| + cur, zero) && AllDigits(t, |sgn| + cur, |t|, read, radix)
      && Number(t, |sgn| + cur, |t|, read, radix) == Number(s, cur, |s|, read, radix)
  {
    var t := sgn + s;
    assert forall k :: |sgn| <= k < |t| ==> t[k] == s[k - |sgn|];
    NumberSame(t, |sgn| + cur, |t|, s, cur, read, radix);
  }

  lemma {:induction false} TrimEnd(s: seq<char>, start: nat, from: nat, zero: char) returns (cur: nat)
    requires start <= from <= |s| && forall k :: start <= k < from ==> s[k] == zero
    ensures Trimmed(s, start, cur, zero)
    decreases |s| - from
  {
    if from == |s| || s[from] != zero {
      cur := from;
    } else {
      cur := TrimEnd(s, start, from + 1, zero);
    }
  }

  /** Where the digits of an integer's string begin, and that they stand for its magnitude. */
  lemma SignedDigits(n: nat, z: int, base: nat, a: Alphabet, printFlag: bool, plus: bool) returns (cur: nat)
    requires 2 <= base <= MaxRadix(a) && IsLength(Abs(z), n)
    ensures var t := SignedPrinted(n, z, base, a, printFlag, plus);
      && Trimmed(t, |SignChars(z, plus)| + Skipped(a, printFlag, base), cur, ZeroChar(a))
      && AllDigits(t, cur, |t|, Reader(a), base) && Number(t, cur, |t|, Reader(a), base) == Abs(z)
      && |t| - cur == |PrintedDigits(Abs(z), base, a)| && |SignChars(z, plus)| + Skipped(a, printFlag, base) < |t|
  {
    var s, start := Printed(n, Abs(z), base, a, printFlag), Skipped(a, printFlag, base);
    HeaderOfPrinted(n, Abs(z), base, a, printFlag);
    PrefixZeros(a, printFlag, base);
    var k := TrimEnd(s, start, start, ZeroChar(a));
    DigitsOfPrinted(n, Abs(z), base, a, printFlag, start, k);
    BehindSign(SignChars(z, plus), s, start, k, Reader(a), base, ZeroChar(a));
    cur := |SignChars(z, plus)| + k;
  }

  lemma FirstApart(c: char, s: seq<char>, read: char -> nat, radix: nat)
    requires AllDigits(s, 0, |s|, read, radix) && read(c) < radix
    ensures var t := [c] + s;
      AllDigits(t, 0, |t|, read, radix) && Number(t, 0, |t|, read, radix) == read(c) * Pow(radix, |s|) + Number(s, 0, |s|, read, radix)
  {
    var t := [c] + s;
    assert forall k :: 1 <= k < |t| ==> t[k] == s[k - 1];
    NumberSplit(t, 0, 1, |t|, read, radix);
    NumberSame(t, 1, |t|, s, 0, read, radix);
    assert Number(t, 0, 0, read, radix) == 0;
  }

  /** In the last alphabet a plus sign does not come back: it is read as the digit 62, or rejected. */
  lemma PlusIsRead(n: nat, z: nat, base: nat)
    requires 2 <= base <= 64 && IsLength(z, n)
    ensures var a := Rfc4648Base64; var t, read := SignedPrinted(n, z, base, a, false, true), Reader(a);
      |t| > 1 && (if base <= 62 then read(t[0]) >= base
                  else AllDigits(t, 0, |t|, read, base) && Number(t, 0, |t|, read, base) == 62 * Pow(base, |t| - 1) + z)
  {
    var a := Rfc4648Base64;
    assert Pw(0) == 1;
    PrintedPlain(n, z, base, a);
    SignIsNoDigit(a);
    if base > 62 { FirstApart('+', Printed(n, z, base, a, false), Reader(a), base); }
  }
}
