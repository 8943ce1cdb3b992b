/** Digits, the characters that stand for them, and the numbers strings of them stand for. */
module Digits {
  import opened Common
  import opened Limbs

  function Pow(b: nat, e: nat): nat {
    if e == 0 then 1 else b * Pow(b, e - 1)
  }

  lemma {:induction false} PowAdd(b: nat, m: nat, n: nat)
    ensures Pow(b, m + n) == Pow(b, m) * Pow(b, n)
  {
    if m > 0 {
      PowAdd(b, m - 1, n);
      assert b * (Pow(b, m - 1) * Pow(b, n)) == (b * Pow(b, m - 1)) * Pow(b, n);
    }
  }

  lemma {:induction false} PowPositive(b: nat, e: nat)
    requires 0 < b
    ensures 0 < Pow(b, e)
  {
    if e > 0 {
      PowPositive(b, e - 1);
      MulLe(1, b, 1, Pow(b, e - 1));
    }
  }

  lemma PowMono(b: nat, m: nat, n: nat)
    requires 0 < b && m <= n
    ensures Pow(b, m) <= Pow(b, n)
  {
    PowAdd(b, m, n - m);
    PowPositive(b, m);
    PowPositive(b, n - m);
    MulLe(Pow(b, m), Pow(b, m), 1, Pow(b, n - m));
  }

  // ----- alphabets -----

  datatype Alphabet = Base36 | Base36Upper | Base36Lower | Base62 | Rfc4648Base32 | Rfc4648Base64

  datatype Option<T> = None | Some(value: T)

  /** The alphabet for the low bits of the flags. */
  function AlphabetOf(index: nat): Option<Alphabet> {
    match index
    case 0 => Some(Base36)
    case 1 => Some(Base36Upper)
    case 2 => Some(Base36Lower)
    case 3 => Some(Base62)
    case 4 => Some(Rfc4648Base32)
    case 5 => Some(Rfc4648Base64)
    case _ => None
  }

  function MaxRadix(a: Alphabet): nat {
    match a
    case Base36 | Base36Upper | Base36Lower => 36
    case Base62 => 62
    case Rfc4648Base32 => 32
    case Rfc4648Base64 => 64
  }

  /** The character d places after c. */
  function Nth(c: char, d: nat): char {
    if c as int + d < 128 then (c as int + d) as char else '?'
  }

  /** The character printed for a digit below MaxRadix(a). */
  function DigitChar(a: Alphabet, d: nat): char {
    match a
    case Base36 | Base36Upper => if d < 10 then Nth('0', d) else Nth('A', d - 10)
    case Base36Lower => if d < 10 then Nth('0', d) else Nth('a', d - 10)
    case Base62 => if d < 10 then Nth('0', d) else if d < 36 then Nth('A', d - 10) else Nth('a', d - 36)
    case Rfc4648Base32 => if d < 26 then Nth('A', d) else Nth('2', d - 26)
    case Rfc4648Base64 =>
      if d < 26 then Nth('A', d) else if d < 52 then Nth('a', d - 26) else if d < 62 then Nth('0', d - 52)
      else if d == 62 then '+' else '/'
  }

  const NOT_A_DIGIT: nat := 0xFFFF_FFFF

  function Between(c: char, lo: char, hi: char, d: nat): nat {
    if lo <= c <= hi then c as int - lo as int + d else NOT_A_DIGIT
  }

  /** The digit read for a character; at least every radix when it is none. */
  function CharDigit(a: Alphabet, c: char): nat {
    match a
    case Base36 => Min(Between(c, '0', '9', 0), Min(Between(c, 'A', 'Z', 10), Between(c, 'a', 'z', 10)))
    case Base36Upper => Min(Between(c, '0', '9', 0), Between(c, 'A', 'Z', 10))
    case Base36Lower => Min(Between(c, '0', '9', 0), Between(c, 'a', 'z', 10))
    case Base62 => Min(Between(c, '0', '9', 0), Min(Between(c, 'A', 'Z', 10), Between(c, 'a', 'z', 36)))
    case Rfc4648Base32 => Min(Between(c, 'A', 'Z', 0), Between(c, '2', '7', 26))
    case Rfc4648Base64 =>
      if c == '+' then 62 else if c == '/' then 63
      else Min(Between(c, 'A', 'Z', 0), Min(Between(c, 'a', 'z', 26), Between(c, '0', '9', 52)))
  }

  /** Reading what was printed. */
  lemma CharDigitInverse(a: Alphabet, d: nat)
    requires d < MaxRadix(a)
    ensures CharDigit(a, DigitChar(a, d)) == d
  {
  }

  /** A character reads as a digit exactly when that digit is printed so; Base36 takes lower-case letters too. */
  lemma CharDigitIff(a: Alphabet, c: char, d: nat)
    requires d < MaxRadix(a)
    ensures CharDigit(a, c) == d <==> c == DigitChar(a, d) || (a == Base36 && c == DigitChar(Base36Lower, d))
  {
    match a {
      case Base36 | Base36Upper | Base36Lower =>
      case Base62 =>
      case Rfc4648Base32 =>
      case Rfc4648Base64 =>
    }
  }

  /** The digit for which a leading character is skipped is 0. */
  function ZeroChar(a: Alphabet): char {
    match a
    case Rfc4648Base32 | Rfc4648Base64 => 'A'
    case _ => '0'
  }

  lemma ZeroCharIff(a: Alphabet, c: char)
    ensures CharDigit(a, c) == 0 <==> c == ZeroChar(a)
  {
  }

  /** The two tables of an alphabet. */
  function Writer(a: Alphabet): nat -> char { (d: nat) => DigitChar(a, d) }

  function Reader(a: Alphabet): char -> nat { (c: char) => CharDigit(a, c) }

  // ----- the alphabets spelled out -----

  const NUMERALS: string := "0123456789"
  const UPPER: string := "ABCDEFGHIJKLMNOPQRSTUVWXYZ"
  const LOWER: string := "abcdefghijklmnopqrstuvwxyz"

  /** The characters for 0, 1, 2 and so on that a flag's low bits stand for. */
  function Letters(index: nat): string {
    match index
    case 0 | 1 => NUMERALS + UPPER
    case 2 => NUMERALS + LOWER
    case 3 => NUMERALS + UPPER + LOWER
    case 4 => UPPER + "234567"
    case 5 => UPPER + LOWER + NUMERALS + "+/"
    case _ => ""
  }

  /** The n characters from c on. */
  ghost predicate Row(s: string, c: char, n: nat) {
    |s| == n && forall d :: 0 <= d < n ==> s[d] == Nth(c, d)
  }

  lemma Rows()
    ensures Row(NUMERALS, '0', 10) && Row(UPPER, 'A', 26) && Row(LOWER, 'a', 26) && Row("234567", '2', 6)
  {
  }

  lemma RowsJoined(a: Alphabet, numerals: string, upper: string, lower: string, few: string, signs: string, d: nat)
    requires Row(numerals, '0', 10) && Row(upper, 'A', 26) && Row(lower, 'a', 26) && Row(few, '2', 6) && signs == ['+', '/']
    requires d < MaxRadix(a)
    ensures a.Base36? || a.Base36Upper? ==> (numerals + upper)[d] == DigitChar(a, d)
    ensures a.Base36Lower? ==> (numerals + lower)[d] == DigitChar(a, d)
    ensures a.Base62? ==> (numerals + upper + lower)[d] == DigitChar(a, d)
    ensures a.Rfc4648Base32? ==> (upper + few)[d] == DigitChar(a, d)
    ensures a.Rfc4648Base64? ==> (upper + lower + numerals + signs)[d] == DigitChar(a, d)
  {
  }

  /**
   The flags of an alphabet are the numbers below 6; its digits are written as its letters, and its letters are all
   that is read as a digit, but for the lower-case letters that Base36 reads besides.
  */
  lemma AlphabetIs(index: nat, c: char, d: nat)
    ensures AlphabetOf(index).Some? <==> index < 6
    ensures index < 6 ==> var a, s := AlphabetOf(index).value, Letters(index);
      && MaxRadix(a) == |s| && ZeroChar(a) == s[0]
      && (d < |s| ==> Writer(a)(d) == s[d] && (Reader(a)(c) == d <==> c == s[d] || (index == 0 && c == Letters(2)[d])))
  {
    if index < 6 {
      var a := AlphabetOf(index).value;
      Rows();
      if d < MaxRadix(a) {
        RowsJoined(a, NUMERALS, UPPER, LOWER, "234567", "+/", d);
        if index == 0 { RowsJoined(Base36Lower, NUMERALS, UPPER, LOWER, "234567", "+/", d); }
        CharDigitIff(a, c, d);
      }
    }
  }

  // ----- reading inverts writing -----

  /** Reading inverts writing for the digits of a base, and only 0 is written as zero. */
  ghost predicate Inverse(write: nat -> char, read: char -> nat, zero: char, base: nat) {
    && (forall d: nat {:trigger write(d)} :: d < base ==> read(write(d)) == d && (write(d) == zero <==> d == 0))
    && (forall c: char {:trigger read(c)} :: read(c) == 0 <==> c == zero)
  }

  lemma AlphabetInverse(a: Alphabet, base: nat)
    requires base <= MaxRadix(a)
    ensures Inverse(Writer(a), Reader(a), ZeroChar(a), base)
  {
    var write, read, zero := Writer(a), Reader(a), ZeroChar(a);
    forall c: char ensures read(c) == 0 <==> c == zero { ZeroCharIff(a, c); }
    forall d: nat {:trigger write(d)} | d < base ensures read(write(d)) == d && (write(d) == zero <==> d == 0) {
      CharDigitInverse(a, d);
      ZeroCharIff(a, write(d));
    }
  }

  // ----- numbers -----

  /** The number that the characters lo.. of s up to hi stand for. */
  ghost function Number(s: seq<char>, lo: nat, hi: nat, read: char -> nat, radix: nat): nat
    requires lo <= hi <= |s|
  {
    if lo == hi then 0 else Number(s, lo, hi - 1, read, radix) * radix + read(s[hi - 1])
  }

  ghost predicate AllDigits(s: seq<char>, lo: nat, hi: nat, read: char -> nat, radix: nat)
    requires lo <= hi <= |s|
  {
    forall k :: lo <= k < hi ==> read(s[k]) < radix
  }

  lemma {:induction false} NumberBelow(s: seq<char>, lo: nat, hi: nat, read: char -> nat, radix: nat)
    requires lo <= hi <= |s| && AllDigits(s, lo, hi, read, radix)
    ensures Number(s, lo, hi, read, radix) < Pow(radix, hi - lo)
  {
    if lo < hi {
      NumberBelow(s, lo, hi - 1, read, radix);
      DigitBelow(Number(s, lo, hi - 1, read, radix), Pow(radix, hi - lo - 1), radix, read(s[hi - 1]));
    }
  }

  lemma DigitBelow(x: nat, p: nat, b: nat, d: nat)
    requires x < p && d < b
    ensures x * b + d < b * p
  {
    MulLe(x + 1, p, b, b);
    assert (x + 1) * b == x * b + b;
  }

  lemma {:induction false} NumberSplit(s: seq<char>, lo: nat, mid: nat, hi: nat, read: char -> nat, radix: nat)
    requires lo <= mid <= hi <= |s|
    ensures Number(s, lo, hi, read, radix)
         == Number(s, lo, mid, read, radix) * Pow(radix, hi - mid) + Number(s, mid, hi, read, radix)
  {
    if mid < hi {
      NumberSplit(s, lo, mid, hi - 1, read, radix);
      Horner(Number(s, lo, mid, read, radix), Pow(radix, hi - mid - 1), Number(s, mid, hi - 1, read, radix), radix, read(s[hi - 1]));
    }
  }

  lemma Horner(x: nat, p: nat, y: nat, b: nat, d: nat)
    ensures (x * p + y) * b + d == x * (b * p) + (y * b + d)
  {
    assert (x * p) * b == x * (b * p);
  }

  /** Only the characters count. */
  lemma {:induction false} NumberSame(s: seq<char>, lo: nat, hi: nat, t: seq<char>, at: nat, read: char -> nat, radix: nat)
    requires lo <= hi <= |s| && at + (hi - lo) <= |t|
    requires forall k :: lo <= k < hi ==> s[k] == t[k - lo + at]
    ensures Number(s, lo, hi, read, radix) == Number(t, at, at + (hi - lo), read, radix)
  {
    if lo < hi { NumberSame(s, lo, hi - 1, t, at, read, radix); }
  }

  // ----- the digits of a number -----

  lemma LastDigit(v: nat, base: nat)
    requires base >= 2
    ensures 0 <= v / base && (v > 0 ==> v / base < v) && 0 <= v % base < base && v == v / base * base + v % base
  {
    var q := v / base;
    assert v == q * base + v % base;
    if q < 0 { MulLe(1, 0 - q, base, base); }
    if q > 0 { MulLe(q, q, 2, base); }
  }

  /** What is left of v without its last digit. */
  ghost function Rest(v: nat, base: nat): (q: nat)
    requires base >= 2
    ensures q == v / base && (v > 0 ==> q < v)
  {
    LastDigit(v, base);
    v / base
  }

  /** The string of a number's digits, most significant first. */
  ghost function Spell(v: nat, base: nat, write: nat -> char): seq<char>
    requires base >= 2
  {
    if v == 0 then [] else Spell(Rest(v, base), base, write) + [write(v % base)]
  }

  lemma AppendDigit(t: seq<char>, c: char, read: char -> nat, base: nat)
    requires read(c) < base && AllDigits(t, 0, |t|, read, base)
    ensures var s := t + [c];
      AllDigits(s, 0, |s|, read, base) && Number(s, 0, |s|, read, base) == Number(t, 0, |t|, read, base) * base + read(c)
  {
    var s := t + [c];
    NumberSame(t, 0, |t|, s, 0, read, base);
    assert forall k :: 0 <= k < |t| ==> s[k] == t[k];
  }

  /** Spelling and reading are inverse: the string is all digits, it does not start with a zero, and its number is v. */
  lemma {:induction false} SpellReads(v: nat, base: nat, write: nat -> char, read: char -> nat, zero: char)
    requires base >= 2 && Inverse(write, read, zero, base)
    ensures var s := Spell(v, base, write);
      && AllDigits(s, 0, |s|, read, base) && Number(s, 0, |s|, read, base) == v
      && (v > 0 ==> |s| > 0 && s[0] != zero)
  {
    if v > 0 {
      LastDigit(v, base);
      SpellReads(Rest(v, base), base, write, read, zero);
      AppendDigit(Spell(Rest(v, base), base, write), write(v % base), read, base);
    }
  }

  /** Every character of s is the one that its digit is written as. */
  ghost predicate Written(s: seq<char>, write: nat -> char, read: char -> nat) {
    forall k :: 0 <= k < |s| ==> s[k] == write(read(s[k]))
  }

  lemma {:induction false} SpellWrites(v: nat, base: nat, write: nat -> char, read: char -> nat, zero: char)
    requires base >= 2 && Inverse(write, read, zero, base)
    ensures Written(Spell(v, base, write), write, read)
  {
    if v > 0 {
      LastDigit(v, base);
      SpellWrites(Rest(v, base), base, write, read, zero);
      var d: nat := v % base;
      assert read(write(d)) == d;
    }
  }
}
