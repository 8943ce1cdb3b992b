/** Signed integers as strings: printing with a sign, and reading back into an integer of its own block. */
module IntegerString {
  import opened Common
  import opened Limbs
  import opened Log2
  import opened Values
  import opened Memory
  import opened Scan
  import opened Shift
  import opened Digits
  import opened Print
  import opened Parse
  import opened Prepare
  import opened RoundTrip
  import Z = Integer

  // ----- to a string -----

  /** The packets that are printed: none for zero. */
  ghost function Packets(a: Z.Int): nat
    reads a
  {
    if a.sign == 0 then 0 else a.used
  }

  /** A sign goes in front of what is printed after it. */
  lemma SignHolds(s: seq<char>, len: nat, sgn: seq<char>, t: seq<char>)
    requires |sgn| <= 1 && len <= |s|
    requires if sgn != [] && len >= 2 then s[0] == sgn[0] && Holds(s, 1, len - 1, t) else Holds(s, 0, len, t)
    ensures Holds(s, 0, len, sgn + t)
  {
    if sgn == [] {
      assert sgn + t == t;
    } else if len >= 2 {
      var k := Min(len - 2, |t|);
      assert forall i :: 0 <= i < k ==> s[1 + i] == s[1..1 + k][i] == t[..k][i];
      assert s[0..1 + k] == (sgn + t)[..1 + k];
    }
  }

  method WriteSign(str: array<char>, len: nat, s: int, signFlag: bool) returns (at: nat, rlen: nat)
    requires len <= str.Length
    modifies str
    ensures var sgn := SignChars(s, signFlag);
      && rlen == |sgn| && at == (if sgn != [] && len >= 2 then 1 else 0) && (at == 1 ==> str[0] == sgn[0])
    ensures forall k :: at <= k < str.Length ==> str[k] == old(str[k])
  {
    at, rlen := 0, 0;
    var end := if len > 0 then len - 1 else 0;
    if s < 0 {
      rlen := 1;
      at := Write(str, at, end, '-');
    } else if signFlag {
      rlen := 1;
      at := Write(str, at, end, '+');
    }
  }

  /** A copy of the magnitude, to be used up. */
  method CopyMagnitude(mem: array<Limb>, a: Z.Int, w: nat) returns (n: nat)
    requires a.Live(mem[..]) && Inside(mem, w, a.used * LPP) && a.Clear(w, a.used)
    modifies mem
    ensures n == Packets(a) && Num(mem[..], w, n * LPP) == Abs(old(a.Value(mem[..])))
    ensures SameOutside(old(mem[..]), mem[..], w, w + a.used * LPP)
  {
    n := 0;
    if a.sign != 0 {
      n := a.used;
      Z.PCopy(mem, w, a.packs, n * LPP);
    }
  }

  /**
   hebi_zgetstr, where None stands for the error HEBI_EBADVALUE. The magnitude is copied to the scratch space at w. For
   a base that the alphabet does not have, what is returned is SIZE_MAX, or with a sign 0.
  */
  method ZGetStr(str: array<char>, len: nat, mem: array<Limb>, a: Z.Int, w: nat, base: nat, index: nat, radixFlag: bool, signFlag: bool)
    returns (r: Option<nat>)
    requires len <= str.Length && a.Live(mem[..]) && Inside(mem, w, a.used * LPP) && a.Clear(w, a.used)
    modifies str, mem
    ensures r.None? <==> base < 2 || 64 < base
    ensures r.None? ==> str[..] == old(str[..]) && mem[..] == old(mem[..])
    ensures r.Some? ==>
      var z, x := old(a.Value(mem[..])), AlphabetOf(index);
      if x.None? || MaxRadix(x.value) < base then r.value == if z < 0 || signFlag then 0 else SIZE_MAX
      else
        var full := SignedPrinted(Packets(a), z, base, x.value, radixFlag, signFlag);
        r.value == |full| % (SIZE_MAX + 1) && Holds(str[..], 0, len, full)
    ensures forall k :: len <= k < str.Length ==> str[k] == old(str[k])
    ensures SameOutside(old(mem[..]), mem[..], w, w + a.used * LPP)
  {
    if base < 2 || 64 < base { return None; }
    SignOf(mem[..], a);
    var at, rlen := WriteSign(str, len, a.sign, signFlag);
    var n := CopyMagnitude(mem, a, w);
    ghost var s := str[..];
    var plen := PGetStr(str, at, len - at, mem, w, n, base, index, radixFlag);
    r := Some((rlen + plen) % (SIZE_MAX + 1));
    assert at == 1 ==> str[0] == s[0];
    if AlphabetOf(index).Some? && base <= MaxRadix(AlphabetOf(index).value) {
      SignHolds(str[..], len, SignChars(a.sign, signFlag),
        Printed(n, Abs(old(a.Value(mem[..]))), base, AlphabetOf(index).value, radixFlag));
    }
  }

  lemma SignOf(s: seq<Limb>, a: Z.Int)
    requires a.Live(s)
    ensures a.Value(s) < 0 <==> a.sign < 0
    ensures Abs(a.Value(s)) == a.Magnitude(s) && IsLength(Abs(a.Value(s)), Packets(a))
  {
    assert Pw(0) == 1;
  }

  // ----- from a string -----

  /** How hebi_zsetstr ends: an error is raised, or it says whether there was a number, or its own assertion fails. */
  datatype Reading = Raised(error: Error) | Done(number: bool) | AssertionFails

  /** What a table entry is generated for: enough for its radix, and exactly enough for a power of two. */
  ghost predicate RatioFor(radix: nat, ratio: nat) {
    RatioOk(radix, ratio, B) && (PowerOfTwo(radix) ==> ratio == ShiftRatio(FloorLog2(radix)))
  }

  ghost predicate TableOk(ratios: seq<Limb>) {
    |ratios| == 64 && forall k :: 1 <= k < 64 ==> RatioFor(k + 1, ratios[k])
  }

  /** stop is where the digits from cur on end. */
  ghost predicate DigitsEnd(s: seq<char>, cur: nat, stop: nat, read: char -> nat, radix: nat) {
    cur <= stop <= |s| && AllDigits(s, cur, stop, read, radix) && (stop < |s| ==> read(s[stop]) >= radix)
  }

  lemma StopsThere(s: seq<char>, c0: nat, stop: nat, cur: nat, read: char -> nat, radix: nat)
    requires DigitsEnd(s, c0, stop, read, radix) && c0 <= cur <= |s| && AllDigits(s, c0, cur, read, radix)
    requires cur < |s| ==> read(s[cur]) >= radix
    ensures cur == stop
  {
  }

  /** Taken in chunks of c, the digits before the last chunk leave none of the n packets free. */
  ghost predicate ChunkTight(s: seq<char>, cur: nat, stop: nat, read: char -> nat, radix: nat, c: nat, n: nat)
    requires cur <= stop <= |s| && 0 < c && 0 < n
  {
    !LeavesPacket(s, cur, ChunkStart(cur, LastChunk(cur, stop, |s|, c), c), read, radix, n)
  }

  lemma ShiftEnds(s: seq<Limb>, r: nat, n: nat, str: seq<char>, c0: nat, stop: nat, read: char -> nat, radix: nat, c: nat,
      err: Error, cur: nat, size: nat)
    requires 0 < radix && 0 < c && 0 < n && c0 <= |str| && DigitsEnd(str, c0, stop, read, radix)
    requires Outcome(s, r, n, str, c0, |str|, read, radix, err, cur, size, n - 1)
    requires ShiftStops(str, c0, |str|, read, radix, c, n, err, cur)
    ensures err == BadLength <==> ChunkTight(str, c0, stop, read, radix, c, n)
    ensures err != BadLength ==> (if stop == |str| then err == NoError else err == BadSyntax && cur == stop)
  {
    ShiftRoomIff(s, r, n, str, c0, stop, |str|, read, radix, c, err, cur, size);
    if err == BadSyntax { StopsThere(str, c0, stop, cur, read, radix); }
  }

  lemma MultiplyEnds(s: seq<Limb>, r: nat, n: nat, str: seq<char>, c0: nat, stop: nat, read: char -> nat, radix: nat, ratio: nat,
      err: Error, cur: nat, size: nat)
    requires c0 <= |str| && DigitsEnd(str, c0, stop, read, radix) && !PowerOfTwo(radix)
    requires n == EstimateSpace(ratio, |str| - c0) + 1 && RatioOk(radix, ratio, B)
    requires Outcome(s, r, n, str, c0, |str|, read, radix, err, cur, size, n)
    ensures if stop == |str| then err == NoError else err == BadSyntax && cur == stop
  {
    NeverOutOfRoom(s, r, n, str, c0, |str|, read, radix, ratio, err, cur, size);
    if err == BadSyntax { StopsThere(str, c0, stop, cur, read, radix); }
    if err == NoError { StopsThere(str, c0, stop, |str|, read, radix); }
  }

  /** Digits that do not begin with a zero stand for a number above 0. */
  lemma LeadingDigit(str: seq<char>, lo: nat, hi: nat, a: Alphabet, radix: nat)
    requires lo < hi <= |str| && AllDigits(str, lo, hi, Reader(a), radix) && str[lo] != ZeroChar(a) && 0 < radix
    ensures 0 < Number(str, lo, hi, Reader(a), radix)
  {
    ZeroCharIff(a, str[lo]);
    FirstDigit(str, lo, hi, Reader(a), radix);
    PowPositive(radix, hi - lo - 1);
    AtLeast(Pow(radix, hi - lo - 1), Reader(a)(str[lo]));
    Swap(Pow(radix, hi - lo - 1), Reader(a)(str[lo]));
  }

  /** What reading the digits from c0 on, which end at stop, into the n packets at blk comes to. */
  ghost predicate BlockRead(s: seq<Limb>, blk: nat, n: nat, str: seq<char>, c0: nat, stop: nat, read: char -> nat, radix: nat,
      err: Error, cur: nat, used: nat)
    requires DigitsEnd(str, c0, stop, read, radix) && 0 < n
  {
    if PowerOfTwo(radix) && ChunkTight(str, c0, stop, read, radix, Chunk(radix), n) then err == BadLength && used > n
    else if stop < |str| then err == BadSyntax && used == SIZE_MAX && cur == stop
    else err == NoError && cur == c0 && used > 0 && Stored(s, blk, n, used, Number(str, c0, |str|, read, radix))
  }

  lemma StoredAny(s: seq<Limb>, blk: nat, n: nat, used: nat, v: nat)
    requires Stored(s, blk, n, used, v) && 0 < v
    ensures 0 < used
  {
    assert Pw(0) == 1;
  }

  lemma BlockReads(s: seq<Limb>, blk: nat, n: nat, str: seq<char>, c0: nat, stop: nat, a: Alphabet, radix: nat, ratio: nat,
      err: Error, cur: nat, used: nat)
    requires 2 <= radix <= MaxRadix(a) && c0 < |str| && str[c0] != ZeroChar(a) && DigitsEnd(str, c0, stop, Reader(a), radix)
    requires n == EstimateSpace(ratio, |str| - c0) + 1 <= PACKET_MAXLEN && RatioFor(radix, ratio)
    requires DigitsRead(s, blk, n, str, c0, |str|, Reader(a), radix, ratio, err, cur, used)
    ensures BlockRead(s, blk, n, str, c0, stop, Reader(a), radix, err, cur, used)
  {
    if PowerOfTwo(radix) {
      ShiftEnds(s, blk, n, str, c0, stop, Reader(a), radix, Chunk(radix), err, cur, used);
    } else {
      MultiplyEnds(s, blk, n, str, c0, stop, Reader(a), radix, ratio, err, cur, used);
    }
    if err == NoError {
      LeadingDigit(str, c0, |str|, a, radix);
      StoredAny(s, blk, n, used, Number(str, c0, |str|, Reader(a), radix));
    }
  }

  /** Reads the digits into the block. */
  method ReadBlock(mem: array<Limb>, blk: nat, n: nat, st: State, ratio: Limb, ghost a: Alphabet, ghost stop: nat) returns (used: nat)
    requires AlphabetOf(st.alphabet) == Some(a) && 2 <= st.radix <= MaxRadix(a) && st.err == NoError && RatioFor(st.radix, ratio)
    requires st.cur < st.end == |st.str| && st.str[st.cur] != ZeroChar(a) && DigitsEnd(st.str, st.cur, stop, Reader(a), st.radix)
    requires Inside(mem, blk, n * LPP) && n == EstimateSpace(ratio, |st.str| - st.cur) + 1 <= PACKET_MAXLEN
    modifies mem, st`cur, st`err
    ensures BlockRead(mem[..], blk, n, st.str, old(st.cur), stop, Reader(a), st.radix, st.err, st.cur, used)
    ensures SameOutside(old(mem[..]), mem[..], blk, blk + n * LPP)
  {
    ghost var c0 := st.cur;
    used := PSetStr(mem, blk, n, st, ratio);
    BlockReads(mem[..], blk, n, st.str, c0, stop, a, st.radix, ratio, st.err, st.cur, used);
  }

  /** Enough packets for whatever part of a string of this length is to be read. */
  ghost predicate RoomForAll(ratios: seq<Limb>, len: nat, room: nat) {
    forall k :: 0 <= k < |ratios| ==> EstimateSpace(ratios[k], len) < room
  }

  lemma RoomEnough(ratios: seq<Limb>, len: nat, room: nat, k: nat, digits: nat)
    requires RoomForAll(ratios, len, room) && k < |ratios| && digits <= len
    ensures EstimateSpace(ratios[k], digits) + 1 <= room
  {
    MulLe(ratios[k], ratios[k], digits, len);
  }

  lemma LiveKept(s: seq<Limb>, t: seq<Limb>, r: Z.Int, blk: nat, n: nat, room: nat)
    requires r.Live(s) && r.Clear(blk, room) && n <= room && SameOutside(s, t, blk, blk + n * LPP)
    ensures r.Live(t) && r.Value(t) == r.Value(s)
  {
    ValFrame(s, t, blk, blk + n * LPP, r.packs, r.used * LPP);
  }

  // ----- the whole -----

  /** What reading the digits of str from cur to stop comes to, if v is the integer's value then. */
  ghost predicate ReadAs(str: seq<char>, cur: nat, stop: nat, sign: int, read: char -> nat, radix: nat, ratio: nat,
      res: Reading, endAt: nat, v: int)
    requires DigitsEnd(str, cur, stop, read, radix)
  {
    var n := EstimateSpace(ratio, |str| - cur) + 1;
    if cur == |str| then res == Done(true) && endAt == |str| && v == 0
    else if n > PACKET_MAXLEN then res == Raised(BadLength) && endAt == cur
    else if PowerOfTwo(radix) && ChunkTight(str, cur, stop, read, radix, Chunk(radix), n) then res in {AssertionFails, Raised(BadLength)}
    else if stop < |str| then res == Done(false) && endAt == stop && v == 0
    else res == Done(true) && endAt == cur && v == sign * Number(str, cur, |str|, read, radix)
  }

  /** What preparing and reading leave behind: the used of space packets that the number v takes, or an error. */
  ghost predicate Left(s: seq<Limb>, blk: nat, space: nat, used: nat, v: nat, sign: int, err: Error) {
    match err
    case NoError => space < SIZE_MAX && sign in {-1, 0, 1} && (used == 0 <==> sign == 0) && Stored(s, blk, space, used, v)
    case BadLength => used == SIZE_MAX || used > space
    case _ => used == SIZE_MAX
  }

  /** How the result depends on the error. */
  ghost predicate Concluded(err: Error, used: nat, sign: int, v: nat, res: Reading, z: int) {
    match err
    case NoError => res == Done(true) && z == sign * v
    case BadSyntax => res == Done(false) && z == 0
    case BadValue => res == Raised(BadValue)
    case BadLength => res == if used == SIZE_MAX then Raised(BadLength) else AssertionFails
  }

  /** The end of hebi_zsetstr. */
  method Conclude(r: Z.Int, st: State, blk: nat, space: nat, used: nat, ghost s: seq<Limb>, ghost v: nat) returns (res: Reading)
    requires r.Live(s) && Left(s, blk, space, used, v, st.sign, st.err)
    modifies r
    ensures r.Live(s) && (!res.Done? ==> unchanged(r))
    ensures Concluded(st.err, used, st.sign, v, res, r.Value(s))
  {
    if used == SIZE_MAX {
      if st.err != BadSyntax { return Raised(st.err); }
      r.sign := 0;
      return Done(false);
    }
    if used > space { return AssertionFails; }
    r.packs, r.resv, r.used, r.sign := blk, space, used, st.sign;
    res := Done(true);
  }

  /** The same as ReadAs, before the integer is given its value. */
  ghost predicate Tried(str: seq<char>, cur: nat, stop: nat, read: char -> nat, radix: nat, ratio: nat,
      err: Error, endAt: nat, used: nat, v: nat)
    requires DigitsEnd(str, cur, stop, read, radix)
  {
    var n := EstimateSpace(ratio, |str| - cur) + 1;
    if cur == |str| then err == NoError && endAt == |str| && v == 0
    else if n > PACKET_MAXLEN then err == BadLength && used == SIZE_MAX && endAt == cur
    else if PowerOfTwo(radix) && ChunkTight(str, cur, stop, read, radix, Chunk(radix), n) then err == BadLength
    else if stop < |str| then err == BadSyntax && endAt == stop
    else err == NoError && endAt == cur && v == Number(str, cur, |str|, read, radix)
  }

  /** Where the digits end. */
  lemma {:induction false} EndOfDigits(str: seq<char>, cur: nat, from: nat, read: char -> nat, radix: nat) returns (stop: nat)
    requires cur <= from <= |str| && AllDigits(str, cur, from, read, radix)
    ensures DigitsEnd(str, cur, stop, read, radix)
    decreases |str| - from
  {
    if from == |str| || read(str[from]) >= radix {
      stop := from;
    } else {
      stop := EndOfDigits(str, cur, from + 1, read, radix);
    }
  }

  lemma BlockTried(s: seq<Limb>, blk: nat, n: nat, str: seq<char>, c0: nat, stop: nat, read: char -> nat, radix: nat, ratio: nat,
      err: Error, cur: nat, used: nat, v: nat)
    requires c0 < |str| && DigitsEnd(str, c0, stop, read, radix) && n == EstimateSpace(ratio, |str| - c0) + 1 <= PACKET_MAXLEN
    requires BlockRead(s, blk, n, str, c0, stop, read, radix, err, cur, used)
    requires err == NoError ==> v == Number(str, c0, |str|, read, radix)
    ensures forall sign :: sign in {-1, 1} ==> Left(s, blk, n, used, v, sign, err)
    ensures Tried(str, c0, stop, read, radix, ratio, err, cur, used, v)
  {
  }

  /** stop is the one place where they end. */
  lemma OneEnd(str: seq<char>, cur: nat, stop: nat, read: char -> nat, radix: nat)
    requires DigitsEnd(str, cur, stop, read, radix)
    ensures forall k: nat :: DigitsEnd(str, cur, k, read, radix) ==> k == stop
  {
    forall k: nat | DigitsEnd(str, cur, k, read, radix) ensures k == stop { StopsThere(str, cur, stop, k, read, radix); }
  }

  lemma OneStart(str: seq<char>, start: nat, cur: nat, zero: char)
    requires Trimmed(str, start, cur, zero)
    ensures forall k: nat :: Trimmed(str, start, k, zero) ==> k == cur
  {
  }

  /** Tried and ReadAs for the whole string. */
  ghost predicate StringTried(str: seq<char>, base: nat, index: nat, ratios: seq<Limb>, err: Error, endAt: nat, used: nat, sign: int, v: nat)
    requires |ratios| == 64
  {
    var x := AlphabetOf(index);
    if x.None? then err == BadValue && endAt == 0
    else
      var a, h := x.value, HeaderOf(x.value, str, base, true, true);
      if h.radix < 2 || MaxRadix(a) < h.radix then err == BadValue && endAt == h.digits
      else if h.digits >= |str| then err == BadSyntax && endAt == h.digits
      else forall cur: nat, stop: nat ::
        Trimmed(str, h.digits, cur, ZeroChar(a)) && DigitsEnd(str, cur, stop, Reader(a), h.radix) ==>
          && Tried(str, cur, stop, Reader(a), h.radix, ratios[h.radix - 1], err, endAt, used, v)
          && (cur < |str| && err == NoError ==> sign == h.sign)
  }

  ghost predicate StringRead(str: seq<char>, base: nat, index: nat, ratios: seq<Limb>, res: Reading, endAt: nat, z: int)
    requires |ratios| == 64
  {
    var x := AlphabetOf(index);
    if x.None? then res == Raised(BadValue) && endAt == 0
    else
      var a, h := x.value, HeaderOf(x.value, str, base, true, true);
      if h.radix < 2 || MaxRadix(a) < h.radix then res == Raised(BadValue) && endAt == h.digits
      else if h.digits >= |str| then res == Done(false) && z == 0 && endAt == h.digits
      else forall cur: nat, stop: nat ::
        Trimmed(str, h.digits, cur, ZeroChar(a)) && DigitsEnd(str, cur, stop, Reader(a), h.radix) ==>
          ReadAs(str, cur, stop, h.sign, Reader(a), h.radix, ratios[h.radix - 1], res, endAt, z)
  }

  lemma TriedIs(str: seq<char>, base: nat, index: nat, ratios: seq<Limb>, err: Error, endAt: nat, used: nat, sign: int, v: nat,
      res: Reading, z: int)
    requires |ratios| == 64 && StringTried(str, base, index, ratios, err, endAt, used, sign, v) && Concluded(err, used, sign, v, res, z)
    ensures StringRead(str, base, index, ratios, res, endAt, z)
  {
  }

  /** Nothing is read when preparing fails, or when it finds zeros only. */
  lemma NothingRead(s: seq<Limb>, blk: nat, str: seq<char>, base: nat, index: nat, ratios: seq<Limb>,
      err: Error, cur: nat, radix: nat, sign: int, space: nat)
    requires |ratios| == 64 && Prepared(str, base, index, true, true, ratios, err, cur, radix, sign, space)
    requires space == 0 || space == SIZE_MAX
    requires blk <= |s|
    ensures Left(s, blk, space, space, 0, sign, err)
    ensures StringTried(str, base, index, ratios, err, cur, space, sign, 0)
  {
  }

  /** What there is to be read otherwise. */
  lemma SomethingPrepared(str: seq<char>, base: nat, index: nat, ratios: seq<Limb>, err: Error, cur: nat, radix: nat, sign: int, space: nat,
      room: nat)
    requires TableOk(ratios) && RoomForAll(ratios, |str|, room)
    requires Prepared(str, base, index, true, true, ratios, err, cur, radix, sign, space) && 0 < space && space != SIZE_MAX
    ensures err == NoError && AlphabetOf(index).Some? && 2 <= radix <= MaxRadix(AlphabetOf(index).value)
    ensures cur < |str| && str[cur] != ZeroChar(AlphabetOf(index).value) && RatioFor(radix, ratios[radix - 1])
    ensures space == EstimateSpace(ratios[radix - 1], |str| - cur) + 1 <= PACKET_MAXLEN && space <= room
  {
    var x := ratios[radix - 1];
    RoomEnough(ratios, |str|, room, radix - 1, |str| - cur);
  }

  lemma SomethingRead(s: seq<Limb>, blk: nat, str: seq<char>, base: nat, index: nat, ratios: seq<Limb>,
      c0: nat, radix: nat, sign: int, space: nat, stop: nat, err: Error, cur: nat, used: nat, v: nat)
    requires |ratios| == 64 && AlphabetOf(index).Some? && 2 <= radix <= 64 && c0 < |str|
    requires space == EstimateSpace(ratios[radix - 1], |str| - c0) + 1 <= PACKET_MAXLEN
    requires Prepared(str, base, index, true, true, ratios, NoError, c0, radix, sign, space)
    requires DigitsEnd(str, c0, stop, Reader(AlphabetOf(index).value), radix)
    requires BlockRead(s, blk, space, str, c0, stop, Reader(AlphabetOf(index).value), radix, err, cur, used)
    requires err == NoError ==> v == Number(str, c0, |str|, Reader(AlphabetOf(index).value), radix)
    ensures Left(s, blk, space, used, v, sign, err)
    ensures StringTried(str, base, index, ratios, err, cur, used, sign, v)
  {
    var a := AlphabetOf(index).value;
    var h := HeaderOf(a, str, base, true, true);
    OneStart(str, h.digits, c0, ZeroChar(a));
    OneEnd(str, c0, stop, Reader(a), radix);
    BlockTried(s, blk, space, str, c0, stop, Reader(a), radix, ratios[radix - 1], err, cur, used, v);
  }

  /** Reads the digits that were found, if there are any. */
  method ReadPrepared(mem: array<Limb>, st: State, blk: nat, room: nat, space: nat, ghost base: nat, index: nat, ratios: seq<Limb>)
    returns (used: nat, ghost v: nat)
    requires TableOk(ratios) && RoomForAll(ratios, |st.str|, room) && Inside(mem, blk, room * LPP)
    requires st.alphabet == index && st.end == |st.str|
    requires Prepared(st.str, base, index, true, true, ratios, st.err, st.cur, st.radix, st.sign, space)
    modifies mem, st`cur, st`err
    ensures Left(mem[..], blk, space, used, v, st.sign, st.err)
    ensures StringTried(st.str, base, index, ratios, st.err, st.cur, used, st.sign, v)
    ensures SameOutside(old(mem[..]), mem[..], blk, blk + room * LPP)
  {
    used, v := space, 0;
    ghost var str, c0 := st.str, st.cur;
    if 0 < space && space != SIZE_MAX {
      SomethingPrepared(str, base, index, ratios, st.err, c0, st.radix, st.sign, space, room);
      ghost var read := Reader(AlphabetOf(index).value);
      ghost var stop := EndOfDigits(str, c0, c0, read, st.radix);
      used := ReadBlock(mem, blk, space, st, ratios[st.radix - 1], AlphabetOf(index).value, stop);
      if st.err == NoError { v := Number(str, c0, |str|, read, st.radix); }
      SomethingRead(mem[..], blk, str, base, index, ratios, c0, st.radix, st.sign, space, stop, st.err, st.cur, used, v);
    } else {
      NothingRead(mem[..], blk, str, base, index, ratios, st.err, c0, st.radix, st.sign, space);
    }
  }

  /**
   hebi_zsetstr, with the block that its temporary is given at blk; st is its local state. r takes that block over when
   a number was read, keeps its own as zero when there was none, and is left alone otherwise.
  */
  method ZSetStr(mem: array<Limb>, r: Z.Int, st: State, str: seq<char>, base: nat, index: nat, blk: nat, room: nat, ratios: seq<Limb>)
    returns (res: Reading, endAt: nat)
    requires TableOk(ratios) && RoomForAll(ratios, |str|, room)
    requires r.Live(mem[..]) && Inside(mem, blk, room * LPP) && r.Clear(blk, room)
    modifies mem, r, st
    ensures r.Live(mem[..]) && (!res.Done? ==> unchanged(r) && r.Value(mem[..]) == old(r.Value(mem[..])))
    ensures StringRead(str, base, index, ratios, res, endAt, r.Value(mem[..]))
    ensures SameOutside(old(mem[..]), mem[..], blk, blk + room * LPP)
  {
    ghost var S: seq<Limb> := mem[..];
    var space := PSetStrPrepare(st, str, base, index, true, true, ratios);
    var used;
    ghost var v;
    used, v := ReadPrepared(mem, st, blk, room, space, base, index, ratios);
    endAt := st.cur;
    LiveKept(S, mem[..], r, blk, room, room);
    res := Conclude(r, st, blk, space, used, mem[..], v);
    TriedIs(str, base, index, ratios, st.err, endAt, used, st.sign, v, res, r.Value(mem[..]));
  }

  // ----- there and back -----

  /** How many of k digits the last chunk has. */
  function LastDigits(k: nat, c: nat): (l: nat)
    requires 0 < k && 0 < c
    ensures 0 < l <= k
  {
    DivUnique(k - 1, c, (k - 1) / c, (k - 1) % c);
    k - (k - 1) / c * c
  }

  /**
   The number v of k digits is one that hebi_zsetstr does not read: in a power of two, what is left of it without its
   last chunk takes all of the packets that were prepared.
  */
  ghost predicate NoSpare(v: nat, k: nat, base: nat) {
    PowerOfTwo(base) && 0 < k && Pw(FloorLog2(base) * k / 128 * LPP) * Pow(base, LastDigits(k, Chunk(base))) <= v
  }

  /** Whether the number so far reaches m is seen from the whole number. */
  lemma LeadingReaches(s: seq<char>, lo: nat, q: nat, read: char -> nat, radix: nat, m: nat)
    requires lo <= q <= |s| && AllDigits(s, lo, |s|, read, radix)
    ensures m <= Number(s, lo, q, read, radix) <==> m * Pow(radix, |s| - q) <= Number(s, lo, |s|, read, radix)
  {
    NumberSplit(s, lo, q, |s|, read, radix);
    NumberBelow(s, q, |s|, read, radix);
    var d, p, e := Number(s, lo, q, read, radix), Pow(radix, |s| - q), Number(s, q, |s|, read, radix);
    Reaches(m, d, p, e);
  }

  lemma Reaches(m: nat, d: nat, p: nat, e: nat)
    requires e < p
    ensures m <= d <==> m * p <= d * p + e
  {
    if m <= d { MulLe(m, d, p, p); } else { MulLe(d + 1, m, p, p); }
    assert (d + 1) * p == d * p + p;
  }

  lemma NoSpareIff(s: seq<char>, cur: nat, read: char -> nat, radix: nat, ratio: nat, c: nat, rb: nat)
    requires cur < |s| && AllDigits(s, cur, |s|, read, radix) && ratio == ShiftRatio(rb) && 0 < c
    ensures var v, n, k := Number(s, cur, |s|, read, radix), EstimateSpace(ratio, |s| - cur) + 1, |s| - cur;
      ChunkTight(s, cur, |s|, read, radix, c, n) <==> Pw(rb * k / 128 * LPP) * Pow(radix, LastDigits(k, c)) <= v
  {
    var k := |s| - cur;
    ShiftEstimate(rb, k);
    var q := ChunkStart(cur, |s|, c);
    assert |s| - q == LastDigits(k, c);
    LeadingReaches(s, cur, q, read, radix, Pw(rb * k / 128 * LPP));
  }

  /** Numbers whose digits make up whole packets are always read, */
  lemma WholePackets(v: nat, k: nat, base: nat)
    requires PowerOfTwo(base) && FloorLog2(base) * k % 128 == 0 && v < Pow(base, k)
    ensures !NoSpare(v, k, base)
  {
    RadixBits(base);
    var rb := FloorLog2(base);
    RadixPow(base, rb, k);
    PacketBits(rb * k / 128);
    if 0 < k {
      PowPositive(base, LastDigits(k, Chunk(base)));
      AtLeast(Pow(base, LastDigits(k, Chunk(base))), Pow(base, k));
      Swap(Pow(base, LastDigits(k, Chunk(base))), Pow(base, k));
    }
  }

  lemma LastOne(rb: nat, c: nat)
    requires 0 < rb <= 6 && c == 64 / rb
    ensures 0 < c && LastDigits(c + 1, c) == 1 && rb * (c + 1) / 128 == 0
  {
    ChunkBits(rb);
    DivUnique(c, c, 1, 0);
    DivUnique(rb * (c + 1), 128, 0, rb * (c + 1));
  }

  lemma OneUnit(base: nat, m: nat, v: nat)
    requires 0 < base && 0 < m && Pow(base, m) <= v
    ensures Pw(0 * LPP) * Pow(base, 1) <= v
  {
    PowMono(base, 1, m);
    assert Pw(0) == 1;
  }

  /** and those of one digit more than a chunk never. */
  lemma ChunkAndOne(v: nat, base: nat)
    requires PowerOfTwo(base) && Pow(base, Chunk(base)) <= v
    ensures NoSpare(v, Chunk(base) + 1, base)
  {
    RadixBits(base);
    LastOne(FloorLog2(base), Chunk(base));
    OneUnit(base, Chunk(base), v);
  }

  lemma DigitsComeBack(t: seq<char>, cur: nat, sign: int, read: char -> nat, radix: nat, ratio: nat, v: nat,
      res: Reading, endAt: nat, back: int)
    requires cur <= |t| && AllDigits(t, cur, |t|, read, radix) && v == Number(t, cur, |t|, read, radix) && RatioFor(radix, ratio)
    requires EstimateSpace(ratio, |t| - cur) < PACKET_MAXLEN
    requires DigitsEnd(t, cur, |t|, read, radix) && ReadAs(t, cur, |t|, sign, read, radix, ratio, res, endAt, back)
    ensures if NoSpare(v, |t| - cur, radix) then res in {AssertionFails, Raised(BadLength)} else res == Done(true) && back == sign * v
  {
    if cur < |t| && PowerOfTwo(radix) {
      NoSpareIff(t, cur, read, radix, ratio, Chunk(radix), FloorLog2(radix));
    }
  }

  /** Behind sign, prefix and zeros, t has from cur on the digits of the integer z, and it is seen to be that. */
  ghost predicate Spells(t: seq<char>, z: int, base: nat, a: Alphabet, cur: nat) {
    var h := HeaderOf(a, t, base, true, true);
    && 2 <= base <= MaxRadix(a) && h.radix == base && h.digits < |t| && h.sign == (if z < 0 then -1 else 1)
    && Trimmed(t, h.digits, cur, ZeroChar(a)) && AllDigits(t, cur, |t|, Reader(a), base)
    && Number(t, cur, |t|, Reader(a), base) == Abs(z) && |t| - cur == |PrintedDigits(Abs(z), base, a)|
  }

  /** The strings of hebi_zgetstr are of this kind, unless their sign is a plus that is a digit. */
  lemma SignedSpells(n: nat, z: int, base: nat, a: Alphabet, radixFlag: bool, signFlag: bool) returns (cur: nat)
    requires 2 <= base <= MaxRadix(a) && IsLength(Abs(z), n) && !(z >= 0 && signFlag && a.Rfc4648Base64?)
    ensures Spells(SignedPrinted(n, z, base, a, radixFlag, signFlag), z, base, a, cur)
  {
    SignedHeader(n, z, base, a, radixFlag, true, signFlag);
    cur := SignedDigits(n, z, base, a, radixFlag, signFlag);
  }

  lemma ReadOf(t: seq<char>, base: nat, index: nat, a: Alphabet, cur: nat, stop: nat, ratios: seq<Limb>, res: Reading, endAt: nat, z: int)
    requires |ratios| == 64 && AlphabetOf(index) == Some(a) && StringRead(t, base, index, ratios, res, endAt, z)
    requires var h := HeaderOf(a, t, base, true, true);
      && 2 <= h.radix <= MaxRadix(a) && h.digits < |t|
      && Trimmed(t, h.digits, cur, ZeroChar(a)) && DigitsEnd(t, cur, stop, Reader(a), h.radix)
    ensures var h := HeaderOf(a, t, base, true, true);
      ReadAs(t, cur, stop, h.sign, Reader(a), h.radix, ratios[h.radix - 1], res, endAt, z)
  {
  }

  /** What hebi_zsetstr makes of them. */
  lemma StringComesBack(t: seq<char>, z: int, base: nat, index: nat, a: Alphabet, cur: nat, ratios: seq<Limb>,
      res: Reading, endAt: nat, back: int)
    requires TableOk(ratios) && AlphabetOf(index) == Some(a) && Spells(t, z, base, a, cur)
    requires EstimateSpace(ratios[base - 1], |PrintedDigits(Abs(z), base, a)|) < PACKET_MAXLEN
    requires StringRead(t, base, index, ratios, res, endAt, back)
    ensures if NoSpare(Abs(z), |PrintedDigits(Abs(z), base, a)|, base) then res in {AssertionFails, Raised(BadLength)}
            else res == Done(true) && back == z
  {
    var sign := if z < 0 then -1 else 1;
    assert DigitsEnd(t, cur, |t|, Reader(a), base);
    ReadOf(t, base, index, a, cur, |t|, ratios, res, endAt, back);
    DigitsComeBack(t, cur, sign, Reader(a), base, ratios[base - 1], Abs(z), res, endAt, back);
  }

  /**
   Prints an integer and reads the string back into r, which may be the same object: r is that integer then, for every
   value, base and alphabet, with or without a prefix or a plus sign, exactly when the number is not one of those that
   hebi_zsetstr does not read. Plus signs in the last alphabet are left out; PlusIsRead is about them.
  */
  method PrintThenRead(str: array<char>, len: nat, mem: array<Limb>, a: Z.Int, w: nat, r: Z.Int, st: State, blk: nat, room: nat,
      base: nat, index: nat, radixFlag: bool, signFlag: bool, ratios: seq<Limb>, ghost x: Alphabet)
    returns (res: Reading, endAt: nat)
    requires AlphabetOf(index) == Some(x) && 2 <= base <= MaxRadix(x) && TableOk(ratios)
    requires a.Live(mem[..]) && Inside(mem, w, a.used * LPP) && a.Clear(w, a.used)
    requires r.Live(mem[..]) && Inside(mem, blk, room * LPP) && r.Clear(blk, room) && r.Clear(w, a.used)
    requires !(a.Value(mem[..]) >= 0 && signFlag && x.Rfc4648Base64?)
    requires |SignedPrinted(Packets(a), a.Value(mem[..]), base, x, radixFlag, signFlag)| < len <= Min(str.Length, SIZE_MAX)
    requires RoomForAll(ratios, len, room) && room <= PACKET_MAXLEN
    modifies str, mem, r, st
    ensures var z := old(a.Value(mem[..]));
      if NoSpare(Abs(z), |PrintedDigits(Abs(z), base, x)|, base) then res in {AssertionFails, Raised(BadLength)} && unchanged(r)
      else res == Done(true) && r.Live(mem[..]) && r.Value(mem[..]) == z
  {
    ghost var S, n, z: int := mem[..], Packets(a), a.Value(mem[..]);
    SignOf(S, a);
    var k := ZGetStr(str, len, mem, a, w, base, index, radixFlag, signFlag);
    LiveKept(S, mem[..], r, w, a.used, a.used);
    ghost var t := SignedPrinted(n, z, base, x, radixFlag, signFlag);
    Full(str[..], len, t, k.value);
    DigitsShorter(n, z, base, x, radixFlag, signFlag);
    RoomEnough(ratios, len, room, base - 1, |PrintedDigits(Abs(z), base, x)|);
    RoomForFewer(ratios, len, room, |t|);
    res, endAt := ZSetStr(mem, r, st, str[..k.value], base, index, blk, room, ratios);
    ghost var cur := SignedSpells(n, z, base, x, radixFlag, signFlag);
    StringComesBack(t, z, base, index, x, cur, ratios, res, endAt, r.Value(mem[..]));
  }

  lemma Full(s: seq<char>, len: nat, t: seq<char>, k: nat)
    requires len <= |s| && Holds(s, 0, len, t) && |t| < len <= SIZE_MAX && k == |t| % (SIZE_MAX + 1)
    ensures k == |t| && s[..k] == t
  {
    DivUnique(|t|, SIZE_MAX + 1, 0, |t|);
    assert s[0..0 + k] == t[..k];
  }

  lemma DigitsShorter(n: nat, z: int, base: nat, a: Alphabet, radixFlag: bool, signFlag: bool)
    requires 2 <= base <= MaxRadix(a) && IsLength(Abs(z), n)
    ensures |PrintedDigits(Abs(z), base, a)| <= |SignedPrinted(n, z, base, a, radixFlag, signFlag)|
  {
    PrintedIs(n, Abs(z), base, a, radixFlag);
  }

  lemma RoomForFewer(ratios: seq<Limb>, len: nat, room: nat, fewer: nat)
    requires RoomForAll(ratios, len, room) && fewer <= len
    ensures RoomForAll(ratios, fewer, room)
  {
    forall k | 0 <= k < |ratios| ensures EstimateSpace(ratios[k], fewer) < room {
      RoomEnough(ratios, len, room, k, fewer);
    }
  }
}
