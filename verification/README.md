# hebimath: a verified model of the packet kernels

hebimath is an arbitrary precision arithmetic library in C. Its numbers are little-endian sequences of *packets*,
two 64-bit limbs each. This project models the generic C kernels that work on such sequences, the signed integers and
the string conversion built on them, and the allocator table with its thread-local cache, and proves what they compute.

`dafny verify dfyconfig.toml` checks the whole project.

## How the model is laid out

* **Memory.** The kernels share one `array<Limb>`, and a C pointer is an index into it, so operands may overlap just as
  they may in C. `Values.Val(mem[..], p, n)` is the number that the `n` limbs at `p` stand for; a limb is a number below
  `B` = 2^64 and every place where the C code wraps is written out (`Low`, `Wrap2`). Each kernel is a method in the C
  code's own loops, and its contract gives the value left behind and says that nothing else was written.
* **Shared definitions** are in `Common`, `Limbs`, `Values` and `Memory`.
* **Division** is layered: `Reciprocal64` (the table and the Newton steps), `DivideLimbs` (2/1 and 3/2 limb division
  and the 3/2 reciprocal), `SmallDivide` (a sequence by one or two limbs), `LongDivision` (the value of one pass and of
  a run of the long division loop), `LongDivide` (the same loop on memory), `Divide` (`hebi_pdivrem`) and `Integer`
  (`hebi_zdivrem`). `WrongRuns` is about runs of the loop as written that go wrong.
* **Multiplication**: `Multiply` (schoolbook), `Karatsuba`, `KaratsubaSpace`, `KaratsubaMul`.
* **Strings**: `Digits` (alphabets, positional notation), `Print`, `Parse`, `Prepare`, `RoundTrip`, and on top of them
  `IntegerString` (`hebi_zgetstr`, `hebi_zsetstr`).
* **Allocators**: `AllocTable`, `AllocCache`.

### The long division loop, as written and repaired

Two rare branches of `src/p/generic/pdivremr.c` do not keep the loop's invariant: the estimate taken when the two top
limbs equal the divisor's (lines 69-76; see also the TODO at `check/z/zdivrem.c:92-98`), and the pass that
follows an add-back, which goes on with the local `u0` although lines 99-104 have changed `ul[m+n]` (lines 91-107).
`LongDivide.PDivRemR` therefore takes a flag. With `repaired == false` it is the code as it is. With `repaired == true`
the first branch uses the exact top `<d1,d0> + ul[m+n]`, with its carry, for the digit B-1, and the second reloads
`u0`. For both, the method is proved equal to one run of the value-level loop, and then:

* repaired, the loop divides, for every dividend and divisor (`LongDivision.RunMeant`);
* as written, a single pass from a sound state is right exactly when `TopOk` holds, and leaves a sound state exactly
  when `RegisterOk` holds (`PassExactIff`, `RegisterExactIff`);
* as written, on every dividend with which no pass meets equal tops, the whole run is right exactly when no pass but
  the last leaves a stale register (`RunClearIff`);
* as written, on every dividend whose passes before the last are sound, the run is right exactly when the last pass
  takes a right estimate (`RunAsWrittenIff`);
* as written, if one pass goes wrong but leaves a remainder below the divisor, and no pass after it meets equal tops, the
  run is right exactly when remainder and register together are right all the same and stay so (`OneWrongPassIff`); a
  wrong equal top without an add-back is never made good in this way (`WrongTopNeverDivides`);
* two concrete dividends on which the code as written is wrong (`EqualTopCounterexample`, `StaleRegisterCounterexample`),
  also as operands of `hebi_pdivrem` (`EqualTopInKernel`, `StaleRegisterInKernel`), and one on which two wrong passes
  cancel (`CancellationExample`).

`hebi_pdivrem` and `hebi_zdivrem` are exact for all operands with the repairs, and as written for the operands whose
run is right in the sense of `RunAsWrittenIff` (`LoopRight`). For all other operands too, the code as written stays
inside its buffers and leaves normalised numbers.

### Other places where the code does less than its comments say

* `hebi_psqr_karatsuba_space(9)` is one packet short; it is enough for every other length (`SpaceEnoughIff`).
* `hebi_pmul_karatsuba` multiplies operands of every shape, but for some shapes its loops run up to two packets past the
  `an + bn + 1` packets of the result; what is there they write back as it was. `Extent` is how far they go for given
  operands, `PMulKaratsuba` demands no more than that to be readable and writable, and `FitsIff` gives exactly the
  shapes on which no operands take the code past the result: 13 by 9 is one, 15 by 9 is not. The workspace is given as
  the recursive `MulNeed`.
* `readshift` gives up when a chunk is to be shifted in and no packet is left over above the number so far. `ShiftRoomIff`
  says exactly when that happens, and `PreparedRoomIff` exactly when the room that `hebi_psetstrprepare` returns is too
  short, from the number of digits and the first digit alone; 17 digits in base 16 are (`OneDigitOver`). One packet more is
  always enough (`NeverOutOfRoom`).
* `hebi_zsetstr` passes that room on as it is (`src/z/zsetstr.c:28-32`), and then its assertion that no more was used
  than there is (line 48) fails. `NoSpare` says for which numbers: in a power of two, for all of one digit more than a chunk
  (`ChunkAndOne`), and for none whose digits make up whole packets (`WholePackets`). In the other bases every number is read
  (`PrintThenRead`).
* When a number was read, the place that `hebi_zsetstr` stores through `endptr` is not where the digits end but where they
  begin, behind the leading zeros: only errors move `hm_cur` on (`StringRead`).
* In the alphabet of RFC 4648 base 64 `hebi_zgetstr` writes a plus sign if asked for one, but the parser takes it for the
  digit 62 (`PlusIsRead`). Every other sign comes back (`SignedHeader`).
* For a base that the alphabet does not have, `hebi_zgetstr` returns SIZE_MAX plus the length of the sign, so 0 with a sign
  (`ZGetStr`).
* The size reported with HEBI_EBADLENGTH may be a packet short (`ReportedTooSmall`); `SecondAttemptIff` says when.
* With base 0 the parser takes the bare `0` that the printer writes for zero in base 8 or 10 for a radix prefix
  without digits, and rejects it; every other number printed in a base with a prefix, or in base 10, comes back
  (`AutomaticRadixIff`, `PrintThenParseAutomatic`).
* `hebi_alloc_remove` reports an error only when the slot was never used; for a stale id of a known slot it silently
  does nothing (`AllocTable.Table.RemoveEntry`).
* The id that a free slot will be given next validates before it is given out (`FreeSlotValidates`), and removing it puts
  the slot on the free list twice (`RemoveWfIff`).

## Model

| member | source | states |
|---|---|---|
| `Reciprocal64.Seed` | src/p/recipu64lut.c:65 | for every index, the table's approximation times any divisor with these leading bits is within 1280 * 2^31 of 2^50 |
| `Reciprocal64.Step1` | src/p/generic/recipu2x1.c:25 | one Newton step leaves a positive error of at most 29 * 2^38 at scale 2^60, so nothing wraps |
| `Reciprocal64.Step2` | src/p/generic/recipu2x1.c:26 | the second step's product stays below 2^64 and its error is positive and below the divisor plus 7 * 2^40 |
| `Reciprocal64.Step3` | src/p/generic/recipu2x1.c:27-28 | from half the error, the third step is a multiplier at most one too small, between 2^64 and 2^65 |
| `Reciprocal64.V4Exact` | src/p/generic/recipu2x1.c:29-35 | the last correction, computed from wrapped high words only, picks the one right reciprocal |
| `Reciprocal64.Recip2x1Exact` | src/p/generic/recipu2x1.c:10-36 | for every d with its top bit set the function returns floor((B^2-1)/d) - B, through every wrapping operation |
| `DivideLimbs.RecipIsQuotient` | src/p/generic/recipu2x1.c:10-36 | being that quotient is the same as B + v being the largest multiplier that keeps d below B^2 |
| `DivideLimbs.Recip2IsQuotient` | src/p/generic/recipu3x2.c:8-39 | the same for a two-limb divisor: v is floor((B^3-1)/(d1*B+d0)) - B exactly when B + v is the largest multiplier below B^3 |
| `DivideLimbs.Recip3x2` | src/p/generic/recipu3x2.c:8-39 | for every normalised pair of limbs the adjusted value is the exact 3/2 reciprocal |
| `DivideLimbs.DivRem2x1` | src/p/generic/generic.h:8-33 | quotient and remainder of two limbs by one are exact, with two conditional corrections and all arithmetic modulo B |
| `DivideLimbs.DivRem3x2` | src/p/generic/generic.h:35-71 | the code returns, for any limbs at all, the pair that Divide3x2Exact is about |
| `DivideLimbs.Divide3x2Exact` | src/p/generic/generic.h:35-71 | that pair is the exact quotient and two-limb remainder whenever the upper limbs are below the divisor |
| `SmallDivide.PDivRemU2x1` | src/p/generic/pdivremru2x1.c:8-60 | any length, in place or not, skipped top digit or not: value(a) = value(q)*b + result with result < b where d = b << bits |
| `SmallDivide.PDivRemU3x2` | src/p/generic/pdivremru3x2.c:23-79 | the same for a two-limb divisor, on the shifted and the unshifted path |
| `LongDivision.EstimateMeant` | src/p/generic/pdivremr.c:65-76 | with the repair, the digit estimated from three limbs leaves a non-negative rest, below the divisor's top limbs unless the digit is B-1 |
| `LongDivision.EqualTopExactIff` | src/p/generic/pdivremr.c:69-76 | the top computed as written equals the exact one only if d0 = d1 + 1 and the third limb is d0 |
| `LongDivision.DigitMeant` | src/p/generic/pdivremr.c:65-110 | one pass gives a digit q and a remainder r with dividend = q*d + r and 0 <= r < d, so one add-back is enough, and the register holds the remainder's second limb |
| `LongDivision.RunMeant` | src/p/generic/pdivremr.c:64-113 | every run of the repaired loop divides: quotient digits and remainder of the whole dividend |
| `LongDivision.PassExactIff` | src/p/generic/pdivremr.c:65-110 | from a sound state the pass as written gives the right digit and remainder if and only if TopOk holds |
| `LongDivision.RegisterExactIff` | src/p/generic/pdivremr.c:91-107 | and then it leaves the right register if and only if there was no add-back or one that kept the second limb |
| `LongDivision.RunAsWrittenIff` | src/p/generic/pdivremr.c:64-113 | if every pass but the last is good, the run as written divides if and only if the last pass has a right estimate |
| `LongDivision.RunError` | src/p/generic/pdivremr.c:64-113 | the stale registers of a run without equal tops add up to an error that is 0 only if there was none; the remainder stays below the divisor all the same |
| `LongDivision.RunClearIff` | src/p/generic/pdivremr.c:64-113 | without equal tops, the run as written divides if and only if every pass but the last leaves the right second limb in the register |
| `LongDivision.EqualTopCounterexample` | src/p/generic/pdivremr.c:69-76 | 2^383 by 2^255 + 1: the code as written does not divide |
| `LongDivision.StaleRegisterCounterexample` | src/p/generic/pdivremr.c:98-107 | a dividend without equal tops on which the code as written does not divide |
| `WrongRuns.PassError` | src/p/generic/pdivremr.c:65-110 | from a sound state the pass as written is off by a multiple of the weight of the second limb, with or without an add-back |
| `WrongRuns.OneWrongPassIff` | src/p/generic/pdivremr.c:64-113 | after a pass that may be wrong but leaves a remainder below the divisor, with only clear passes to follow, the run divides if and only if remainder and register together are right and every later pass but the last keeps them so |
| `WrongRuns.WrongTopNeverDivides` | src/p/generic/pdivremr.c:69-95 | so a wrong equal top without an add-back is never made good by clear passes |
| `WrongRuns.CancellationExample` | src/p/generic/pdivremr.c:69-76 | but a second wrong equal top may cancel it: an input on which the first pass is wrong and the run divides |
| `WrongRuns.EqualTopInKernel` | src/p/pdivrem.c:44-58 | for 2^383 by 2^255 + 1 what hebi_pdivrem's kernel leaves is not quotient and remainder |
| `WrongRuns.StaleRegisterInKernel` | src/p/pdivrem.c:44-58 | nor for the dividend of the stale register |
| `LongDivide.MulSub` | src/p/generic/pdivremr.c:78-90 | the inner loop subtracts q*d from n limbs, up to the borrow it returns |
| `LongDivide.AddInto` | src/p/generic/pdivremr.c:99-104 | the add-back adds d to n limbs, up to the carry it returns |
| `LongDivide.DigitPass` | src/p/generic/pdivremr.c:65-110 | the pass on memory, with its skipped low zero limbs and its register, is the value-level pass, as written or repaired |
| `LongDivide.PDivRemR` | src/p/generic/pdivremr.c:21-115 | the kernel on memory leaves the quotient and remainder of one value-level run from the adjusted top, and writes nothing else |
| `LongDivide.KernelDivides` | src/p/generic/pdivremr.c:44-115 | top limb, quotient and remainder divide the whole dividend: always with the repairs, and as written on right runs |
| `Divide.ShiftedLengths` | src/p/pdivrem.c:44-51 | the normalised divisor keeps its length and the shifted dividend gains at most one packet |
| `Divide.ExtraDigit` | src/p/pdivrem.c:58-62 | the extra top digit can be non-zero only if the shifted dividend did not grow, so an - bn + 1 packets are enough |
| `Divide.Denormalise` | src/p/pdivrem.c:64-67 | dividing the scaled operands gives the same quotient, and shifting the remainder back is exact |
| `Divide.PDivRem` | src/p/pdivrem.c:8-125 | for all normalised operands, an >= bn, any divisor size, null r or not: quotient, remainder and both normalised lengths are exact if the loop is repaired or right as written; in any case only an - bn + 1, bn and an + bn + 2 packets are written and the results are normalised |
| `Integer.ZSet` | hebimath.h.in:502-533 | assignment copies the value, keeps r's block unless it is too small, and writes nothing else |
| `Integer.ZAddSub` | src/z/zaddsub.h:8-63 | the result is as*abs(a) + bs*abs(b), normalised, whichever of the three objects are the same |
| `Integer.ZAdd` | src/z/zadd.c:8-26 | signed sum for every sign mix and aliasing |
| `Integer.ZSub` | src/z/zsub.c:8-27 | signed difference for every sign mix and aliasing |
| `Integer.ZDivRem` | src/z/zdivrem.c:8-88 | division truncates toward zero for every sign mix, with q or r absent or aliasing the operands, if the loop is repaired or right as written; in any case q and r stay well formed; division by zero is the one of two errors the dividend decides and changes nothing |
| `Integer.TruncationUnique` | src/z/zdivrem.c:51-87 | the truncated pair is the only one with x = q*y + r, r smaller than y and of x's sign |
| `AddSub.PAdd` | src/p/generic/padd.c:8-48 | sum and carry of sequences of different lengths, in place too |
| `AddSub.PAddA` | src/p/generic/padda.c:8-45 | the accumulating sum and its carry |
| `AddSub.PSub` | src/p/generic/psub.c:8-48 | difference and borrow, in place too |
| `AddSub.PSubA` | src/p/generic/psuba.c:8-45 | the accumulating difference and its borrow |
| `AddSub.PAddU` | src/p/generic/paddu.c:8-54 | sum with a word and the carry |
| `Scan.PCmp` | src/p/generic/pcmp.c:8-30 | the sign of the result is the order of the values |
| `Scan.PNorm` | src/p/generic/pnorm.c:8-29 | the result is the least number of packets that hold the value |
| `Scan.PClz` | src/p/generic/pclz.c:8-30 | shifting by the result puts the value's top bit at the top of the sequence and loses nothing |
| `Shift.PShl` | src/p/generic/pshl.c:9-66 | value(a)*2^b is left, overlapping upward or not, and the returned length drops the top packet exactly when it is zero |
| `Shift.PShr` | src/p/generic/pshr.c:9-54 | floor(value(a)/2^b) is left, in place or not, with the same length rule |
| `Shift.ShlIsLength` | src/p/generic/pshl.c:25-65 | for a normalised operand the left shift's length is the normalised length of the result |
| `Shift.ShrIsLength` | src/p/generic/pshr.c:40-53 | for a normalised operand the right shift's length is the normalised length of the result |
| `Shift.ShiftThereAndBack` | check/z/shift.c:33-57 | left by b, then right by b in place, restores value and length |
| `Multiply.PMul` | src/p/generic/pmul.c:8-60 | the diagonals add up to the product of any two lengths |
| `Multiply.PSqr` | src/p/generic/psqr.c:8-51 | the diagonals add up to the square |
| `Multiply.PMulU` | src/p/generic/pmulu.c:8-34 | product with a word and the overflow word, in place too |
| `Karatsuba.Interpolate` | src/p/psqr_karatsuba.c:42-64 | the half products with their shifts and signs add up to the whole product |
| `Karatsuba.StagesFit` | src/p/psqr_karatsuba.c:54-64 | along the five accumulations no partial sum is negative or reaches the end of the result |
| `Karatsuba.HalfSum` | src/p/psqr_karatsuba.c:34-40 | the half sum with its carry packet stands for a0 + a1 |
| `Karatsuba.PSqrKaratsuba` | src/p/psqr_karatsuba.c:10-65 | for every length, a zeroed r of 2n+1 packets ends as the square, inside r and Need(n) packets of workspace of any content |
| `KaratsubaSpace.SpaceEnoughIff` | src/p/psqr_karatsuba_space.c:10-27 | for every length up to the maximum, the closed form covers the recursion's exact need if and only if the length is not 9 |
| `Log2.CeilLog2Loop` | internal.h:310-325 | the portable loop counts the bits that CeilLog2Bounds brackets |
| `Log2.FloorLog2Loop` | internal.h:327-340 | the portable loop counts the bits that FloorLog2Bounds brackets |
| `Log2.CeilLog2Bounds` | internal.h:310-325 | the least power of two that is not below x |
| `Log2.FloorLog2Bounds` | internal.h:327-340 | the largest power of two that is not above x |
| `KaratsubaMul.NearSquareExtent` | src/p/pmul_karatsuba.c:32-87 | a product of lengths that differ by at most one stays within its result at every level, and within an + bn packets if it is not split |
| `KaratsubaMul.HalvesExtent` | src/p/pmul_karatsuba.c:49-87 | how far a product in halves goes is decided by the carries of the half sums, and by whether their product is split itself |
| `KaratsubaMul.ExtentAtMost` | src/p/pmul_karatsuba.c:26-87 | never more than two packets past the result, and not at all on a shape that fits |
| `KaratsubaMul.OnesLeave` | src/p/pmul_karatsuba.c:65-71 | on every other shape the operands of all ones take the code past the result |
| `KaratsubaMul.FitsIff` | src/p/pmul_karatsuba.c:26-87 | so the shapes that fit, by a condition on the two lengths, are exactly those on which no operands do |
| `KaratsubaMul.NearSquareFits` | src/p/pmul_karatsuba.c:39-87 | lengths that differ by at most one fit |
| `KaratsubaMul.LopsidedShapes` | src/p/pmul_karatsuba.c:65-71 | 15 by 9 packets do not fit, 13 by 9 do |
| `KaratsubaMul.PMulKaratsuba` | src/p/pmul_karatsuba.c:10-88 | for every shape, with swap, uneven split, carries and all, a zeroed r of an+bn+1 packets ends as the product, if as much memory is there as the operands take the code to; only r and MulNeed packets of workspace change |
| `Digits.CharDigitInverse` | src/p/psetstr.c:350-440 | in all six alphabets the parser's table undoes the printer's |
| `Digits.CharDigitIff` | src/p/psetstr.c:350-440 | a character reads as a digit of the alphabet if and only if that digit is written so, or, in the first alphabet, written in lower case |
| `Digits.AlphabetIs` | hebimath.h.in:168-173 | the six flags, and for each the characters of its digits in order, its largest radix and its zero; those are written, and only those are read, but for lower case in the first alphabet |
| `Digits.ZeroCharIff` | src/p/psetstr.c:454-461 | the zero character of an alphabet is the only one that reads as 0 |
| `Digits.AlphabetInverse` | src/p/pgetstr.c:146-153 | so writer, reader and zero of an alphabet fit together in every base it supports |
| `Digits.NumberSplit` | src/p/psetstr.c:625-645 | positional notation splits at any place |
| `Digits.SpellReads` | src/p/pgetstr.c:272-278 | the digits of v, read back, are digits of the base, do not begin with zero, and stand for v |
| `Digits.SpellWrites` | src/p/pgetstr.c:272-278 | and each of its characters is the one its digit is written as |
| `Print.PrintedPlain` | src/p/pgetstr.c:232-278 | without a prefix, what is printed for any packets are digits that stand for their value, in the alphabet's own characters and without a zero in front, or the zero character alone |
| `Print.PrintedWithRadix` | src/p/pgetstr.c:24-60 | with one, it is the same behind 0x, 0b or 0 for base 16, 2 or 8 of the four default alphabets, but a bare 0 for an empty zero in base 8, and just the same otherwise |
| `Print.Reverse` | src/p/pgetstr.c:174-185 | the two ends meeting reverse the range and leave the rest alone |
| `Print.WriteRadix` | src/p/pgetstr.c:13-60 | as much of the prefix as there is room for is written, and its full length returned |
| `Print.Finish` | src/p/pgetstr.c:284-290 | one or two reversals turn the ring of last digits into the beginning of the digit string |
| `Print.PGetStr` | src/p/pgetstr.c:187-292 | for every buffer length the buffer holds the first min(len-1, full length) characters of the full string, which PrintedPlain and PrintedWithRadix describe, and a terminator, and the full length is returned; bad alphabets and bases are rejected |
| `Parse.PowU64` | internal.h:413-426 | squaring gives base^exp modulo 2^64 |
| `Parse.OutOfSpace` | src/p/psetstr.c:562-579 | the error's place, code and reported size, saturated and never less than what is known to be needed |
| `Parse.ReadMultiply` | src/p/psetstr.c:596-648 | all digits: the number in exactly its normalised length; else the first bad character; or the place where the digits so far take more than n packets |
| `Parse.ReadShift` | src/p/psetstr.c:650-700 | the same outcomes by shifting, and where exactly it stops: a chunk is only shifted in while the number before it leaves a packet free |
| `Parse.ShiftRoomIff` | src/p/psetstr.c:677-697 | for any string, the shift path runs out of room if and only if the digits of all chunks but the last complete one take at least n packets |
| `Parse.MultiplyRoomIff` | src/p/psetstr.c:625-645 | on digits only, the multiply path runs out of room if and only if the number takes more than n packets |
| `Parse.PowerOfTwoIff` | src/p/psetstr.c:725-728 | the shift path is taken for the powers of two |
| `Parse.PSetStr` | src/p/psetstr.c:702-729 | either path, in the alphabet (see AlphabetIs) and radix that were prepared, where exactly the shift path stops, and that success leaves the place alone |
| `Prepare.SignTaken` | src/p/psetstr.c:501-522 | a minus sign in front of any string, and a plus sign where it is no digit, is taken off and is the sign; the rest is read as it would be without it |
| `Prepare.NoSignTaken` | src/p/psetstr.c:454-461 | any other string, and in the last alphabet one with a plus in front too, is read as if signs were not allowed, with sign 1 |
| `Prepare.RadixTaken` | src/p/psetstr.c:290-338 | for any string, base and flag: which of 0x, 0X, 0b, 0B and 0 are taken off, and what radix results |
| `Prepare.PSetStrPrepare` | src/p/psetstr.c:731-806 | sign, radix and digits found as SignTaken, NoSignTaken and RadixTaken say, leading zeros gone, the estimate returned, and each of the errors exactly when it applies, with the place where it was found |
| `Prepare.EstimateIs` | src/p/psetstr.c:530-552 | the estimate is the upper word of the product with the table's entry |
| `Prepare.NumberFits` | src/p/psetstr.c:530-552 | every prefix of the digits stays below the estimated packets plus one, for any ratio with radix^(2^64) <= 2^(128*ratio) |
| `Prepare.NeverOutOfRoom` | src/p/psetstr.c:799-805 | with the prepared room (and one packet more for a power of two) reading only fails on a character that is no digit |
| `Prepare.PreparedRoomIff` | src/p/psetstr.c:688-691 | for a power of two the prepared room of n packets is too short if and only if there are p > 0 digits before the last chunk and d * 2^(rb*(p-1)) >= 2^(128*(n-1)) for the first digit d |
| `Prepare.OneDigitOver` | src/z/zsetstr.c:28-34 | so no number of one digit more than a chunk is read into the one packet prepared for it, though it would fit |
| `Prepare.ReportedAndOne` | src/p/psetstr.c:562-579 | when room runs out, the whole number fits one packet more than is reported |
| `Prepare.SecondAttemptIff` | src/p/psetstr.c:562-594 | a second attempt on the multiply path with the size reported fails if and only if the number takes exactly that one more |
| `Prepare.SecondAttemptAndOne` | src/p/psetstr.c:562-594 | with one packet more than reported (two for a power of two) it does not |
| `Prepare.ReportedTooSmall` | src/p/psetstr.c:562-579 | for 2*10^77 in base 10 and one packet, two are reported and three are needed |
| `Prepare.ShiftRatioExact` | src/p/psetstr.c:74-107 | for a power of two the table's entry satisfies that inequality with equality |
| `RoundTrip.HeaderOfPrinted` | src/p/psetstr.c:290-318 | the parser takes for sign and prefix just what the printer wrote as prefix |
| `RoundTrip.DigitsOfPrinted` | src/p/psetstr.c:789-796 | after the leading zeros are skipped, the printer's digits for the value are left |
| `RoundTrip.PrintThenParse` | check/p/strings.c:31-42 | for every value, base and alphabet, with prefix or without: printing, preparing and parsing gives back the packets and their normalised length |
| `RoundTrip.AutomaticRadixIff` | src/p/psetstr.c:290-340 | with base 0 the radix of a printed string is recognised, with digits left to read, if and only if it is one of the alphabet's automatic bases and the string is not the bare 0 of base 8 or 10; then just the prefix is taken off |
| `RoundTrip.PrintThenParseAutomatic` | src/p/psetstr.c:777-781 | and then printing with a prefix and reading with base 0 gives back the packets and their length |
| `RoundTrip.PrintedUnsigned` | src/p/pgetstr.c:229-278 | no printed number begins with what the parser takes for a sign |
| `RoundTrip.HeaderAllowed` | src/z/zsetstr.c:9 | a number printed without a prefix is read alike if a prefix is allowed |
| `RoundTrip.SignedHeader` | src/z/zgetstr.c:34-50 | the parser takes just the sign and the prefix of an integer's string for what they are, unless the sign is a plus and a digit |
| `RoundTrip.SignedDigits` | src/p/psetstr.c:789-796 | behind them and the leading zeros are the digits of its magnitude, and as many |
| `RoundTrip.PlusIsRead` | src/p/psetstr.c:460 | a plus sign in the last alphabet is read as the digit 62, or rejected if the base has none |
| `IntegerString.ZGetStr` | src/z/zgetstr.c:8-65 | for every integer and buffer length the buffer holds the beginning of the sign and the digits, and the full length is returned; bad bases are an error |
| `IntegerString.NoSpareIff` | src/p/psetstr.c:688-691 | that the last chunk finds no packet left over is seen from the number and how many digits it has |
| `IntegerString.WholePackets` | src/z/zsetstr.c:28-32 | numbers in a power of two whose digits make up whole packets are always read |
| `IntegerString.ChunkAndOne` | src/z/zsetstr.c:28-32 | numbers of one digit more than a chunk never are |
| `IntegerString.ZSetStr` | src/z/zsetstr.c:11-54 | for every string: each error, or where its digits end; or the integer that sign and digits stand for, in the temporary's block, unless they find no packet left over; the old integer is kept on errors |
| `IntegerString.StringComesBack` | src/z/zsetstr.c:11-54 | a string that spells an integer is read as that integer, or else it is one with no packet left over |
| `IntegerString.PrintThenRead` | check/z/getset.c:91-114 | for every integer, base, alphabet and flag but that plus: printing and reading gives the integer back if and only if it is none of NoSpare's numbers |
| `AllocTable.ValidatesIff` | src/alloc_table.c:591-635 | an issued id validates if and only if its slot was given back a multiple of 32768 times since |
| `AllocTable.IssuedLiveIff` | src/alloc_table.c:591-635 | before that, an issued id validates if and only if it is live |
| `AllocTable.LiveDistinct` | src/alloc_table.c:405-414 | live ids are pairwise distinct |
| `AllocTable.FreeSlotValidates` | src/alloc_table.c:448-454 | the next id of a free slot validates although it was never issued |
| `AllocTable.ValidatesNames` | src/alloc_table.c:591-635 | any positive id validates if and only if it is the current or next id of some slot |
| `AllocTable.NamesOne` | src/alloc_table.c:405-414 | and of one slot only |
| `AllocTable.AddKeeps` | src/alloc_table.c:378-410 | adding makes one slot live that was not, and keeps all other slots, generations and entries |
| `AllocTable.RemoveKeeps` | src/alloc_table.c:447-457 | removing frees one live slot with its next generation, and keeps all others |
| `AllocTable.RemoveWfIff` | src/alloc_table.c:447-457 | the free list keeps no slot twice if and only if the slot removed was live |
| `AllocTable.RemovalIsStep` | src/alloc_table.c:435-457 | what removing an id that was given out does to the table is the step of a run, for live and for stale ids, and frees no slot twice |
| `AllocTable.RemovalKeepsOthers` | src/alloc_table.c:447-457 | a live id that is removed does not validate any more; every other live id still does, with its entry |
| `AllocTable.RunKeeps` | src/alloc_table.c:358-464 | every run of additions and removals of issued ids keeps the free list free of repetitions, and generations only grow |
| `AllocTable.RemovedValidatesIff` | src/alloc_table.c:417-464 | after any run, a removed id validates if and only if its slot was given back a multiple of 32768 times |
| `AllocTable.RemovedNeverValidates` | src/alloc_table.c:417-464 | so within 32768 rounds of its slot a removed id never validates again |
| `AllocTable.AddedIsNew` | src/alloc_table.c:405-414 | an id handed out equals none issued before, within 32768 rounds |
| `AllocTable.Table.AddEntry` | src/alloc_table.c:358-415 | the free list threaded through the entries stays the list of free slots, tused = tsize - its length, and the id names the slot and generation added; null and a full table are errors |
| `AllocTable.Table.RemoveEntry` | src/alloc_table.c:417-464 | the slot that the id names, and no other, goes to the head of the list, a second time if it was free; an id that names none changes nothing; which ids are reported as errors |
| `AllocTable.Table.LiveEntry` | src/alloc_table.c:396-414 | the id of a live slot names that slot, and its entry is the one that was added |
| `AllocTable.Table.IsValid` | src/alloc_table.c:591-635 | for positive ids the answer is whether slot and generation agree; of the others exactly the predefined ones are valid |
| `AllocCache.HashSpreads` | src/alloc_table.c:512-514 | where a key is looked for first depends on its slot only, and differs for the slots of a page |
| `AllocCache.ProbeEnds` | src/alloc_table.c:520-532 | when as many keys were passed as are stored, the probe stands on an empty place |
| `AllocCache.NotCached` | src/alloc_table.c:520-532 | a probe that reaches an empty place proves the key is nowhere in the cache |
| `AllocCache.InsertKeeps` | src/alloc_table.c:575-582 | entering a key where its probe ended keeps the count, the keys distinct, and every key reachable from its hash without a gap |
| `AllocCache.QueryKey` | internal.h:687-705 | aliases are resolved through the context, the built-in allocators are 0 and -1, other negative ids are errors |
| `AllocCache.Cache.Probe` | src/alloc_table.c:512-537 | the probe finds the key if and only if it is cached, and else ends on the place where it belongs |
| `AllocCache.Cache.Query` | src/alloc_table.c:510-589 | for the id of a live slot the answer is that slot, whose entry is the one that was added, cached or not; a new key joins those already cached, or replaces them all if the cache was full; unknown keys are errors and leave the cache alone |
| `AllocCache.Cache.Store` | src/alloc_table.c:569-582 | a full cache is emptied first; afterwards the key is in with all that were kept, and the invariant holds again |
| `AllocCache.AddThenQuery` | src/alloc_table.c:466-589 | what was added for an id is what a query for it finds, whatever was cached before; only a full table refuses |

## Left out

- x86-64 assembly, `hwcaps` and multi-version dispatch: the generic C driver states the same functions.
- The build with 32-bit limbs (`hebi_recipu32_2x1__`, the 32-bit branches of `hebi_pmulu` and `hebi_paddu`).
- The literal contents of `hebi_recipu64_v0lut__`: the model uses the formula of its generator. In the same way `maxdigitslut` and `maxscalelut` are given by what they stand for, and `digittopacketlut64` is a parameter with the inequality it is generated for.
- Threads, mutexes, thread-local contexts, `longjmp` and memory allocation: errors are results, new blocks are parameters, the table's pages are one array, and `HEBI_ENOMEM` does not occur. When `hebi_zdivrem` has no q or no r the caller's scratch takes its place.
- `hebi_pgetstrlen`, `hebi_zgetstrlen` and `hebi_madu128__`.
- `hebi_pmul_karatsuba_space`: the workspace is the recursive `MulNeed` instead.
- `hebi_zcmpi`, `hebi_zcmpu`, bit operations, random numbers, getters and setters: they would add easy members only.
- LongDivision.RunClearIff: runs as written that meet equal tops before the last pass are not all decided; `RunAsWrittenIff` and `OneWrongPassIff` cover those with good passes before the first wrong one and clear passes after it, if that one leaves a remainder below the divisor, and `CancellationExample` shows why two wrong passes have no such rule.
- LongDivide.KernelDivides: as written, only for runs that `RunAsWrittenIff` covers.
- Divide.PDivRem: as written, the quotient is exact for operands whose run is right (`LoopRight`), which is sufficient; with the repairs for all.
- Integer.ZDivRem: as written, likewise for operands with `LoopRight`; with the repairs for all.
- AllocCache.Cache.Query: for an id that was removed the answer may still come from the cache, as in the code: the slot is right, but its entry is no longer claimed to be the one that was added.
- AllocTable.RunKeeps: removals in a run use issued ids of slots not recycled 32768 times; what one stray removal does is in `AllocTable.Table.RemoveEntry` and `AllocTable.RemoveWfIff`.
- Prepare.NumberFits: that the table's entries for other radices satisfy the inequality is not proved.
- Prepare.PSetStrPrepare: the `HEBI_STR_TRIM` and `HEBI_STR_PAD` flags are not modelled, so `hm_start` is 0 and `hm_end` the length.
- IntegerString.ZSetStr: the flags `HEBI_STR_TRIM` and `HEBI_STR_PAD` are not modelled here either; after the assertion has failed nothing is claimed.
- IntegerString.PrintThenRead: strings with a plus sign in the alphabet of base 64 are in `RoundTrip.PlusIsRead` instead, and the base is given to the reader; base 0 is in `RoundTrip.AutomaticRadixIff`.
- Parse.PSetStr: also says what happens when no digits are left (`hm_cur == hm_end`), which `src/p/psetstr.c:716` asserts does not occur; `RoundTrip.ReadPrepared` uses that for the value 0.
- Karatsuba.PSqrKaratsuba: the workspace is counted for the worst case of carries, not for the operands at hand.
- KaratsubaMul.PMulKaratsuba: so is its workspace; how far it goes past the result is counted for the operands at hand.
