# Boost CRC and Boost rational: a verified model

This project models two headers that the repository carries, and proves what they are for.

**The CRC engine** (`external/boost/crc.hpp`) computes one function in several ways: bit by bit, a byte at a
time from a table, and a byte at a time in a mirrored register that shifts the other way; for messages with and
without zero bits appended. The model keeps all of them in the source's own form, as loops over registers,
buffers and tables, for every register width, divisor, initial value, XOR mask and pair of reflection flags.

- *What the slow form means.* The bit-serial loops compute the remainder of a division of polynomials over
  GF(2), where a product is the convolution of the coefficients; that remainder is unique.
- *The fast forms refine the slow one.* Both table-driven updates give, for every byte sequence, what the
  bit-serial division gives. `crc_optimal` and `crc_basic` show the same interim remainder and the same checksum
  through every interleaving of their operations.
- *What a CRC is for.* All bursts up to the register width are detected exactly when the truncated divisor is
  odd; all odd numbers of errors exactly when the full divisor has an even number of terms; and any change goes
  unnoticed exactly when its polynomial, times x^W, is a multiple of the divisor.

**Exact rationals** (`external/boost/rational.hpp`). The class keeps gcd(num, den) = 1 and den > 0 without ever
normalising a full sum or product, and orders values by continued fractions so that it never cross-multiplies.
Each operation is specified by the real number it must leave and by the normal form; as a value has only one
normal form, this fixes the result completely. Runs of operations, aliased ones included, are exact.

## How it is organised

| file | content |
|---|---|
| `Words.dfy` | unsigned words of any number of digits, as bit sequences indexed by place value |
| `Division.dfy` | one step and a run of both divisions as functions; linearity, splitting, block steps |
| `Polynomials.dfy` | GF(2) polynomials; both runs are division with remainder |
| `Reflection.dfy`, `SerialUpdate.dfy`, `Tables.dfy`, `TableUpdate.dfy` | the loops of `boost::detail` |
| `Computers.dfy`, `Lockstep.dfy` | the classes `crc_basic` and `crc_optimal`, and the refinement over whole runs |
| `Augmented.dfy`, `ErrorDetection.dfy` | augmented messages; which changes are detected |
| `Integers.dfy`, `Fractions.dfy`, `ContinuedFractions.dfy` | gcd, lcm, truncating division; normal forms; expansions in machine range |
| `Rationals.dfy`, `RationalRuns.dfy`, `RationalGcd.dfy` | the class `rational`, its runs, its gcd and lcm |

A register has `digits` bits, of which the low `width` (or `w`) are significant. `Run(r, m, p)` is the register
after the altered (unaugmented) division of the message bits `m`, in processing order, by x^W + p; `AugRun` is
the plain (augmented) one. In `ContinuedFractions.dfy` a machine operation may be used only where its result is
proved to fit the integer type, so the contract of the order is also a proof that it never overflows. The non-negative gcd and lcm come from a header that is not part of this model; they
are taken to be the mathematical ones, with gcd(0, x) = |x| and lcm(0, x) = 0.

## Where the code and its documentation differ

- `crc.hpp:1718-1751`, `2046-2086`: bits of a start remainder above the width are documented as unregulated and
  to be ignored. `crc_basic` and direct registers ignore them. A mirrored register wider than a byte shifts them
  into the remainder; `MirroredStartExactly` shows that all messages come out right exactly when there are none.
- `crc.hpp:918-921`: `sub_type_reflector` is documented to leave the higher bits in place. It clears them.
  `SubByteClearsHighBits` says exactly when that makes no difference.
- `crc.hpp:2289`: `augmented_crc` admits every width from 1. Its code shifts by `Bits - CHAR_BIT`, which has no
  meaning for narrower registers, so the model asks for at least a byte.
- `crc.hpp:1010-1011` leaves open whether augmented division gives the same mask table. It does if the dividend
  starts at the high end of the register and zero bits follow (`AugmentedDivisionGivesSameMasks`). Merely calling
  the augmented routine instead gives the same table for the divisor x^W + 1 and no other
  (`SwappedRoutineExactly`).
- `crc.hpp:2303-2305` notes that no conversion of initial remainders is provided. `ConversionExactly` shows when
  there is one; `ConvertInitial` is it.
- `rational.hpp:523`: the proof in the comment assumes gcd(b,c)=1 where it needs gcd(c,d)=1.

## Model

| member | source | states |
|---|---|---|
| Reflection.ReflectUnsigned | external/boost/crc.hpp:427-441 | the two-ended swap loop ends and reverses exactly the low bits |
| Reflection.ReflectLowSwaps | external/boost/crc.hpp:406-424 | bit i goes to word_length-1-i, higher bits stay, twice is nothing |
| Reflection.MaskedSwap | external/boost/crc.hpp:434-437 | comparing the masked word with both masks finds exactly the differing bits, and one XOR exchanges them |
| Reflection.MakeByteReflectionTable | external/boost/crc.hpp:452-462 | the wrapping byte counter fills every cell with its reflection |
| Reflection.ReflectByte | external/boost/crc.hpp:479-485 | the table gives the reflected byte |
| Reflection.ReflectSubByte | external/boost/crc.hpp:499-500 | the low bits reversed, the others zero |
| Reflection.SubByteClearsHighBits | external/boost/crc.hpp:487-500 | it is the partial reflection with the higher bits cleared, and equal to it exactly when there were none |
| Reflection.ReflectOptionally | external/boost/crc.hpp:525-529 | reflection of the low bits when asked for |
| Reflection.ReflectQ | external/boost/crc.hpp:840-961 | for every width, the low bits are reversed; the bits above stay, or vanish up to a byte |
| SerialUpdate.CrcModuloWordUpdate | external/boost/crc.hpp:592-623 | the loop is a run of the altered division over the input bits, whatever lies above the register length, and clears what overflows |
| SerialUpdate.CrcModuloUpdate | external/boost/crc.hpp:661-667 | one step of it |
| SerialUpdate.AugmentedCrcModuloWordUpdate | external/boost/crc.hpp:714-739 | the loop is a run of the plain division on the low bits |
| Polynomials.RunIsTheRemainder | external/boost/crc.hpp:592-623 | the register is a value s iff s is the remainder of r·x^n + m·x^W divided by x^W + p over GF(2) |
| Polynomials.RunDivides | external/boost/crc.hpp:606-619 | the discarded quotient bits are the quotient |
| Polynomials.AugRunIsTheRemainder | external/boost/crc.hpp:709-738 | likewise for r·x^n + m: the plain division |
| Polynomials.RemainderUnique | external/boost/crc.hpp:570-578 | two remainders below the degree of the divisor are equal |
| Division.RunLinear | external/boost/crc.hpp:585-591 | the division of an XOR is the XOR of the divisions |
| Division.AugRunLinear | external/boost/crc.hpp:728-738 | the same for the plain division |
| Division.RunSplit | external/boost/crc.hpp:606-619 | dividing in two pieces is dividing the whole |
| Division.BlockFoldsIn | external/boost/crc.hpp:2254-2260 | up to W message bits may be XORed into the high end of the register and divided as zeros: the altered order is harmless |
| Division.BlockStep | external/boost/crc.hpp:1195-1202 | a block of up to W bits costs one shift and one mask, the remainder of (high bits XOR block) from zero |
| Division.AugBlockStep | external/boost/crc.hpp:1164-1171 | the plain division shifts the block in and uses the same masks |
| Tables.MakePartialXorProductsTable | external/boost/crc.hpp:1013-1032 | every entry, mirrored or not, is the remainder its index leaves from zero |
| Tables.StoreMask | external/boost/crc.hpp:1024-1029 | one turn of the table loop |
| Tables.AugmentedDivisionGivesSameMasks | external/boost/crc.hpp:1010-1011 | plain division of the index at the high end, then zeros, gives the same mask |
| Tables.SwappedRoutineExactly | external/boost/crc.hpp:1010-1011 | just calling the augmented routine gives the same table iff the divisor is x^W + 1 |
| TableUpdate.DirectCrcUpdate | external/boost/crc.hpp:1188-1206 | for every byte sequence the low bits are those of the bit-serial division; bits above never reach them |
| TableUpdate.DirectAugmentedCrcUpdate | external/boost/crc.hpp:1157-1175 | for every byte sequence the low bits are those of bit-serial plain division, with the table of the unaugmented routine |
| TableUpdate.ReflectedCrcUpdate | external/boost/crc.hpp:1281-1300 | for every byte sequence and every start register: the mirror of lowest-bit-first division from the un-mirrored remainder, XOR what the bits above the width leak in; and where those bits go |
| TableUpdate.ReflectedAugmentedCrcUpdate | external/boost/crc.hpp:1248-1267 | the same for plain division, where the bits above are ORed into the message |
| TableUpdate.LeakExtends | external/boost/crc.hpp:1295-1296 | what leaks in is itself a plain division of the bits above the width |
| TableUpdate.DirectSubByteCrcUpdate | external/boost/crc.hpp:1396-1409 | narrow registers: the bit-serial division of all bytes |
| TableUpdate.ReflectedSubByteCrcUpdate | external/boost/crc.hpp:1483-1498 | the same, lowest bit first, un-mirrored before and mirrored after |
| TableUpdate.DirectSubByteAugmentedCrcUpdate | external/boost/crc.hpp:1370-1383 | narrow registers: the plain division of all bytes |
| TableUpdate.ReflectedSubByteAugmentedCrcUpdate | external/boost/crc.hpp:1454-1469 | the same mirrored |
| TableUpdate.ByteStreamSplit | external/boost/crc.hpp:1881-1885 | the bits of two buffers in a row are the bits of their concatenation |
| TableUpdate.ByteStreamOrder | external/boost/crc.hpp:1828-1836 | bit j of the stream of byte i is the one the input reflection says: bytes in order, highest bit first unless reflected |
| Computers.CrcBasic.constructor | external/boost/crc.hpp:1601-1615 | sets the formula and starts from the initial remainder |
| Computers.CrcBasic.GetInterimRemainder | external/boost/crc.hpp:1719-1727 | the remainder with nothing above the width |
| Computers.CrcBasic.Reset | external/boost/crc.hpp:1742-1751 | replaces the remainder only |
| Computers.CrcBasic.ResetToInitial | external/boost/crc.hpp:1765-1773 | back to the initial remainder |
| Computers.CrcBasic.ProcessBit | external/boost/crc.hpp:1782-1791 | one division step |
| Computers.CrcBasic.ProcessBits | external/boost/crc.hpp:1808-1825 | the low bits of a byte, highest first, ignoring the input reflection |
| Computers.CrcBasic.ProcessByte | external/boost/crc.hpp:1838-1847 | a byte in the order the input reflection says |
| Computers.CrcBasic.ProcessBlock | external/boost/crc.hpp:1873-1886 | the bytes between two positions |
| Computers.CrcBasic.ProcessBytes | external/boost/crc.hpp:1908-1921 | the division of the whole buffer |
| Computers.CrcBasic.Checksum | external/boost/crc.hpp:1935-1944 | bit by bit: the remainder, mirrored if asked for, XOR the mask, and nothing above the width |
| Computers.FinishBits | external/boost/crc.hpp:1926-1933 | the output processing, bit by bit |
| Computers.MaskBitFlips | external/boost/crc.hpp:1654-1662 | flipping a bit of the XOR mask flips exactly that bit of every checksum |
| Computers.OutputReflectionMirrors | external/boost/crc.hpp:1690-1695 | with a zero mask, switching the output reflection mirrors every checksum |
| Computers.CrcUpdate | external/boost/crc.hpp:1543-1557 | whichever update the width and reflection select computes the division, plus the leak of a mirrored register |
| Computers.CrcOptimal.constructor | external/boost/crc.hpp:1969-1979 | builds a right table and mirrors the start remainder |
| Computers.CrcOptimal.GetInterimRemainder | external/boost/crc.hpp:2046-2059 | the un-mirrored remainder with nothing above the width |
| Computers.CrcOptimal.Reset | external/boost/crc.hpp:2075-2086 | the register that mirroring the new remainder gives |
| Computers.CrcOptimal.ResetToInitial | external/boost/crc.hpp:327-328 | without an argument: back to the initial remainder of the formula |
| Computers.CrcOptimal.ProcessByte | external/boost/crc.hpp:2094-2105 | a one-byte buffer |
| Computers.CrcOptimal.ProcessBlock | external/boost/crc.hpp:2113-2126 | the bytes between two positions |
| Computers.CrcOptimal.ProcessBytes | external/boost/crc.hpp:2134-2147 | the remainder from any register content; the exact division from a clean one, which stays clean |
| Computers.CrcOptimal.Checksum | external/boost/crc.hpp:2149-2161 | the same bits as crc_basic, although it reflects on ReflectRem != ReflectIn |
| Lockstep.RunInLockstep | external/boost/crc.hpp:1841-1944 | through any interleaving of operations both computers show the same interim remainders and checksums, those of the formula; after a reset without a value, those of a new computer |
| Lockstep.RunAfterReset | external/boost/crc.hpp:1753-1763 | a run that ends in a reset leaves the initial remainder, or the low bits of the value given |
| Lockstep.RunAfterFeeding | external/boost/crc.hpp:1827-1921 | feeding a byte, a block or a buffer continues the division with exactly its bits |
| Lockstep.FeedingRun | external/boost/crc.hpp:177-187 | a run of feeding operations, piecemeal in any grouping, is one division of all the bytes from the initial remainder |
| Lockstep.ApplyBasic | external/boost/crc.hpp:1745-1921 | every operation of crc_basic does what the formula says |
| Lockstep.ApplyOptimal | external/boost/crc.hpp:2080-2147 | every operation of crc_optimal does the same and keeps the register clean |
| Lockstep.Crc | external/boost/crc.hpp:2263-2277 | the checksum of a buffer in one call, given bit by bit from the division of the buffer |
| Lockstep.DivideSplit | external/boost/crc.hpp:1706-1717 | a message may be fed in any two parts |
| Lockstep.ResumeElsewhere | external/boost/crc.hpp:1706-1717 | carrying the interim remainder to a new computer gives the checksum of the whole, mirrored or not |
| Lockstep.MirroredStartExactly | external/boost/crc.hpp:2080-2086 | crc_optimal divides every message rightly after a reset iff the value has no bits above the width, or the register is direct or at most a byte |
| Augmented.AugmentedIsUnaugmented | external/boost/crc.hpp:2311-2318 | from any register, a message with W zero bits behind it divides as without them from the concluded register |
| Augmented.ZeroStartsAgree | external/boost/crc.hpp:2254-2258 | from zero, the unaugmented remainder is the augmented one of the message with W zero bits |
| Augmented.ConversionUnique | external/boost/crc.hpp:2299-2305 | for an odd divisor ConvertInitial is the only conversion of an initial remainder |
| Augmented.ConversionExactly | external/boost/crc.hpp:2299-2305 | every initial remainder can be converted iff the divisor has a constant term |
| Augmented.AugmentedCrc | external/boost/crc.hpp:2328-2341 | the plain division of the buffer, with nothing above the width |
| Augmented.AppendedChecksum | external/boost/crc.hpp:2314-2326 | with a big-endian value in place of the zero bytes the result is the right checksum XOR that value, zero iff it is right |
| ErrorDetection.UnnoticedExactly | external/boost/crc.hpp:2314-2318 | a change goes unnoticed iff its polynomial times x^W is a multiple of the divisor |
| ErrorDetection.BurstDetectionExactly | external/boost/crc.hpp:606-622 | all bursts within W positions change the remainder iff the truncated divisor is odd |
| ErrorDetection.OddErrorDetectionExactly | external/boost/crc.hpp:606-622 | all odd numbers of flipped bits change the remainder iff the full divisor has an even number of terms |
| ErrorDetection.CollisionExactly | external/boost/crc.hpp:1873-1944 | two messages of one length share a checksum iff their difference times x^W is a multiple of the divisor |
| ErrorDetection.ChecksumBurstsExactly | external/boost/crc.hpp:1838-1944 | in byte messages read in either bit order, all bursts within W positions change the checksum, whatever the start and output processing, iff the truncated divisor is odd |
| ErrorDetection.ChecksumOddErrorsExactly | external/boost/crc.hpp:1838-1944 | all odd numbers of flipped message bits change the checksum iff the full divisor has an even number of terms |
| Integers.TruncationExactly | external/boost/rational.hpp:806-810 | quotient and remainder are those of division that truncates toward zero, and no others |
| Integers.GcdCharacterised | external/boost/rational.hpp:100-105 | only the gcd is a non-negative common divisor that every common divisor divides |
| Integers.LcmMultiple | external/boost/rational.hpp:107-112 | the lcm is a common multiple, and gcd times lcm is the absolute product |
| Integers.LcmLeast | external/boost/rational.hpp:107-112 | it divides every common multiple |
| Fractions.NormalUnique | external/boost/rational.hpp:422-425 | equal values in normal form are equal component by component |
| Fractions.SumInLowestTerms | external/boost/rational.hpp:522-535 | dividing by gcd(numerator, g) is enough: the comment's proof, corrected |
| Fractions.SumIsExact | external/boost/rational.hpp:541-546 | the reduced pair is the exact sum, normal |
| Fractions.ProductIsExact | external/boost/rational.hpp:577-581 | the crosswise reduced pair is the exact product, normal |
| Rationals.QuotientIsExact | external/boost/rational.hpp:601-610 | the crosswise reduced quotient, after moving the sign, is exact and normal |
| Rationals.Rational.Normalize | external/boost/rational.hpp:886-916 | fails exactly for a zero denominator; otherwise normal form of the same value |
| Rationals.Rational.Create | external/boost/rational.hpp:188-193 | a normal object of value n/d, or failure exactly for d = 0 |
| Rationals.Rational.FromInt | external/boost/rational.hpp:183-186 | n/1 is normal |
| Rationals.Rational.constructor | external/boost/rational.hpp:180-181 | the default value is 0/1, normal |
| Rationals.Rational.Assign | external/boost/rational.hpp:216-223 | the new value, or failure with the old value kept |
| Rationals.Rational.AddAssign | external/boost/rational.hpp:517-549 | exact sum in normal form, also with itself |
| Rationals.Rational.SubAssign | external/boost/rational.hpp:552-568 | exact difference in normal form, also with itself |
| Rationals.Rational.MulAssign | external/boost/rational.hpp:571-583 | exact product in normal form, also with itself |
| Rationals.Rational.DivAssign | external/boost/rational.hpp:586-612 | exact quotient in normal form, also by itself; failure exactly for a zero divisor, with the value kept |
| Rationals.Rational.AddInt | external/boost/rational.hpp:293-297 | exact sum in normal form |
| Rationals.Rational.SubInt | external/boost/rational.hpp:299-303 | exact difference in normal form |
| Rationals.Rational.MulInt | external/boost/rational.hpp:305-312 | exact product in normal form |
| Rationals.Rational.DivInt | external/boost/rational.hpp:314-333 | exact quotient in normal form; failure exactly for zero |
| Rationals.Rational.Increment | external/boost/rational.hpp:336 | adds one |
| Rationals.Rational.Decrement | external/boost/rational.hpp:337 | takes one away |
| Rationals.Rational.Equals | external/boost/rational.hpp:870-873 | component equality is value equality |
| Rationals.Rational.EqualsInt | external/boost/rational.hpp:401-404 | the same against an integer |
| Rationals.Rational.FirstPlace | external/boost/rational.hpp:799-812 | the loop floors the quotient of a negative value, within the integer type |
| Rationals.Rational.Less | external/boost/rational.hpp:785-866 | ends, is exactly num·r.den < r.num·den, and every number it computes fits the type of the four inputs |
| Rationals.Rational.Greater | external/boost/rational.hpp:374 | the converse order |
| Rationals.Rational.LessInt | external/boost/rational.hpp:379-394 | the floor alone decides the order against an integer |
| Rationals.Rational.GreaterInt | external/boost/rational.hpp:396-399 | neither equal nor less |
| ContinuedFractions.DivisionFits | external/boost/rational.hpp:837-840 | truncating division by a positive value stays in the range of its operands |
| ContinuedFractions.FlooringFits | external/boost/rational.hpp:806-812 | flooring a negative quotient stays in range |
| ContinuedFractions.QuotientsDecide | external/boost/rational.hpp:817-826 | the first differing component decides |
| ContinuedFractions.NextPlaceReverses | external/boost/rational.hpp:822-840 | every further place turns the order round |
| ContinuedFractions.EndDecides | external/boost/rational.hpp:843-861 | when an expansion ends, the other value has the part that is left |
| RationalRuns.RunCommands | external/boost/rational.hpp:180-350 | every run of operations on a default-constructed object, failures and aliasing included, ends in the exact real result in normal form; the empty run in 0/1 |
| RationalRuns.CountingRun | external/boost/rational.hpp:336 | k increments from the start leave k/1 |
| RationalRuns.RunAfterAssign | external/boost/rational.hpp:216-223 | num·d = n·den after assigning n/d; unchanged if d = 0 |
| RationalRuns.RunWithNumber | external/boost/rational.hpp:517-612 | each operator with n/d, by cross-multiplication with the fraction before; unchanged for a zero denominator or divisor |
| RationalRuns.RunWithItself | external/boost/rational.hpp:537-596 | aliased operations read the value before: twice the value, 0/1, num²/den², and 1/1 or unchanged |
| RationalRuns.RunAfterIntSum | external/boost/rational.hpp:293-337 | adding an integer keeps the denominator and moves the numerator by i·den |
| RationalRuns.RunAfterMulInt | external/boost/rational.hpp:305-312 | scaling by an integer, by cross-multiplication |
| RationalRuns.RunAfterDivInt | external/boost/rational.hpp:314-333 | dividing by an integer, by cross-multiplication; unchanged for zero |
| RationalRuns.Execute | external/boost/rational.hpp:286-350 | one operation of a run |
| RationalRuns.AddThenSubtract | external/boost/rational.hpp:517-568 | (a+b)-b has the representation of a |
| RationalRuns.DivideThenMultiply | external/boost/rational.hpp:571-612 | (a/b)*b has the representation of a, unless b is zero |
| RationalRuns.EqualResults | external/boost/rational.hpp:870-873 | component equality, value equality and cross-multiplied equality coincide |
| RationalRuns.LiftingChangesNothing | external/boost/rational.hpp:292-337 | replacing integer shortcuts by rational operations on i/1 leaves the same representation in any run |
| RationalRuns.ShortcutEffects | external/boost/rational.hpp:292-337 | each integer shortcut has the effect of its rational operation on i/1 |
| RationalGcd.FractionDividesExactly | external/boost/rational.hpp:1014-1040 | one normal fraction is an integer times another iff numerators divide one way and denominators the other |
| RationalGcd.GcdPair | external/boost/rational.hpp:1023-1024 | the pair built is in lowest terms and not negative |
| RationalGcd.LcmPair | external/boost/rational.hpp:1037-1038 | the pair built is in lowest terms and not negative |
| RationalGcd.GcdIsGreatest | external/boost/rational.hpp:1014-1026 | a fraction divides both arguments iff it divides the gcd |
| RationalGcd.LcmIsLeast | external/boost/rational.hpp:1028-1040 | both arguments divide a fraction iff the lcm does |
| RationalGcd.GcdPairCharacterised | external/boost/rational.hpp:1014-1026 | only the gcd is a non-negative common divisor that every common divisor divides |
| RationalGcd.LcmPairCharacterised | external/boost/rational.hpp:1028-1040 | only the lcm is a non-negative common multiple that divides every common multiple |
| RationalGcd.GcdTimesLcm | external/boost/rational.hpp:1014-1040 | gcd times lcm is the absolute value of the product |
| RationalGcd.EvaluateGcd | external/boost/rational.hpp:1019-1025 | the constructor leaves the pair as it is |
| RationalGcd.EvaluateLcm | external/boost/rational.hpp:1033-1039 | the constructor leaves the pair as it is |
| RationalGcd.InnerGcdIsGcd | external/boost/rational.hpp:413-420 | the truncating recursion gives the gcd up to sign |
| RationalGcd.IsNormalizedExactly | external/boost/rational.hpp:429-435 | the check accepts exactly the normal pairs |

## Left out

- Augmented.AugmentedCrc: registers narrower than a byte, for which the source's shift count is negative.
- Rationals.Rational.Normalize: the range check on the denominator and overflow when negating the least value; arithmetic assignment is over unbounded integers, and machine range is proved for the order only.
- Lockstep.RunInLockstep: start and reset values with bits above the width in a mirrored register wider than a byte, on which the two computers differ; MirroredStartExactly is the exact condition.
- Reflection.ReflectByte: the byte table is built on each call instead of once per program, and the mask table once per computer.
- Register types: any number of digits not below the width (a byte up to width 8), instead of the 8, 16, 32 and 64 that `uint_t` selects.
- `process_bit` and `process_bits` have no counterpart in `crc_optimal` and so are not among the operations of Lockstep; their own contracts are in Computers.
- Raw pointers and `void` buffers: byte sequences and positions.
- Getters, forwarding `operator()`, the named CRC typedefs, mask constants and other template selection.
- `operator<=`, `>=`, `!=`, `!`, unary minus, `abs`, the postfix operators and the free binary operators of rational: one call each of what is modelled.
- Stream input and output, conversions between integer types, `rational_cast` to floating point.
- The other headers of the repository: macros, traits and forwarding, or classes whose behaviour lies in files that are not part of this model.
