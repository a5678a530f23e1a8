# Verified model of the MQTT-TLS cryptographic core

This project models, in Dafny, the arithmetic and the protocols that the MQTT-TLS library carries with it (its
copy of Mbed TLS 2.28) and the packet codec of its MQTT client, and proves what the code is for.
`dafny verify dfyconfig.toml` checks everything.

The core is the multi-precision integer engine. A number is an object with a sign and a row of limbs that its
methods update in place; the limb radix is a constant that is only known to be 2^32 or 2^64, so every result holds
for both builds. Contracts speak about the integers that the rows denote, never about their representation, and
say which operands may be the same object. Negative zero exists, as it does in the code.

On top of it, with the same method bodies as the C functions:

- `Mpi`, `MpiBits`, `MpiDiv`, `Montgomery`, `MpiExp`, `MpiGcd`, `MpiString`, `MpiBinary`: addition to sliding-window
  exponentiation, gcd and inverse, radix conversion, bytes, random numbers;
- `Dhm`: a Diffie-Hellman context whose blinding values are kept over any sequence of calls, as a class invariant;
- `Ecdsa`, `Der`: signing, verifying and the DER form of signatures, over any group whose base point has prime order;
- `Ccm`, `Cbc`, `Xts`, `Cmac`, `ChaCha20`: modes that keep partial blocks between calls, each proved equal to a
  one-shot definition however the data is cut, for an arbitrary block cipher;
- `ConstantTime`, `Base64`, `Mqtt`: branch-free helpers and PKCS #1 v1.5 unpadding against the plain decoder,
  Base64 for every input, and MQTT packets between two clients that share a buffer with their callbacks.

The helper modules `Words`, `Products`, `Limbs`, `Congruence`, `Divisibility`, `Polynomials` and `Blocks` hold the
mathematics. The definitions that the modes, protocols and codecs are proved against are themselves pinned by
properties that do not mention them: recurrences, bit fields, remainders, parsers, and byte strings from the standards.
Allocation failure is a nondeterministic `AllocFailed` result, random generators deliver arbitrary bytes.

## Where the code does something else than expected

- `mbedtls_mpi_mod_int` shifts the remainder by half a limb without looking at the bits that fall out. It is right
  for every number exactly when the divisor is at most half a limb or divides the radix
  (`MpiString.ModIntExactIff`). The library itself calls it with small divisors only.
- `mbedtls_mpi_exp_mod` with a negative base, an odd exponent and a power divisible by N returns N, not 0
  (`MpiExp.ExpResultMeaning`; for instance (-3)^1 mod 3, `MpiExp.MultipleOfModulus`). A base of negative zero does the
  same. For N > 1 and a base without a factor in common with N it cannot happen (`MpiExp.ResidueWhenCoprime`).
- `mbedtls_mpi_gcd` with B = 0 returns A with its sign, so it is wrong exactly for B = 0 and A < 0 (`MpiGcd.Gcd`,
  `MpiGcd.NegativeGcd`).
- `mbedtls_mpi_lt_mpi_ct` counts a negative zero as less than zero, its only wrong answer (`MpiBinary.SignedLessIff`).
- A Diffie-Hellman context that has never been used and whose private value is 0 derives the secret 0 instead of 1
  (`Dhm.DhmContext.CalcSecret`, `Dhm.UnusedZero`), because the cache looks valid.
- `MBEDTLS_ECDSA_MAX_SIG_LEN` is too small from 1000 bits on (`Der.MaxSigLenIff`); no supported curve is that large.
- The comment above `mbedtls_ct_mem_move_to_left` clears the wrong part of the buffer unless the offset is half its
  size (`Pkcs1.DocumentedIff`); the code clears the end, as its callers need.
- Zero padding cannot tell padding from data; the exact condition is in `CipherLayer.RoundTrip`.
- The MQTT client answers PUBREL with a PUBCOMP whose flags are 2, where section 2.2.2 of MQTT 3.1.1 demands 0, and
  it ignores a PUBCOMP with such flags: between two of these clients a QoS 2 exchange is never reported as complete
  (`MqttExchange.Exchange`). `publish` steps the packet identifier through 0, which `subscribe` avoids
  (`Mqtt.Client.SendPublish`). `readPacket` counts modulo 2^16: an over-long packet is skipped as intended exactly up
  to 2^16 bytes (`Mqtt.Client.SkippedIff`), and one of 65539 bytes is taken for one of 3 (`Mqtt.Client.LongPacket`).

## Model

| member | source | states |
|---|---|---|
| LimbKernel.MulAddWide | src/mbedtls/library/bn_mul.h:931-944 | the double-width multiply-add of one limb leaves carry and digit whose joint value is exactly s*b + c + d |
| LimbKernel.MulAddHalf | src/mbedtls/library/bn_mul.h:949-966 | the half-limb multiply-add does the same although every intermediate sum wraps |
| LimbKernel.KernelsAgree | src/mbedtls/library/bn_mul.h:928-969 | any two carry/digit pairs with that value are equal, so both kernels return the same limbs |
| LimbKernel.CountLeadingZeros | src/mbedtls/library/bignum.c:357-370 | the number of zero bits above the leading one, and the word width for zero |
| LimbKernel.IntDivIntWide | src/mbedtls/library/bignum.c:1560-1581 | two-by-one division with a double-width type: exact quotient and remainder for every u1 < d |
| LimbKernel.IntDivIntHalf | src/mbedtls/library/bignum.c:1584-1638 | Knuth's Algorithm D on half limbs: exact quotient and remainder for every u1 < d, with no intermediate wrap-around mattering |
| LimbKernel.QuotientDigit | src/mbedtls/library/bignum.c:1605-1629 | one half-limb digit: the estimate, corrected by the inner loop, is the true digit |
| LimbKernel.DivisionsAgree | src/mbedtls/library/bignum.c:1548-1638 | both divisions return the same quotient |
| MpiModule.UsedLimbs | src/mbedtls/library/bignum.c:1036-1042 | the scan for the leading nonzero limb: the limbs below it carry the whole value |
| MpiModule.CompareLimbs | src/mbedtls/library/bignum.c:1031-1058 | the sign of the comparison of the two numbers, whatever the lengths and leading zeros |
| MpiModule.Mpi.Grow | src/mbedtls/library/bignum.c:117-142 | more limbs, same value and sign; failure leaves the number alone |
| MpiModule.Mpi.Copy | src/mbedtls/library/bignum.c:216-257 | value and sign of the source, the buffer never shrinks |
| MpiModule.Mpi.Lset | src/mbedtls/library/bignum.c:276-290 | the signed word as a number |
| MpiModule.Mpi.CmpMpi | src/mbedtls/library/bignum.c:1063-1093 | the comparison of the signed values, with zero equal to zero of either sign |
| MpiModule.Mpi.CmpInt | src/mbedtls/library/bignum.c:1098-1110 | the comparison with a signed word |
| MpiModule.SubHlp | src/mbedtls/library/bignum.c:1188-1203 | a part of D becomes the difference of two rows, with the borrow as the returned carry; D may be either operand |
| MpiModule.Mpi.AddAbs | src/mbedtls/library/bignum.c:1115-1169 | |A| + |B| for every coincidence of the three objects, the carry loop growing the number when needed |
| MpiModule.Mpi.SubAbs | src/mbedtls/library/bignum.c:1208-1258 | |A| - |B| for every coincidence of the objects, and an error exactly when the difference would be negative |
| MpiModule.Mpi.AddMpi | src/mbedtls/library/bignum.c:1263-1293 | the signed sum, aliasing included |
| MpiModule.Mpi.SubMpi | src/mbedtls/library/bignum.c:1298-1328 | the signed difference, aliasing included |
| MpiModule.Mpi.AddInt | src/mbedtls/library/bignum.c:1333-1346 | the sum with a signed word |
| MpiModule.Mpi.SubInt | src/mbedtls/library/bignum.c:1351-1364 | the difference with a signed word |
| MpiModule.MulAddCore | src/mbedtls/library/bn_mul.h:928-969 | whichever kernel is compiled, carry and digit are worth s*b + c + d |
| MpiModule.MulHlp | src/mbedtls/library/bignum.c:1390-1452 | exactly b times the low limbs of S is added to the number at d; the carry loop stops inside the row |
| MpiModule.Mpi.MulMpi | src/mbedtls/library/bignum.c:1457-1504 | the exact signed product for every coincidence of the three objects |
| MpiModule.Mpi.MulInt | src/mbedtls/library/bignum.c:1509-1542 | the exact product with a limb, also in place |
| MpiBits.BitLen | src/mbedtls/library/bignum.c:375-389 | the number n with 2^(n-1) <= |X| < 2^n |
| MpiBits.GetBit | src/mbedtls/library/bignum.c:295-303 | the bit of the value at that position, 0 beyond the row |
| MpiBits.Lsb | src/mbedtls/library/bignum.c:341-352 | the largest power of two in a nonzero number, found by scanning bits |
| MpiBits.LsbIs | src/mbedtls/library/bignum.c:341-352 | in numbers: that power of two divides the number and the next one does not |
| MpiBits.FieldPosition | src/mbedtls/library/bignum.c:295-303 | k bits of a limb are k bits of the number, at the position the index arithmetic says |
| MpiBits.ShiftL | src/mbedtls/library/bignum.c:936-982 | multiplication by 2^count, limbs and bits shifted separately |
| MpiBits.ShiftR | src/mbedtls/library/bignum.c:987-1026 | integer division by 2^count, including shifts beyond the whole row |
| DivisionDigit.RejectedTooLarge | src/mbedtls/library/bignum.c:1718-1728 | a candidate that the three-limb test rejects is above the true digit, so stepping down is right |
| DivisionDigit.AcceptedAlmostRight | src/mbedtls/library/bignum.c:1714-1728 | a candidate that passes the test is at most one above the true digit, with the divisor's top limb merely nonzero |
| DivisionDigit.CandidateLargeEnough | src/mbedtls/library/bignum.c:1706-1718 | the first candidate is never below the true digit |
| DivisionDigit.AddBackEnough | src/mbedtls/library/bignum.c:1734-1740 | after a negative subtraction one add-back gives the true digit and remainder |
| MpiDiv.EstimateDigit | src/mbedtls/library/bignum.c:1706-1728 | the inner loop terminates with a digit that is right or one too large |
| MpiDiv.DivideDigit | src/mbedtls/library/bignum.c:1704-1741 | one round removes exactly the true quotient digit's multiple of the divisor, with at most one add-back |
| MpiDiv.Setup | src/mbedtls/library/bignum.c:1676-1695 | both operands scaled by the same power of two, the divisor's top limb in [b/4, b/2) |
| MpiDiv.LowerDigits | src/mbedtls/library/bignum.c:1704-1741 | all remaining digits: divisor times quotient plus rest is what was there before, the rest below the divisor |
| MpiDiv.DivideMagnitudes | src/mbedtls/library/bignum.c:1669-1757 | |A| = Z*|B| + X with X < |B| |
| MpiDiv.DivMpi | src/mbedtls/library/bignum.c:1643-1766 | A = Q*B + R with |R| < |B| and R zero or of A's sign, R allowed to be an operand; an error exactly for B = 0 |
| MpiDiv.TruncatedIff | src/mbedtls/library/bignum.c:1643-1766 | what quotient and remainder of different signs mean: A = Q*B + R with |R| < |B| and a multiple Q*B not beyond A |
| MpiDiv.ModMpi | src/mbedtls/library/bignum.c:1790-1811 | the residue in [0, B), also when the dividend is negative; errors exactly for B < 0 and B = 0 |
| Montgomery.StartIsInverse | src/mbedtls/library/bignum.c:1880-1881 | the start value of the Newton iteration is an inverse modulo 16 of every odd limb |
| Montgomery.NewtonStep | src/mbedtls/library/bignum.c:1883-1884 | each step doubles the number of correct bits, wrap-around included |
| Montgomery.MontgInit | src/mbedtls/library/bignum.c:1875-1887 | the returned limb is -N^-1 modulo b for every odd low limb: its product with the low limb plus 1 is 0 modulo b |
| Montgomery.MontStep | src/mbedtls/library/bignum.c:1925-1934 | one round keeps the running value below B + N and makes its low limb vanish |
| Montgomery.MontLoop | src/mbedtls/library/bignum.c:1917-1935 | after all rounds the value times b^n is A*B plus a multiple of N, and it is below B + N |
| Montgomery.CondAssign | src/mbedtls/library/constant_time.c:301-324 | all limbs of the source or none |
| Montgomery.FinalSubtraction | src/mbedtls/library/bignum.c:1937-1955 | the branch-free subtraction takes N away exactly when the value has reached it |
| Montgomery.MontMul | src/mbedtls/library/bignum.c:1911-1956 | A*B*b^-n modulo N, fully reduced below N, also when A and B are the same object |
| MpiExp.MontRed | src/mbedtls/library/bignum.c:1963-1973 | A*b^-n modulo N, below N |
| MpiExp.SafeCondAssign | src/mbedtls/library/constant_time.c:536-560 | the whole number is assigned or left as it is, by value |
| MpiExp.Select | src/mbedtls/library/bignum.c:1990-2002 | the table entry with the secret index, although every entry is read |
| MpiExp.FillTable | src/mbedtls/library/bignum.c:2113-2136 | every window index with its top bit set finds W[i] holding A^i in Montgomery form |
| MpiExp.TakeBit | src/mbedtls/library/bignum.c:2158-2200 | one exponent bit: accumulated power and pending window together still stand for the bits read so far |
| MpiExp.ScanExponent | src/mbedtls/library/bignum.c:2138-2201 | the scan from the top bit keeps that state for every window size |
| MpiExp.FinishBits | src/mbedtls/library/bignum.c:2203-2214 | the bits of an incomplete window finish the exponent |
| MpiExp.SquaredRadix | src/mbedtls/library/bignum.c:2074-2087 | b^2n modulo N, computed or taken from an earlier call with the same modulus |
| MpiExp.ExpMod | src/mbedtls/library/bignum.c:2007-2239 | the function's result for all bases, exponents and odd moduli, every window size, with or without prec_RR; errors exactly for the arguments it must refuse |
| MpiExp.AcceptableIff | src/mbedtls/library/bignum.c:2024-2032 | the arguments that are not refused, in numbers: 0 <= E < 2^8192 and an odd N with 0 < N < 2^8192 |
| Congruence.PowerIs | src/mbedtls/library/bignum.c:2007-2239 | the power by its recurrence |
| MpiExp.ExpResultMeaning | src/mbedtls/library/bignum.c:2216-2225 | that result is congruent to A^E and in [0, N), except that a negative base with odd exponent whose power is divisible by N gives N itself |
| MpiExp.ResidueWhenCoprime | src/mbedtls/library/bignum.c:2216-2225 | for a modulus above 1 with no factor in common with the base the result is in [0, N), whatever the sign of the base and the exponent |
| MpiExp.FirstPowerIff | src/mbedtls/library/bignum.c:2216-2225 | for exponent 1 the result is in [0, N) exactly when the base is not negative or not a multiple of N |
| MpiExp.MultipleOfModulus | src/mbedtls/library/bignum.c:2216-2225 | the input A = -3, E = 1, N = 3, for which the result is 3 |
| MpiGcd.GcdTurn | src/mbedtls/library/bignum.c:2310-2334 | one turn of the binary gcd keeps the common divisor and makes the sum smaller |
| MpiGcd.Gcd | src/mbedtls/library/bignum.c:2244-2353 | terminates; for B = 0 it returns A with its sign, and the result is the greatest common divisor of |A| and |B| exactly when not B = 0 and A < 0 |
| MpiGcd.NegativeGcd | src/mbedtls/library/bignum.c:2261-2270 | the input A = -6, B = 0: the result -6 is not the greatest common divisor, 6 is |
| MpiGcd.HalveStep | src/mbedtls/library/bignum.c:2523-2549 | an even number of the inverse computation is halved exactly, its two coefficients with it |
| MpiGcd.InverseTurn | src/mbedtls/library/bignum.c:2521-2564 | one turn keeps U1*TA + U2*TB = TU and V1*TA + V2*TB = TV |
| MpiGcd.EvenCoefficients | src/mbedtls/library/bignum.c:2527-2534 | moving a multiple across makes both coefficients even |
| MpiGcd.InvMod | src/mbedtls/library/bignum.c:2488-2581 | NOT_ACCEPTABLE only when A and N are not coprime; success only when they are, with the inverse in [0, N) |
| MpiString.ModInt | src/mbedtls/library/bignum.c:1816-1870 | the residue the half-limb loop computes for any sign, and the true residue for every divisor with no loss in the shift |
| MpiString.ModIntExactIff | src/mbedtls/library/bignum.c:1844-1858 | the loop is right for all numbers exactly when the divisor is at most half a limb or divides the radix |
| MpiString.GetDigit | src/mbedtls/library/bignum.c:402-414 | the digit value in both letter cases, and an error exactly for other characters |
| Numerals.CodeIs | src/mbedtls/library/bignum.c:419-484 | the characters that are printed for the sixteen digit values |
| Numerals.DigitIs | src/mbedtls/library/bignum.c:402-414 | exactly the characters that are read as a given digit value |
| MpiString.WriteHlp | src/mbedtls/library/bignum.c:489-523 | the digits of the number, most significant first, moved to the front of the buffer; no room exactly when there are more digits than bytes |
| MpiString.WriteHex | src/mbedtls/library/bignum.c:572-591 | hexadecimal in whole bytes without leading zero bytes |
| MpiString.WriteString | src/mbedtls/library/bignum.c:528-610 | too small exactly below the announced size, otherwise sign, digits and terminator |
| Numerals.PrintFits | src/mbedtls/library/bignum.c:540-561 | the size estimate from the bit length always holds sign, digits and terminator |
| Numerals.NeededAtMost | src/mbedtls/library/bignum.c:540-561 | the size estimate asks for four characters more than the bit length divided by 1, 2 or 4, at most |
| Numerals.Examples | src/mbedtls/library/bignum.c:528-610 | printed numbers character by character: sign, decimal digits, hexadecimal in whole bytes |
| MpiString.ReadHex | src/mbedtls/library/bignum.c:438-457 | digits placed by shift and or give the number; an error exactly for an invalid digit |
| MpiString.ReadString | src/mbedtls/library/bignum.c:419-484 | the value of the numeral in radix 2 to 16, or an error for a bad radix or character |
| Numerals.ParsePrint | src/mbedtls/library/bignum.c:419-610 | the syntax that is read contains everything that is printed, with the same value |
| MpiString.RoundTrip | src/mbedtls/library/bignum.c:419-610 | asking for the size, printing and reading back gives the same number |
| MpiBinary.Size | src/mbedtls/library/bignum.c:394-397 | the bit length rounded up to bytes |
| MpiBinary.WriteBinary | src/mbedtls/library/bignum.c:890-931 | the magnitude, big-endian and zero-filled; an error exactly when it does not fit |
| MpiBinary.ReadBinary | src/mbedtls/library/bignum.c:815-846 | the number the bytes denote, never negative, in as many limbs as they need |
| MpiBinary.FillRandomBytes | src/mbedtls/library/bignum.c:2362-2380 | a number below 256^n whatever the generator delivers, size and sign kept |
| MpiBinary.Random | src/mbedtls/library/bignum.c:2410-2483 | bad input exactly for min < 0 or N <= min; an accepted result lies in [min, N) and is the first number drawn that does, each drawn with as many bits as N; it gives up exactly when all 30 or 250 draws but the last were out of range |
| MpiBinary.ExhaustedIs | src/mbedtls/library/bignum.c:2445-2478 | when the generator counts as exhausted: 30 draws, or 250 for bounds of up to four bytes, of which all but the last were out of range |
| ConstantTime.MaskIs | src/mbedtls/library/constant_time.c:70-116 | or with the negative, shifted and negated, is all ones for nonzero and zero for zero, at every word width |
| ConstantTime.IfIs | src/mbedtls/library/constant_time.c:257-263 | the masked selection picks one operand |
| ConstantTime.GtIs | src/mbedtls/library/constant_time.c:216-221 | the sign bit of the difference compares numbers below half the range |
| ConstantTime.LtIs | src/mbedtls/library/constant_time.c:227-253 | the three-step bit formula compares any two words |
| MpiBinary.LtMpiCt | src/mbedtls/library/constant_time.c:607-669 | signed comparison without early exit; a negative zero counts as below zero |
| MpiBinary.SignedLessIff | src/mbedtls/library/constant_time.c:623-634 | that order is the order of the values for every pair except negative zero against positive zero |
| Blinding.CancelFresh | src/mbedtls/library/dhm.c:404-424 | values made from scratch cancel in the exponentiation |
| Blinding.CancelSquares | src/mbedtls/library/dhm.c:386-399 | squared and reduced values still cancel |
| Blinding.Unblind | src/mbedtls/library/dhm.c:457-471 | blinding, exponentiation and unblinding give the plain power |
| Blinding.Agreement | src/mbedtls/library/dhm.c:206-242 | both ends derive the same secret |
| Dhm.CheckRange | src/mbedtls/library/dhm.c:101-119 | accepts exactly 2..P-2 |
| Dhm.DhmContext.ReadPublic | src/mbedtls/library/dhm.c:319-333 | the peer's value as a number; refused exactly when it is empty or longer than the modulus, and the cached values stay valid |
| Dhm.DhmContext.MakePublic | src/mbedtls/library/dhm.c:338-363 | the exported value is G^X mod P in 2..P-2 and the cache stays valid; bad input only for a size out of range, a modulus the exponentiation refuses or a public value out of range, too small exactly when the value does not fit, otherwise only memory or the generator can fail |
| Dhm.DhmContext.PublishableIff | src/mbedtls/library/dhm.c:206-243 | when a public value can be made, in numbers |
| Dhm.DhmContext.UpdateBlinding | src/mbedtls/library/dhm.c:372-431 | after reset, squaring or regeneration the cache belongs to the current private value and still cancels |
| Dhm.DhmContext.CalcSecret | src/mbedtls/library/dhm.c:436-483 | after any sequence of calls the secret is GY^X mod P, exported without a leading zero byte; it is wrong exactly for a zero private value on an unused context, where it is 0; bad input only for a buffer shorter than the modulus, a peer value out of range or arguments the exponentiation refuses, and for prime P all other failures are memory or the generator |
| Dhm.UnusedZero | src/mbedtls/library/dhm.c:372-407 | that input: a new context with private value 0 derives 0, although GY^0 mod P is 1 |
| PrimeField.InverseExists | src/mbedtls/library/ecdsa.c:252-384 | modulo a prime every nonzero residue has an inverse |
| PrimeField.PrimeIff | src/mbedtls/library/ecdsa.c:252-384 | what is assumed of the group order: no number between 1 and n divides it |
| CurveGroup.MultipleResidue | src/mbedtls/library/ecdsa.c:252-384 | multiples of the base point depend only on the factor modulo n |
| Ecdsa.CutFirst | src/mbedtls/library/ecdsa.c:227-245 | cutting whole bytes before shifting gives the leftmost bits of the hash |
| Ecdsa.DeriveMpi | src/mbedtls/library/ecdsa.c:227-245 | the hash value modulo n for hashes of any length, one subtraction being enough |
| Ecdsa.HashMeans | src/mbedtls/library/ecdsa.c:227-245 | the hash value in numbers: the string without its excess low bits, modulo n |
| Ecdsa.LeftmostMeans | src/mbedtls/library/ecdsa.c:227-245 | the leftmost bits as the last multiple of a power of two not above the string |
| Ecdsa.BlindedEquation | src/mbedtls/library/ecdsa.c:349-368 | the blinded computation of s satisfies s*k = e + r*d modulo n |
| PrimeField.Invertible | src/mbedtls/library/ecdsa.c:357-366 | the blinded nonce k t mod n always has an inverse, so that step never fails |
| Ecdsa.SignatureAccepted | src/mbedtls/library/ecdsa.c:252-384 | such a pair is accepted under the public key dG |
| Ecdsa.AcceptsIff | src/mbedtls/library/ecdsa.c:252-626 | under dG exactly those pairs are accepted for which some k in 1..n-1 gives r = x(kG) mod n and s*k = e + r*d modulo n, both in 1..n-1 |
| Ecdsa.Sign | src/mbedtls/library/ecdsa.c:252-384 | every returned (r, s) lies in 1..n-1 and is accepted for the same hash; bad input exactly for an unusable curve, invalid key exactly for d outside 1..n-1, otherwise only memory or the random generator can fail |
| Ecdsa.InverseIrrelevant | src/mbedtls/library/ecdsa.c:523-626 | acceptance does not depend on which inverse of s is used |
| Ecdsa.Verify | src/mbedtls/library/ecdsa.c:523-626 | accepts exactly the good signatures, apart from memory failures; for a key dG these are the pairs that signing with d can produce, and all others are refused |
| Der.WriteLen | src/mbedtls/library/asn1write.c:37-99 | the shortest length encoding in front of p, and errors exactly for lengths above 2^32-1 or lack of room |
| Der.WriteMpi | src/mbedtls/library/asn1write.c:127-161 | tag, length and minimal non-negative content of a positive number; success exactly when it fits |
| Der.SignatureToAsn1 | src/mbedtls/library/ecdsa.c:650-673 | the DER signature, success exactly when it fits both buffers, the output untouched otherwise |
| Der.MaxSigLenIff | src/mbedtls/include/mbedtls/ecdsa.h:53-62 | the announced maximal signature length is enough for all r and s of the given bit length exactly below 1000 bits |
| Der.ContentSize | src/mbedtls/include/mbedtls/ecdsa.h:48-60 | a positive number takes one byte more than its bit length has whole bytes, sign byte included |
| Der.GetLen | src/mbedtls/library/asn1parse.c:45-101 | parses one to five length bytes and checks that the content is there |
| Der.GetTag | src/mbedtls/library/asn1parse.c:103-116 | content and rest of an element, or an error exactly when there is none |
| Der.GetMpi | src/mbedtls/library/asn1parse.c:196-211 | the unsigned value of an INTEGER |
| Der.ReadPair | src/mbedtls/library/ecdsa.c:781-806 | the two numbers of a signature sequence that fills the input, and where they end |
| DerSpec.LengthInverse | src/mbedtls/library/asn1parse.c:45-101 | reading a length forwards undoes writing it backwards, for every length below 2^32 |
| DerSpec.LengthForms | src/mbedtls/library/asn1write.c:37-99 | the one, two and three byte forms of a length in numbers |
| DerSpec.ParseLengthLong | src/mbedtls/library/asn1parse.c:45-101 | lengths in one to four bytes are read, shortest or not, exactly when the content is there |
| DerSpec.ParseLengthShort | src/mbedtls/library/asn1parse.c:45-101 | short lengths, and the first bytes that no length can have |
| DerSpec.SignatureInverse | src/mbedtls/library/ecdsa.c:650-673 | parsing a written signature yields r and s and consumes it exactly |
| DerSpec.PairParsed | src/mbedtls/library/ecdsa.c:781-806 | any two integers in a sequence are read, whatever follows them in it, and nothing may follow the sequence |
| DerSpec.Example | src/mbedtls/library/ecdsa.c:650-673 | a signature byte by byte |
| EcdsaDer.WriteSignature | src/mbedtls/library/ecdsa.c:678-726 | the bytes that signing writes parse to an accepted pair; buffers of `MBEDTLS_ECDSA_MAX_SIG_LEN` bytes never are too small for curves below 1000 bits |
| EcdsaDer.ReadSignature | src/mbedtls/library/ecdsa.c:764-824 | succeeds exactly on good signatures, and returns the length mismatch exactly for good signatures that are followed by more data |
| EcdsaDer.GoodIff | src/mbedtls/library/ecdsa.c:678-824 | the bytes of a pair are good exactly when signing with the key can produce the pair |
| EcdsaDer.GoodParses | src/mbedtls/library/ecdsa.c:764-824 | whatever is good is a sequence of exactly two integers that signing can produce |
| EcdsaDer.SignThenVerify | src/mbedtls/library/ecdsa.c:678-824 | when signing succeeds, verification of what it wrote succeeds too, unless memory runs out; unusable curves and invalid keys are refused |
| Blocks.FeedIsChain | src/mbedtls/library/ccm.c:267-338 | feeding bytes into the block as they come and flushing at the end is the CBC-MAC chain over zero-padded blocks |
| Blocks.ChainIs | src/mbedtls/library/ccm.c:141-338 | the CBC recurrence: every block is encrypted together with the result for the block before it |
| Blocks.XorBitsAt | src/mbedtls/library/ccm.c:340-446 | exclusive or bit by bit |
| CcmSpec.Stages | src/mbedtls/library/ccm.c:141-201 | first block, associated data and payload in sequence are one chain over the formatted input |
| CcmSpec.FlagsBits | src/mbedtls/library/ccm.c:170-186 | the bits of the flags byte: associated data, tag length, size of the length field |
| CcmSpec.NonceDetermined | src/mbedtls/library/ccm.c:141-201 | the first block determines the nonce (section 5.4 of SP 800-38C) |
| CcmSpec.PrefixFree | src/mbedtls/library/ccm.c:141-338 | under one nonce the formatted data of one input is no beginning of that of another (section 5.4) |
| CcmSpec.CounterApart | src/mbedtls/library/ccm.c:141-238 | the first block differs from every counter block (section 5.4) |
| CcmSpec.CountersDiffer | src/mbedtls/library/ccm.c:428-433 | different counters have different blocks |
| CcmSpec.CounterIs | src/mbedtls/library/ccm.c:203-238 | a counter block byte by byte |
| CcmSpec.TagIs | src/mbedtls/library/ccm.c:448-483 | the tag byte by byte: the last value of the CBC recurrence over the formatted data, with the key block of counter 0 |
| CcmSpec.CtrXorBlock | src/mbedtls/library/ccm.c:340-446 | block j of the ciphertext uses the key block of counter j + 1 |
| CcmSpec.Example | src/mbedtls/library/ccm.c:141-338 | the formatted data and first counter block of Example 1 of SP 800-38C |
| CcmSpec.RoundTrip | src/mbedtls/library/ccm.c:488-582 | decrypting an encrypted message gives it back with the same tag |
| Ccm.CcmContext.Starts | src/mbedtls/library/ccm.c:203-238 | nonce before or after the lengths: the same ready state, or an error and an unchanged context |
| Ccm.CcmContext.SetLengths | src/mbedtls/library/ccm.c:240-265 | lengths before or after the nonce, refused exactly for illegal values or a length that does not fit its field |
| Ccm.CcmContext.UpdateAd | src/mbedtls/library/ccm.c:267-338 | a further piece of associated data, of any size; refused exactly when it exceeds the announced total |
| Ccm.CcmContext.Increment | src/mbedtls/library/ccm.c:428-433 | the counter in the last q bytes goes up by one |
| Ccm.CcmContext.Update | src/mbedtls/library/ccm.c:340-446 | a further piece of payload, of any size and also in place, is transformed with the key stream at its position and added to the chain |
| Ccm.CcmContext.Finish | src/mbedtls/library/ccm.c:448-483 | refused exactly while data is missing; otherwise the tag of the definition and a context as good as new |
| Ccm.CcmContext.AuthCrypt | src/mbedtls/library/ccm.c:488-514 | one shot: ciphertext and tag of the definition, success exactly for legal parameters |
| Ccm.CcmContext.ParametersAre | src/mbedtls/library/ccm.c:141-265 | the legal nonce, tag, associated data and payload lengths in numbers |
| Ccm.CcmContext.WriteFirstBlock | src/mbedtls/library/ccm.c:170-196 | the first block, with its flags in numbers; what is left of the length did not fit |
| Ccm.CompareTags | src/mbedtls/library/ccm.c:542-557 | equal tags are accepted and no others |
| Ccm.AuthDecrypt | src/mbedtls/library/ccm.c:559-582 | plaintext exactly when the tag is that of the definition, zero bytes otherwise |
| Ccm.EncryptThenDecrypt | src/mbedtls/library/ccm.c:488-582 | what was encrypted in pieces is accepted and decrypted to the plaintext, exactly for legal parameters |
| Ccm.Run | src/mbedtls/library/ccm.c:203-483 | any cutting of associated data and payload into calls, nonce and lengths in either order, equals the one-shot definition |
| Xts.GfDouble | src/mbedtls/library/aes.c:1094-1107 | the two-word shift is multiplication by x modulo x^128 + x^7 + x^2 + x + 1 |
| Xts.FullBlocks | src/mbedtls/library/aes.c:1147-1179 | the full blocks, with the swapped tweak order for the last one when decryption has leftover bytes |
| Xts.Steal | src/mbedtls/library/aes.c:1181-1213 | ciphertext stealing for the leftover bytes |
| Xts.CryptXts | src/mbedtls/library/aes.c:1112-1216 | the data unit as the standard defines it for every length from 16 to 2^24, an error exactly for other lengths |
| XtsSpec.XtsInverse | src/mbedtls/library/aes.c:1112-1216 | decryption undoes encryption for every length and every permutation pair |
| XtsSpec.XtsBlock | src/mbedtls/library/aes.c:1147-1179 | block j is exclusive-ored with its tweak before and after the cipher, the tweak being the remainder of t times x^j |
| XtsSpec.XtsStolen | src/mbedtls/library/aes.c:1181-1213 | the two blocks of ciphertext stealing with their tweaks, in order for encryption and swapped for decryption |
| XtsSpec.TweakDivision | src/mbedtls/library/aes.c:1094-1107 | repeated doubling divides the carry-less product of t and 2^j by 2^128 + 0x87, with an explicit quotient |
| XtsSpec.TweakUnique | src/mbedtls/library/aes.c:1094-1179 | there is only one such tweak |
| Polynomials.RemainderUnique | src/mbedtls/library/aes.c:1094-1107 | a polynomial over the bits has one remainder below degree 128 |
| CbcSpec.CbcAppend | src/mbedtls/library/aes.c:1006-1079 | a message processed in parts, each with the chaining value the one before left, is the whole message processed at once |
| CbcSpec.CbcInverse | src/mbedtls/library/aes.c:1006-1079 | decryption undoes encryption |
| CbcSpec.EncryptedBlock | src/mbedtls/library/aes.c:1006-1079 | encryption: every block goes through the cipher together with the ciphertext block before it |
| CbcSpec.DecryptedBlock | src/mbedtls/library/aes.c:1006-1079 | decryption: the ciphertext block before it is taken off after the cipher |
| CbcSpec.UnpadPad | src/mbedtls/library/cipher.c:772-918 | the padding that was added is found again; zero padding exactly when the data does not end in a zero byte |
| CbcSpec.PadMeans | src/mbedtls/library/cipher.c:772-898 | every byte that each padding adds, and their number |
| CbcSpec.UnpadIff | src/mbedtls/library/cipher.c:782-883 | padding is recognised exactly in the blocks that it makes |
| CipherLayer.AddPadding | src/mbedtls/library/cipher.c:772-898 | the padded last block for each mode |
| CipherLayer.GetPkcsPadding | src/mbedtls/library/cipher.c:782-805 | the branch-free check accepts exactly well-formed PKCS7 padding |
| CipherLayer.GetOneAndZerosPadding | src/mbedtls/library/cipher.c:823-844 | finds the 80 byte behind trailing zeros, or an error |
| CipherLayer.GetZerosAndLenPadding | src/mbedtls/library/cipher.c:862-884 | accepts exactly zeros and a length |
| CipherLayer.GetZerosPadding | src/mbedtls/library/cipher.c:900-918 | the place after the last nonzero byte |
| CipherLayer.CbcBlocks | src/mbedtls/library/aes.c:1006-1079 | whole blocks, also in place, and the chaining value for the next call |
| CipherLayer.CipherContext.Update | src/mbedtls/library/cipher.c:592-679 | any piece: output so far is the chain over all but the held-back bytes, of which decryption with padding keeps a whole block |
| CipherLayer.CipherContext.Finish | src/mbedtls/library/cipher.c:985-1032 | the padded last block, or the plaintext with its padding removed; errors exactly when the definition has no result |
| CipherLayer.RoundTrip | src/mbedtls/library/cipher.c:592-1032 | decryption returns the message for every padding; for zero padding exactly when the last incomplete block does not end in a zero byte |
| CipherLayer.Run | src/mbedtls/library/cipher.c:592-1032 | any cutting into updates followed by finish equals the definition, in both directions |
| Pkcs1.DecodeIff | src/mbedtls/library/constant_time.c:675-799 | the plain decoder finds exactly the blocks of the form 00 02, eight or more nonzero bytes, 00, message |
| Pkcs1.Scan | src/mbedtls/library/constant_time.c:712-718 | the separator flag and the padding length, by flag arithmetic over the whole buffer |
| Pkcs1.MoveToLeft | src/mbedtls/library/constant_time.c:381-403 | the quadratic loop drops the first bytes and fills up with zeros at the end |
| Pkcs1.DocumentedIff | src/mbedtls/library/constant_time.c:365-380 | the function's own comment describes that only for an offset of half the buffer |
| Pkcs1.Unpadding | src/mbedtls/library/constant_time.c:675-799 | agrees with the plain decoder on result code, length and every output byte, for every output size |
| Base64.EncChar | src/mbedtls/library/constant_time.c:330-342 | the five masked ranges give the alphabet character |
| Base64Spec.AlphabetIs | src/mbedtls/library/constant_time.c:330-342 | the 64 characters |
| Base64.DecValue | src/mbedtls/library/constant_time.c:344-359 | the digit value, or -1 for every other character |
| Base64.EncodeTo | src/mbedtls/library/base64.c:44-109 | the encoding with its terminator; too small exactly when it does not fit, with the size that is needed |
| Base64Spec.TripleIs | src/mbedtls/library/base64.c:76-90 | the four characters of a triple are the base-64 digits of its number |
| Base64Spec.Examples | src/mbedtls/library/base64.c:44-109 | three encodings character by character, with one and two equals signs |
| Base64Spec.BlankIs | src/mbedtls/library/base64.c:125-147 | the blanks: space, carriage return, line feed |
| Base64.Check | src/mbedtls/library/base64.c:125-173 | accepts exactly the strings whose significant characters are digits followed by at most two equals signs, with spaces only before line ends or the end of input and every carriage return followed by a line feed |
| Base64Spec.FirstPassMeans | src/mbedtls/library/base64.c:125-173 | an accepted string is digits and at most two equals signs, counted correctly, among blanks |
| Base64Spec.AcceptedIff | src/mbedtls/library/base64.c:125-173 | the strings that the first pass accepts, in terms of their characters |
| Base64Spec.NoOverrun | src/mbedtls/library/base64.c:175-207 | the second pass writes at most the announced length, and exactly that for whole groups |
| Base64.Translate | src/mbedtls/library/base64.c:188-209 | the second pass decodes the complete groups of the significant characters |
| Base64.DecodeTo | src/mbedtls/library/base64.c:114-212 | error, announced length or decoded bytes, for every input string |
| Base64Spec.RoundTrip | src/mbedtls/library/base64.c:44-212 | an encoding is accepted, announces the length of the data, and decodes to it |
| Mqtt.Client.WriteString | src/MQTT-TLS.cpp:555-566 | a C string behind its two-byte length, cut at the end of the buffer |
| Mqtt.Client.Write | src/MQTT-TLS.cpp:471-496 | header and variable-length field placed directly before the body |
| Mqtt.Client.SendPublish | src/MQTT-TLS.cpp:405-444 | the packet on the wire is the serialised message, whole when it fits; identifier and counter as the code advances them |
| Mqtt.Client.RoomIff | src/MQTT-TLS.cpp:405-444 | what fits: the body behind five bytes |
| MqttParse.ParseSerialize | src/MQTT-TLS.cpp:405-496 | a parser of the packet layout reads every packet back with all its flags and takes exactly its bytes |
| MqttParse.HeaderRead | src/MQTT-TLS.cpp:405-444 | the first byte in numbers: type, duplicate, quality of service, retain |
| Mqtt.Client.ReadLength | src/MQTT-TLS.cpp:229-245 | the remaining length modulo 2^16, read with wrapping 16-bit and 32-bit words, for all encodings of up to four bytes |
| Mqtt.Client.ReadPacket | src/MQTT-TLS.cpp:227-272 | a packet that fits is in the buffer byte for byte; of any other, body length modulo 2^16 bytes are taken and the total modulo 2^16 is reported, 0 if that exceeds the buffer |
| Mqtt.Client.SkippedIff | src/MQTT-TLS.cpp:236-271 | a packet longer than the buffer is taken whole and reported as 0 exactly when it has at most 2^16 bytes |
| Mqtt.Client.LongPacket | src/MQTT-TLS.cpp:236-271 | the input: a packet of 65539 bytes is reported as one of 3 bytes |
| Mqtt.Client.HandlePublish | src/MQTT-TLS.cpp:298-333 | topic and payload reach the callback exactly, and the answer carries the packet's identifier whatever the callback did to the buffer |
| Mqtt.Client.HandleShort | src/MQTT-TLS.cpp:334-366 | the answers to PUBREC, PUBREL and PINGREQ, and when the application is told of a completed exchange |
| MqttReaction.AnswerBytes | src/MQTT-TLS.cpp:298-366 | the answers byte by byte, with the identifier that came in |
| Mqtt.Client.Loop | src/MQTT-TLS.cpp:274-372 | an idle connection is pinged, or closed when a ping is unanswered; then one packet is taken from the stream and handled as the protocol says, or skipped when it is too long |
| MqttExchange.Exchange | src/MQTT-TLS.cpp:298-444 | a message between two clients is delivered exactly once; completion is reported for QoS 1 and never for QoS 2 |
| MqttExchange.Connect | src/MQTT-TLS.cpp:274-300 | two new clients are in the state that such an exchange starts from |
| Cmac.MultiplyByU | src/mbedtls/library/cmac.c:66-112 | the byte-wise shift is multiplication by x in the field |
| Cmac.CmacContext.Update | src/mbedtls/library/cmac.c:225-291 | everything but the last block, complete or not, has gone through the chain |
| Cmac.CmacContext.Finish | src/mbedtls/library/cmac.c:293-352 | the code of RFC 4493 of everything that was fed, and a fresh start |
| Cmac.Run | src/mbedtls/library/cmac.c:225-352 | any cutting into updates gives the code of the joined pieces |
| CmacSpec.WholeMessage | src/mbedtls/library/cmac.c:293-352 | for whole blocks the first subkey goes into the last block of the CBC recurrence |
| CmacSpec.PartMessage | src/mbedtls/library/cmac.c:293-352 | the empty message and incomplete last blocks get one bit, zeros and the second subkey |
| CmacSpec.TimesUIsSubkey | src/mbedtls/library/cmac.c:66-148 | a subkey is twice the block it comes from modulo x^128 + x^7 + x^2 + x + 1 |
| CmacSpec.SubkeyUnique | src/mbedtls/library/cmac.c:66-148 | there is only one such block |
| ChaCha20.ChaCha20Context.Update | src/mbedtls/library/chacha20.c:240-303 | a further piece of any size, also in place, with the key stream at its position; the block counter wraps |
| ChaCha20.StreamTwice | src/mbedtls/library/chacha20.c:240-303 | the same operation decrypts |
| ChaCha20.StreamIs | src/mbedtls/library/chacha20.c:240-303 | byte i of block j is combined with byte i of the key block of the counter plus j, as a 32-bit word |
| ChaCha20.Run | src/mbedtls/library/chacha20.c:217-303 | any cutting into updates equals one call |

## Left out

- Limb buffers: a row of limbs is a sequence that the methods reassign, so reallocation and the address of a buffer are not modelled; the limbs of one number are never part of another.
- Machine sizes: `size_t` is unbounded where the code does not test it, except in the wrapping length computations that are modelled (padding lengths, MQTT lengths, the Base64 size test).
- Or of disjoint bits: where the C code combines with `|` values that have no bit in common, the model adds them; the disjointness follows from the bounds that are proved there.
- Loop unrolling: the multiply-add loop is modelled one limb at a time, without the variants that do 16 or 8 limbs in a row; inline assembly is not modelled.
- MpiDiv.DivMpi: Q may coincide with A only for a non-negative A without a remainder, and not with B or R; other overlaps of the quotient are not covered.
- MpiGcd.InvMod: both directions hold up to memory failures, which end the computation earlier.
- MpiExp.ExpMod: the window table and the shared `prec_RR` buffer are separate objects in the model; the configured upper limit of the window size is any value from 1 to 6.
- MpiString.ReadString: the string is given without its terminator, and the length limit of the hexadecimal branch is left out.
- MpiBinary.ReadBinary: the byte order inside a word and the two-pointer swap of the limbs are one step; the little-endian import and export would only add easy members.
- Error codes: a failure carries the code of the step that failed; the sums with a module code that `MBEDTLS_ERROR_ADD` forms are not modelled.
- Dhm.DhmContext.SetGroup: changing P after values were cached for another one, and a context in which a blinding call failed, are outside the invariant.
- Ecdsa.Sign: restartable operation, deterministic nonces and the curve arithmetic are not modelled; the group is known by its laws alone, and the fields of a point other than its x-coordinate do not occur.
- Der.WriteMpi: zero and negative numbers are not covered; tagged integers, bit strings and other ASN.1 types would only add easy members.
- Ccm.CcmContext.Update: payload before the announced associated data is complete is a misuse that the code does not detect; it is outside the contract, like restarting a context after an error.
- CipherLayer.CipherContext.Update: blocks of 16 bytes only (the 8-byte blocks of DES are not covered), and input and output either are the same buffer from its start or do not overlap.
- Xts.CryptXts: in place only without leftover bytes.
- Pkcs1.Unpadding: buffers of at least 11 and less than 2^31 bytes.
- Base64.EncodeTo: a null destination is not an input.
- Mqtt.Client.Loop: the clock is a parameter, and the waiting for bytes is left out; packets of more than 2^16 bytes are covered by `Mqtt.Client.ReadPacket` only, which is exact for them up to the largest remaining length of the protocol.
- Mqtt.Client.ReadPacket: a publish packet has the two bytes of its topic length, and a remaining length has at most four bytes; the code would wait for more input, or write a fifth and further length bytes behind those.
- Mqtt.Client.SendPublish: a topic for which the identifier would be written outside the buffer is excluded.
- Connecting, subscribing, TLS and sockets: not modelled.
- ChaCha20.ChaCha20Context.Update: the block function is arbitrary; key setup and the rounds are not modelled.
- CTR, CFB and OFB of `aes.c`, GCM, hashes, key generation, Miller-Rabin and the self-tests: not modelled; the buffered CTR and CFB loops would repeat the pattern of CCM and ChaCha20.
- Timing and zeroisation: only what the constant-time code computes is modelled, not that it takes constant time.
