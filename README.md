# bn256 field elements, constants and scalar decomposition, in Dafny

This project models three pieces of the bn256 pairing library's integer core:

- **The constant table** (`src/constants.h`). The BN parameter `u`, the group
  order, the base-field prime `p` and its four 64-bit words `p2`, and `np`,
  `rn1`, `r2` and `r3`. The relations their comments state are all proved on
  unbounded integers. These are the BN polynomials in `u`, the bit lengths,
  the 2^28 factor of `order - 1`, `np` as the negative inverse of `p` modulo
  R = 2^256, and R^-1, R^2 and R^3 modulo p (module `Constants`).
- **The 256-bit field element `gfp`** (`src/gfp.cpp`). A `gfp` is four
  little-endian 64-bit words (module `Words`, type `Gfp`). The model covers:
  - `set_zero`, `marshal`, `unmarshal` and `string`, written as methods over
    arrays with the source's loops;
  - `mont_encode`, `mont_decode` and `new_gfp`, written as functions;
  - `invert`, a method with the source's square-and-multiply loop.

  The four arithmetic primitives `gfp_neg`, `gfp_add`, `gfp_sub` and
  `gfp_mul` are given only by their contracts (module `FieldOps`). Each
  result is below p and congruent to the intended value modulo p; for
  `gfp_mul` that value is the Montgomery product a * b * R^-1.
- **Lattice scalar decomposition** (`src/lattice.cpp`). This covers
  `lattice::round`, `lattice::decompose` and `lattice::multi`, modelled as
  methods with the source's loops (module `Decomposition`). `int512_t` is an
  unbounded `int` with truncating division and remainder, a bit length and a
  bit test on the magnitude (module `BigInt`). The preconditions say that
  every intermediate fits in 512 bits.

Module `Arith` holds the generic facts about powers, division and modular
arithmetic that the proofs use.

## Model

| member | source | states |
|---|---|---|
| Constants.RIsPow2 | src/constants.h:42-49 | R, the Montgomery radix of the comments, is 2^256 |
| Constants.BnPolynomials | src/constants.h:13-24 | p = 36u^4+36u^3+24u^2+6u+1 and order = 36u^4+36u^3+18u^2+6u+1 for the given u |
| Constants.BitLengths | src/constants.h:19-24 | p and order are both 254-bit numbers: 2^253 <= x < 2^254 |
| Constants.DecimalSpellings | src/constants.h:19-23 | the decimal spellings in the comments are the hexadecimal constants |
| Constants.OrderTwoAdicity | src/constants.h:16-20 | order - 1 equals the factorisation in the comment, 2^28 * 3^2 * 13 * 29 * 983 * 11003 * 237073 * 405928799 * 1670836401704629 * 13818364434197438864469338081, so 2^28 divides it |
| Constants.P2IsP | src/constants.h:26-32 | the little-endian words of p2 combine to p |
| Constants.NpIsNegativeInverse | src/constants.h:34-40 | np * p == -1 (mod 2^256) |
| Constants.Rn1IsInverseOfR | src/constants.h:42-43 | rn1 < p and rn1 * R == 1 (mod p) |
| Constants.R2IsRSquared | src/constants.h:45-46 | r2 == R^2 mod p, so below p |
| Constants.R3IsRCubed | src/constants.h:48-49 | r3 == R^3 mod p, so below p |
| FieldOps.FromValue | src/gfp_generic.h:5-8 | the element built from n < p holds n; it is the unique result the primitive contracts allow |
| FieldOps.Neg | src/gfp_generic.h:5 | gfp_neg: the result is below p and c + a == 0 (mod p) |
| FieldOps.Add | src/gfp_generic.h:6 | gfp_add: the result is below p and c == a + b (mod p) |
| FieldOps.Sub | src/gfp_generic.h:7 | gfp_sub: the result is below p and c + b == a (mod p) |
| FieldOps.Mul | src/gfp_generic.h:8 | gfp_mul: the result is below p and c * R == a * b (mod p) |
| FieldOps.MulValue | src/gfp_generic.h:8 | the Montgomery product is exactly a * b * rn1 mod p |
| FieldOps.RCancel | src/constants.h:42-43 | multiplying by R and then by rn1 is the identity modulo p |
| Gfp.SetZero | src/gfp.cpp:8-10 | all four words become 0, so the element's value is 0 |
| Gfp.InvertBitsIsPMinus2 | src/gfp.cpp:13-18 | the local exponent `bits` is p - 2 |
| Gfp.InvertStart | src/gfp.cpp:20-22 | sum = rn1 and power = x start the ladder: sum == a^0 * R^-1 and power == a * R (mod p), for x == a * R |
| Gfp.InvertSkip | src/gfp.cpp:25-30 | on a clear bit, squaring power keeps the ladder invariant with the exponent unchanged and one more bit scanned |
| Gfp.InvertTake | src/gfp.cpp:26-29 | on a set bit, sum * power then squaring power keeps the invariant with 2^t added to the exponent |
| Gfp.InvertBitStep | src/gfp.cpp:25-30 | one iteration of the inner loop takes the ladder from (word, bit) to (word, bit + 1) |
| Gfp.InvertWordStep | src/gfp.cpp:24-31 | finishing the 64 bits of a word is starting the next word: the exponent so far is the low words of `bits` |
| Gfp.InvertLadder | src/gfp.cpp:24-31 | after any number of iterations, sum == a^e * R^-1 and power == a^(2^t) * R (mod p), with e the bits of p - 2 scanned so far |
| Gfp.InvertFinish | src/gfp.cpp:33-34 | multiplying by r3 turns a^(p-2) * R^-1 into a^(p-2) * R |
| Gfp.InvertResult | src/gfp.cpp:12-35 | after the loops and the r3 multiplication, the result is (x * R^-1)^(p-2) * R mod p |
| Gfp.Invert | src/gfp.cpp:12-35 | the loop computes the result below p that is the Montgomery form of a^(p-2) for the element a that x encodes |
| Gfp.InvertDecoded | src/gfp.cpp:12-35 | decoded, invert's result is the decoded input raised to p - 2, mod p |
| Gfp.MarshalByteAt | src/gfp.cpp:40-41 | out[8w + b] is (word[3 - w] >> (56 - 8b)) mod 256 |
| Gfp.MarshalValue | src/gfp.cpp:37-44 | the 32 bytes are the big-endian encoding of the integer the words hold, with no Montgomery decoding |
| Gfp.Marshal | src/gfp.cpp:37-44 | the nested loops write exactly the big-endian bytes of the element |
| Gfp.PartialWordValue | src/gfp.cpp:50-53 | after b bytes, word 3 - w holds the big-endian value of in[8w .. 8w + b) shifted into the top bytes, and stays below 2^64 |
| Gfp.UnmarshalWordDone | src/gfp.cpp:49-54 | after 8 bytes, word 3 - w is the big-endian value of in[8w .. 8w + 8) |
| Gfp.UnmarshalValue | src/gfp.cpp:47-55 | the assembled words hold the big-endian integer of the 32 input bytes |
| Gfp.AssembleWords | src/gfp.cpp:47-55 | the first loop writes word[3 - w] = big-endian value of in[8w .. 8w + 8) for every w |
| Gfp.RangeBelow | src/gfp.cpp:57-60 | the first word, from the top, that is below p2's word decides value < p |
| Gfp.RangeAbove | src/gfp.cpp:61-63 | the first word, from the top, that is above p2's word decides value > p |
| Gfp.RangeEqual | src/gfp.cpp:57-65 | words equal to p2 all the way down mean value == p |
| Gfp.RangeCheck | src/gfp.cpp:56-65 | the word-wise scan returns success iff value < p, exceeds-modulus iff value > p, malformed iff value == p |
| Gfp.Unmarshal | src/gfp.cpp:46-66 | the words are always written with the input's big-endian value, whatever the error; the error is the range status of that value |
| Gfp.MarshalRoundTrip | src/gfp.cpp:37-66 | for words holding a value below p, unmarshal of marshal restores the words exactly and succeeds |
| Gfp.ModulusBoundaries | src/gfp.cpp:56-65 | the encodings of p - 1, p and p + 1 give success, malformed and exceeds-modulus |
| Gfp.OneValue | src/gfp.cpp:75 | the constant {1} is the element 1 |
| Gfp.MontEncode | src/gfp.cpp:68-72 | gfp_mul by r2 gives a * R mod p |
| Gfp.MontDecode | src/gfp.cpp:74-79 | gfp_mul by 1 gives a * R^-1 mod p |
| Gfp.MontDecodeEncode | src/gfp.cpp:68-79 | decode after encode is the identity on elements below p |
| Gfp.MontEncodeDecode | src/gfp.cpp:68-79 | encode after decode is the identity on elements below p |
| Gfp.MulOfEncoded | src/gfp.cpp:68-79 | the Montgomery product of two encodings decodes to a * b mod p |
| Gfp.HostByte | src/gfp.cpp:87-89 | the byte `*(--p)` reads at offset k of a word's memory image on a little-endian host: bits 8k .. 8k + 7 of the word |
| Gfp.StringByte | src/gfp.cpp:85-92 | the byte read at offset 7 - i of word 3 - k gives characters 16k + 2i and 16k + 2i + 1, high nibble first |
| Gfp.StringValue | src/gfp.cpp:81-95 | the 64 characters are digits of `0123456789abcdef` that spell the integer the words hold |
| Gfp.String | src/gfp.cpp:81-95 | the result has exactly 64 lowercase hexadecimal digits, word 3 first, and reads back as the element's integer |
| Gfp.SignedElement | src/gfp.cpp:98-104 | the magnitude in the low word, negated by gfp_neg when x < 0, holds x mod p |
| Gfp.NewGfp | src/gfp.cpp:97-107 | new_gfp(x) is below p and equals x * R mod p |
| Gfp.NewGfpZero | src/gfp.cpp:97-107 | new_gfp(0) is the all-zero element |
| Gfp.NegOfEncoded | src/gfp.cpp:101-103 | gfp_neg of the encoding of n is the encoding of -n |
| Gfp.NewGfpNegate | src/gfp.cpp:97-107 | new_gfp(-n) == gfp_neg(new_gfp(n)) for every n above INT64_MIN |
| BigInt.TruncDiv | src/lattice.cpp:65 | `/` on `int512_t`: truncated toward zero, its magnitude is the quotient of the magnitudes and it is negative exactly when it is non-zero and the signs differ |
| BigInt.TruncRem | src/lattice.cpp:66 | `%` on `int512_t`: its magnitude is the remainder of the magnitudes and it is zero or has the dividend's sign |
| BigInt.TruncDivIdentity | src/lattice.cpp:65-66 | truncating quotient and remainder satisfy b * q + r == a |
| BigInt.TruncDivBounds | src/lattice.cpp:65-66 | the truncating remainder is smaller than the divisor in magnitude and is zero or has the dividend's sign |
| BigInt.BitLen | src/lattice.cpp:43 | `bitlen`: the bit length of the magnitude; the magnitude lies in [2^(len-1), 2^len), and len is 0 only for 0 |
| BigInt.BitTest | src/lattice.cpp:52 | `bit_test`: bit i of the magnitude, set exactly when the magnitude's low i + 1 bits reach 2^i |
| BigInt.BitsValueIsLowBits | src/lattice.cpp:52 | the bits below m, weighted, are the magnitude mod 2^m |
| BigInt.BitsAboveLength | src/lattice.cpp:43-52 | no bit at or above the bit length is set, and the bits below it give back the magnitude |
| Decomposition.Round | src/lattice.cpp:62-72 | denom == 0 leaves num; otherwise the result is q = num / denom truncated, plus 1 exactly when q % denom (truncating) exceeds order >> 1 |
| Decomposition.RoundedFits | src/lattice.cpp:62-72 | round never leaves the 512-bit range |
| Decomposition.RoundTruncatesForSmallDenominators | src/lattice.cpp:64-70 | for 0 < abs(denom) <= (order >> 1) + 1 the increment never happens, so round is truncating division |
| Decomposition.NearestRoundIsNearest | src/lattice.cpp:61 | the rounding the comment describes: denom * result is within denom / 2 of num |
| Decomposition.RoundMissesNearest | src/lattice.cpp:61-72 | round(5, 3) is 1 while the nearest integer to 5/3 is 2 |
| Decomposition.RoundMissesNearestAtOrder | src/lattice.cpp:61-72 | with denom = order, round(order + (order >> 1) + 1, order) is 1 while the nearest integer is 2, so the miss comes from taking the quotient's remainder, not from the threshold |
| Decomposition.Coefficients | src/lattice.cpp:16-19 | n coefficients, c[i] = round(k * inverse[i], det) |
| Decomposition.RoundCoefficients | src/lattice.cpp:12-19 | the first loop fills c with exactly those coefficients |
| Decomposition.ComputeColumn | src/lattice.cpp:25-32 | one pass of the second loop yields -sum_j c[j] * vectors[j][i] + 2 * vectors[0][i] |
| Decomposition.Decompose | src/lattice.cpp:11-36 | n components, out[i] = -sum_j c[j] * vectors[j][i] + 2 * vectors[0][i], plus k for i = 0 only; each fits in 512 bits |
| Decomposition.CombinationOfCoset | src/lattice.cpp:24-33 | the coefficients 2 - c[0], -c[1], ... give the negated combination plus twice the first row |
| Decomposition.DecomposeCoset | src/lattice.cpp:21-35 | out - <k, 0, ..., 0> is the integer combination of the basis rows with coefficients (2 - c[0], -c[1], ..., -c[n-1]) |
| Decomposition.MaxBitLenIsMaximum | src/lattice.cpp:41-47 | maxlen bounds every component's bit length and is reached by one of them, or is 0 |
| Decomposition.MaxLength | src/lattice.cpp:41-47 | the running maximum loop computes the largest bit length |
| Decomposition.ScheduleByteWraps | src/lattice.cpp:50-56 | wrapping each uint8_t addition is the sum of 2^j over the set bits, mod 256 |
| Decomposition.BitColumnBound | src/lattice.cpp:50-56 | the unwrapped sum over the first m components is below 2^m |
| Decomposition.BitColumnBit | src/lattice.cpp:50-56 | bit t of the unwrapped sum is bit i of component t |
| Decomposition.ScheduleBit | src/lattice.cpp:50-56 | with at most 8 components, bit j of out[i] is bit_test(decomp[j], i) |
| Decomposition.ReadBackBits | src/lattice.cpp:50-56 | reading bit j of the first m bytes gives component j's bits below m |
| Decomposition.ScheduleReadBack | src/lattice.cpp:41-56 | with at most 8 components, each component's magnitude reads back from bit j of the schedule bytes |
| Decomposition.BuildSchedule | src/lattice.cpp:49-56 | the nested loop leaves maxlen bytes, byte i = sum of 1 << j over components with bit i set, wrapped mod 256 |
| Decomposition.Multi | src/lattice.cpp:38-59 | the result is the schedule of decompose(scalar), one byte per bit up to the largest bit length |

## Left out

- The word-level algorithms of `gfp_neg`, `gfp_add`, `gfp_sub` and `gfp_mul` are not part of this model; their headers only declare them. `FieldOps` defines each as the unique element below p that its contract allows, so only that contract is relied on.
- Invert: the model proves that the result is the Montgomery form of x^(p-2). It does not prove that this is a multiplicative inverse, because that needs Fermat's little theorem and the primality of p.
- The Frobenius constants (`xi_to_...`) in `src/constants.h`: checking them needs arithmetic in the quadratic extension field, which is not part of this model.
- `operator<<` in `src/gfp.cpp` is stream output only.
- `bitlen` and `bit_test` come from `bitlen.h` and the big-integer library, which are not part of this model. They are modelled on the magnitude: the index of the highest set bit plus one (0 for zero), and bit i of the magnitude, as for signed-magnitude `int512_t`.
- Decompose and Multi require that every intermediate fits in 512 bits (`DecomposeFits`). `int512_t` arithmetic that overflows is not modelled.
- The concrete basis, inverse and determinant of the lattice and the "short" bound claimed in the comment at `src/lattice.cpp:9-10` live in the lattice header, which is not part of this model. Only the linear-combination and coset facts are proved.
- Constant-time behaviour is not a functional property and is not modelled.
- The fixed-size spans of `marshal` and `unmarshal` are an array of 32 bytes and a sequence of 32 bytes. Aliasing between the element and the buffer is not modelled.
- Gfp.String: the source reads each word's memory image from its last byte down. The model reads a little-endian host's memory image (`HostByte`), so it does not cover a big-endian host.
- Gfp.NewGfp: negating INT64_MIN is undefined in C++. The model reads its magnitude as 2^63, the two's-complement wrap, and NewGfpNegate excludes INT64_MIN.
- Decomposition.BuildSchedule: `1 << j` is an `int` shift, so the model requires at most 31 components, which is where the shift is defined.
- Decomposition.Decompose uses round as written. The coset property holds for every choice of coefficients, so it does not depend on how round rounds.

## Findings

| source | as written | input that shows it | evidently intended | confidence | as-written member | corrected member |
|---|---|---|---|---|---|---|
| src/lattice.cpp:61-72 | round divides first, then takes the remainder of the quotient by denom and compares it with order >> 1 | num = order + (order >> 1) + 1, denom = order: the quotient is 1 and 1 % order = 1 is not above order >> 1, so the result is 1 although num % order = (order >> 1) + 1 is; likewise num = 5, denom = 3 gives 1 | the comment at line 61: num / denom rounded to the nearest integer, 2 in both cases, by comparing the remainder of num itself with half of denom | not executed | Decomposition.RoundMissesNearestAtOrder | Decomposition.NearestRoundIsNearest |
