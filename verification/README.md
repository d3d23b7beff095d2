# Verification of the native cryptography

A Dafny model of the C code under `src/native`, with proofs of what that code promises.

* **Field and curve** (`Words`, `Field`, `Limbs`, `Fe*`, `Edwards`, `Multiples`, `Coordinates`, `Ge*`, `Point*`,
  `Decompress`, `Recoding`, `Slide`, `Radix16`, `DoubleScalar`, `BaseScalar`). Field elements are arrays of ten
  `int32`. `int32`, `int64`, `int8` and the unsigned types are bounded integers: a step is accepted only with a proof
  that its exact result fits. `carry << 26` is a multiplication. The one shift that can overflow, `h4 << 6` of
  `fe_tobytes`, is taken on 32-bit patterns, and `FeToBytes.PackingShifts` says exactly when it does.
  The limb code refines arithmetic modulo p = 2^255 - 19, the point code refines the affine Edwards law, and the two
  scalar multiplications refine integer multiples. Sections 5.1.1 to 5.1.7 of RFC 8032.
* **Signatures** (`Scalars`, `Signing`, `Collective`, `Multisig`). Ordinary and n-of-n delinearized signatures on top of
  the point code, up to a whole session of cosigners that ends in the ordinary verifier.
* **Argon2** (`Blamka`, `Argon2*`). Both forms of the round, of the block compression and of the segment fill on one
  specification; the reference window; the scheduler as a state machine whose lane threads interleave freely, read
  blocks word by word and overwrite them piecemeal; and the way from the inputs to the tag, up to `argon2_verify`
  accepting what `argon2_hash` prints. Sections 3.2 to 3.6 of RFC 9106.
* **Printers and parsers** (`Base64`, `Decimal`, `HashString`, `DerLax`). Base64 through its wrapping 32-bit
  accumulator, minimal decimals, the hash string, and the lenient DER reader. Section 4 of RFC 4648, section 8.3 of ITU-T
  X.690.
* **Streaming hashes and the nonce search** (`HashStreams`, `Sha512`, `Keccak`, `Blake2b`, `NonceSearch`). Buffered
  contexts against hashing of the whole concatenation, and the least good nonce.

Code that changes things step by step is modelled by classes, arrays and loops; each such method is proved against a
function or predicate whose properties are the lemmas beside it. What such a function computes is stated once more
without it, in contracts or in lemmas called `..Meaning`: hashed strings by the positions of their parts, words and
blocks by index, numbers by their digits, schedules as the steps one after the other. `ghost` parameters of methods carry bounds and points
that the C code does not need.

Three facts about the prime, the curve and the base point are hypotheses, stated as predicates and named in the
`requires` of what depends on them: `Edwards.FieldInverses` (a nonzero residue times its (p-2)nd power is 1),
`Edwards.CurveGroup` (the addition law is complete, closed and associative on the curve) and `Scalars.BaseOrder` (l B is
neutral). `Signing.Setting` adds that the two constant tables hold the multiples their file names. Everything about
limbs, bounds, bytes and residues is proved without them.

Where the code and its documentation differ, the model follows the code:

* the comment at `src/native/ed25519/fe.c:1369` takes |h| <= p, which the limb bounds above it do not give; the quotient
  is exact anyway, with q in -2..1 (`FeToBytes.Quotient`, `FeToBytes.QuotientMinusTwo`);
* `ge_add` passes `fe_add` operands larger than that function's comment allows; `FeLinear.FeAdd` therefore takes the
  bounds of its operands as parameters, and the sums still fit the multiplication;
* `ge_double_scalarmult_vartime` is right for all scalars below 2^255, more than its callers need;
* the packing of `fe_tobytes` shifts a limb of up to 2^26 - 1 left by 6 at `src/native/ed25519/fe.c:1471`, which leaves
  int32 from 2^25 on; the byte stored is right all the same (`FeToBytes.PackingOverflows`, `FeToBytes.Joined`);
* section 5.1.7 of RFC 8032 asks for S < l; `ed25519_verify` tests three bits (`Signing.LargerResponse`);
* `from_base64` is said to stop at the first character that is not Base64. Where plain `char` is signed it reads every
  byte from 128 on as `/`, since the comparison macros are used outside 0..255 (`Base64.MacroReads`,
  `Base64.AcceptsOtherCharacters`, `HashString.OtherCharacterAccepted`);
* the target of `SetCompact` is mantissa * 2^(8 (e - 3)) modulo 2^256 only under the condition of
  `NonceSearch.CompactExactly`.

`dafny verify dfyconfig.toml` checks the project.

## Model

| member | source | states |
|---|---|---|
| FeLinear.FeSet | src/native/ed25519/fe.c:31-65 | fe_0 and fe_1 leave an element that stands for 0 or 1, with limbs at most 1/100 of the unit |
| FeLinear.FeAdd | src/native/ed25519/fe.c:69-123 | the sum of the residues, for any operands whose bounds together fit; the bound of the result is the sum of the bounds, and no limb leaves int32 |
| FeLinear.FeSub | src/native/ed25519/fe.c:1303-1357 | the difference of the residues under the same bookkeeping |
| FeLinear.FeNeg | src/native/ed25519/fe.c:836-878 | the negated residue within the same bound |
| FeLinear.FeCopy | src/native/ed25519/fe.c:263-289 | the ten limbs copied |
| FeLinear.FeCmov | src/native/ed25519/fe.c:127-188 | the masked limbs are those of g if b is 1 and those of f if b is 0 |
| FeLinear.MaskSelects | src/native/ed25519/fe.c:134-188 | the mask of fe_cmov selects f or g, on 32-bit patterns |
| FeCarry.Reduce | src/native/ed25519/fe.c:701-764 | the twelve carries keep the value modulo p and end within 1.01 * 2^25 / 1.01 * 2^24; every intermediate fits int64 |
| FeTable.TableVal | src/native/ed25519/fe.c:577-700 | the ten sums of products, with 2 and 19 in their places, represent the product of the two values modulo p |
| FeMultiply.MulColumn0 | src/native/ed25519/fe.c:577-691 | one of the ten sums: every 32-bit and 64-bit step fits and the total stays within 15/16 of 2^61 |
| FeMultiply.FeMul | src/native/ed25519/fe.c:524-765 | for operands within 1.65 * 2^26 / 1.65 * 2^25 nothing overflows, the result is f g modulo p and within 1.01 * 2^25 / 1.01 * 2^24; the output may be an operand |
| FeSquare.FeSq | src/native/ed25519/fe.c:967-1127 | the same for f^2 |
| FeSquare.FeSq2 | src/native/ed25519/fe.c:1130-1300 | the same for 2 f^2 |
| FeFromBytes.LoadsVal | src/native/ed25519/fe.c:297-316 | the ten loads cover the low 255 bits of the 32 bytes exactly |
| FeFromBytes.FeFromBytes | src/native/ed25519/fe.c:293-360 | the residue of the low 255 bits, within 1.01 * 2^25 / 1.01 * 2^24 |
| FeToBytes.Estimate | src/native/ed25519/fe.c:1408-1418 | the chain of shifts is one division of h + 19 h9 / 2^25 + 1/2 by 2^255 |
| FeToBytes.Quotient | src/native/ed25519/fe.c:1361-1418 | q is floor(h / p) for every h within the limb bounds, with q in -2..1 |
| FeToBytes.QuotientMinusTwo | src/native/ed25519/fe.c:1368-1370 | an element within the limb bounds below -p: the abs(h) <= p of the comment does not follow from them, and q is -2 there |
| FeToBytes.Normalize | src/native/ed25519/fe.c:1419-1458 | the carried limbs are those of h - q p, each in its full non-negative range |
| FeToBytes.BytesVal | src/native/ed25519/fe.c:1459-1490 | the 32 packed bytes, each cut from a 32-bit pattern, read as the value of the limbs |
| FeToBytes.Joined | src/native/ed25519/fe.c:1459-1490 | a byte that straddles two limbs is right modulo 256 although the 32-bit pattern of the shifted limb may lose its top bits |
| FeToBytes.PackingShifts | src/native/ed25519/fe.c:1459-1490 | every left shift of the packing stays within int32 except h4 << 6, which does so if and only if the carried limb is below 2^25 |
| FeToBytes.PackingOverflows | src/native/ed25519/fe.c:1471 | a reduced element within the limb bounds for which h4 << 6 leaves int32 |
| FeToBytes.FeToBytes | src/native/ed25519/fe.c:1361-1491 | the bytes are the little-endian number h mod p in [0, p) |
| FeToBytes.FeIsNegative | src/native/ed25519/fe.c:452-466 | 1 exactly for odd residues |
| FeToBytes.FeIsNonzero | src/native/ed25519/fe.c:470-520 | 1 exactly for residues other than 0 |
| FePower.SquareTimes | src/native/ed25519/fe.c:392-446 | n squarings raise the exponent by the factor 2^n |
| FePower.Climb | src/native/ed25519/fe.c:392-440 | from z^(2^5 - 1) to z^(2^250 - 1), the part that both chains share |
| FePower.FeInvert | src/native/ed25519/fe.c:364-448 | z^(2^255 - 21), which is z^(p - 2), for every z |
| FePower.FePow22523 | src/native/ed25519/fe.c:881-964 | z^(2^252 - 3), which is z^((p - 5) / 8), for every z |
| PointDecode.FieldRoundTrip | src/native/ed25519/fe.c:297-360 | fe_frombytes then fe_tobytes gives every canonical encoding back, and reduces any other to y mod p |
| Edwards.AddUnique | src/native/ed25519/ge.h:7-25 | the cross-multiplied addition law has only one solution on residues |
| Edwards.AddNeg | src/native/ed25519/ge.h:7-25 | a point and its negative add up to the neutral element |
| Edwards.AboutD | src/native/ed25519/ge.c:133-135 | the constant d is -121665/121666 |
| Multiples.ZMulAdds | src/native/ed25519/ge.c:60-66 | multiples by integers of either sign add |
| Multiples.ZMulMul | src/native/ed25519/ge.c:60-66 | multiples of multiples multiply |
| Coordinates.AddCorrect | src/native/ed25519/ge.c:5-22 | the residues that ge_add and ge_madd compute are the completed form of the Edwards sum, for any two curve points |
| Coordinates.SubCorrect | src/native/ed25519/ge.c:437-455 | those of ge_sub and ge_msub are the completed form of p + (-q) |
| Coordinates.DoubleCorrect | src/native/ed25519/ge.c:255-271 | those of ge_p2_dbl are the completed form of a point added to itself |
| Coordinates.ToP3Correct | src/native/ed25519/ge.c:235-244 | conversion from completed to extended coordinates keeps the point |
| Coordinates.ToP2Correct | src/native/ed25519/ge.c:223-231 | conversion from completed to projective coordinates keeps the point |
| Coordinates.ExtendedInvariant | src/native/ed25519/ge.h:7-32 | extended coordinates satisfy XY = ZT |
| Coordinates.ToCachedCorrect | src/native/ed25519/ge.c:294-307 | the cached form keeps the point |
| Coordinates.NegCachedCorrect | src/native/ed25519/ge.c:371-374 | exchanging Y+X with Y-X and negating 2dT negates the point |
| Ge.GeAdd | src/native/ed25519/ge.c:5-22 | computes the addition formulas; every multiplication operand is within 1.65 * 2^26 / 1.65 * 2^25 |
| Ge.GeSub | src/native/ed25519/ge.c:437-455 | the same for the subtraction formulas |
| Ge.GeMadd | src/native/ed25519/ge.c:184-200 | the same for a precomputed point, without the multiplication by Z = 1 |
| Ge.GeMsub | src/native/ed25519/ge.c:203-220 | the same for subtracting a precomputed point |
| Ge.GeP2Double | src/native/ed25519/ge.c:255-271 | the same for the doubling formulas |
| Ge.GeP3Double | src/native/ed25519/ge.c:282-290 | the same from extended coordinates |
| Ge.GeP1P1ToP3 | src/native/ed25519/ge.c:235-244 | the four products of the conversion, bounded |
| Ge.GeP1P1ToP2 | src/native/ed25519/ge.c:223-231 | the three products of the conversion, bounded |
| Ge.GeP3ToCached | src/native/ed25519/ge.c:294-307 | Y+X, Y-X, Z and 2dT, bounded |
| Ge.GeP3ToP2 | src/native/ed25519/ge.c:310-318 | the three coordinates copied |
| Ge.GeP2Zero | src/native/ed25519/ge.c:247-251 | the neutral element |
| Ge.GeP3Zero | src/native/ed25519/ge.c:274-279 | the neutral element |
| Ge.D2Limbs | src/native/ed25519/ge.c:298-300 | the ten limbs of the constant d2 stand for 2d |
| GePoints.AddStep | src/native/ed25519/ge.c:5-22 | ge_p1p1_to_p3 and ge_add on structures that hold a and b leave one that holds a + b |
| GePoints.SubStep | src/native/ed25519/ge.c:437-455 | ge_p1p1_to_p3 and ge_sub leave a + (-b) |
| GePoints.MaddStep | src/native/ed25519/ge.c:184-200 | ge_p1p1_to_p3 and ge_madd leave a + b |
| GePoints.MsubStep | src/native/ed25519/ge.c:203-220 | ge_p1p1_to_p3 and ge_msub leave a + (-b) |
| GePoints.DoubleStep | src/native/ed25519/ge.c:255-271 | ge_p2_dbl leaves a + a |
| GeSequences.Registers.Step | src/native/ed25519/ge.c:9-22 | each of the thirteen operations keeps the bounds of all structures, so that each can follow each |
| GeSequences.Registers.Run | src/native/ed25519/ge.c:188-307 | over any sequence of additions, subtractions, doublings, conversions and decodings every operand of fe_mul, fe_sq and fe_sq2 is within its bound; no hypothesis about the curve is used |
| GeSequences.RunFromIdentity | src/native/ed25519/ge.c:188-307 | the same for any sequence that starts from identity points |
| PointBytes.GeToBytes | src/native/ed25519/ge.c:458-467 | the 32 bytes are y in the low 255 bits with the parity of x in the top bit |
| PointBytes.GeP3ToBytes | src/native/ed25519/ge.c:321-330 | the same from extended coordinates |
| PointBytes.EncodingParts | src/native/ed25519/ge.c:321-330 | the number modulo 2^255 is y, and the top bit of the last byte the parity of x |
| Decompress.SqrtM1 | src/native/ed25519/ge.c:137-139 | the constant squares to -1 |
| Decompress.RootSquared | src/native/ed25519/ge.c:153-162 | the candidate x satisfies v x^2 = u (u v^7)^((p-1)/4) |
| Decompress.ChosenOnCurve | src/native/ed25519/ge.c:161-173 | whenever one of the two tests passes, the corrected root gives a point of the curve |
| Decompress.DecodableIff | src/native/ed25519/ge.c:147-173 | the tests pass exactly when some x makes (x, y) a curve point |
| Decompress.DecodedOnCurve | src/native/ed25519/ge.c:141-181 | the decoded point is on the curve and the parity of a nonzero x is the opposite of the sign bit |
| Decompress.DecodeNegates | src/native/ed25519/ge.c:141-181 | decoding the y and parity of a curve point gives its negative |
| PointDecode.ConstantLimbs | src/native/ed25519/ge.c:133-139 | the limbs of d and sqrtm1 stand for d and the square root of -1 |
| PointDecode.GeFromBytesNegate | src/native/ed25519/ge.c:141-181 | 0 exactly for decodable y, otherwise -1; on 0 the structure holds the decoded point, with XY = ZT and all bounds kept |
| PointDecode.RoundTrip | src/native/ed25519/ge.c:141-181 | decoding an encoded curve point gives its negative |
| BasePoint.AboutBase | src/native/ed25519/ge.c:60-66 | the base point is on the curve, its y is 4/5 and its x even |
| Slide.Increment | src/native/ed25519/ge.c:42-51 | the carry loop adds 2^k to the bits from position k on, except for a carry that leaves the array |
| Slide.Subtract | src/native/ed25519/ge.c:41-51 | taking 2^b from a digit and carrying 2^(b + 1) upwards keeps the represented value, except for a carry that leaves the array |
| Slide.Absorb | src/native/ed25519/ge.c:32-56 | one window step keeps the represented value and the range of the digit |
| Slide.Lost | src/native/ed25519/ge.c:32-56 | a carry can leave the array only for numbers of at least 2^255 |
| Slide.Slide | src/native/ed25519/ge.c:25-58 | every digit is zero or odd and at most 15 in absolute value, and for a below 2^255 the digits represent a |
| DoubleScalar.Precompute | src/native/ed25519/ge.c:77-100 | the table holds A, 3A, .., 15A |
| DoubleScalar.HornerStep | src/native/ed25519/ge.c:109-129 | one turn of the loop takes m A + n B to (2m + d) A + (2n + e) B, for every pair of digits |
| DoubleScalar.Horner | src/native/ed25519/ge.c:109-130 | the loop from any digit down is Horner evaluation of both digit strings |
| DoubleScalar.SkipZeros | src/native/ed25519/ge.c:103-107 | the search stops at the highest digit that is not zero in both strings |
| DoubleScalar.Evaluate | src/native/ed25519/ge.c:101-130 | skipping leading zeros and the loop are Horner evaluation of both digit strings |
| DoubleScalar.GeDoubleScalarMult | src/native/ed25519/ge.c:60-130 | a A + b B for all a and b below 2^255 |
| Radix16.Step | src/native/ed25519/ge.c:403-408 | one carry keeps the value and leaves the digit in -8..8 |
| Radix16.Recode | src/native/ed25519/ge.c:394-411 | for a[31] <= 127 the 64 digits lie in -8..8 and represent a |
| BaseScalar.Equal | src/native/ed25519/ge.c:333-341 | 1 exactly for equal bytes, through the borrow |
| BaseScalar.Negative | src/native/ed25519/ge.c:343-347 | 1 exactly for negative digits, through the widened top bit |
| BaseScalar.Cmov | src/native/ed25519/ge.c:349-353 | the second point replaces the first exactly when b is 1 |
| BaseScalar.Select | src/native/ed25519/ge.c:356-375 | the signed multiple b w B from the row of multiples of w B, for b in -8..8 |
| BaseScalar.Interleaved | src/native/ed25519/ge.c:414-433 | radix-16 digits are two interleaved strings of radix-256 digits |
| BaseScalar.Comb | src/native/ed25519/ge.c:414-418 | one of the two loops adds the multiple of B by every second digit |
| BaseScalar.TimesSixteen | src/native/ed25519/ge.c:420-427 | the four doublings between the loops multiply by 16 |
| BaseScalar.GeScalarMultBase | src/native/ed25519/ge.c:377-434 | a B for every a with a[31] <= 127 |
| Scalars.ScReduce | src/native/ed25519/sc.h:4-9 | the contract of sc_reduce: the number modulo l in 32 bytes |
| Scalars.ScMulAdd | src/native/ed25519/sc.h:4-11 | the contract of sc_muladd: a b + c modulo l in 32 bytes |
| Scalars.OrderMeaning | src/native/ed25519/sc.h:4-7 | the order l is 2^252 + 27742317777372353535851937790883648493 |
| Scalars.ReducedTopBits | src/native/ed25519/verify.c:54-69 | a reduced scalar passes the top-bits test of the verifier and is a valid operand of both multiplications |
| Scalars.ReducedMultiple | src/native/ed25519/sign.c:64-66 | reducing a scalar modulo l does not change its multiple of B |
| Signing.LowCleared | src/native/ed25519/keypair.c:9 | the mask 248 leaves the multiple of 8 below |
| Signing.TopSet | src/native/ed25519/keypair.c:10-11 | the masks 63 and 64 leave the low six bits plus 64 |
| Signing.ClampedSecret | src/native/ed25519/keypair.c:5-12 | the clamp leaves a multiple of 8 in [2^254, 2^255), which meets the precondition of ge_scalarmult_base |
| Signing.SecretMeaning | src/native/ed25519/keypair.c:5-12 | as a number the clamped scalar is 2^254 plus the low 254 bits of the first half of the hash without their three lowest |
| Signing.PublicKeyDerive | src/native/ed25519/keypair.c:14-22 | the key is the encoding of the secret scalar times B |
| Signing.ChallengeMeaning | src/native/ed25519/sign.c:25-31 | the challenge is the reduced hash of the string with R, then the key, then the whole message, by positions |
| Signing.CreateSignature | src/native/ed25519/sign.c:6-36 | the response is c x + r modulo l with c the reduced hash of the string that holds R, the key and the whole message at their positions |
| Signing.NonceMeaning | src/native/ed25519/sign.c:57-62 | the nonce is the reduced hash of the string with the second half of the hashed key, then the whole message, by positions |
| Signing.Sign | src/native/ed25519/sign.c:50-69 | the signature is R = r B and the response with the key's scalar, r the reduced hash of the second half of the hashed key and the message, both hashed strings by positions |
| Signing.ConstTimeEqual | src/native/ed25519/verify.c:6-45 | true exactly for equal 32-byte strings |
| Signing.Verify | src/native/ed25519/verify.c:47-77 | true exactly for clear top bits of S, a decodable key, and R the encoding of S B - c A, with c the reduced hash of the string that holds R, the key and the whole message at their positions |
| Signing.AcceptsMeaning | src/native/ed25519/verify.c:54-77 | the acceptance predicate spelled out over the hashed string by positions |
| Signing.ResponseEquation | src/native/ed25519/verify.c:68-72 | S B - c (x B) = r B whenever S = c x + r modulo l |
| Signing.Completeness | src/native/ed25519/verify.c:47-77 | any R = r B with response c x + r modulo l is accepted under the key x B |
| Signing.OnlyResidueMatters | src/native/ed25519/verify.c:54-77 | two responses with clear top bits and the same residue modulo l are accepted alike |
| Signing.LargerResponse | src/native/ed25519/verify.c:54-56 | with S accepted, S + l is accepted too if its top bits are clear: the check S < l of section 5.1.7 of RFC 8032 is not made |
| Signing.SignThenVerify | src/native/ed25519/sign.c:50-69 | what ed25519_sign produces under the derived key is accepted by ed25519_verify, for every message and key |
| Collective.SumOfMultiples | src/native/ed25519/collective.c:63-85 | a sum of multiples of B is the multiple by the total |
| Collective.SumConcat | src/native/ed25519/collective.c:63-85 | every point counts once: a single one is its own sum, and two lists add up |
| Collective.ItemMeaning | src/native/ed25519/collective.c:70 | the i-th key is what stands behind i keys of 32 bytes |
| Collective.AboutPoint | src/native/ed25519/ge.c:141-181 | the point that a decodable string stands for: on the curve, with the y and, unless x is 0, the parity of x that the string gives |
| Collective.EncodingPoint | src/native/ed25519/ge.c:141-181 | the encoding of a curve point stands for that point |
| Collective.Unpack | src/native/ed25519/collective.c:70-73 | decoding with the negation undone gives the point that the string stands for, for every string that can be decoded |
| Collective.Accumulate | src/native/ed25519/collective.c:75-84 | one turn of an aggregation loop adds the point to the running sum |
| Collective.AggregateCommitments | src/native/ed25519/collective.c:121-155 | the encoding of the sum of the commitments, for any number of decodable strings |
| Collective.CoefficientByPositions | src/native/ed25519/collective.c:35-41 | the coefficient is the reduced hash of the string with C in front and the key behind it, by positions |
| Collective.DelinearizePublicKey | src/native/ed25519/collective.c:91-119 | the encoding of H(C, P) P, for every decodable string, with the hashed string by positions |
| Collective.AggregateDelinearizedPublicKeys | src/native/ed25519/collective.c:51-89 | the encoding of the sum of H(C, P_i) P_i, for any number of decodable strings |
| Collective.DeriveDelinearizedPrivateKey | src/native/ed25519/collective.c:24-49 | H(C, P) times the clamped secret, modulo l, with the hashed string by positions |
| Collective.AddScalars | src/native/ed25519/collective.c:157-164 | the sum modulo l |
| Collective.CreateCommitment | src/native/ed25519/collective.c:166-193 | fails exactly when the reduced hash is 0 or 1; otherwise the secret and the encoding of its multiple of B |
| Collective.PartialSign | src/native/ed25519/sign.c:38-48 | c x + r modulo l with x the delinearized key and c the challenge under the aggregated key of any decodable keys |
| Multisig.AggregateKey | src/native/ed25519/collective.c:51-89 | the aggregated key is B times the sum of the delinearized secrets |
| Multisig.TotalResponse | src/native/ed25519/collective.c:157-164 | adding up the partial responses gives the response for the summed secrets and nonces |
| Multisig.DeriveKeys | src/native/ed25519/keypair.c:14-22 | the stored keys of all cosigners are the encodings of their public points |
| Multisig.CommitAll | src/native/ed25519/collective.c:166-193 | all commitments succeed exactly when no reduced hash is 0 or 1 |
| Multisig.SignAll | src/native/ed25519/sign.c:38-48 | the partial signatures over any decodable key list, added with ed25519_add_scalars, are the response for the summed secrets and nonces |
| Multisig.Session | src/native/ed25519/verify.c:47-77 | for any n >= 1 honest cosigners the aggregated commitment followed by the summed partial signatures is accepted by ed25519_verify under the aggregated delinearized key |
| Blamka.FBlaMkaSame | src/native/blake2/blamka-round-opt.h:59-62 | the two forms of fBlaMka agree |
| Blamka.LowProductMeaning | src/native/blake2/blamka-round-ref.h:26-28 | for x, y below 2^32 the product term is x y in 64 bits, and upper halves of the operands do not change it |
| Blamka.FBlaMkaMeaning | src/native/blake2/blamka-round-ref.h:25-29 | for x, y below 2^32: x + y + 2 x y |
| Blamka.FBlaMkaUpper | src/native/blake2/blamka-round-ref.h:25-29 | with any upper halves: the sum of the words plus twice the product of their lower halves |
| Blamka.RotationMeaning | src/native/blake2/blamka-round-ref.h:33-40 | rotr64 by 32, 24, 16 and 63 is the rotation of 64-bit words |
| Blamka.Roti24 | src/native/blake2/blamka-round-opt.h:36-57 | the byte shuffle and the two shifts are the rotation by 24 |
| Blamka.Roti63 | src/native/blake2/blamka-round-opt.h:40-57 | the doubling and the shifts are the rotation by 63 |
| Blamka.Mix | src/native/blake2/blamka-round-ref.h:31-41 | the macro G computes the two half rounds in turn |
| Blamka.GMeaning | src/native/blake2/blamka-round-ref.h:31-41 | G step by step: a, d, c and b set twice, with rotations by 32, 24, 16 and 63 |
| Blamka.RoundNomsg | src/native/blake2/blamka-round-ref.h:43-54 | G on the four columns, then on the four diagonals |
| Blamka.RoundMeaning | src/native/blake2/blamka-round-ref.h:43-54 | the round applies G to each column of the 4 by 4 square and then to each diagonal, by index |
| Blamka.G1Opt | src/native/blake2/blamka-round-opt.h:64-83 | G1 on all four columns of the registers at once |
| Blamka.G2Opt | src/native/blake2/blamka-round-opt.h:85-105 | G2 on all four columns at once |
| Blamka.Diagonalize | src/native/blake2/blamka-round-opt.h:107-153 | both forms turn row B by one column, C by two and D by three |
| Blamka.Undiagonalize | src/native/blake2/blamka-round-opt.h:124-167 | both forms undo the turn |
| Blamka.Blake2Round | src/native/blake2/blamka-round-opt.h:169-180 | the round on registers equals the reference round on the words they hold |
| Argon2Block.RoundInPlace | src/native/ref.c:55-77 | one round on sixteen words of the block array, rows and column pairs |
| Argon2Block.IndexMeaning | src/native/ref.c:53-77 | round i takes row i of sixteen words, and from the ninth on the word pair i - 8 of every row |
| Argon2Block.IndexFills | src/native/ref.c:53-77 | every word of that row or column of pairs is one of the sixteen |
| Argon2Block.RoundAtMeaning | src/native/ref.c:55-77 | a round replaces its sixteen words by the round of these words and changes no others |
| Argon2Block.FillBlock | src/native/ref.c:30-81 | the compression of previous and reference block, exclusive-ored over the old contents when asked, which FillMeaning spells out |
| Argon2Block.FillMeaning | src/native/ref.c:30-81 | word by word the exclusive or of the two blocks, of what it has become after the sixteen rounds in order, and of the old contents when asked |
| Argon2Block.NextAddresses | src/native/ref.c:83-88 | word 6 of the input is incremented and nothing else changed; the result is compressed with zeros twice |
| Argon2Block.RoundRegisters | src/native/opt.c:129-139 | one round on eight registers is the same round on the words they hold |
| Argon2Block.FillBlockOpt | src/native/opt.c:110-145 | the registers leave holding the new block, which is what the reference fill_block computes |
| Argon2Block.NextAddressesOpt | src/native/opt.c:148-172 | the same addresses as the reference form |
| Argon2Index.RelativeMeaning | src/native/core.c:234-237 | with x the upper half of the square of the pseudo-random value and k the upper half of area * x, the position is area - 1 - k |
| Argon2Index.RelativeMonotone | src/native/core.c:234-237 | a smaller pseudo-random value never names an earlier position |
| Argon2Index.IndexAlphaMeaning | src/native/core.c:232-251 | the block named is k + 1 before the end of the window, modulo the length of the lane, with that k |
| Argon2Index.ReferenceIsSafe | src/native/core.c:184-252 | for every pass, slice, index and 32-bit value the block named is finished, and is neither the current nor the preceding block of its lane |
| Argon2Index.WindowComplete | src/native/core.c:199-250 | every finished block outside those exceptions is inside the window |
| Argon2Index.Layout | src/native/argon2.c:53-77 | whole segments of at least two blocks, the memory within four blocks per lane of the request, threads at most lanes |
| Argon2Segment.Rotate | src/native/ref.c:146-149 | the rotated previous offset is the preceding block of the lane, cyclically |
| Argon2Segment.Incremented | src/native/ref.c:144-145 | neither offset wraps when incremented, and the next turn finds the right ones |
| Argon2Segment.Reference | src/native/ref.c:162-179 | the offset of the reference block for a pseudo-random word |
| Argon2Segment.HalvesMeaning | src/native/ref.c:163-177 | a pseudo-random word is its upper half, which chooses the lane, and its lower half, which chooses the block |
| Argon2Segment.TurnMeaning | src/native/ref.c:144-193 | one turn spelled out: the block written, the previous block, the word that selects the reference, its lane and block, and when the old contents are exclusive-ored in |
| Argon2Segment.AddressesMeaning | src/native/ref.c:104-160 | with data-independent addressing the n-th address block comes from an input that holds pass, lane, slice, memory, passes, type and n, and zeros |
| Argon2Segment.SegmentMeaning | src/native/ref.c:123-193 | the segment is these turns one after the other, from block 2 on in the very first segment and from block 0 on in any other |
| Argon2Segment.FillSegmentRef | src/native/ref.c:90-194 | the loop leaves the memory of the block-by-block specification |
| Argon2Segment.PreviousIsCurrent | src/native/opt.c:233-282 | the block just written is the previous block of the next turn |
| Argon2Segment.FillSegmentOpt | src/native/opt.c:174-283 | with the previous block carried in registers the loop leaves the same memory as the reference form |
| Argon2Sharing.Footprint | src/native/ref.c:144-193 | a turn writes a block of its own segment and reads no block of the same slice of another lane |
| Argon2Sharing.RunAgrees | src/native/ref.c:144-193 | a segment depends only on blocks outside the same slice of other lanes |
| Argon2Sharing.RunWrites | src/native/ref.c:144-193 | a segment changes only its own blocks |
| Argon2Sharing.LanesIndependent | src/native/core.c:260-263 | filling the lanes in turn gives each the segment it would get from the memory at the start of the slice |
| Argon2Threads.InitialInv | src/native/core.c:306-311 | the invariant holds before the first thread exists |
| Argon2Threads.MainKeeps | src/native/core.c:310-348 | joining and creating keep the invariant |
| Argon2Threads.PrivateKeeps | src/native/ref.c:144-192 | selecting the reference block, reading one more word of the previous or of the reference block, and computing keep the invariant: what has been read is what the sequential fill would read |
| Argon2Threads.CommitKeeps | src/native/ref.c:177-192 | completing a block keeps it |
| Argon2Threads.ScribbleKeeps | src/native/ref.c:177-192 | any intermediate contents of a block being written keep it |
| Argon2Threads.StepKeeps | src/native/core.c:306-349 | every step of the main thread or of a lane thread keeps the invariant |
| Argon2Threads.SliceDone | src/native/core.c:341-348 | after the last join of a slice every thread has been joined exactly once and the memory is the sequential one |
| Argon2Threads.JoinsLiveThread | src/native/core.c:314-320 | a thread about to be joined has been created and not joined before |
| Argon2Threads.ThreadLimit | src/native/core.c:314-320 | at most the permitted number of threads is created and not joined |
| Argon2Threads.Reachable | src/native/core.c:306-349 | every state of every interleaving satisfies the invariant |
| Argon2Threads.SameMemory | src/native/core.c:287-364 | every interleaving that ends, with blocks read word by word and written piecemeal, leaves the memory of the single-threaded schedule |
| Argon2Threads.NoDeadlock | src/native/core.c:306-349 | before the end some step is always possible |
| Argon2Threads.StepProgress | src/native/core.c:306-349 | every step other than an intermediate write of a block leaves less to do |
| Argon2Core.ValidExactly | src/native/core.c:380-505 | validate_inputs accepts exactly the contexts within the limits, although 8 * lanes wraps |
| Argon2Core.FirstFailure | src/native/core.c:380-505 | the code returned is that of the first of the seventeen checks that fails |
| Argon2Core.ValidLayout | src/native/core.c:380-505 | validated inputs get a layout within the requested memory |
| Argon2Core.FillMemoryBlocksSt | src/native/core.c:254-270 | the three loops leave the sequential memory, with either fill_segment |
| Argon2Core.ScheduleMeaning | src/native/core.c:254-270 | the sequential memory is the one after filling the segments in turn: pass by pass, in each the four slices, in each slice the lanes |
| Argon2Core.ThreadedIsSingle | src/native/core.c:368-378 | the single-threaded fill leaves the memory that any completed threaded run leaves |
| Argon2Fresh.ReadsSettled | src/native/ref.c:144-179 | in the first pass the previous and the reference block have been written before |
| Argon2Fresh.MemoryFresh | src/native/core.c:254-270 | from the end of the first pass on the memory depends only on the two blocks that open each lane, not on what the allocated memory held |
| Argon2Hash.LoadStoreBlock | src/native/core.c:72-86 | load_block undoes store_block |
| Argon2Hash.StoredBits | src/native/blake2/blake2-impl.h:97-118 | byte k of a stored word is made of its bits 8 k to 8 k + 7 |
| Argon2Hash.InitialHash | src/native/core.c:532-604 | H0 is the 64-byte hash of all inputs, laid out as InputsMeaning says |
| Argon2Hash.InputsMeaning | src/native/core.c:543-601 | the hashed string by positions: lanes, output length, memory, passes, version and type as little-endian numbers, then password, salt, secret and associated data, each behind its length |
| Argon2Hash.FillFirstBlocks | src/native/core.c:507-530 | blocks 0 and 1 of every lane are the variable-length hash of the digest, the number and the lane; nothing else changes |
| Argon2Hash.FirstBlockMeaning | src/native/core.c:507-530 | the opening block is loaded from the 1024-byte hash of the string with H0, the block number and the lane at their positions |
| Argon2Hash.FinalBlock | src/native/core.c:152-160 | the exclusive or of the last blocks of all lanes |
| Argon2Hash.LastBlocksMeaning | src/native/core.c:152-160 | the last blocks gathered one by one from the first lane on |
| Argon2Hash.EveryLaneCounts | src/native/core.c:155-160 | a difference in the last block of any one lane is the difference of the result |
| Argon2Hash.Finalize | src/native/core.c:148-182 | the tag is the variable-length hash of that block |
| Argon2Hash.TagMeaning | src/native/argon2.c:53-97 | the tag for any memory of the right size whose lanes open with the hashes of H0: filled, combined and hashed, with the sizes spelled out |
| Argon2Hash.Argon2Ctx | src/native/argon2.c:39-98 | the validation code, an allocation failure, or the tag as a function of the inputs alone, whatever the memory held and with either fill_segment |
| Argon2Hash.AnyScheduleTag | src/native/core.c:287-378 | any completed run of the lane threads ends in the same tag |
| Argon2Verify.Compare | src/native/argon2.c:264-272 | 0 for equal strings, -1 otherwise |
| Argon2Verify.LengthCheck | src/native/argon2.c:111-125 | which length is at fault first: password, salt or output too long, or an output below 4 bytes |
| Argon2Verify.Hash | src/native/argon2.c:100-183 | the length checks in order, the outcome of argon2_ctx for a context with the given fields, the tag and its text, and an error when the text does not fit |
| Argon2Verify.Verify | src/native/argon2.c:274-338 | decoding failure, validation failure, mismatch or success, as the decoded fields and the recomputed tag say |
| Argon2Verify.TagIgnoresOut | src/native/argon2.c:118-147 | what the output buffer holds does not enter the tag |
| Argon2Verify.VerdictOfEncoded | src/native/argon2.c:100-379 | the text printed for a password is accepted for exactly the passwords with the same tag |
| Argon2Verify.HashThenVerify | src/native/argon2.c:100-379 | argon2_verify accepts what argon2_hash prints for the same password, and for another exactly if its tag is the same |
| Base64.MacroPrints | src/native/encoding.c:80-84 | the branch-free macros print the 64 characters |
| Base64.MacroReads | src/native/encoding.c:90-102 | they read a signed char correctly if and only if its code is below 128; any other reads as '/' |
| Base64.MacroReadsUnsigned | src/native/encoding.c:90-102 | they read every unsigned char correctly |
| Base64.CharsInverse | src/native/encoding.c:80-102 | the character maps invert each other |
| Base64.DecodeEncode | src/native/encoding.c:104-200 | decoding by groups undoes encoding by groups |
| Base64.EncodeDecode | src/native/encoding.c:148-200 | whatever decodes is the encoding of what it decodes to |
| Base64.EncodeMeaning | src/native/encoding.c:104-146 | the base-64 digits spell the same number as the bytes, filled up with two or four zero bits |
| Base64.SameBits | src/native/encoding.c:440-453 | the characters hold the bits of the bytes and at most four more |
| Base64.Alphabet | src/native/encoding.c:80-84 | capital letters, small letters, digits, + and / in this order |
| Base64.WriterEncodes | src/native/encoding.c:130-143 | the accumulator loop of to_base64 computes the encoding by groups |
| Base64.ReaderDecodes | src/native/encoding.c:166-197 | the accumulator loop and the final test of from_base64 compute the decoding by groups |
| Base64.ToBase64 | src/native/encoding.c:104-146 | -1 exactly when text and terminating zero do not fit, with nothing written; otherwise the text, its zero and its length |
| Base64.FromBase64 | src/native/encoding.c:148-200 | NULL exactly when the characters read are no valid encoding or decode to more bytes than fit; otherwise the bytes and the position after them, for every text of bytes |
| Base64.Reencodes | src/native/encoding.c:148-200 | what from_base64 consumes is what to_base64 writes for the bytes it delivers if and only if it has 7-bit characters only; otherwise a '/' is written for each other character |
| Base64.AcceptsOtherCharacters | src/native/encoding.c:148-200 | the text of the character 128 and an A is accepted although 128 is no Base64 character |
| Decimal.DecodeDecimal | src/native/encoding.c:202-236 | NULL exactly for digits that are not minimal or exceed the maximum; otherwise the number and the position after it |
| Decimal.NumberPrint | src/native/encoding.c:386-392 | a printed number is minimal and reads as itself |
| Decimal.PrintNumber | src/native/encoding.c:202-236 | a minimal string of digits is what is printed for its number |
| Decimal.NumberAppend | src/native/encoding.c:202-236 | one more digit multiplies by ten and adds the digit |
| Decimal.Numlen | src/native/encoding.c:455-462 | the number of digits printed |
| HashString.ParseForm | src/native/encoding.c:258-371 | the printed form is parsed completely and gives back every field, with or without the version |
| HashString.ParseBlur | src/native/encoding.c:258-371 | a text is parsed like the text with '/' for every character that is not 7-bit |
| HashString.ParseRead | src/native/encoding.c:258-371 | what is parsed is the printed form of the fields it gives if and only if it has 7-bit characters only |
| HashString.DecodeFields | src/native/encoding.c:258-350 | the macros in order compute the parse, for every text of bytes and an unsigned long of either width |
| HashString.DecodeString | src/native/encoding.c:239-371 | the outcome and the filled context: decoding failure, validation failure, trailing characters or success |
| HashString.EncodeFields | src/native/encoding.c:373-438 | succeeds exactly when the form and its zero fit, and then the buffer holds it |
| HashString.EncodeString | src/native/encoding.c:373-438 | the validation code for invalid contexts; otherwise success exactly when the text and its zero fit, with the text spelled out over the fields of the context |
| HashString.FormText | src/native/encoding.c:373-438 | the printed form in one line: $argon2.., $v=, $m=, t=, p=, salt and output |
| HashString.DecodeEncoded | src/native/encoding.c:258-438 | decode_string accepts what encode_string prints for any valid context and recovers version, costs, lanes, salt and output |
| HashString.AcceptedIsPrinted | src/native/encoding.c:258-371 | an accepted text is the printed form of the fields it fills in if and only if it has 7-bit characters only; otherwise the form has '/' for each other character |
| HashString.OtherCharacterAccepted | src/native/encoding.c:258-438 | in whatever encode_string prints, a '/' may be replaced by any character that is not 7-bit: the text is accepted with the same fields, and is the printed form of nothing |
| HashString.OtherKind | src/native/argon2.c:26-37 | a text printed for one type is not parsed as another |
| HashString.B64len | src/native/encoding.c:440-453 | the number of characters that the bytes encode to |
| HashString.Argon2Encodedlen | src/native/argon2.c:472-477 | the size that encode_string needs, exactly for versions of two digits |
| DerLax.ReadLength | src/native/secp256k1_native.c:114-140 | a length in short or long form, leading zeros skipped, below 2^24; no index leaves the input |
| DerLax.ReadInteger | src/native/secp256k1_native.c:108-145 | tag, length and contents of an integer inside the input, or failure |
| DerLax.CopyHalf | src/native/secp256k1_native.c:185-195 | overflow exactly for numbers of at least 2^256; otherwise the number as 32 big-endian bytes |
| DerLax.ParseDerLax | src/native/secp256k1_native.c:79-219 | succeeds exactly when two integers can be read, indexing only inside the input, and delivers their values, or zeros when one is not below the order |
| DerLax.LengthExactly | src/native/secp256k1_native.c:114-140 | the lengths read are exactly one byte below 128, or a count and as many bytes for a number below 2^24 |
| DerLax.LenientAccepted | src/native/secp256k1_native.c:79-219 | a head with a length of either form, two integers with lengths of either form and anything behind them is accepted with the contents of the integers |
| DerLax.AcceptedIsLenient | src/native/secp256k1_native.c:79-219 | nothing else is accepted |
| DerLax.OrderBound | src/native/secp256k1/scalar_4x64_impl.h:14-23 | the order as its distance from 2^256 |
| DerLax.StrictAccepted | src/native/secp256k1_native.c:79-219 | a strict encoding, with anything behind it, is read back to the contents of its two integers |
| DerLax.ParseStrict | src/native/secp256k1_native.c:79-219 | for all r and s below the order the strict encoding, with anything behind it, is accepted and delivers r and s as 32-byte halves |
| HashStreams.FoldResume | src/native/sha512.c:171-210 | block-wise hashing may stop anywhere and resume from the chaining value and the bytes left over |
| HashStreams.FoldAppend | src/native/sha512.c:181-208 | absorbing what completes at most one block |
| HashStreams.StoredInjective | src/native/sha512.c:258-262 | the stored bytes determine the chaining value |
| HashStreams.WordBytesValue | src/native/sha512.c:65-69 | the eight bytes read back as the word, big-endian or little-endian as stored |
| HashStreams.StoredWordAt | src/native/sha512.c:259-262 | eight bytes for each word, in the order of the words |
| HashStreams.StoredByteAt | src/native/blake2/blake2b.c:283-285 | byte k of the output is byte k % 8 of word k / 8, the least significant first |
| HashStreams.FoldMeaning | src/native/sha512.c:191-207 | folding is one compression after the other over the blocks in order |
| Sha512.Context.Feed | src/native/sha512.c:181-208 | one turn of the loop, direct or buffered, absorbs the bytes it takes |
| Sha512.Context.Update | src/native/sha512.c:164-210 | the state agrees with block-wise hashing of everything given so far |
| Sha512.Context.Pad | src/native/sha512.c:232-256 | the padding written in place, with the extra block when the length does not fit |
| Sha512.Context.Final | src/native/sha512.c:212-265 | the 64 bytes are the compression folded over the padded concatenation; the i-th eight bytes are, most significant first, the i-th word |
| Sha512.PaddingIsStandard | src/native/sha512.c:228-256 | the padding is the one of section 5.1.2 of FIPS 180-4 exactly for messages below 2^64 bits |
| Sha512.PaddingUnique | src/native/sha512.c:228-256 | a 1 bit, the fewest zeros to the last 16 bytes of a block, and the length there, most significant byte first: there is one such padding |
| Sha512.DigestMeaning | src/native/sha512.c:228-262 | the digest is the compression folded over the message with that padding |
| Sha512.SplitIndependent | src/native/sha512.c:164-265 | any two ways of splitting a message into updates give the same digest |
| Keccak.Context.FillPartial | src/native/keccak.c:195-205 | a block begun earlier is completed, or just extended |
| Keccak.Context.FeedBlocks | src/native/keccak.c:206-220 | whole blocks are absorbed, aligned in place and otherwise through the buffer, with the same result |
| Keccak.Context.Update | src/native/keccak.c:180-224 | the state agrees with block-wise hashing of everything given so far, whatever the address |
| Keccak.PadBlock | src/native/keccak.c:238-241 | the block with the two padding bits and zeros between |
| Keccak.PaddingBitString | src/native/keccak.c:238-241 | read least significant bit first the padding is a 1 bit, zeros and a last 1 bit |
| Keccak.DigestMeaning | src/native/keccak.c:180-250 | the digest is taken from the permutation folded over the message with that padding |
| Keccak.Context.Final | src/native/keccak.c:226-250 | when a place is given, the first bytes of the sponge state over the padded concatenation, byte k being byte k % 8 of word k / 8, least significant first; the context is wiped |
| Keccak.SplitIndependent | src/native/keccak.c:10-250 | any two ways of splitting a message, at any addresses, give the same digest of the asked length |
| Blake2b.Resume | src/native/blake2/blake2b.c:224-262 | hashing that holds one block back may resume from the chaining value and that block |
| Blake2b.State.Increment | src/native/blake2/blake2b.c:57-61 | the two-word counter counts modulo 2^128 |
| Blake2b.State.TakeBlocks | src/native/blake2/blake2b.c:241-258 | the buffered block and further blocks are compressed, always leaving at least one byte |
| Blake2b.State.Update | src/native/blake2/blake2b.c:224-262 | nothing for an empty input, -1 for a null pointer or a state used up; otherwise the state agrees with the specification on everything given so far |
| Blake2b.State.Final | src/native/blake2/blake2b.c:264-292 | -1 for a null pointer, too short a place or a second call, with nothing written; otherwise exactly outlen bytes of the digest with the last block padded, flagged and counted, byte k being byte k % 8 of word k / 8, least significant first |
| Blake2b.ChainLast | src/native/blake2/blake2b.c:241-258 | each whole block before the last is compressed with the number of bytes up to its end and no flag |
| Blake2b.DigestMeaning | src/native/blake2/blake2b.c:278-281 | the last block is padded with zeros and compressed with the length of the message and the flag |
| Blake2b.SplitIndependent | src/native/blake2/blake2b.c:224-292 | any two ways of splitting a message into updates give the same digest |
| Blake2b.WriteTail | src/native/blake2/blake2b.c:369-383 | the loop writes halves of repeated hashes and a last hash of exactly what remains |
| Blake2b.Blake2bLong | src/native/blake2/blake2b.c:333-389 | -1 for no byte or more than 2^32 - 1 bytes and for a null pointer with a length; otherwise exactly outlen bytes, the variable-length hash of section 3.3 of RFC 9106, and nothing behind them |
| Blake2b.LongMeaning | src/native/blake2/blake2b.c:333-389 | section 3.3 of RFC 9106 by index: the first halves of V_1 to V_r with r = ceil(n / 32) - 2, and a last hash of what remains |
| NonceSearch.ShiftLeft | src/native/krypton_native.c:15-28 | the product with 2^shift modulo 2^256, except for the shifts 64, 128 and 192 that end in an undefined C shift |
| NonceSearch.SetCompact | src/native/krypton_native.c:34-37 | the mantissa shifted, whenever the shift is defined |
| NonceSearch.DefinedExponents | src/native/krypton_native.c:34-37 | exactly the exponents that are 11, 19 or 27 modulo 32 are undefined |
| NonceSearch.CompactMeaning | src/native/krypton_native.c:34-37 | where the shift is defined: mantissa * 2^(8 (e - 3)) modulo 2^256 for exponents 3 to 34, and an exponent below 3 acts like the one 32 larger |
| NonceSearch.CompactExactly | src/native/krypton_native.c:34-37 | for exponents from 3 on the shift is defined and the target is that product if and only if the exponent is none of 11, 19 and 27 modulo 32 and either is at most 34 or has its wrapped shift clear the mantissa |
| NonceSearch.CompactCounterexample | src/native/krypton_native.c:34-37 | exponent 35 and mantissa 1 give 1 where the product is 0 |
| NonceSearch.Compare | src/native/krypton_native.c:44-50 | the order of the two 256-bit numbers |
| NonceSearch.SetBytes | src/native/krypton_native.c:39-42 | the 32 bytes as a big-endian number |
| NonceSearch.NonceValue | src/native/krypton_native.c:102 | the four bytes are the nonce, most significant first |
| NonceSearch.Target | src/native/krypton_native.c:98-112 | the search ends and returns the least nonce in [min, max) whose hash is below the target, else max; the last four bytes of the input are the nonce, most significant first, and no string with the same head and a smaller tail from min on hashes below the target |

## Left out

- The three hypotheses above: the primality of 2^255 - 19, the completeness and associativity of the Edwards law and the order of the base point are not proved.
- Scalars.ScReduce: `sc.c` is not part of this model; the contract of `sc.h` is taken as the definition, with the reduced number in the first 32 bytes.
- Scalars.ScMulAdd: the same.
- The numbers of `precomp_data.h`: the tables enter as hypotheses (`DoubleScalar.BaseTable`, `BaseScalar.CombTable`), with limbs within the multiplication bound.
- The hash compression functions (SHA-512, Keccak-f, BLAKE2b) are arbitrary functions, and hash security is not stated; signatures take SHA-512 as a function of the concatenated updates, which `Sha512.SplitIndependent` justifies.
- FeLinear.FeCmov: that the running time does not depend on b is not stated.
- Collective.Unpack: requires a string that can be decoded. For any other, `collective.c` ignores the failed decoding and goes on with a T coordinate that was never set, so nothing can be said about the result.
- Collective.AggregateCommitments: the same.
- Collective.DelinearizePublicKey: the same.
- Collective.AggregateDelinearizedPublicKeys: the same.
- Collective.PartialSign: the same.
- Multisig.SignAll: the same.
- Multisig.Session: the cosigners are honest and run in one process; messages between them and the choice of randomness are parameters.
- GeSequences.Registers.Run: one structure of each kind; copies of structures are not a separate operation, and a structure that has not been written yet is none of its operands (`RunFromIdentity` writes all of them first).
- Unrolled code (the limb stores, the table of odd multiples, `select`, `consttime_equal`, `fe_isnonzero`) is written as loops or helper calls over the same steps.
- Byte-string outputs (`fe_tobytes`, signatures, scalars) are returned as sequences, so overlap of output and input buffers is not modelled there; the element arrays of `fe.c` may alias as its comments permit.
- Argon2Threads.SameMemory: thread creation and joining always succeed; the one word that selects the reference block is read in one step, and so are the old contents of the block that the thread itself is about to write; memory ordering weaker than sequential consistency is not modelled.
- Argon2Hash.Argon2Ctx: allocation succeeds or fails as a parameter says; wiping of the password and of buffers after use is left out.
- Argon2Core.ValidExactly: comparisons that no 32-bit length can fail are left out; the memory limit, which depends on the pointer size, is a parameter, and allocation callbacks are only present or absent.
- HashString.DecodeString: salt and output must have buffers, as the comment before it asks; plain `char` is signed, as on x86 and in WebAssembly (for an unsigned one see `Base64.MacroReadsUnsigned`); buffers keep what a failed call wrote, which is not modelled.
- Argon2Verify.Hash: the output buffer that argon2_hash allocates itself is always to be had; what is written before an encoding failure is not stated.
- Argon2Verify.Verify: when several inputs are at fault and memory is short as well, only success is excluded.
- HashString.EncodeString: what the buffer holds after a failure is not stated.
- NonceSearch.ShiftLeft: the shifts 64, 128 and 192, undefined in C, are reported and nothing is said about the number they leave.
- NonceSearch.CompactMeaning: exponents below 3 have no meaning of their own in the code; they act as if 32 larger.
- Keccak.Context.Final: the finalised mark is left out, as the closing wipe of the context removes it again; the block size, which is wiped too, is a constant here.
- Sha512.Context.Update: null pointers are left out.
- Blake2b.State.Update: the state itself is never null; the parameter block and keyed hashing are left out.
- `fe_cswap` and `fe_mul121666` are not called by the point code; `sha256.c` and `ripemd160.c` follow the pattern of the hashes above.
- AVX2 and AVX-512 forms of the round, memory wiping, GENKAT printing, error-message tables, byte swaps, and the bindings, clients and build files of the repository.
- Nothing was executed.
