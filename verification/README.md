# A model of the mesh node's core and of its video queues

This project models three parts of the repository and proves what they are for.

**Ed25519, X25519 and SHA-512** (`lib/MeshCoreCore/src/*.c`). Field elements are ten signed limbs, scalars are 21-bit
limbs, and every product, sum and shift is an exact integer with its width stated: a product is required to fit
`int64`, a sum of limbs to fit `int32`. Above the limbs stand the meanings. `sc_reduce` and `sc_muladd` are reduction
modulo the group order l. The `fe_*` operations are arithmetic modulo p = 2^255 - 19. The `ge_*` operations are the addition of
the twisted Edwards curve in its several coordinates. The two scalar multiplications are multiples of points. The ladder is
X25519 of RFC 7748, and is multiplication on the Montgomery form. The streaming hash is SHA-512 of FIPS 180-4. On top
of these, verification accepts every signature that signing produces, and two parties agree on a secret.

**The mesh protocol** (`Packet`, `Utils`, `Mesh`, `Dispatcher`, `BaseChatMesh`). The wire formats print and parse
exactly. Sealed datagrams open to what was sealed. A node's handling of a received packet is one function of packet, table and
hook answers, refined by methods on packet objects. Over whole runs of a network floods are relayed once per node, and a
path that a flood has recorded carries packets back. A TRACE follows its route. The packet pool is conserved, and a transmission is released once.

**The video buffer queues** (`lib/esp_video/src`). Producers and consumers take atomic steps in any order. Lists, free
flags and the counting semaphore stay consistent in every interleaving.

Files, from the bottom up: `Arith`, `Bits`, `Buffers`, `Options`, `FiniteSets` (integers, bytes and finite sets); `Sc`, `ScCode`;
`Fe`, `FeProducts`, `FeOps`, `FeBytes`, `FePow`; `Prime`, `EdwardsAlgebra`, `Curve`, `Formulas`, `Ge`, `Slide`, `DoubleScalarMult`,
`ScalarMultBase`, `SquareRoot`, `PointCodec`; `Sha512Spec`, `Sha512Bits`, `Sha512Constants`, `Sha512`; `Ed25519`; `Montgomery`, `KeyExchange`; `MeshPacket`,
`MeshCrypto`, `MeshChat`, `MeshTables`, `MeshRouting`, `MeshPaths`, `MeshDecisions`, `MeshNetwork`, `MeshDispatcher`; `VideoQueue`, `VideoBuffer`.

## Hypotheses

They appear as predicates in `requires` clauses, never as axioms.

- `Curve.CurveLaw`: p is prime, d = -121665/121666 is not a square modulo p, and the Edwards addition is associative. That the addition is
  complete (no denominator vanishes), closed, commutative, and has inverses is proved from them.
- `ScalarMultBase.IsBaseTable` and `DoubleScalarMult.OddPrecomp`: the entries of `precomp_data.h` are the stated multiples of
  the base point. `Times(L, q) == O`, where it is required, says that the base point has the order l.
- `MeshCrypto.Sound`: the block decryption inverts the block encryption; the MAC has two bytes and the digest 32. Both are
  otherwise arbitrary functions.

## Where code and documentation differ

- `fe_tobytes` states its bound as sufficient for a quotient in {-1, 0, 1}. The bound gives {-2, -1, 0, 1}, which is enough, and
  -2 exactly for values below -p (`FeBytes.QuotientExact`, `FeBytes.LowestQuotient`).
- `ed25519_verify` accepts S below 2^253, and section 5.1.7 of RFC 8032 asks for S below l. It is as strict as the standard (with the equation
  without the cofactor, which that section allows)
  exactly for signatures with S below l and keys that the standard decodes (`Ed25519.StandardExactly`); one that it
  accepts with S = l is in `Ed25519.OrderIsAccepted`.
- `ge_frombytes_negate_vartime` accepts y from p up, and x = 0 with the sign bit set; section 5.1.3 of RFC 8032 refuses both
  (`PointCodec.DecodesMore`, `PointCodec.NeutralDecodesMore`).
- `onAckRecv` marks an awaited acknowledgement as not to be retransmitted. If hops are left and this node is the next of them, the mark
  has the opposite effect: the packet no longer counts as an acknowledgement and goes on with the header 0xFF (`MeshPaths.AwaitedAckGoesOn`).
  The retry of a return path behind the mark asks for a flood, which a marked packet is not (`MeshPaths.MarkedDoesNotFlood`).
- A received payload of 181 bytes or more from a peer, or of 180 or more on a channel, decrypts past the end of the 184
  bytes of `data` if its MAC is right (`MeshChat.DecryptionRoom`).
- `slide` loses a carry out of position 255, which takes 2^256 away; its callers' scalars are too small for that (`Slide.Recode`).
- `SimpleMeshTables` is an exact set of what it was shown up to 160 different hashes, and forgets from there on (`MeshTables.ExactUpToItsSize`,
  `MeshTables.ForgetsTheOldest`).
- `sha512_final` leaves the upper 64 bits of the length zero, which agrees with FIPS 180-4 exactly below 2^64 bits
  (`Sha512.LengthFieldExact`).
- The guard of `routeRecvPacket` admits a 64th path entry, which the six-bit count cannot hold
  (`MeshPaths.AppendExactly`, `MeshRouting.LastCount`).

## Model

| member | source | states |
|---|---|---|
| ScCode.ScReduce | lib/MeshCoreCore/src/sc.c:35-347 | for every 64-byte string the first 32 bytes become its value modulo l, fully reduced, and the bytes behind them keep their values; every intermediate limb fits int64 |
| ScCode.ScMulAdd | lib/MeshCoreCore/src/sc.c:362-809 | for all 32-byte a, b, c exactly (ab + c) mod l is stored at the output, and nothing else of the buffer changes |
| ScCode.LoadScalarValue | lib/MeshCoreCore/src/sc.c:363-398 | the twelve masked and shifted loads of a scalar lose no bit: the 21-bit limbs have the value of the little-endian string |
| ScCode.LoadWideValue | lib/MeshCoreCore/src/sc.c:36-59 | the twenty-four loads of a 64-byte string have its value, and are small enough for the folds |
| ScCode.ProductsValue | lib/MeshCoreCore/src/sc.c:447-470 | the 23 sums of limb products have the value ab + c, and stay below 2^50 |
| Sc.FoldVal | lib/MeshCoreCore/src/sc.c:78-84 | one fold of a limb of index 12 or more takes away an exact multiple of l |
| Sc.Fold | lib/MeshCoreCore/src/sc.c:78-84 | a fold keeps the residue modulo l, zeroes the folded limb, moves only the six limbs below it, and moves them by a bounded amount |
| Sc.CarryRound | lib/MeshCoreCore/src/sc.c:120-122 | a rounded carry keeps the value and leaves a limb in [-2^20, 2^20) |
| Sc.CarryFloor | lib/MeshCoreCore/src/sc.c:238-240 | a floor carry keeps the value and leaves a limb in [0, 2^21) |
| Sc.CarryWide | lib/MeshCoreCore/src/sc.c:471-539 | the 23 carries behind the products keep the value and bring every limb below 2^31 |
| Sc.FoldHigh | lib/MeshCoreCore/src/sc.c:78-119 | the folds 23 to 18 keep the residue, clear six limbs and leave room in int64 |
| Sc.CarryMiddle | lib/MeshCoreCore/src/sc.c:120-152 | the eleven rounded carries between the two rounds of folds keep the value and the bounds |
| Sc.FoldLow | lib/MeshCoreCore/src/sc.c:153-194 | the folds 17 to 12 keep the residue and clear six limbs |
| Sc.CarryLow | lib/MeshCoreCore/src/sc.c:195-230 | the twelve rounded carries keep the value; limb 11 ends within 2^20, which the last folds rely on |
| Sc.FoldedValueBound | lib/MeshCoreCore/src/sc.c:195-237 | after those passes the folded value lies strictly between -2^252 and 2^252 |
| Sc.FloorTwelve | lib/MeshCoreCore/src/sc.c:238-273 | twelve floor carries keep the value and make limbs 0 to 11 digits |
| Sc.LastFold | lib/MeshCoreCore/src/sc.c:238-280 | the floor pass leaves -1 or 0 in limb 12, so the last fold adds l or nothing, and the result lies in [0, l) |
| Sc.FloorEleven | lib/MeshCoreCore/src/sc.c:281-313 | the last floor carries keep the value and make limbs 0 to 10 digits |
| Sc.ReduceLimbs | lib/MeshCoreCore/src/sc.c:78-313 | the whole chain of folds and carries turns limbs of any value v into the limbs of v mod l |
| ScCode.ScalarBytesValue | lib/MeshCoreCore/src/sc.c:315-346 | the 32 overlapping shifts and ors are the base-256 digits of the value |
| ScCode.StoreScalar | lib/MeshCoreCore/src/sc.c:315-346 | the stores put exactly that value into the 32 bytes and leave the others alone |
| FeOps.Mul | lib/MeshCoreCore/src/fe.c:524-765 | on limbs within 1.65 2^26 and 1.65 2^25 no product or sum leaves int32 or int64, the limbs returned are within 1.01 2^25 and 1.01 2^24, and the value is congruent to the product modulo 2^255 - 19 |
| FeProducts.MulLimbsVal | lib/MeshCoreCore/src/fe.c:591-700 | the hundred products, with their factors 2, 19 and 38, add up to the product of the values |
| FeProducts.CountFits | lib/MeshCoreCore/src/fe.c:591-700 | the factors 2, 19 and 38 make up for the radix: with them the product of limbs i and j is worth in limb (i + j) mod 10 what it is modulo p |
| Fe.CarryProduct | lib/MeshCoreCore/src/fe.c:712-753 | the twelve carries, the 19-fold wrap among them, keep the residue and give the tight bounds |
| Fe.CarryParallel | lib/MeshCoreCore/src/fe.c:319-348 | the ten carries that follow a load or a small multiple keep the residue and give narrow limbs |
| Fe.Carry | lib/MeshCoreCore/src/fe.c:319-348 | a rounded carry out of any limb but the last keeps the value and leaves the limb centred |
| Fe.CarryTop | lib/MeshCoreCore/src/fe.c:319-321 | the carry out of the last limb comes back 19 times in the first, and keeps the residue |
| FeOps.Sq | lib/MeshCoreCore/src/fe.c:982-1127 | fe_sq returns limb for limb what fe_mul returns on the same argument twice |
| FeProducts.SqLimbsAreMul | lib/MeshCoreCore/src/fe.c:1006-1070 | the 55 products of the squaring are the hundred of the multiplication |
| FeProducts.SqColumns | lib/MeshCoreCore/src/fe.c:1006-1070 | the ten sums of fe_sq are the columns of the square with each pair of limbs taken once |
| FeOps.Sq2 | lib/MeshCoreCore/src/fe.c:1145-1300 | twice the square modulo p, also within the tight bounds |
| FeOps.Mul121666 | lib/MeshCoreCore/src/fe.c:779-833 | 121666 times the argument modulo p |
| FeOps.AddBound | lib/MeshCoreCore/src/fe.c:81-123 | sums of limbs do not overflow int32, and their bound is the sum of the bounds |
| FeOps.SubBound | lib/MeshCoreCore/src/fe.c:1315-1357 | the same for differences |
| FeOps.Neg | lib/MeshCoreCore/src/fe.c:846-878 | the value changes its sign and the limbs keep their bounds |
| FeOps.CMov | lib/MeshCoreCore/src/fe.c:134-188 | the masked exclusive-ors select: g if b is 1, otherwise f, limb for limb |
| FeOps.CSwap | lib/MeshCoreCore/src/fe.c:197-259 | the masked exclusive-ors exchange f and g exactly if b is 1 |
| FeOps.PickedValue | lib/MeshCoreCore/src/fe.c:207-258 | on two-complement words f ^ (-b & (f ^ g)) is f or g, for negative limbs too |
| FeBytes.FromBytes | lib/MeshCoreCore/src/fe.c:297-360 | the limbs are narrow and represent the string without its top bit modulo p |
| FeBytes.QuotientExact | lib/MeshCoreCore/src/fe.c:1361-1418 | for limbs within the stated bound the estimate q is the exact quotient, one of -2, -1, 0 and 1, although the bound only gives absolute values below 2p; it is -2 exactly for h below -p |
| FeBytes.LowestQuotient | lib/MeshCoreCore/src/fe.c:1361-1418 | with every limb at its lower bound the quotient is -2 |
| FeBytes.Freeze | lib/MeshCoreCore/src/fe.c:1408-1452 | the limbs become those of the unique representative in [0, p) |
| FeBytes.Floor | lib/MeshCoreCore/src/fe.c:1419-1452 | a floor carry out of any limb but the last keeps the value and leaves a digit |
| FeBytes.StoreLimbsValue | lib/MeshCoreCore/src/fe.c:1459-1490 | the 32 stores are the base-256 digits of the frozen limbs |
| FeBytes.ToBytes | lib/MeshCoreCore/src/fe.c:1361-1491 | 32 bytes with the value h mod p: the unique representative, for every h within the bound |
| FeBytes.Recoded | lib/MeshCoreCore/src/fe.c:1361-1491 | fe_tobytes after fe_frombytes gives the low 255 bits of the string modulo p |
| FeBytes.CanonicalBytes | lib/MeshCoreCore/src/fe.c:1361-1491 | it gives the string itself if and only if that is below p |
| FeBytes.IsNonzero | lib/MeshCoreCore/src/fe.c:478-520 | the or of the 32 bytes is nonzero exactly for residues that are not zero |
| FeBytes.IsNegative | lib/MeshCoreCore/src/fe.c:460-466 | the parity of the unique representative |
| FePow.SqLoop | lib/MeshCoreCore/src/fe.c:364-448 | n - 1 squarings in a loop multiply the exponent by 2^(n - 1) |
| FePow.Invert | lib/MeshCoreCore/src/fe.c:364-448 | the chain of 254 squarings and 11 products raises every bounded z to the power p - 2 |
| FePow.Pow22523 | lib/MeshCoreCore/src/fe.c:881-964 | the chain raises every bounded z to the power 2^252 - 3 |
| Prime.Fermat | lib/MeshCoreCore/src/fe.c:364-448 | x^(p-1) is 1 modulo a prime that does not divide x |
| Prime.FermatInverse | lib/MeshCoreCore/src/fe.c:364-448 | hence the power that fe_invert computes is the inverse |
| Curve.LawComplete | lib/MeshCoreCore/src/ge.c:9-22 | if p is prime and d is not a square, both denominators of the addition law are units for any two points |
| Curve.LawClosed | lib/MeshCoreCore/src/ge.c:9-22 | under the same hypotheses the sum of two points of the curve is on the curve |
| Curve.MultipleAdd | lib/MeshCoreCore/src/ge.c:67-130 | (m + n)P = mP + nP for all integers, negative ones included |
| Formulas.AddFormula | lib/MeshCoreCore/src/ge.c:9-22 | the four combinations of ge_add are a completed form of the affine sum, also for equal or opposite points |
| Formulas.DoubleFormula | lib/MeshCoreCore/src/ge.c:259-271 | the combinations of ge_p2_dbl are a completed form of the affine double |
| Formulas.CompletedToExtended | lib/MeshCoreCore/src/ge.c:227-244 | the products of the two conversions represent the same affine point |
| Formulas.CachedNeg | lib/MeshCoreCore/src/ge.c:441-455 | exchanging the first two entries of a cached point and negating the last caches the opposite point |
| Ge.GeAdd | lib/MeshCoreCore/src/ge.c:9-22 | the sum of the two points; every argument of a field operation meets its bound |
| Ge.GeSub | lib/MeshCoreCore/src/ge.c:441-455 | the difference of the two points; every argument of a field operation meets its bound |
| Ge.GeMadd | lib/MeshCoreCore/src/ge.c:188-200 | the sum of a point and a precomputed one, with the bounds |
| Ge.GeMsub | lib/MeshCoreCore/src/ge.c:207-220 | the difference of a point and a precomputed one, with the bounds |
| Ge.GeP2Dbl | lib/MeshCoreCore/src/ge.c:259-271 | the double of a projective point, with the bounds |
| Ge.GeP3Dbl | lib/MeshCoreCore/src/ge.c:286-290 | the double of an extended point |
| Ge.GeP3ToP2 | lib/MeshCoreCore/src/ge.c:314-318 | the same point in projective coordinates |
| Ge.GeP1p1ToP2 | lib/MeshCoreCore/src/ge.c:227-231 | the same point in projective coordinates |
| Ge.GeP1p1ToP3 | lib/MeshCoreCore/src/ge.c:239-244 | the same point in extended coordinates |
| Ge.GeP3ToCached | lib/MeshCoreCore/src/ge.c:302-307 | the cached form of the same point: y + x, y - x, z and 2dxy |
| Ge.GeP2Zero | lib/MeshCoreCore/src/ge.c:247-251 | the neutral point |
| Ge.GeP3Zero | lib/MeshCoreCore/src/ge.c:274-279 | the neutral point |
| Slide.Recode | lib/MeshCoreCore/src/ge.c:25-58 | 256 digits, each zero or odd in [-15, 15]; they represent the scalar, or the scalar less 2^256 if a carry got lost at the end, which no scalar below 2^253 does |
| Slide.Window | lib/MeshCoreCore/src/ge.c:34-57 | one position of the outer loop finishes its digit and keeps the sum of the digits |
| Slide.TakeAndCarry | lib/MeshCoreCore/src/ge.c:41-51 | taking 16 out of a digit and carrying into the bits above keeps the sum |
| Slide.Increment | lib/MeshCoreCore/src/ge.c:44-51 | the carry loop adds one at its position, and finds a zero before the end unless all bits above are one |
| Slide.CarryRoom | lib/MeshCoreCore/src/ge.c:44-51 | below 2^253 there is a zero above: the carry never goes past index 255 |
| Slide.AllLost | lib/MeshCoreCore/src/ge.c:44-51 | a carry that meets ones only takes 2^256 away, and leaves nothing to recode |
| DoubleScalarMult.OddTable | lib/MeshCoreCore/src/ge.c:77-100 | A, 3A, 5A up to 15A, cached |
| DoubleScalarMult.Step | lib/MeshCoreCore/src/ge.c:109-129 | one pass takes (m, n) to (2m + x, 2n + y) for the next digits x of a and y of b |
| DoubleScalarMult.DoubleScalarMultVartime | lib/MeshCoreCore/src/ge.c:67-130 | aA + bB, where 2^256 may be missing from a scalar that is 2^253 or more; below that the exact sum |
| ScalarMultBase.Negative | lib/MeshCoreCore/src/ge.c:343-347 | 1 exactly for negative bytes, from the top bit of the 64-bit extension |
| ScalarMultBase.Equal | lib/MeshCoreCore/src/ge.c:333-341 | 1 exactly for equal bytes, from the borrow of (b ^ c) - 1 |
| ScalarMultBase.Magnitude | lib/MeshCoreCore/src/ge.c:358-359 | b - ((-neg & b) << 1) in an unsigned char is the absolute value |
| ScalarMultBase.Lookup | lib/MeshCoreCore/src/ge.c:360-370 | the eight masked moves leave m times the row's point, or the neutral point for m = 0 |
| ScalarMultBase.Select | lib/MeshCoreCore/src/ge.c:356-375 | b times the row's point for every digit b in [-8, 8] |
| ScalarMultBase.RecodeRadix16 | lib/MeshCoreCore/src/ge.c:394-411 | 64 digits in [-8, 8] with sum a, for every a with a[31] at most 127 |
| ScalarMultBase.SplitBytes | lib/MeshCoreCore/src/ge.c:394-398 | the halves of the bytes are 64 digits in [0, 15] with sum a, the last at most 7 |
| ScalarMultBase.CarryDigits | lib/MeshCoreCore/src/ge.c:400-411 | the carries make the digits balanced and keep their sum |
| ScalarMultBase.AddDigits | lib/MeshCoreCore/src/ge.c:414-433 | a loop over every second digit adds their multiples |
| ScalarMultBase.Radix16Split | lib/MeshCoreCore/src/ge.c:414-433 | a radix-16 number is its even digits in base 256 and sixteen times its odd digits in base 256 |
| ScalarMultBase.AddDigit | lib/MeshCoreCore/src/ge.c:414-418 | adds the digit times 256^i B to the running multiple |
| ScalarMultBase.TimesSixteen | lib/MeshCoreCore/src/ge.c:420-427 | the four doublings multiply by sixteen |
| ScalarMultBase.GeScalarMultBase | lib/MeshCoreCore/src/ge.c:386-434 | aB for every a with a[31] at most 127, from odd digits, four doublings and even digits |
| SquareRoot.CandidateSquared | lib/MeshCoreCore/src/ge.c:141-181 | if u/v has a root at all, the candidate u v^3 (u v^7)^((p-5)/8) has a square that is u/v or -u/v |
| SquareRoot.RootsOpposite | lib/MeshCoreCore/src/ge.c:141-181 | two roots of the same quotient are equal or opposite |
| PointCodec.GeFromBytesNegateVartime | lib/MeshCoreCore/src/ge.c:141-181 | 0 and the opposite of the decoded point, or -1 exactly when no point of the curve has that y |
| PointCodec.GeToBytes | lib/MeshCoreCore/src/ge.c:458-467 | the encoding of a projective point: y, and the parity of x in the top bit |
| PointCodec.GeP3ToBytes | lib/MeshCoreCore/src/ge.c:321-330 | the same for an extended point |
| PointCodec.EncodingDecodes | lib/MeshCoreCore/src/ge.c:141-181 | the encoding of a point decodes to that point |
| PointCodec.DecodingUnique | lib/MeshCoreCore/src/ge.c:141-181 | a string decodes to one point at most |
| PointCodec.StandardIsEncoding | lib/MeshCoreCore/src/ge.c:141-181 | section 5.1.3 of RFC 8032 decodes exactly the encodings of points |
| PointCodec.DecodesMore | lib/MeshCoreCore/src/ge.c:141-181 | the code decodes what that section decodes, and besides exactly the strings with y from p up and those with x zero and the sign bit set |
| PointCodec.NeutralDecodesMore | lib/MeshCoreCore/src/ge.c:141-181 | both kinds exist: the strings of p + 1 and of 2^255 + 1 decode to the neutral point |
| PointCodec.EncodingInjective | lib/MeshCoreCore/src/ge.c:321-330 | two points with the same encoding are the same point |
| PointCodec.EncodingUnique | lib/MeshCoreCore/src/ge.c:458-467 | a point has one encoding only, so comparing encodings compares points |
| Sha512.Choice | lib/MeshCoreCore/src/sha512.c:78 | z ^ (x & (y ^ z)) is Ch of section 4.1.3 of FIPS 180-4 |
| Sha512.Majority | lib/MeshCoreCore/src/sha512.c:79 | ((x | y) & z) | (x & y) is Maj of that section |
| Sha512.Ror | lib/MeshCoreCore/src/sha512.c:61-63 | the macro is the rotation of a 64-bit word |
| Sha512Bits.ChBit | lib/MeshCoreCore/src/sha512.c:78 | Ch takes each bit from y where x has a one and from z elsewhere |
| Sha512Bits.MajBit | lib/MeshCoreCore/src/sha512.c:79 | Maj is the majority of three bits |
| Sha512Bits.BigSigmaBits | lib/MeshCoreCore/src/sha512.c:82-83 | bit i of the two sums is the sum modulo 2 of the bits i + 28, i + 34, i + 39 and of the bits i + 14, i + 18, i + 41 around the word |
| Sha512Bits.SmallSigmaBits | lib/MeshCoreCore/src/sha512.c:84-85 | the same for the two sums of the schedule, the third bit by a shift |
| Sha512.Load | lib/MeshCoreCore/src/sha512.c:71-75 | eight shifts and ors read a big-endian word |
| Sha512.StoredByte | lib/MeshCoreCore/src/sha512.c:65-69 | each stored byte is the big-endian digit of the word |
| Sha512.Rnd | lib/MeshCoreCore/src/sha512.c:111-126 | a round with the roles of the eight words rotated is the standard's round with the words moved |
| Sha512.EightRounds | lib/MeshCoreCore/src/sha512.c:118-127 | eight rounds with rotated roles advance the standard's rounds by eight, and the roles are back in place |
| Sha512Constants.KIsCubeRoots | lib/MeshCoreCore/src/sha512.c:16-57 | each of the 80 words is the first 64 bits of the fractional part of the cube root of the prime at its place, as section 4.2.3 of FIPS 180-4 has it |
| Sha512Constants.PrimesInOrder | lib/MeshCoreCore/src/sha512.c:16-57 | the primes meant are the first eighty, all of them and in order |
| Sha512.Expand | lib/MeshCoreCore/src/sha512.c:101-109 | the 80 words of the message schedule of section 6.4.2 of FIPS 180-4 |
| Sha512.Compress | lib/MeshCoreCore/src/sha512.c:91-139 | the block function of section 6.4.2 of FIPS 180-4 |
| Sha512.Context.Init | lib/MeshCoreCore/src/sha512.c:147-162 | an empty stream behind the initial hash value |
| Sha512.Context.Absorb | lib/MeshCoreCore/src/sha512.c:182-206 | a compressed block stays accounted for in the chain and in the bit length modulo 2^64 |
| Sha512.Context.Update | lib/MeshCoreCore/src/sha512.c:171-210 | however the input is cut into calls, the context stands for all bytes given so far; an overlong buffer is refused unchanged |
| Sha512.Context.OpenPadding | lib/MeshCoreCore/src/sha512.c:229-245 | the one bit, and the extra block of zeros when fewer than sixteen bytes are left |
| Sha512.Context.ClosePadding | lib/MeshCoreCore/src/sha512.c:247-257 | zeros up to byte 120 and the length: the chain is that of the padded stream |
| Sha512.Context.Final | lib/MeshCoreCore/src/sha512.c:218-265 | the digest of everything the context was given, written to 64 bytes; a context in a wrong state is refused unchanged |
| Sha512.LengthFieldExact | lib/MeshCoreCore/src/sha512.c:247-257 | the length field written agrees with section 5.1.2 of FIPS 180-4 if and only if the message has fewer than 2^64 bits |
| Sha512.StreamDigestIsDigest | lib/MeshCoreCore/src/sha512.c:218-265 | below 2^64 bits the digest is that of section 6.4 of FIPS 180-4 on the message padded as a whole |
| Sha512.PadIsStandard | lib/MeshCoreCore/src/sha512.c:229-257 | the padding of section 5.1.2 of FIPS 180-4: a one bit, zeros, and the length in bits in the last sixteen bytes of the next whole number of blocks |
| Sha512.Hash | lib/MeshCoreCore/src/sha512.c:267-275 | one call hashes the whole message |
| Ed25519.CreateKeypair | lib/MeshCoreCore/src/keypair.c:6-16 | the private key is the hash of the seed, clamped; the public key encodes its multiple of the base point |
| Ed25519.ClampValue | lib/MeshCoreCore/src/keypair.c:10-12 | the three masks clear bits 0, 1, 2 and 255 of the number and set bit 254 |
| Ed25519.ScalarOfSeed | lib/MeshCoreCore/src/keypair.c:6-16 | the scalar of a created key is that of section 5.1.5 of RFC 8032, from SHA-512 of the seed |
| Ed25519.KeysAreStandard | lib/MeshCoreCore/src/keypair.c:6-16 | created public keys are exactly those of that section |
| Ed25519.DerivePub | lib/MeshCoreCore/src/keypair.c:18-23 | the public key encodes the private scalar times the base point |
| Ed25519.HashToScalar | lib/MeshCoreCore/src/sign.c:14-29 | a hash fed in pieces is the hash of the joined pieces, then reduced modulo l |
| Ed25519.Sign | lib/MeshCoreCore/src/sign.c:7-31 | R encodes the nonce times the base point, and S is (h a + r) mod l |
| Ed25519.SignaturesAreStandard | lib/MeshCoreCore/src/sign.c:7-31 | with a created key the signatures are exactly those of section 5.1.6 of RFC 8032, stated over the seed, SHA-512 and the message |
| Ed25519.SignFromSeed | lib/MeshCoreCore/src/sign.c:7-31 | making a key pair from a seed and signing with it gives the public key, R and S of the standard |
| Ed25519.ConsttimeEqual | lib/MeshCoreCore/src/verify.c:6-45 | true exactly for equal strings |
| Ed25519.Verify | lib/MeshCoreCore/src/verify.c:47-77 | 1 if and only if S is below 2^253, the key decodes, and R encodes S B - h A |
| Ed25519.VerifyAcceptsSigned | lib/MeshCoreCore/src/verify.c:47-77 | for every key and message the signature made with the derived public key is accepted: the law of section 5.1.7 of RFC 8032 |
| Ed25519.AcceptsModuloOrder | lib/MeshCoreCore/src/verify.c:54-56 | S counts only modulo l: of two signatures that agree in R and in S modulo l, and have S below 2^253, both are accepted or neither |
| Ed25519.StandardExactly | lib/MeshCoreCore/src/verify.c:47-77 | section 5.1.7 of RFC 8032, with SHA-512 of R, the key and the message, accepts a signature if and only if the code does, S is below l, and the key is one that section 5.1.3 decodes |
| Ed25519.LargeScalarIsAccepted | lib/MeshCoreCore/src/verify.c:54-56 | l added to the S of an accepted signature, as far as the sum stays below 2^253, gives one that the code accepts and the standard refuses |
| Ed25519.OrderIsAccepted | lib/MeshCoreCore/src/verify.c:54-56 | a concrete one: the neutral point as key and as R, with S = l |
| Ed25519.AcceptsReduced | lib/MeshCoreCore/src/verify.c:54-56 | a signature with S below 2^253 is accepted exactly when the one with S mod l is |
| Ed25519.SameEquation | lib/MeshCoreCore/src/verify.c:68-72 | R = S B - k A is the equation S B = R + k A of the standard |
| Ed25519.TimesMod | lib/MeshCoreCore/src/sign.c:19-30 | scalars count modulo the order of the base point |
| Ed25519.Cancelling | lib/MeshCoreCore/src/verify.c:68-72 | k(-(aB)) + (ka + r)B = rB |
| KeyExchange.KeyExchange | lib/MeshCoreCore/src/key_exchange.c:4-79 | for every public key and every private key the 32 bytes are X25519 of section 5 of RFC 7748 on the clamped key and u = (1 + y)/(1 - y) |
| KeyExchange.ExchangeAgrees | lib/MeshCoreCore/src/key_exchange.c:4-79 | two clamped keys and their public keys give both sides the same secret |
| KeyExchange.SecretMeaning | lib/MeshCoreCore/src/key_exchange.c:4-79 | for the y of any point of the curve the secret is the u of the clamped multiple of that point |
| KeyExchange.ClampedRange | lib/MeshCoreCore/src/key_exchange.c:20-27 | a clamped key is a multiple of 8 in [2^254, 2^255): the number with bits 0, 1, 2 and 255 cleared and bit 254 set |
| KeyExchange.CreatedKeysAreClamped | lib/MeshCoreCore/src/keypair.c:10-12 | keys from ed25519_create_keypair are unchanged by the clamping of the exchange |
| KeyExchange.UnpackU | lib/MeshCoreCore/src/key_exchange.c:29-36 | u = (1 + y)/(1 - y), and 0 for y = 1 |
| KeyExchange.RunLadder | lib/MeshCoreCore/src/key_exchange.c:38-74 | the loop with the deferred swap computes the ladder of section 5 of RFC 7748, all 255 steps |
| KeyExchange.LadderStepLimbs | lib/MeshCoreCore/src/key_exchange.c:53-70 | the field calls of one iteration compute one ladder step, and every argument meets its bound |
| KeyExchange.SameConstant | lib/MeshCoreCore/src/key_exchange.c:64-70 | BB + 121666 E = AA + 121665 E: the code's step is that of RFC 7748 |
| KeyExchange.DeferredSwap | lib/MeshCoreCore/src/key_exchange.c:45-50 | swapping by the exclusive-or of two successive bits is undoing one swap and doing the next |
| Montgomery.DoubleStep | lib/MeshCoreCore/src/key_exchange.c:53-70 | a step doubles the first point: derived from the Edwards addition law |
| Montgomery.AddStep | lib/MeshCoreCore/src/key_exchange.c:53-70 | a step adds the two points if u belongs to their difference |
| Montgomery.LadderMeaning | lib/MeshCoreCore/src/key_exchange.c:41-71 | after the bits read so far, (x2:z2) is the u of nP and (x3:z3) that of (n + 1)P |
| Montgomery.AffineU | lib/MeshCoreCore/src/key_exchange.c:76-78 | dividing gives the u of the point, 0 for the point at infinity |
| Montgomery.ZeroLadder | lib/MeshCoreCore/src/key_exchange.c:41-71 | with u = 0 the products x2 z2 and x3 z3 stay zero |
| Montgomery.X25519Multiplies | lib/MeshCoreCore/src/key_exchange.c:4-79 | for every point of the curve, the neutral one and the point of order two included, the ladder takes u(P) to u(kP) |
| MeshPacket.PathByteLen | lib/MeshCoreCore/src/Packet.h:79-81 | count times size, both read from the path length byte |
| MeshPacket.WithHashCount | lib/MeshCoreCore/src/Packet.h:82 | for a count below 64 the size bits stay and the count bits become n |
| MeshPacket.FieldsOfWire | lib/MeshCoreCore/src/Packet.cpp:52-85 | parsing recovers every well-formed packet from its bytes; absent transport codes read as zero |
| MeshPacket.WireOfFields | lib/MeshCoreCore/src/Dispatcher.cpp:148-188 | whatever parses is well formed and serialises to the same bytes |
| MeshPacket.WireFits | lib/MeshCoreCore/src/Dispatcher.cpp:306-324 | a well-formed packet fits the 255-byte transmission unit |
| MeshPacket.WireLayout | lib/MeshCoreCore/src/Packet.cpp:52-63 | where every byte of the wire form stands, codes low byte first |
| MeshPacket.WellFormedExactly | lib/MeshCoreCore/src/Packet.cpp:13-18 | entries of one to three bytes, as many as the length byte says, no more than 64 bytes of path and 184 of payload |
| MeshPacket.RadioRoundTrip | lib/MeshCoreCore/src/Dispatcher.cpp:148-188 | a version 1 packet survives transmission |
| MeshPacket.RadioParseIsExact | lib/MeshCoreCore/src/Dispatcher.cpp:148-188 | every byte string that the receiver accepts is the wire form of the packet it accepted |
| MeshPacket.RadioExactly | lib/MeshCoreCore/src/Dispatcher.cpp:148-188 | the receiver accepts exactly the wire forms of well-formed packets with the version bits zero |
| MeshPacket.BlobExactly | lib/MeshCoreCore/src/Packet.cpp:65-85 | readFrom accepts exactly the wire forms of well-formed packets with a payload |
| MeshPacket.BlobRoundTrip | lib/MeshCoreCore/src/Packet.cpp:65-85 | a stored packet is read back exactly when it has a payload |
| MeshPacket.Packet.GetRawLength | lib/MeshCoreCore/src/Packet.cpp:37-39 | the length of the wire form |
| MeshPacket.Packet.WriteTo | lib/MeshCoreCore/src/Packet.cpp:52-63 | the wire form, into at most 255 bytes |
| MeshPacket.Packet.TryParse | lib/MeshCoreCore/src/Dispatcher.cpp:148-188 | accepts exactly the strings that parse, with the fields parsed; what lies behind the received bytes does not matter |
| MeshPacket.Packet.ReadFrom | lib/MeshCoreCore/src/Packet.cpp:65-85 | accepts exactly the strings with a payload that parse, with the fields parsed |
| MeshPacket.WritePath | lib/MeshCoreCore/src/Packet.cpp:20-30 | the path bytes, or nothing when the length does not fit |
| MeshCrypto.DecryptEncrypt | lib/MeshCoreCore/src/Utils.cpp:30-61 | decryption gives the text back, padded with zeros to whole blocks |
| MeshCrypto.OpenSealed | lib/MeshCoreCore/src/Utils.cpp:63-88 | what was encrypted and authenticated opens to the text and its zero padding |
| MeshCrypto.SealedMeans | lib/MeshCoreCore/src/Utils.cpp:44-72 | each block of the zero-padded text under the first 16 bytes of the secret, behind the MAC of all of them under the whole secret |
| MeshCrypto.OpenedMeans | lib/MeshCoreCore/src/Utils.cpp:30-88 | nothing unless the first two bytes are the MAC of the rest, and then each whole block decrypted |
| MeshCrypto.Encrypt | lib/MeshCoreCore/src/Utils.cpp:44-61 | whole blocks, the last one padded with zeros, behind what the buffer held before |
| MeshCrypto.Decrypt | lib/MeshCoreCore/src/Utils.cpp:30-42 | as many whole blocks as the length reaches into |
| MeshCrypto.EncryptThenMAC | lib/MeshCoreCore/src/Utils.cpp:63-72 | two bytes of MAC over the ciphertext, then the ciphertext |
| MeshCrypto.MACThenDecrypt | lib/MeshCoreCore/src/Utils.cpp:74-88 | 0 for a short string or a wrong MAC, otherwise the decrypted blocks |
| MeshChat.ComposeMsgPacket | lib/MeshCoreCore/src/helpers/BaseChatMesh.cpp:408-428 | accepts exactly the texts that fit with their attempt byte, if the pool has a packet; the datagram seals the message, and the expected acknowledgement is the hash of the covered bytes |
| MeshChat.CreateDatagram | lib/MeshCoreCore/src/Mesh.cpp:473-495 | accepts exactly the three types and the lengths that fit after padding, if the pool has a packet; the payload is both hashes and the sealed data |
| MeshChat.DecryptionRoom | lib/MeshCoreCore/src/Mesh.cpp:152-153 | a received payload decrypts within the 184 bytes of the buffer if and only if it has at most 178 bytes and the hashes and key ahead of the MAC: 180 from a peer, 179 on a channel; what passes the sender's size check is within that |
| MeshChat.StrLen | lib/MeshCoreCore/src/helpers/BaseChatMesh.cpp:217-243 | the distance to the first zero byte |
| MeshChat.ReceiveText | lib/MeshCoreCore/src/helpers/BaseChatMesh.cpp:217-243 | the acknowledgement covers the text up to its first zero, or all data if there is none, and carries the byte behind that zero |
| MeshChat.AckAgreement | lib/MeshCoreCore/src/helpers/BaseChatMesh.cpp:217-234 | for every accepted text and attempt, exact block lengths and hidden attempt bytes included, the receiver finds exactly the bytes that the sender's acknowledgement covers |
| MeshChat.AckTellsApart | lib/MeshCoreCore/src/helpers/BaseChatMesh.cpp:408-428 | the acknowledgement depends on time, attempt modulo 4, text and sender and on nothing else: it is the same under every digest exactly if those are |
| MeshChat.MessagesDiffer | lib/MeshCoreCore/src/helpers/BaseChatMesh.cpp:408-428 | different times, texts and attempts are different message data, for all 256 attempts |
| MeshChat.MessageParts | lib/MeshCoreCore/src/helpers/BaseChatMesh.cpp:408-428 | where time, attempt and text stand in the message data, and the whole attempt behind a zero from the fifth on |
| MeshChat.DeliverText | lib/MeshCoreCore/src/helpers/BaseChatMesh.cpp:217-243 | composed, sealed, opened and acknowledged: the first four bytes are those the sender waits for, and the fifth is the attempt if it exceeds 3 |
| MeshRouting.CalculatePacketHash | lib/MeshCoreCore/src/Packet.cpp:41-50 | the hash depends on type and payload only, and for TRACE on the path length |
| MeshRouting.HashTellsApart | lib/MeshCoreCore/src/Packet.cpp:41-50 | two packets have the same hash under every digest if and only if type and payload are the same, and for TRACE the path length |
| MeshRouting.RemoveSelfFromPath | lib/MeshCoreCore/src/Mesh.cpp:320-328 | the path loses exactly its first entry |
| MeshRouting.ShiftPath | lib/MeshCoreCore/src/Mesh.cpp:320-328 | the in-place loop moves every entry up by one |
| MeshRouting.RouteRecvPacket | lib/MeshCoreCore/src/Mesh.cpp:330-343 | retransmitted with the own entry at the end of the path, or released; priority is the new count |
| MeshRouting.LastCount | lib/MeshCoreCore/src/Mesh.cpp:330-343 | a 64th entry of one byte does not fit the six-bit count: the path becomes an empty one of size two |
| MeshRouting.RouteDirectRecvAcks | lib/MeshCoreCore/src/Mesh.cpp:363-387 | the extra copies with their countdown, then the acknowledgement, over the rest of the path and as far as the pool has packets |
| MeshRouting.AppendReading | lib/MeshCoreCore/src/Mesh.cpp:58-64 | one more signal reading in the path of a TRACE |
| MeshRouting.Mesh.HasSeen | lib/MeshCoreCore/src/helpers/SimpleMeshTables.h:34-53 | test and set of the packet's hash, as an exact set |
| MeshTables.SimpleMeshTables.HasSeen | lib/MeshCoreCore/src/helpers/SimpleMeshTables.h:34-53 | true exactly for a hash among the 160 latest that were written; any other one replaces the oldest |
| MeshTables.SimpleMeshTables.Clear | lib/MeshCoreCore/src/helpers/SimpleMeshTables.h:55-67 | the hash is forgotten and no other one |
| MeshTables.SimpleMeshTables.Find | lib/MeshCoreCore/src/helpers/SimpleMeshTables.h:38-48 | the search through the bytes finds the first entry with the hash, or none exactly when the table does not hold it |
| MeshTables.ExactUnlessForgotten | lib/MeshCoreCore/src/helpers/SimpleMeshTables.h:34-53 | the answer is that of an exact set unless the hash was written only 160 or more hashes ago |
| MeshTables.ExactUpToItsSize | lib/MeshCoreCore/src/helpers/SimpleMeshTables.h:34-53 | shown at most 160 different hashes, in any order and number, the table is the exact set of them |
| MeshTables.ForgetsTheOldest | lib/MeshCoreCore/src/helpers/SimpleMeshTables.h:34-53 | after 161 different hashes the first is no longer known |
| MeshRouting.Mesh.ForwardTrace | lib/MeshCoreCore/src/Mesh.cpp:42-67 | the TRACE branch decides by the route in the payload, updates and forwards as the specification function says |
| MeshRouting.Mesh.IsNextOfTrace | lib/MeshCoreCore/src/Mesh.cpp:44-59 | the shifts in uint16_t and the length in uint8_t find the entry at the offset that the count of readings gives, short payloads included |
| MeshRouting.MarkPacket | lib/MeshCoreCore/src/Packet.h:89 | the mark is the header 0xFF, and the rest of the packet stays |
| MeshRouting.Mesh.ForwardDirect | lib/MeshCoreCore/src/Mesh.cpp:77-107 | a direct packet with hops left is forwarded only by the head of its path, once, without the head; an awaited acknowledgement is marked before that |
| MeshRouting.Mesh.ForwardHead | lib/MeshCoreCore/src/Mesh.cpp:87-106 | at the head of the path a new packet loses the head and goes on, an acknowledgement as a copy |
| MeshRouting.Mesh.ForwardMultipartDirect | lib/MeshCoreCore/src/Mesh.cpp:345-361 | the acknowledgement inside a multipart packet is forwarded once, without the head |
| MeshRouting.Mesh.ForwardPart | lib/MeshCoreCore/src/Mesh.cpp:345-361 | the unpacked acknowledgement counts as seen, and is copied on over the rest of the path if it was new |
| MeshRouting.Mesh.Arrive | lib/MeshCoreCore/src/Mesh.cpp:111-317 | the switch over payload types, but for what its hooks send |
| MeshRouting.Mesh.RouteIfNew | lib/MeshCoreCore/src/Mesh.cpp:137-185 | a new packet counts as seen and is routed on, unless it was for this node |
| MeshRouting.Mesh.RouteData | lib/MeshCoreCore/src/Mesh.cpp:126-187 | a new datagram is taken or routed on, and an accepted path that flooded in is answered; what the data hooks send is in OnRecvPacket |
| MeshRouting.Mesh.AnswerPath | lib/MeshCoreCore/src/Mesh.cpp:165-169 | the reciprocal path goes directly to the sender, over the path that it sent, and counts as seen |
| MeshRouting.Mesh.RouteAdvert | lib/MeshCoreCore/src/Mesh.cpp:241-279 | a new advertisement is routed on only with a right signature |
| MeshRouting.Mesh.NoteMultipart | lib/MeshCoreCore/src/Mesh.cpp:287-310 | a multipart acknowledgement marks the acknowledgement inside as seen |
| MeshRouting.Mesh.OnRecvPacket | lib/MeshCoreCore/src/Mesh.cpp:41-318 | action, table, path and packets sent are those of the specification function, and what a hook sends of its own is sent and counts as seen besides, for every packet and every answer of the hooks; what a released packet holds is not stated |
| MeshRouting.Mesh.Handle | lib/MeshCoreCore/src/Mesh.cpp:41-318 | the same without what hooks send |
| MeshRouting.Mesh.SendReplies | lib/MeshCoreCore/src/helpers/BaseChatMesh.cpp:233-243 | what hooks flood or send directly counts as seen |
| MeshPaths.RelayFacts | lib/MeshCoreCore/src/Mesh.cpp:41-343 | whatever a node retransmits was new to it and is now known, and keeps codes and payload; header and hash stay if and only if it is no awaited direct acknowledgement with hops left (a TRACE changes its hash with its count); floods gain the own entry, direct packets lose theirs |
| MeshPaths.AwaitedAckGoesOn | lib/MeshCoreCore/src/helpers/BaseChatMesh.cpp:335-346 | an acknowledgement that the head of its path awaits is retransmitted with the header 0xFF and under another hash |
| MeshPaths.MarkedDoesNotFlood | lib/MeshCoreCore/src/helpers/BaseChatMesh.cpp:335-346 | the test for a flood behind the mark never holds, so the retry of the return path does not happen |
| MeshPaths.AppendExactly | lib/MeshCoreCore/src/Mesh.cpp:330-343 | the path received plus the own entry if and only if fewer than 63 entries are there |
| MeshPaths.FloodStarts | lib/MeshCoreCore/src/Mesh.cpp:622-676 | a flood starts with an empty path and the hash that its packet had before |
| MeshPaths.FloodedFields | lib/MeshCoreCore/src/Mesh.cpp:622-676 | type, version and payload stay, the transport codes are those given or zero, the path is empty |
| MeshPaths.DirectStarts | lib/MeshCoreCore/src/Mesh.cpp:678-700 | the same for direct sending: type, version and payload stay, and the hash unless the packet is a TRACE |
| MeshPaths.SendFlood | lib/MeshCoreCore/src/Mesh.cpp:622-676 | refuses TRACE and sizes that do not exist; otherwise the flood is marked as seen at its originator, with the priority of its type |
| MeshPaths.FloodRecords | lib/MeshCoreCore/src/Mesh.cpp:330-343 | each willing hop that has not seen the flood relays it with itself recorded |
| MeshPaths.FloodRun | lib/MeshCoreCore/src/Mesh.cpp:330-343 | a flood over any list of hops arrives with exactly that list as its path |
| MeshRouting.CreatePathReturn | lib/MeshCoreCore/src/Mesh.cpp:433-471 | accepted exactly when path and extra data fit and the pool has a packet; the payload seals the path length, the path and the extra data, or random bytes without any |
| MeshRouting.PathBytes | lib/MeshCoreCore/src/Mesh.cpp:445-465 | those data, byte for byte |
| MeshPaths.ReturnSurvives | lib/MeshCoreCore/src/Mesh.cpp:155-171 | path and extra data come out of encryption and padding as they went in |
| MeshPaths.Contact.OnPathData | lib/MeshCoreCore/src/helpers/BaseChatMesh.cpp:316-333 | the received path replaces the one on record if it fits; the type and the place of the extra data are read behind it, also where the path ends behind the data |
| MeshRouting.Mesh.SendDirect | lib/MeshCoreCore/src/Mesh.cpp:678-700 | the route becomes direct, type, version and payload stay, the path is the one given; a TRACE gets the route at the end of its payload instead; the packet counts as seen at its sender |
| MeshPaths.DirectForwards | lib/MeshCoreCore/src/Mesh.cpp:77-107 | each hop finds itself at the head, takes exactly that away, and sends the rest on |
| MeshPaths.AckForwards | lib/MeshCoreCore/src/Mesh.cpp:363-387 | an acknowledgement travels the same way as new packets with the same payload |
| MeshPaths.ArrivesEmpty | lib/MeshCoreCore/src/Mesh.cpp:41-318 | at the end of the path a packet of any type that is routed is looked at and not forwarded, whatever the hooks answer |
| MeshPaths.DirectRun | lib/MeshCoreCore/src/Mesh.cpp:77-107 | over all hops in order the path is used up one entry at a time |
| MeshPaths.OnlyTheWillingFlood | lib/MeshCoreCore/src/Mesh.cpp:77-343 | a hop sends a flood on if and only if its hooks answer as `Willing` says for the type of the packet |
| MeshPaths.OnlyTheWillingForward | lib/MeshCoreCore/src/Mesh.cpp:77-107 | the same for direct packets and acknowledgements, so that the condition of the runs is no stronger than needed |
| MeshDecisions.FloodExactly | lib/MeshCoreCore/src/Mesh.cpp:109-343 | a flood is relayed if and only if its type is routed and long enough, the hooks are willing, its hash is new and the path has room; the priority is the new count |
| MeshDecisions.RoutableExactly | lib/MeshCoreCore/src/Mesh.cpp:127-270 | which types are routed and from which payload length on, by the numbers in the header |
| MeshDecisions.FloodLearns | lib/MeshCoreCore/src/Mesh.cpp:109-318 | which floods count as seen afterwards, relayed or not, and what is sent besides |
| MeshDecisions.DirectExactly | lib/MeshCoreCore/src/Mesh.cpp:77-107 | of a direct packet with hops left a node that is not next keeps and learns nothing; the next one sends it on once, without the head |
| MeshDecisions.TraceExactly | lib/MeshCoreCore/src/Mesh.cpp:42-67 | a TRACE goes on exactly if its route, measured in a uint8_t, is not used up, the next entry begins the own key, the hooks are willing and it is new; payloads shorter than the nine fixed bytes included |
| MeshDecisions.ZeroHopControl | lib/MeshCoreCore/src/Mesh.cpp:69-75 | control packets with the top bit of the first byte set go nowhere |
| MeshDecisions.MultipartExactly | lib/MeshCoreCore/src/Mesh.cpp:345-361 | of a multipart packet only the acknowledgement inside goes on, once and from the next node only |
| MeshDecisions.ArrivalExactly | lib/MeshCoreCore/src/Mesh.cpp:280-318 | multipart, raw, control and unknown packets that arrive are never routed; what counts as seen is stated for each |
| MeshDecisions.PathBackExactly | lib/MeshCoreCore/src/Mesh.cpp:155-171 | when a path goes back: a flooded path from a known peer, accepted, with a packet in the pool and room for the data |
| MeshDecisions.PathBackMeans | lib/MeshCoreCore/src/Mesh.cpp:165-169 | the path that goes back names both ends, and opened with the peer's secret gives the path received |
| MeshDecisions.AckCopies | lib/MeshCoreCore/src/Mesh.cpp:363-387 | the copies are direct, over the path left, with the acknowledgement's bytes, and the extra ones count down |
| MeshPaths.AckRun | lib/MeshCoreCore/src/Mesh.cpp:363-387 | over all hops in order an acknowledgement travels as a chain of copies, with or without extra ones, and arrives with its payload |
| MeshPaths.ReturnedPathWorks | lib/MeshCoreCore/src/Mesh.cpp:155-171 | a recorded path, returned under encryption and stored, takes a fresh packet or an acknowledgement over the hops recorded; what arrives has the type, version and payload of the packet sent and an empty path |
| MeshPaths.TraceForwards | lib/MeshCoreCore/src/Mesh.cpp:42-67 | exactly the node that the route of a TRACE names next sends it on, with its reading; behind the last entry nobody does |
| MeshPaths.TraceRun | lib/MeshCoreCore/src/Mesh.cpp:42-67 | over willing nodes a TRACE follows its whole route, and ends with a reading of each node in order |
| MeshPaths.LearnedPathWorks | lib/MeshCoreCore/src/Mesh.cpp:155-171 | a path recorded by a flood, returned under encryption and stored, takes a fresh packet or an acknowledgement over the same hops in order, which arrives with its type, version and payload and with an empty path |
| MeshNetwork.RunKeepsInv | lib/MeshCoreCore/src/Mesh.cpp:41-318 | in every run of a network, with any loss, duplication and reordering, the invariant of the copies sent holds |
| MeshNetwork.RelaysOnce | lib/MeshCoreCore/src/Mesh.cpp:330-343 | a node relays a flood with a given hash at most once, and never after it originated it |
| MeshNetwork.RelayExtends | lib/MeshCoreCore/src/Mesh.cpp:330-343 | every relayed flood copy is an earlier copy with the relay's entry appended |
| MeshNetwork.ComesFromOrigin | lib/MeshCoreCore/src/Mesh.cpp:622-647 | every flood copy goes back to one that its originator sent |
| MeshNetwork.OneRelayPerNode | lib/MeshCoreCore/src/Mesh.cpp:330-343 | the relays of a flood are as many as the nodes that relayed it |
| MeshNetwork.OriginatorNeverRelays | lib/MeshCoreCore/src/Mesh.cpp:622-647 | the originator is not among the relays |
| MeshNetwork.FloodBound | lib/MeshCoreCore/src/Mesh.cpp:330-343 | in a network of N nodes a flood sent once is sent at most N times in all |
| MeshNetwork.PathIsChain | lib/MeshCoreCore/src/Mesh.cpp:330-343 | in every run the path of a flood copy lists the nodes that relayed it, in order, from the originator on |
| MeshNetwork.RecordedPathWorks | lib/MeshCoreCore/src/Mesh.cpp:155-171 | in every run the path of a flood copy, returned, takes a fresh packet or an acknowledgement over exactly the nodes that relayed the copy; what arrives has the type, version and payload of the packet sent and an empty path |
| MeshNetwork.RepliesAreEvents | lib/MeshCoreCore/src/helpers/BaseChatMesh.cpp:233-243 | what hooks send makes no new runs: after it the network is where a run with as many more originating events leaves it |
| MeshDispatcher.PacketQueue.Get | lib/MeshCoreCore/src/helpers/StaticPoolPacketManager.cpp:22-44 | the first of the most urgent entries that are due is taken out, the others keep their order; nothing is taken exactly when nothing is due |
| MeshDispatcher.DueExactly | lib/MeshCoreCore/src/helpers/StaticPoolPacketManager.cpp:22-44 | across the wrap of the clock an entry put off by a delay is due exactly from the moment the delay is over |
| MeshDispatcher.PacketQueue.Add | lib/MeshCoreCore/src/helpers/StaticPoolPacketManager.cpp:60-69 | appended, unless the queue is full |
| MeshDispatcher.PacketQueue.TakeFirst | lib/MeshCoreCore/src/helpers/StaticPoolPacketManager.cpp:46-58 | the first entry is taken out, the others keep their order |
| MeshDispatcher.Dispatcher.constructor | lib/MeshCoreCore/src/helpers/StaticPoolPacketManager.cpp:71-76 | every packet is in the pool |
| MeshDispatcher.Dispatcher.Free | lib/MeshCoreCore/src/helpers/StaticPoolPacketManager.cpp:82-84 | a packet in hand goes back to the pool, and nowhere else |
| MeshDispatcher.Dispatcher.ObtainNewPacket | lib/MeshCoreCore/src/Dispatcher.cpp:355-364 | a packet from the pool, or none exactly when the pool is empty |
| MeshDispatcher.Dispatcher.QueueOutbound | lib/MeshCoreCore/src/helpers/StaticPoolPacketManager.cpp:86-91 | the packet in hand is queued: the queue is never full, so nothing is dropped |
| MeshDispatcher.Dispatcher.QueueInbound | lib/MeshCoreCore/src/helpers/StaticPoolPacketManager.cpp:117-122 | the same for the inbound queue |
| MeshDispatcher.Dispatcher.SendPacket | lib/MeshCoreCore/src/Dispatcher.cpp:370-377 | queued with its time, or freed if its lengths are invalid |
| MeshDispatcher.Dispatcher.ProcessRecvPacket | lib/MeshCoreCore/src/Dispatcher.cpp:260-272 | the packet received ends in the pool, in the outbound queue or in the handler's hands, as the action says |
| MeshDispatcher.Dispatcher.CheckRecv | lib/MeshCoreCore/src/Dispatcher.cpp:190-258 | a received string takes one packet from the pool, if it has one, which goes back there, is put off or is handled |
| MeshDispatcher.Dispatcher.Dispose | lib/MeshCoreCore/src/Dispatcher.cpp:206-257 | freed if it does not parse, delayed up to 32 seconds if it is a flood with 50 or more milliseconds, otherwise handled at once |
| MeshDispatcher.Dispatcher.FinishSend | lib/MeshCoreCore/src/Dispatcher.cpp:85-130 | the packet in flight is freed exactly once, on completion or timeout, and otherwise stays in flight |
| MeshDispatcher.Dispatcher.CheckSend | lib/MeshCoreCore/src/Dispatcher.cpp:274-353 | only with nothing in flight, so the packet in flight is never overwritten; one that is too long or cannot be started is freed |
| MeshDispatcher.Dispatcher.TakeOutbound | lib/MeshCoreCore/src/Dispatcher.cpp:274-353 | the packet in flight is the most urgent one that is due |
| MeshDispatcher.Dispatcher.Launch | lib/MeshCoreCore/src/Dispatcher.cpp:274-353 | a packet that has left the send queue is in flight and nowhere else |
| MeshDispatcher.Dispatcher.HandleDue | lib/MeshCoreCore/src/Dispatcher.cpp:137-143 | the next due packet of the inbound queue leaves it and ends where its handler says; without one nothing changes |
| MeshDispatcher.Dispatcher.TakeInbound | lib/MeshCoreCore/src/Dispatcher.cpp:137-143 | the next due packet leaves the inbound queue, into the hands of the node; none exactly if none is due |
| MeshDispatcher.Dispatcher.Loop | lib/MeshCoreCore/src/Dispatcher.cpp:66-146 | while a transmission goes on nothing moves; otherwise, in this order, its packet is released, the next due inbound packet is handled, what was received is disposed of, and the next due packet is in flight, or in the pool if it could not be started; with the radio free no due packet is left waiting unless one is taken |
| MeshDispatcher.Dispatcher.Serve | lib/MeshCoreCore/src/Dispatcher.cpp:66-146 | over any calls of loop, of sending new packets, and of taking, giving back and sending packets in hand, in any order, each has its effect in turn, and every packet stays accounted for |
| MeshDispatcher.Dispatcher.Answer | lib/MeshCoreCore/src/Dispatcher.cpp:355-377 | the effect of each call on pool, queues, flight and what the application has in hand |
| MeshDispatcher.ReleasedOnce | lib/MeshCoreCore/src/Dispatcher.cpp:85-130 | over any such calls every packet taken for transmission is released once, as the next thing, or is the one in flight; nothing else is released |
| VideoQueue.StreamObject.QueueElement | lib/esp_video/src/esp_video.c:1010-1035 | a free element is appended to the queued list; one that is not free is refused and nothing changes |
| VideoQueue.QueueExactly | lib/esp_video/src/esp_video.c:1010-1035 | queueing succeeds exactly for a free element, changes only that element, and taking one out next undoes it |
| VideoQueue.DoneExactly | lib/esp_video/src/esp_video.c:928-960 | the same for the done list |
| VideoQueue.UnqueueExactly | lib/esp_video/src/esp_video.c:843-862 | an element comes out exactly if the list is not empty, the leading one, and is free from then on |
| VideoQueue.UndoneExactly | lib/esp_video/src/esp_video.c:896-915 | the same for the done list |
| VideoQueue.StreamObject.InsertDone | lib/esp_video/src/esp_video.c:928-960 | the locked part of esp_video_done_element |
| VideoQueue.StreamObject.GetQueuedElement | lib/esp_video/src/esp_video.c:843-862 | the head of the queued list, taken out |
| VideoQueue.StreamObject.GetDoneElement | lib/esp_video/src/esp_video.c:896-915 | the head of the done list, taken out, and free again |
| VideoQueue.StreamObject.Give | lib/esp_video/src/esp_video.c:953-960 | one more, up to the limit |
| VideoQueue.StreamObject.Take | lib/esp_video/src/esp_video.c:1154-1187 | one less, if there is one |
| VideoQueue.StreamObject.Drain | lib/esp_video/src/esp_video.c:590-634 | stopping leaves both lists and the semaphore empty and all elements free |
| VideoQueue.StreamObject.ResetFlags | lib/esp_video/src/esp_video_buffer.c:146-152 | all elements free |
| VideoQueue.QueueM2M | lib/esp_video/src/esp_video.c:1202-1234 | both elements are queued or neither |
| VideoQueue.InsertDoneM2M | lib/esp_video/src/esp_video.c:1249-1301 | both elements are done or neither |
| VideoQueue.GetM2MQueued | lib/esp_video/src/esp_video.c:1316-1350 | the heads of both lists or neither |
| VideoQueue.StepKeepsInv | lib/esp_video/src/esp_video.c:843-1350 | every atomic step of every thread keeps lists, flags and semaphore consistent |
| VideoQueue.RunKeepsInv | lib/esp_video/src/esp_video.c:843-1350 | hence every interleaving does |
| VideoQueue.OneListEach | lib/esp_video/src/esp_video.c:843-1350 | in every interleaving an element is in at most one list, and free exactly when it is in neither |
| VideoQueue.DoneIsAccounted | lib/esp_video/src/esp_video.c:928-1187 | in every interleaving the length of the done list is the semaphore's count and the gives and fetches outstanding |
| VideoQueue.TakeYields | lib/esp_video/src/esp_video.c:1154-1187 | in every interleaving a successful take is followed by a fetch that yields an element |
| VideoQueue.GiveRaises | lib/esp_video/src/esp_video.c:928-960 | in every interleaving a give raises the semaphore: its limit is never reached before |
| VideoBuffer.Create | lib/esp_video/src/esp_video_buffer.c:28-75 | the object and all elements with a payload each, or nothing left allocated, whichever allocation fails |
| VideoBuffer.Buffer.Reset | lib/esp_video/src/esp_video_buffer.c:146-152 | all elements free and empty |
| VideoBuffer.Buffer.GetElementByBuffer | lib/esp_video/src/esp_video_buffer.c:127-137 | the first element with that payload, or none exactly when there is none |
| VideoBuffer.Buffer.Release | lib/esp_video/src/esp_video_buffer.c:104-115 | exactly the payloads of the elements are given back |
| VideoBuffer.Buffer.Destroy | lib/esp_video/src/esp_video_buffer.c:104-115 | the object and its memory-mapped payloads are given back, and payloads of the user are left alone |
| Bits.Load3Field | lib/MeshCoreCore/src/fe.c:8-16 | load_3 reads 24 bits of the string's value at a byte position |
| Bits.Load4Field | lib/MeshCoreCore/src/fe.c:18-27 | load_4 reads 32 bits of the string's value at a byte position |
| FeBytes.LoadLimbsValue | lib/MeshCoreCore/src/fe.c:297-307 | the ten shifted loads have the value of the string without its top bit, and fit the carries |
| FeBytes.Quotient | lib/MeshCoreCore/src/fe.c:1408-1418 | eleven shifts of 32-bit sums divide the whole value by 2^255 exactly |
| FeOps.Add | lib/MeshCoreCore/src/fe.c:81-123 | the sum is exact, not only modulo p |
| FeOps.Sub | lib/MeshCoreCore/src/fe.c:1315-1357 | the difference is exact |
| FeOps.Zero | lib/MeshCoreCore/src/fe.c:35-46 | the value 0 within every bound from 1 up |
| FeOps.One | lib/MeshCoreCore/src/fe.c:54-65 | the value 1 within every bound from 1 up |
| Curve.TimesTimes | lib/MeshCoreCore/src/key_exchange.c:4-79 | m(nP) = (mn)P, on which the agreement of both sides rests |
| Curve.MultipleTimes | lib/MeshCoreCore/src/ge.c:386-434 | m(nP) = (mn)P for negative n too |
| ScalarMultBase.Move | lib/MeshCoreCore/src/ge.c:349-353 | the masked moves take u or leave t, entry for entry |
| ScalarMultBase.CarryOut | lib/MeshCoreCore/src/ge.c:404-407 | the carry is 0 or 1 and leaves a digit in [-8, 7] |
| Slide.BitAt | lib/MeshCoreCore/src/ge.c:30-32 | bit i of the scalar's value |
| DoubleScalarMult.NextOdd | lib/MeshCoreCore/src/ge.c:80-100 | the next odd multiple of the table |
| DoubleScalarMult.AddCachedDigit | lib/MeshCoreCore/src/ge.c:112-118 | adds the digit's multiple of A, for digits of either sign and for zero |
| DoubleScalarMult.AddPrecompDigit | lib/MeshCoreCore/src/ge.c:120-126 | adds the digit's multiple of B, for digits of either sign and for zero |
| PointCodec.Normalize | lib/MeshCoreCore/src/ge.c:321-330 | one inversion gives both affine coordinates |
| PointCodec.StorePoint | lib/MeshCoreCore/src/ge.c:321-330 | the exclusive-or puts the parity of x into the top bit of y's bytes, which is clear |
| PointCodec.Fraction | lib/MeshCoreCore/src/ge.c:148-154 | u = y^2 - 1 and v = dy^2 + 1 within the bounds |
| PointCodec.CandidateRoot | lib/MeshCoreCore/src/ge.c:155-164 | u v^3 (u v^7)^((p-5)/8) |
| PointCodec.Root | lib/MeshCoreCore/src/ge.c:155-174 | a root of u/v, or none exactly when there is none |
| Ed25519.SmallTop | lib/MeshCoreCore/src/verify.c:54-56 | the top byte is below 32 exactly for scalars below 2^253 |
| Bits.TopBits | lib/MeshCoreCore/src/verify.c:54-56 | x & 224 is zero exactly for bytes below 32 |
| Bits.ClearLow | lib/MeshCoreCore/src/keypair.c:10 | x & 248 rounds down to a multiple of 8 |
| Bits.SetTop | lib/MeshCoreCore/src/keypair.c:11-12 | clearing the top two bits and setting the second gives x mod 64 plus 64 |
| KeyExchange.BitAtValue | lib/MeshCoreCore/src/key_exchange.c:45-46 | the bit at a position of the key's value |
| KeyExchange.SwapRungs | lib/MeshCoreCore/src/key_exchange.c:48-49 | both coordinates of the two points are exchanged together |
| Sha512.SetInitial | lib/MeshCoreCore/src/sha512.c:152-159 | the initial hash value of section 5.3.5 of FIPS 180-4 |
| Sha512Constants.H0IsSquareRoots | lib/MeshCoreCore/src/sha512.c:152-159 | the initial hash value comes from the square roots of the first eight primes |
| Sha512.Feedback | lib/MeshCoreCore/src/sha512.c:134-136 | the intermediate hash value is the sum, word by word, of state and working variables |
| Sha512.StoreWord | lib/MeshCoreCore/src/sha512.c:65-69 | eight big-endian bytes at their place and no others |
| Sha512.Context.FillZeros | lib/MeshCoreCore/src/sha512.c:240-253 | zeros up to a position |
| MeshPacket.RouteType | lib/MeshCoreCore/src/Packet.h:62 | the low two bits of the header |
| MeshPacket.PayloadType | lib/MeshCoreCore/src/Packet.h:72 | four bits of the header |
| MeshPacket.PayloadVer | lib/MeshCoreCore/src/Packet.h:77 | the top two bits of the header |
| MeshPacket.HashSize | lib/MeshCoreCore/src/Packet.h:79 | one more than the top two bits of the path length byte |
| MeshPacket.HashCount | lib/MeshCoreCore/src/Packet.h:80 | the low six bits of the path length |
| MeshPacket.Packet.WriteHead | lib/MeshCoreCore/src/Dispatcher.cpp:311-317 | header, transport codes only if the header announces them, path length and path |
| MeshPacket.Packet.ReadHead | lib/MeshCoreCore/src/Dispatcher.cpp:150-159 | header and codes; codes that the header does not announce become zero |
| MeshPacket.Packet.ReadBody | lib/MeshCoreCore/src/Dispatcher.cpp:172-186 | path and payload at the places that the header and the path length give |
| MeshCrypto.EncryptBlocks | lib/MeshCoreCore/src/Utils.cpp:44-61 | the whole blocks of the text, each encrypted |
| MeshRouting.MoveEntry | lib/MeshCoreCore/src/Mesh.cpp:320-328 | one entry is copied from its right neighbour |
| MeshRouting.Mesh.Unpack | lib/MeshCoreCore/src/Mesh.cpp:345-361 | the temporary packet has the same header and path, and the payload from its second byte |
| MeshRouting.Mesh.CarriesAck | lib/MeshCoreCore/src/Mesh.cpp:345-361 | true exactly for multipart packets with an acknowledgement inside |
| MeshDispatcher.Dispatcher.ReleaseOutbound | lib/MeshCoreCore/src/Dispatcher.cpp:329-336 | the packet in flight goes back to the pool, and the slot is empty |
| MeshDispatcher.Dispatcher.RunOps | lib/MeshCoreCore/src/Dispatcher.cpp:260-272 | what a handler obtains, sends, returns or keeps, one after the other as far as the pool has packets; none is lost or doubled |
| VideoQueue.GiveHasRoom | lib/esp_video/src/esp_video.c:928-960 | a thread that owes a give finds the semaphore below its limit |
| VideoQueue.FetchFinds | lib/esp_video/src/esp_video.c:1154-1187 | a thread past its take finds an element in the done list |
| VideoBuffer.BuildNext | lib/esp_video/src/esp_video_buffer.c:28-75 | one more element with its payload, or exactly the former ones |

## Left out

In the arithmetic:

- Field elements and points are values, and the C functions write `int32_t[10]` arrays through pointers. Each of those functions
  reads all limbs it needs before it writes the first, which is why calls with equal input and output pointers are modelled
  by plain assignment; other overlaps are not modelled.
- Straight-line groups of the same statement are one helper with the index as a parameter (three folds or carries at a time, one
  loop for repeated squarings of stated length).
- PointCodec.GeFromBytesNegateVartime: what the function leaves in `h` when it returns -1 is not stated.
- KeyExchange.SecretMeaning: for a y that belongs to no point of the curve (a point of the twist) the secret is that of RFC 7748, but has
  no meaning as a multiple here.
- Slide.Recode: for which scalars from 2^253 up a carry is lost is not stated; no caller gets there.
- Ed25519.DerivePub: private keys below 2^255, which `ge_scalarmult_base` asks for; created keys are.
- The digits of `precomp_data.h`, the primality of p and the associativity of the curve's addition are hypotheses.
- Null-pointer tests of the hash functions, and timing: the constant-time forms are proved to compute the right value only.
- `Identity::verify` calls a library outside the repository; `verify.c` is modelled instead. `add_scalar.c` and `seed.c` would add
  easy members.

In the mesh:

- AES, the MAC and the digests are parameters with the contracts of `MeshCrypto.Sound`. Random bytes and time stamps are parameters.
- The answers of hooks, contact and channel searches, decryption results and signature checks are the fields of `Answers`: every
  combination is allowed. Floating-point delays and airtime budgets, channel activity detection, noise floor, gain control and statistics are booleans and numbers of `Tick`.
- MeshRouting.Mesh.HasSeen: an exact set, as `SimpleMeshTables` is while no more than 160 different hashes are shown to it. Saving the table to a file and its
  statistics are left out.
- MeshChat.ReceiveText: plain text messages; the sixth byte of the acknowledgement is random, and not stated.
- MeshRouting.Mesh.OnRecvPacket: a released packet's contents are not stated; nothing reads them. Which packets the data hooks send of their own, path returns and acknowledgements
  among them, is a parameter.
- MeshRouting.Mesh.Arrive: without what hooks send, as is `RouteData`; `OnRecvPacket` adds it behind the switch, where nothing looks at the table any more.
- MeshPaths.LearnedPathWorks: for at most 63 hops, the most that the count can hold, and for hops that are willing and new to the packet.
- MeshPaths.Contact.OnPathData: paths that end within the buffer; the longest length byte gives 252 bytes, more than the 184 of `data`.
- MeshPaths.ReturnSurvives: the extra data come back with the zeros of the last block behind them, as in the code.
- MeshCrypto.Decrypt: source and destination reach to the end of the last block; `MeshChat.DecryptionRoom` says when they do.
- MeshCrypto.MACThenDecrypt: for ciphertext that is not whole blocks `decrypt` reads on to the end of the last block, and the buffer is required to reach that far.
- MeshDispatcher.PacketQueue.Get: an entry of priority 255 counts as not due: the code never takes one out of a queue.
- MeshDispatcher.Dispatcher.SendPacket: whether the lengths are valid is a parameter, as it is in `CheckSend`.
- MeshDispatcher.Dispatcher.CheckRecv: reception and whether the bytes parse are parameters, as they are in `Dispose`; parsing itself is in `MeshPacket`.
- MeshDispatcher.Dispatcher.Loop: packets are identified by their slot of the pool, and their contents by the other mesh modules; a packet
  that a handler or caller keeps counts as held, which includes one that `sendFlood` refuses.
- Advertisements' application data, group channels, connections, login and contact bookkeeping of `BaseChatMesh`; zero-hop sending, control data and raw data creation.

In the video queues:

- Lists are sequences, and threads are sequences of atomic steps; `esp_video_clone_element`, which skips the semaphore, is left out.
- Starting and stopping are not interleaved with the other steps: `VideoQueue.StreamObject.Drain` states what stopping leaves.
- Callbacks, device registration, format negotiation and controls.
- VideoBuffer.Create: the allocator is a set of live addresses, and its answers are parameters; alignment and capabilities are left out.

Not modelled at all: the tuner driver, the user interface, file transfer, cameras, USB, storage, the image pipeline and build scripts.
