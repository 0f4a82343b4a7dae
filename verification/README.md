# OpenSSH 8.8p1: arithmetic, protocol state and byte-level code

This project models the parts of the vendored OpenSSH 8.8p1 where loops over limbs, protocol
state shared by two parties, or in-place buffer work decide whether the program is right, and
proves what those parts are for.  `dafny verify dfyconfig.toml` checks all of it.

Code that updates arrays or structs is written as methods on arrays and classes.  Each method is
proved equal to a function of the old state, and the results are lemmas about those functions,
or about all runs of the steps they define.

**Ed25519, from limbs to signatures.**  `Field` gives the integer that 32 limbs stand for and the
effect of every operation of fe25519.c on it; `Fe25519` and `FeChains` are the array code, with
every aliasing the callers use.  `MulBound` shows that multiplication can return 2^255 or a little
more, so the exactness of freeze, pack, parity and comparison is stated with its condition, in both
directions; `Field.OutsideWindow` says for which residues a product cannot do so.  `Edwards` is the
algebra of the curve, including completeness of the addition law; `Residues`, `AffineCurve` and
`CurveGroup` are arithmetic modulo p, the affine curve and its points as a group; `PointSpec` and
`PointGroup` tie the limb formulas to them; `Ge25519` and `BaseMult` are the two scalar
multiplications, with their digit recodings, tables and stale T coordinate, for every 32-byte
scalar.  `PointCodec` and `SquareRoot` are the point encodings: what packing and unpacking make of a
curve point is stated exactly, in terms of the products that are stored; unpacking gives the negative
of what packing encoded for points whose coordinates keep away from 19 .. 155666, and `CodecLimits`
has a point inside that range for which each direction fails.  `Sc25519` is arithmetic modulo the group
order with its Barrett reduction, whose source asks in a comment whether an intermediate value can
be negative: it cannot (`QuotientClose`).  `Ed25519` is key generation, signing and opening, on top
of all of these, and the round trip through the three (`SignAndOpen`).

**Channels.** `ChannelSpec` and `Channel` are one end of a channel, `FlowControl` two ends joined
by FIFO links with every interleaving of reads, polls, deliveries, short writes, failed writes,
window checks, EOF and CLOSE; `Endpoint` shows that the handlers take these steps. A failed write
throws the output buffer away without giving its window back (nchan.c:370-393), a closed or
otherwise used extended descriptor drops what arrives for it without giving window back
(channels.c:3043-3048), and closing it strands what is buffered for it. `WindowStall` shows that
this, with one exception for windows of at most one byte, is exactly what can leave the sender at
window zero for good. `MuxSpec` and `MuxCode` are the id translation for mux clients. The proxy
channel is not released when the server answers OPEN_FAILURE; the model does the same.

**Authentication.**  `AuthLists` relates the comma-and-colon strings to lists, `AuthSpec` is the state
machine over requests and replies with results for every run, `AuthCode` the context it updates.

**Byte-level code.**  `Bitmap` refines a finite set; `AtomicIo` is the scatter/gather retry loop;
`ChaChaSpec`, `ChaCha` and `ChachaPoly` the packet cipher; `Cbc` the block mode; `Addr` and
`AddrMatch` prefixes and address lists, with wildcard matching.  `Words`, `Bits`, `Strings` and
`Optional` hold what they share.

Hypotheses, each an explicit precondition of the results that need it: that p is prime
(`NoZeroDivisors`), Fermat's theorem (`Fermat`), that d is not a square (`DIsNonSquare`), and that
the affine addition law associates (`Associative`), together `CurveFacts`; that the base point has
the stated order and the base-point table holds the multiples it should (`TableOk`), with the former
`Assumptions`; that a block cipher decrypts what it encrypts (`IsCipher`); that the tag function
returns 16 bytes (`IsMac`).  The results of `PointGroup`, `Ge25519` and `BaseMult` hold in any model
of the group law (`IsModel`), and `CurveGroup.CurveIsModel` gives the one that `Ed25519` uses.

## Model

| member | source | states |
|---|---|---|
| `Field.ReduceAddSub` | Labo05_ssh/openssh-8.8p1/fe25519.c:43-61 | four carry passes keep the residue modulo 2^255 - 19 and always end below 2^255 with limbs in bounds |
| `Field.ReduceMul` | Labo05_ssh/openssh-8.8p1/fe25519.c:63-81 | two carry passes keep the residue and re-establish the limb bound, but promise no value below 2^255 |
| `Field.FeAdd` | Labo05_ssh/openssh-8.8p1/fe25519.c:178-183 | the result is congruent to the sum and below 2^255, with no 32-bit overflow on the way |
| `Field.FeSub` | Labo05_ssh/openssh-8.8p1/fe25519.c:185-194 | the bias of twice p keeps every limb from going negative; the result is congruent to the difference and below 2^255 |
| `Field.FeNeg` | Labo05_ssh/openssh-8.8p1/fe25519.c:169-176 | the result is congruent to the negative and below 2^255 |
| `Field.FeMul` | Labo05_ssh/openssh-8.8p1/fe25519.c:196-211 | the folded product is congruent to the product of the represented integers, satisfies the limb bound again, and exceeds 2^255 by less than 155648 |
| `Field.OutsideWindow` | Labo05_ssh/openssh-8.8p1/fe25519.c:63-81 | a product whose residue is outside [19, 19 + 155648) comes out below 2^255 |
| `MulBound.MulLandsHigh` | Labo05_ssh/openssh-8.8p1/fe25519.c:63-81 | with large top limbs and a residue from 19 to 37 the product comes out at 2^255 or above, as residue plus p |
| `MulBound.MulReaches2To255` | Labo05_ssh/openssh-8.8p1/fe25519.c:63-81 | two concrete bounded operands whose product is 2^255: multiplication does not land below it |
| `Field.Freeze` | Labo05_ssh/openssh-8.8p1/fe25519.c:84-98 | below 2^255 the result is the representative in [0, p); at or above 2^255 nothing is subtracted |
| `Field.FreezeCanonicalIff` | Labo05_ssh/openssh-8.8p1/fe25519.c:84-98 | freezing is canonical exactly for values below 2^255 |
| `Field.IsEqIff` | Labo05_ssh/openssh-8.8p1/fe25519.c:129-139 | equality of frozen limbs is congruence, except between a value below 2^255 and one not below it |
| `Field.IsZeroIff` | Labo05_ssh/openssh-8.8p1/fe25519.c:117-127 | the zero test is exact for every bounded value |
| `Field.ParityIff` | Labo05_ssh/openssh-8.8p1/fe25519.c:149-154 | the parity bit is that of the residue exactly for values below 2^255 |
| `Field.Pack` | Labo05_ssh/openssh-8.8p1/fe25519.c:107-115 | the 32 bytes hold the frozen value |
| `Field.PackIff` | Labo05_ssh/openssh-8.8p1/fe25519.c:107-115 | below 2^255 two values pack to the same bytes exactly when they are congruent |
| `Field.Unpack` | Labo05_ssh/openssh-8.8p1/fe25519.c:100-105 | the value of the bytes with bit 255 cleared |
| `Field.UnpackPackIff` | Labo05_ssh/openssh-8.8p1/fe25519.c:100-115 | unpacking a packed value gives back its residue exactly when the value is below 2^255 |
| `Fe25519.ReduceAddSubInPlace` | Labo05_ssh/openssh-8.8p1/fe25519.c:43-61 | the in-place loops compute the four passes |
| `Fe25519.ReduceMulInPlace` | Labo05_ssh/openssh-8.8p1/fe25519.c:63-81 | the in-place loops compute the two passes |
| `Fe25519.Add` | Labo05_ssh/openssh-8.8p1/fe25519.c:178-183 | whichever operands alias the result, the array becomes the field sum of the old operands |
| `Fe25519.Sub` | Labo05_ssh/openssh-8.8p1/fe25519.c:185-194 | likewise for the difference, through the biased temporary |
| `Fe25519.Neg` | Labo05_ssh/openssh-8.8p1/fe25519.c:169-176 | likewise for the negative |
| `Fe25519.Mul` | Labo05_ssh/openssh-8.8p1/fe25519.c:196-211 | the double product loop, the fold and the reduction compute the field product of the old operands |
| `Fe25519.FreezeInPlace` | Labo05_ssh/openssh-8.8p1/fe25519.c:84-98 | the masked subtraction freezes the limbs without a branch |
| `Fe25519.PackInto` | Labo05_ssh/openssh-8.8p1/fe25519.c:107-115 | the output bytes are the packed value; the operand is untouched |
| `Fe25519.IsEqVartime` | Labo05_ssh/openssh-8.8p1/fe25519.c:129-139 | the early-exit comparison decides equality of the frozen limbs |
| `Fe25519.IsZeroVal` | Labo05_ssh/openssh-8.8p1/fe25519.c:117-127 | the accumulated comparison decides zero |
| `Fe25519.CMov` | Labo05_ssh/openssh-8.8p1/fe25519.c:141-147 | the masked exclusive-or selects one operand whole |
| `FeChains.Invert` | Labo05_ssh/openssh-8.8p1/fe25519.c:218-283 | the addition chain raises to the power p - 2 modulo p, in place or not |
| `FeChains.Pow2523` | Labo05_ssh/openssh-8.8p1/fe25519.c:285-337 | the addition chain raises to the power (p - 5) / 8 modulo p |
| `Edwards.SumOnCurve` | Labo05_ssh/openssh-8.8p1/ge25519.c:106-125 | the completed sum of two curve points is an extended point of the curve, with X Y = Z T |
| `Edwards.SumIsSum` | Labo05_ssh/openssh-8.8p1/ge25519.c:106-125 | that point satisfies the affine addition law, cross-multiplied |
| `Edwards.DoubleOnCurve` | Labo05_ssh/openssh-8.8p1/ge25519.c:127-143 | the dedicated doubling stays on the curve |
| `Edwards.DoubleIsSum` | Labo05_ssh/openssh-8.8p1/ge25519.c:127-143 | the dedicated doubling is the addition law applied to a point and itself |
| `Edwards.Complete` | Labo05_ssh/openssh-8.8p1/ge25519.c:106-125 | neither denominator of the addition law vanishes for curve points, given that p is prime and d is not a square |
| `Edwards.ConstantsOfTheCurve` | Labo05_ssh/openssh-8.8p1/ge25519.c:22-30 | the constants d and sqrt(-1) satisfy their defining equations modulo p |
| `PointSpec.AddPointsNear` | Labo05_ssh/openssh-8.8p1/ge25519.c:106-125 | the limb formula of the addition is congruent to the algebraic one, with the constant 2d |
| `PointSpec.DoublePointNear` | Labo05_ssh/openssh-8.8p1/ge25519.c:127-143 | the limb formula of the doubling is congruent to the algebraic one |
| `CurveGroup.QuotientOnCurve` | Labo05_ssh/openssh-8.8p1/ge25519.c:243-251 | projective coordinates that satisfy the curve equation are Z times an affine point of the curve, their quotient by Z |
| `CurveGroup.PlusIsLaw` | Labo05_ssh/openssh-8.8p1/ge25519.c:106-125 | the affine addition law, with its divisions, stays on the curve |
| `CurveGroup.CurveIsModel` | Labo05_ssh/openssh-8.8p1/ge25519.c:106-143 | the affine points with the addition law are a model of the group the point code computes in: neutral point, commutativity, inverses, and addition of coordinates as addition of points are proved, associativity is assumed |
| `PointGroup.AddRepresents` | Labo05_ssh/openssh-8.8p1/ge25519.c:106-125 | adding points that name g and h gives a point that names g + h |
| `PointGroup.DoubleRepresents` | Labo05_ssh/openssh-8.8p1/ge25519.c:127-143 | doubling a point that names g, read without T, gives a point that names g + g |
| `Ge25519.CompletedPoint.AddP1P1` | Labo05_ssh/openssh-8.8p1/ge25519.c:106-125 | the field assignments, in the code's order, compute the addition formula |
| `Ge25519.CompletedPoint.DblP1P1` | Labo05_ssh/openssh-8.8p1/ge25519.c:127-143 | the field assignments compute the doubling formula |
| `Ge25519.Point.FromP1P1ToP2` | Labo05_ssh/openssh-8.8p1/ge25519.c:70-75 | X, Y and Z are converted and T is left stale |
| `Ge25519.Point.FromP1P1ToP3` | Labo05_ssh/openssh-8.8p1/ge25519.c:77-81 | all four coordinates are converted |
| `Ge25519.Precompute` | Labo05_ssh/openssh-8.8p1/ge25519.c:269-286 | entry i + 4 j of the table names i P1 + j P2, for all sixteen |
| `Ge25519.Interleave2` | Labo05_ssh/openssh-8.8p1/sc25519.c:295-308 | digit k pairs the base-4 digits k of both scalars |
| `Ge25519.HornerIsVal` | Labo05_ssh/openssh-8.8p1/sc25519.c:295-308 | for scalars below 2^254 the 127 digits evaluate to the scalar |
| `Ge25519.AllDigits` | Labo05_ssh/openssh-8.8p1/sc25519.c:295-308 | for every scalar they evaluate to it modulo 2^254: the upper two bits are never looked at |
| `Ge25519.Step` | Labo05_ssh/openssh-8.8p1/ge25519.c:290-303 | two doublings and an addition take g to 4 g + h without reading the stale T |
| `Ge25519.DoubleScalarMultVartime` | Labo05_ssh/openssh-8.8p1/ge25519.c:262-304 | the result names (s1 mod 2^254) P1 + (s2 mod 2^254) P2 for all 32-byte scalars and all curve points |
| `BaseMult.Window3` | Labo05_ssh/openssh-8.8p1/sc25519.c:221-256 | the 85 signed octal digits evaluate to the scalar modulo 2^255; all lie in -4 to 3 but the last, which lies in 0 to 8 |
| `BaseMult.SelectEntry` | Labo05_ssh/openssh-8.8p1/ge25519.c:170-178 | the constant-time selection copies the table entry of the digit's magnitude, and the entry of 0 for digits of 4 and more, for which no comparison fires |
| `BaseMult.ChooseT` | Labo05_ssh/openssh-8.8p1/ge25519.c:170-181 | the chosen affine point names the signed digit times 8^pos times the base point, or the neutral point for digits of 4 and more |
| `BaseMult.TopDigitIs` | Labo05_ssh/openssh-8.8p1/sc25519.c:221-256 | the last digit is determined by the scalar alone |
| `BaseMult.MultipleIff` | Labo05_ssh/openssh-8.8p1/ge25519.c:306-321 | for a base point of order L the resulting point is s times it exactly when 7 s < 24 * 2^252 + 4, for s below 2^255; above that the top digit is lost and the point differs |
| `BaseMult.MixAdd2` | Labo05_ssh/openssh-8.8p1/ge25519.c:83-104 | the mixed addition, in place, computes the mixed formula with Z2 = 1 |
| `BaseMult.MixAddRepresents` | Labo05_ssh/openssh-8.8p1/ge25519.c:83-104 | the mixed formula adds the group elements |
| `BaseMult.ScalarMultBase` | Labo05_ssh/openssh-8.8p1/ge25519.c:306-321 | for every 32-byte scalar the result names the multiple of the base point that MultiplierIff speaks about, from any table that holds the multiples |
| `PointCodec.PackPoint` | Labo05_ssh/openssh-8.8p1/ge25519.c:243-251 | the in-place inversion and the two products write the bytes Packed, with limbs of Z^(p-2) below 2^255 + 155648 |
| `PointCodec.PackedIff` | Labo05_ssh/openssh-8.8p1/ge25519.c:243-251 | the bytes hold the encoding of the stored quotients exactly when both came out below 2^255 |
| `PointCodec.PackedNamesIff` | Labo05_ssh/openssh-8.8p1/ge25519.c:243-251 | coordinates that name a curve point pack to its encoding of section 5.1.2 of RFC 8032 exactly when both stored quotients came out below 2^255 |
| `PointCodec.PackedNames` | Labo05_ssh/openssh-8.8p1/ge25519.c:243-251 | that is so for whatever coordinates name the point if its x and y are outside [19, 19 + 155648) |
| `PointCodec.UnpackNegVartime` | Labo05_ssh/openssh-8.8p1/ge25519.c:196-241 | 0 with the point UnpackedNeg gives, or -1 when it gives none, for the limbs of the square-root power that fe25519_pow2523 leaves |
| `PointCodec.UnpackedOnCurve` | Labo05_ssh/openssh-8.8p1/ge25519.c:229-241 | any accepted bytes give a curve point with Z = 1, a consistent T and the encoded y |
| `PointCodec.SignIff` | Labo05_ssh/openssh-8.8p1/ge25519.c:235-237 | for a nonzero root the sign bit of the result is opposite to the encoded one exactly when the root before negation is below 2^255 |
| `PointCodec.RootFitsIff` | Labo05_ssh/openssh-8.8p1/ge25519.c:210-233 | a y of the curve is accepted exactly when the square of its root times den is stored below 2^255, and then the root that was found is the true one |
| `PointCodec.DecodedParts` | Labo05_ssh/openssh-8.8p1/ge25519.c:201-202 | the bytes of an encoding give back y modulo p and the parity of x |
| `PointCodec.UnpackedIff` | Labo05_ssh/openssh-8.8p1/ge25519.c:196-241 | the encoding of a curve point is rejected exactly when that stored product is 2^255 or more; accepted, it gives the negative point exactly when the root is stored below 2^255, and the point itself exactly when it is not or x is 0 |
| `PointCodec.UnpacksToNegative` | Labo05_ssh/openssh-8.8p1/ge25519.c:196-241 | it gives the negative point, whatever limbs the power comes out with, if x, -x and y^2 - 1 are outside the window |
| `CodecLimits.PackingCanFail` | Labo05_ssh/openssh-8.8p1/ge25519.c:243-251 | coordinates of the curve point with y = 19 that do not pack to its encoding, whatever limbs the inversion leaves |
| `CodecLimits.UnpackingCanFail` | Labo05_ssh/openssh-8.8p1/ge25519.c:196-241 | the encoding of the curve point with x = 24 is accepted but unpacks to the point itself instead of its negative |
| `AffineCurve.TwoRoots` | Labo05_ssh/openssh-8.8p1/ge25519.c:229-237 | for given y there are two solutions, each the negative of the other |
| `AffineCurve.OtherRootIsNegative` | Labo05_ssh/openssh-8.8p1/ge25519.c:235-237 | with y fixed, the solution of the other parity is the negative one |
| `SquareRoot.EtaSquare` | Labo05_ssh/openssh-8.8p1/ge25519.c:210-225 | on a point of the curve the factor by which the candidate misses the root squares to 1 or -1 |
| `Sc25519.QuotientClose` | Labo05_ssh/openssh-8.8p1/sc25519.c:51-100 | the quotient estimate from truncated products is never too large and leaves a remainder in [0, 3 m), so the remainder is never negative |
| `Sc25519.PartialProduct` | Labo05_ssh/openssh-8.8p1/sc25519.c:66-68 | the retained partial products equal mu * q1 less the dropped ones, whose sum is bounded, with no 32-bit overflow |
| `Sc25519.LowProduct` | Labo05_ssh/openssh-8.8p1/sc25519.c:75-77 | the low coefficients equal q3 * m modulo 256^33, with no 32-bit overflow |
| `Sc25519.BarrettReduce` | Labo05_ssh/openssh-8.8p1/sc25519.c:51-100 | for every 64 bytes the result is the remainder modulo the group order |
| `Sc25519.ReduceAddSub` | Labo05_ssh/openssh-8.8p1/sc25519.c:30-48 | subtracts the group order exactly when the value reaches it, by mask instead of branch |
| `Sc25519.From32Bytes` | Labo05_ssh/openssh-8.8p1/sc25519.c:102-109 | reduces 32 bytes modulo the group order |
| `Sc25519.From64Bytes` | Labo05_ssh/openssh-8.8p1/sc25519.c:117-123 | reduces 64 bytes modulo the group order |
| `Sc25519.Add` | Labo05_ssh/openssh-8.8p1/sc25519.c:167-178 | the sum of two reduced scalars modulo the group order, aliased or not |
| `Sc25519.Mul` | Labo05_ssh/openssh-8.8p1/sc25519.c:193-212 | the product of two reduced scalars modulo the group order, aliased or not |
| `Ed25519.Clamp` | Labo05_ssh/openssh-8.8p1/ed25519.c:37-39 | the clamped secret is a multiple of 8 in [2^254, 2^255) |
| `Ed25519.BaseNamesGenerator` | Labo05_ssh/openssh-8.8p1/ge25519.c:56-63 | the limbs of the base point name the affine point of section 5.1 of RFC 8032 |
| `Ed25519.KeyPair` | Labo05_ssh/openssh-8.8p1/ed25519.c:26-49 | the secret key is the seed followed by the public key; the public key encodes the clamped secret times the base point whenever that point is packable |
| `Ed25519.GetHram` | Labo05_ssh/openssh-8.8p1/ed25519.c:14-23 | the hash input R, public key, message is built even when the scratch buffer is the signed message itself |
| `Ed25519.Sign` | Labo05_ssh/openssh-8.8p1/ed25519.c:51-101 | the buffer ends up holding R, S and the message, after serving twice as hash input; it is the signature of section 5.1.6 of RFC 8032 whenever the nonce point is packable |
| `Ed25519.CryptoVerify32` | Labo05_ssh/openssh-8.8p1/verify.c:12-49 | 0 exactly when all 32 bytes agree, else -1 |
| `Ed25519.SignOpen` | Labo05_ssh/openssh-8.8p1/ed25519.c:103-144 | accepted key bytes name a curve point, the negative of the encoded one if that is unpackable; acceptance is agreement of R with the recomputed point's encoding if that is packable; the message and its length come out, and otherwise the buffer is cleared and no length reported |
| `Ed25519.OutcomeIsOpening` | Labo05_ssh/openssh-8.8p1/ed25519.c:103-144 | for the key of an unpackable point and a packable recomputed point the code's verdict is that of section 5.1.7 of RFC 8032 |
| `Ed25519.EquationHolds` | Labo05_ssh/openssh-8.8p1/ed25519.c:90-95 | h(-A) + (h a + k mod L) B is k B, for every h, a and k |
| `Ed25519.RecomputedIsNonce` | Labo05_ssh/openssh-8.8p1/ed25519.c:51-144 | for every seed and message, the point recomputed from a signed message is the nonce point, whatever 32 bytes stand for R and for the public key that was hashed |
| `Ed25519.SignThenOpen` | Labo05_ssh/openssh-8.8p1/ed25519.c:51-144 | section 5.1.7 of RFC 8032 accepts every signature of section 5.1.6 under its key and gives exactly the message back |
| `Ed25519.SignAndOpen` | Labo05_ssh/openssh-8.8p1/ed25519.c:26-144 | key generation, signing and opening one after the other, on buffers: opening returns 0, the length and exactly the message, for every seed and message whose public point is packable and unpackable and whose nonce point is packable |
| `Ed25519.OpeningReducesS` | Labo05_ssh/openssh-8.8p1/ed25519.c:124 | opening depends on S only modulo the group order; S is not required to be reduced, unlike section 5.1.7 of RFC 8032 |
| `ChannelCode.Channel.HandleRfd` | Labo05_ssh/openssh-8.8p1/channels.c:1934-1980 | a read appends to the input buffer, an end or error shuts the reading half |
| `ChannelCode.Channel.HandleWfd` | Labo05_ssh/openssh-8.8p1/channels.c:1982-2070 | a short write drops its prefix from the output buffer and credits it; a failed one discards the buffer |
| `ChannelCode.Channel.HandleEfdWrite` | Labo05_ssh/openssh-8.8p1/channels.c:2072-2097 | a write of extended data drops its prefix and credits it |
| `ChannelCode.Channel.HandleEfdRead` | Labo05_ssh/openssh-8.8p1/channels.c:2099-2125 | a read of extended data is kept only if the descriptor is used for reading |
| `ChannelCode.Channel.HandleCheckWindow` | Labo05_ssh/openssh-8.8p1/channels.c:2145-2171 | the window is reopened by the consumed bytes exactly under the code's thresholds |
| `ChannelCode.Channel.OutputPollInputOpen` | Labo05_ssh/openssh-8.8p1/channels.c:2508-2575 | one data packet bounded by window and packet size, or EOF once the input has drained |
| `ChannelCode.Channel.OutputPollExtendedRead` | Labo05_ssh/openssh-8.8p1/channels.c:2580-2609 | one extended packet bounded by window and packet size |
| `ChannelCode.Channel.HandleOutputPoll` | Labo05_ssh/openssh-8.8p1/channels.c:2612-2646 | data first, then extended data unless EOF was sent, and nothing once a CLOSE has passed |
| `ChannelCode.Channel.HandleInputData` | Labo05_ssh/openssh-8.8p1/channels.c:2954-3011 | data is appended within the window, credited when the output is shut, and dropped when too large |
| `ChannelCode.Channel.HandleInputExtendedData` | Labo05_ssh/openssh-8.8p1/channels.c:3013-3064 | extended data after EOF disconnects; within the window it is appended, else dropped |
| `ChannelCode.Channel.HandleDrain` | Labo05_ssh/openssh-8.8p1/channels.c:1113-1148 | a draining output closes exactly when its buffer and, if used for writing, its extended buffer are empty |
| `ChannelCode.Channel.HandleInputEof` | Labo05_ssh/openssh-8.8p1/nchan.c:250-261 | EOF makes the output drain |
| `ChannelCode.Channel.HandleInputClose` | Labo05_ssh/openssh-8.8p1/nchan.c:263-301 | CLOSE makes the output drain and shuts the input, sending EOF if it was still pending |
| `ChannelCode.Channel.HandleInputWindowAdjust` | Labo05_ssh/openssh-8.8p1/channels.c:3198-3226 | the amount is added unless it wraps 32 bits, which is fatal |
| `ChannelCode.Channel.GarbageCollect` | Labo05_ssh/openssh-8.8p1/channels.c:2366-2386 | CLOSE is sent once when both halves are closed |
| `FlowControl.RunKeepsInv` | Labo05_ssh/openssh-8.8p1/channels.c:2508-3226 | every state of every two-endpoint run keeps windows, streams and closing in order, in both directions |
| `FlowControl.WindowConservation` | Labo05_ssh/openssh-8.8p1/channels.c:2145-2171 | sender window, bytes in flight, adjusts in flight and dropped bytes add up to the receiver's window in every reachable state, and that window with consumed, buffered and discarded bytes adds up to the initial one |
| `FlowControl.NothingIsRefused` | Labo05_ssh/openssh-8.8p1/channels.c:2986-3002 | no reachable packet is dropped as data, disconnects, or overflows a window |
| `FlowControl.StreamIntegrity` | Labo05_ssh/openssh-8.8p1/channels.c:1948-1978 | while the output is open the bytes read are, in order, those written, buffered, in flight and still to send; what was written is always a prefix of what was read |
| `FlowControl.CloseLosesNothing` | Labo05_ssh/openssh-8.8p1/nchan.c:146-165 | an output that closes without a failed write has written every byte its peer read |
| `FlowControl.MirroredIsRun` | Labo05_ssh/openssh-8.8p1/channels.c:2508-3226 | a run with its endpoints exchanged is a run, so that every result about one direction holds for the other |
| `Endpoint.Act` | Labo05_ssh/openssh-8.8p1/channels.c:1113-2171 | each event of a run is what the handler that serves it does to the channel's fields and sends |
| `Endpoint.Accept` | Labo05_ssh/openssh-8.8p1/channels.c:2954-3226 | each packet of a run is taken as the handler of its type takes it, which refuses exactly where the run does |
| `Endpoint.Connection.ActA` | Labo05_ssh/openssh-8.8p1/channels.c:1113-2386 | an event at one of two channels joined by links extends a run by the step of that event |
| `Endpoint.Connection.DeliverToA` | Labo05_ssh/openssh-8.8p1/channels.c:2954-3226 | the next packet on a link, whatever it is, is accepted and extends the run |
| `WindowStall.SenderWindowLeft` | Labo05_ssh/openssh-8.8p1/channels.c:2145-2171 | with nothing under way the sender may send the receiver's initial window less what the receiver has consumed, buffers, dropped on arrival and threw away |
| `WindowStall.StuckIff` | Labo05_ssh/openssh-8.8p1/channels.c:2145-2171 | in every reachable state the sender can never send again, in any continuation, exactly when its window is zero, no adjust is on its way and the receiver, once the payload under way has arrived, cannot give window back: it is closing, or its window is not low, or it has nothing consumed and nothing it can still write |
| `WindowStall.StuckByLoss` | Labo05_ssh/openssh-8.8p1/channels.c:3043-3056 | in amounts: an open receiver leaves the sender at zero for good exactly when all of its window is dropped or bound to be dropped, thrown away or stranded where it is no longer written, or when what is dropped keeps channel_check_window from finding the window low |
| `WindowStall.LostIff` | Labo05_ssh/openssh-8.8p1/channels.c:3043-3048 | nothing is dropped exactly in the runs in which every extended packet with bytes meets an open descriptor used for writing; nothing is thrown away exactly in those in which no write fails on a full buffer |
| `WindowStall.StuckWithoutLoss` | Labo05_ssh/openssh-8.8p1/channels.c:2145-2171 | a run that loses and strands nothing sticks exactly when the initial window is 0 or 1 and at most three packets |
| `WindowStall.DroppedBytesStick` | Labo05_ssh/openssh-8.8p1/channels.c:3043-3048 | a run of four states in which the receiver drops two bytes of standard error and the sender is stuck, although no write failed and the receiver's own window is full |
| `MuxCode.Mux.New` | Labo05_ssh/openssh-8.8p1/channels.c:370-424 | the first free slot is taken, ten more are added when none is free, and beyond the limit nothing changes |
| `MuxCode.Mux.ByRemoteId` | Labo05_ssh/openssh-8.8p1/channels.c:257-269 | finds the first channel bound to the server's id |
| `MuxCode.Mux.Free` | Labo05_ssh/openssh-8.8p1/channels.c:606-668 | empties exactly the channel's slot |
| `MuxCode.Mux.Downstream` | Labo05_ssh/openssh-8.8p1/channels.c:2688-2834 | a client's OPEN or OPEN_CONFIRMATION goes on under the new slot's number; a CLOSE marks or frees the channel it names |
| `MuxCode.Mux.Upstream` | Labo05_ssh/openssh-8.8p1/channels.c:2842-2918 | a server message goes where Routed says: for a proxy to its client under that client's id, with CLOSE marking or freeing the proxy; others are left alone |
| `MuxCode.TrafficIsRun` | Labo05_ssh/openssh-8.8p1/channels.c:2688-2918 | any sequence of calls of the two handlers is a run of the state machine below |
| `MuxCode.RoutedToItsOpener` | Labo05_ssh/openssh-8.8p1/channels.c:2842-2891 | in all traffic, what Upstream returns for an upstream id goes to the client whose message was the last to be sent on under that id, and carries that client's own id |
| `MuxSpec.StepIsPerSession` | Labo05_ssh/openssh-8.8p1/channels.c:2800-2810 | with unique server ids the search of the table changes the one session the message is about, and no other |
| `MuxSpec.LiveProxyHasOpener` | Labo05_ssh/openssh-8.8p1/channels.c:2688-2834 | every live proxy was opened by an earlier message and no later one took its number |
| `MuxSpec.FreedBySecondClose` | Labo05_ssh/openssh-8.8p1/channels.c:2800-2913 | a session ends exactly at the second CLOSE, whichever side sends it |
| `MuxSpec.IdsReusedOnlyAfterBothCloses` | Labo05_ssh/openssh-8.8p1/channels.c:378-399 | an upstream id is given out again only after both CLOSEs of its previous session have passed |
| `AuthLists.StartsWithRefines` | Labo05_ssh/openssh-8.8p1/auth2.c:609-634 | the string comparison is the comparison with the head of the parsed list, in all four outcomes |
| `AuthLists.RemoveRefines` | Labo05_ssh/openssh-8.8p1/auth2.c:641-659 | the string is cut exactly when the head is satisfied, and what is left parses to the tail |
| `AuthCode.CheckMethodsList` | Labo05_ssh/openssh-8.8p1/auth2.c:521-561 | a list is valid exactly when it is not empty and every entry names an enabled method |
| `AuthCode.Authctxt.SetupMethodsLists` | Labo05_ssh/openssh-8.8p1/auth2.c:570-607 | "any" alone lifts the restriction; otherwise the lists with only enabled methods are kept, in order |
| `AuthCode.Authctxt.IsAllowed` | Labo05_ssh/openssh-8.8p1/auth2.c:450-468 | a method is allowed exactly when some remaining list starts with it, or no list is configured |
| `AuthCode.Authctxt.MethodsThatCanContinue` | Labo05_ssh/openssh-8.8p1/auth2.c:470-496 | the list offered in a failure packet joins the allowed enabled methods in table order |
| `AuthCode.OfferedAreUsable` | Labo05_ssh/openssh-8.8p1/auth2.c:470-514 | splitting the offered list gives exactly the methods, other than none, that a next request may use |
| `AuthCode.Authctxt.Lookup` | Labo05_ssh/openssh-8.8p1/auth2.c:498-514 | a method is found exactly when it is enabled, still usable and allowed |
| `AuthCode.Authctxt.UpdateMethodsLists` | Labo05_ssh/openssh-8.8p1/auth2.c:667-690 | every list loses its satisfied head up to the first one completed; matching no list is fatal |
| `AuthCode.Authctxt.KeyAlreadyUsed` | Labo05_ssh/openssh-8.8p1/auth2.c:753-771 | decides membership among the recorded keys |
| `AuthCode.Authctxt.UserauthFinish` | Labo05_ssh/openssh-8.8p1/auth2.c:348-443 | fatal, postponed, partial, failed and successful outcomes change the context as the transition says |
| `AuthCode.Authctxt.InputUserauthRequest` | Labo05_ssh/openssh-8.8p1/auth2.c:259-346 | one request changes the context as one step of the state machine |
| `AuthCode.Authctxt.InputInfoResponse` | Labo05_ssh/openssh-8.8p1/auth2-chall.c:289-360 | one reply in an exchange changes the context as one step of the state machine |
| `AuthSpec.RunKeeps` | Labo05_ssh/openssh-8.8p1/auth2.c:259-443 | every state of every run keeps each list a suffix of a configured one whose missing front is satisfied, in order, by accepted events |
| `AuthSpec.SuccessCompletesAList` | Labo05_ssh/openssh-8.8p1/auth2.c:348-443 | a run that succeeds has a valid user and, if lists are configured, satisfied one whole list in order, its last entry by its last event |
| `AuthSpec.FailuresStayBelowLimit` | Labo05_ssh/openssh-8.8p1/auth2.c:424-431 | counted failures stay below the limit whenever a request is awaited |
| `AuthSpec.EveryPublickeyNeedsItsOwnKey` | Labo05_ssh/openssh-8.8p1/auth2.c:724-771 | accepted publickey events at different positions used different keys, and completing a list took as many different keys as it has publickey entries |
| `AuthSpec.IdentityIsFixed` | Labo05_ssh/openssh-8.8p1/auth2.c:281-312 | after the first request user, service and validity never change |
| `Bitmaps.Bitmap.TestBit` | Labo05_ssh/openssh-8.8p1/bitmap.c:71-79 | tests membership |
| `Bitmaps.Bitmap.SetBit` | Labo05_ssh/openssh-8.8p1/bitmap.c:81-113 | adds one member, growing the array if needed, up to bit 2^24 |
| `Bitmaps.Bitmap.ClearBit` | Labo05_ssh/openssh-8.8p1/bitmap.c:125-138 | removes one member |
| `Bitmaps.Bitmap.NBits` | Labo05_ssh/openssh-8.8p1/bitmap.c:140-159 | one more than the highest member, or zero for the empty set |
| `Bitmaps.Bitmap.ToString` | Labo05_ssh/openssh-8.8p1/bitmap.c:161-186 | writes the one string without leading zero bytes that has these bits; refuses exactly when even that does not fit |
| `Bitmaps.Bitmap.FromString` | Labo05_ssh/openssh-8.8p1/bitmap.c:188-214 | the set becomes that of the string's bits, for up to 2^21 bytes; the offset that wraps after the last byte is never used |
| `Bitmaps.CanonicalUnique` | Labo05_ssh/openssh-8.8p1/bitmap.c:167-186 | a set has only one big-endian string without leading zero bytes |
| `Bitmaps.ReadThenWrite` | Labo05_ssh/openssh-8.8p1/bitmap.c:167-214 | reading a string and writing it back gives the string without its leading zero bytes |
| `Bitmaps.ReadableIff` | Labo05_ssh/openssh-8.8p1/bitmap.c:167-214 | a written set can be read back exactly when its highest bit is below 2^24, although bit 2^24 can be set |
| `AtomicIo.Atomicio6` | Labo05_ssh/openssh-8.8p1/atomicio.c:51-94 | what moved is a prefix of the request; callbacks sum to it; a script of short transfers and retries that covers the request completes it |
| `AtomicIo.SkipCompleted` | Labo05_ssh/openssh-8.8p1/atomicio.c:147-152 | drops exactly the vectors the transfer completes |
| `AtomicIo.Advance` | Labo05_ssh/openssh-8.8p1/atomicio.c:145-161 | after a transfer the vectors flatten to what is left; running out is detected exactly when more was claimed than was left |
| `AtomicIo.Atomiciov6` | Labo05_ssh/openssh-8.8p1/atomicio.c:105-173 | for every script the bytes moved are the prefix of the flattened vectors of length pos; a completed call moved everything unless the first vector was empty |
| `ChaChaSpec.AdvancedCounts` | Labo05_ssh/openssh-8.8p1/chacha.c:184-188 | n blocks add n to the 64-bit counter held in two words and touch no other word |
| `ChaChaSpec.CryptByte` | Labo05_ssh/openssh-8.8p1/chacha.c:100-218 | byte i of the output is byte i of the input xored with byte i mod 64 of key-stream block i / 64 |
| `ChaChaSpec.CryptTwice` | Labo05_ssh/openssh-8.8p1/chacha.c:89-219 | the same stream takes the message back out |
| `ChaChaSpec.CryptInTwoCalls` | Labo05_ssh/openssh-8.8p1/chacha.c:89-219 | splitting after any multiple of 64 bytes changes nothing |
| `ChaCha.KeyWords` | Labo05_ssh/openssh-8.8p1/chacha.c:124-165 | ten double rounds in place, then the state added, give the block words |
| `ChaCha.SerializedXor` | Labo05_ssh/openssh-8.8p1/chacha.c:167-206 | xoring words loaded little-endian and storing them xors the bytes |
| `ChaCha.Context.IvSetup` | Labo05_ssh/openssh-8.8p1/chacha.c:80-87 | the four nonce and counter words are set and the key words kept |
| `ChaCha.Context.EncryptBytes` | Labo05_ssh/openssh-8.8p1/chacha.c:89-219 | in place or apart, exactly the given bytes are xored with the stream and the counter advances by the blocks used; scratch bytes never reach the output |
| `ChachaPoly.OpenSealed` | Labo05_ssh/openssh-8.8p1/cipher-chachapoly.c:69-121 | opening a sealed packet under the same keys and sequence number accepts it and gives header and payload back |
| `ChachaPoly.LengthAgrees` | Labo05_ssh/openssh-8.8p1/cipher-chachapoly.c:124-137 | the length read ahead is the one that opening the packet reveals |
| `ChachaPoly.Context.CryptPacket` | Labo05_ssh/openssh-8.8p1/cipher-chachapoly.c:69-121 | sealing writes both ciphertexts and their tag; opening decrypts exactly when the tag matches and otherwise writes nothing |
| `ChachaPoly.Context.GetLength` | Labo05_ssh/openssh-8.8p1/cipher-chachapoly.c:124-137 | decrypts the first four bytes, or reports an incomplete message |
| `Cbc.DecryptInvertsEncrypt` | Labo05_ssh/openssh-8.8p1/cipher-aes.c:70-114 | decryption inverts encryption for any number of blocks |
| `Cbc.EncryptInTwoCalls` | Labo05_ssh/openssh-8.8p1/cipher-aes.c:88-98 | encrypting in two calls equals one, because the saved block is the last ciphertext block |
| `Cbc.DecryptInTwoCalls` | Labo05_ssh/openssh-8.8p1/cipher-aes.c:99-111 | decrypting in two calls equals one |
| `Cbc.Context.EncryptBlocks` | Labo05_ssh/openssh-8.8p1/cipher-aes.c:87-99 | front to back, in place or apart, the blocks become the CBC encryption and the last one is saved |
| `Cbc.Context.DecryptBlocks` | Labo05_ssh/openssh-8.8p1/cipher-aes.c:99-112 | back to front, in place or apart, the blocks become the CBC decryption and the last ciphertext block is saved |
| `Cbc.Context.Crypt` | Labo05_ssh/openssh-8.8p1/cipher-aes.c:70-114 | whole blocks are processed in the direction of the context; any other length is refused unchanged |
| `Addr.AddressCell.Netmask` | Labo05_ssh/openssh-8.8p1/addr.c:166-193 | exactly the first l bits are set, for every valid length |
| `Addr.AddressCell.Hostmask` | Labo05_ssh/openssh-8.8p1/addr.c:195-201 | exactly the bits from l on are set |
| `Addr.AddressCell.AndInto` | Labo05_ssh/openssh-8.8p1/addr.c:207-228 | the family's bits are the conjunction |
| `Addr.Compare` | Labo05_ssh/openssh-8.8p1/addr.c:230-261 | the sign is that of a total order by family, number and scope; zero exactly for the same address |
| `Addr.KeysAreAddresses` | Labo05_ssh/openssh-8.8p1/addr.c:230-261 | the order's keys identify addresses |
| `Addr.HostIsAll0s` | Labo05_ssh/openssh-8.8p1/addr.c:287-298 | 0 exactly when the length is valid and no bit from it on is set |
| `Addr.NetMatch` | Labo05_ssh/openssh-8.8p1/addr.c:410-423 | 0 exactly when families and, for IPv6, scopes agree, the first masklen bits agree and the network has no other bits |
| `AddrMatch.PtonCidr` | Labo05_ssh/openssh-8.8p1/addr.c:373-408 | parse error, inconsistent length or a network with zero host bits, decided as the text says |
| `AddrMatch.MatchPattern` | Labo05_ssh/openssh-8.8p1/match.c:56-113 | the recursive search with its skips decides wildcard matching |
| `AddrMatch.StarMatches` | Labo05_ssh/openssh-8.8p1/match.c:63-98 | a star matches exactly what the rest matches from some position on |
| `AddrMatch.AddrMatchList` | Labo05_ssh/openssh-8.8p1/addrmatch.c:48-97 | the result is the scan of the comma-separated entries |
| `AddrMatch.ScanWellFormed` | Labo05_ssh/openssh-8.8p1/addrmatch.c:48-97 | in a well-formed list a negated match gives -1, else a positive one 1, else 0 |
| `AddrMatch.OrderIndependent` | Labo05_ssh/openssh-8.8p1/addrmatch.c:48-97 | well-formed lists with the same entries give the same result, in any order |
| `AddrMatch.InvalidIff` | Labo05_ssh/openssh-8.8p1/addrmatch.c:64-79 | the list is invalid exactly when a malformed entry comes before any negated match |

## Left out

- Sc25519.Interleave and window helpers: `sc25519_window5`, `sc25519_sub_nored`, the comparisons and the short-scalar operations are not called by the modelled code.
- Ed25519.Hash: SHA-512 is a parameter, any function from bytes to 64 bytes; the base-point table (`ge25519_base.data`) is a parameter with the hypothesis `TableOk`.
- Ed25519.Sign: the signature of RFC 8032 is promised when the nonce point is `Packable`, a condition on the point; otherwise the code can write another R, as `CodecLimits` shows, and only the rest of the buffer is promised.
- Ed25519.SignOpen: for a key whose point is not `Unpackable` a curve point with the encoded y is promised, but not its sign; for a recomputed point that is not `Packable` the verdict is not promised.
- PointCodec.PackedNames: the condition on the point is sufficient for every representation of it; the exact condition, in PackedNamesIff and UnpackedIff, is on the stored products, which depend on the representation.
- Ed25519.SignOpen: requires a message shorter than 2^32 bytes, because the copying loops count in an `unsigned int` and do not end for longer ones.
- Ed25519.KeyPair: the random seed is a parameter; the public key of RFC 8032 is promised when its point is `Packable`.
- BaseMult.ScalarMultBase: the table entries are a hypothesis.
- BaseMult.ChooseT: constant time is not a notion of the model; only the selected value is.
- Point, CompletedPoint: limb vectors are immutable values inside point objects, so the aliasing of point structs with each other is not modelled; that of limb arrays is, in `Fe25519`.
- FlowControl: datagram channels, filters, X11, tty input limits, forced drain, `eow@openssh.com` and the compatibility flags for old peers are not modelled; both ends start open with their windows exchanged, so the opening handshake and session channels that start at window zero are not.
- FlowControl.Enabled: lets descriptors be read also when channel_pre_open would not select them, because the window or a buffer is full; the results hold for these runs as well.
- WindowStall.StuckIff: fairness of scheduling is not modelled, so "not stuck" means that some continuation lets the sender send.
- ChannelCode.Channel: buffers are sequences; sshbuf's size limits and allocation failure are left out, and channel_handle_rfd's file-descriptor flags are part of the event that is given.
- MuxCode.Mux.Downstream: a message arrives parsed; malformed messages and the permission check of `tcpip-forward` requests are not modelled.
- MuxSpec: mux clients stay connected; server ids are unique among live channels and clients close only their own channels, as `Enabled` states.
- AuthSpec: a method's verdict, the password database, root and PAM policy are inputs of a request; the login style after ':' in the user name, banners, delays, logging and the forwarding of the session's authentication info are not modelled.
- AuthSpec.EveryPublickeyNeedsItsOwnKey: key equality is equality of key values, for sshkey_equal_public.
- AuthCode.Authctxt.InputInfoResponse: the packet's responses and the device's answer are one verdict; the next device that the code may start is that verdict's postponement.
- Bitmaps.Bitmap: allocation failure is not modelled; the defensive checks for a top word beyond the array cannot fire in valid states and are not repeated.
- AtomicIo.Atomiciov6: poll and the transfer call itself are entries of the script; an ended script leaves the loop waiting.
- ChaCha.Context.EncryptBytes: source and destination are the same place or do not overlap; the 2^70-byte limit per nonce is left to the caller, as in the source.
- ChaChaSpec.Crypt: no secrecy property is stated; the round function is transcribed, with the sixteen words in an array.
- ChachaPoly.Context.CryptPacket: Poly1305 is a parameter and the comparison of tags is not claimed to be constant time.
- Cbc.Context.Crypt: the block cipher and its key schedule are a parameter; source and destination are one array or two.
- Addr.Compare: for families other than IPv4 and IPv6 the result is the source's constant, which is not an order.
- AddrMatch.PtonCidr: getaddrinfo and strtoul are functions of their text; `addr_match_cidr_list` is not modelled.
- MuxCode.Mux.New: fields of a channel that the proxy never reads are left out.
- Key exchange, packet framing, certificates, session handling, the agent and the lab programs around the vendored sources.
