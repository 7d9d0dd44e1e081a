# A verified model of the sovereign audit appliance

The appliance receives 1152-byte frames over a serial line. It refuses frames with a wrong
magic, a stale sequence id, too many nodes or an insufficient signing committee. Any other frame it
copies to an audit page, hashes, judges, scans with a small fixed-point classifier, and answers
with a 40-byte response. This project models the four cores of that program and proves what they do.

* **Field arithmetic and point decompression** (`Limbs`, `FieldOps`, `FieldBytes`, `Decompression`,
  `Unpackneg`, `ShippedConstants`, `ShippedCommittee`). Numbers modulo p = 2^255 - 19 are arrays of 16 signed 64-bit limbs,
  updated in place, with outputs allowed to alias inputs. The element type is a bounded integer type, so
  each method is also a proof that no 64-bit step overflows. `NumberTheory` proves Euclid's lemma and
  Fermat's little theorem. The one hypothesis of the completeness results is that p is prime.
* **Streaming hashes** (`MerkleDamgard`, `Streaming`, `Sha256`, `Sha256Context`, `Sha512`, `Sha512Context`,
  `Sha256Standard`, `Sha512Standard`).
  The specification is that of FIPS 180-4: pad, then fold the compression function over the blocks.
  The contexts with their partial-block buffers are classes proved against it, and the two `Standard` modules compare
  it with the text of the standard: truth tables, rotations, constants as roots of primes, byte order, the digest of "abc".
* **Frame ingestion** (`Frames`, `FrameLayout`, `Quorum`, `Ingest`, `Wire`, `Certificates`, `RootServer`). The server is a class whose
  state is an abstract byte machine. The laws of whole runs are proved about that machine.
* **Inference** (`Inference`). Two dense layers in 32-bit arithmetic, and the closed form of the shipped tables.

Signed right shifts are divisions rounding down and signed left shifts are multiplications. Bitwise
operators on signed limbs are defined bit by bit from the lowest bit. An `or` of fields that share
no bits is written as a sum, and so are the response flags.

Where the code and its documentation or the standards disagree, the model follows the code:

* The limbs given for a square root of -1 do not square to -1. `Decompression.OnCurveExactly` says exactly when that
  takes a key off the curve, and `ShippedCommittee.SecondKeyOffTheCurve` that it does so for a committee key.
  The curve constant D and the SHA-512 round constants are not those of the standards either. All three are
  parameters of the modelled routines.
* The routine is named for a negated point but returns the x whose low bit is the sign bit of the input.
  It accepts more encodings than section 5.1.3 of RFC 8032 does: a y that is not below p
  (`ShippedConstants.PrimeEncodedAsZero`), and x = 0 with the sign bit set (`ShippedConstants.SignBitUnmatched`).
  `Decompression.StandardExactly` says that there are no others.
* The 128-bit counter of SHA-512 is exact only for calls below 2^61 bytes (`Sha512Context.CounterExactIff`);
  `Sha512Context.Context.Final` gives the digest after any calls.
* The signature check decides by two tests and discards its hash (`Quorum.Ed25519Verify`), although a comment in the
  quorum loop says that it covers the first 320 bytes. So all else in a frame may change under the same witnesses
  (`Certificates.StatusReads`), and witnesses accepted once pass under every later id (`Certificates.WitnessesPassAgain`).
* Bits 4 to 7 of the signer bitmap count towards the quorum but no witness is checked for them
  (`Quorum.AllCountedAreChecked`). A frame that names no member passes (`Certificates.SuccessWithoutMember`);
  `Quorum.SignersOfAccepted` says when an accepted frame stands on a quorum of members.

## Model

| member | source | states |
|---|---|---|
| Limbs.PrimeShape | libraries-3/sovereign_crypto.c:253-258 | the p that is subtracted limb by limb is 2^255 - 19 |
| Limbs.CarriedValue | libraries-3/sovereign_crypto.c:203-210 | one carry sweep subtracts from the value 2p times its quotient by 2^256, and what it folds into limb 0 is 38 times that quotient |
| Limbs.CarriedTwice | libraries-3/sovereign_crypto.c:231-232 | two sweeps from limbs up to 2^62 keep the residue, put limbs 1 to 15 in 16 bits and limb 0 in [-38, 65573] |
| Limbs.CarriedThrice | libraries-3/sovereign_crypto.c:249-251 | three sweeps from limbs up to 2^62 reach proper 16-bit digits and keep the residue |
| FieldOps.Car25519 | libraries-3/sovereign_crypto.c:203-210 | the loop with its lazy signed carries computes the sweep of the lemmas above, without overflow |
| FieldOps.Add | libraries-3/sovereign_crypto.c:212-214 | limbwise sum, whose value is the sum of the old values, under any aliasing and for all limbs whose sums fit |
| FieldOps.Sub | libraries-3/sovereign_crypto.c:216-218 | limbwise difference, whose value is the difference of the old values, under any aliasing and for all limbs whose differences fit |
| FieldOps.Convolve | libraries-3/sovereign_crypto.c:221-226 | the 256 partial products add up to the product of the values, every column staying within 2^56 |
| FieldOps.FoldValue | libraries-3/sovereign_crypto.c:227-229 | folding the upper columns with factor 38 keeps the residue modulo p |
| FieldOps.Mul | libraries-3/sovereign_crypto.c:220-233 | for limbs up to 2^26 and any aliasing the result is congruent to the product and is again a valid operand |
| FieldOps.LadderEnd | libraries-3/sovereign_crypto.c:275-278 | the exponent after the 251 turns, one without multiplication, is (p - 5) / 8 |
| FieldOps.Pow2523 | libraries-3/sovereign_crypto.c:272-280 | the result is congruent to the input to the power (p - 5) / 8, limb bounds kept at every turn |
| FieldBytes.Unpack | libraries-3/sovereign_crypto.c:239-244 | the limbs hold the little-endian value of the 32 bytes with the top bit set aside |
| FieldBytes.BorrowOut | libraries-3/sovereign_crypto.c:253-260 | the borrow out of t - p tells whether t is below p, and otherwise the digits are those of t - p |
| FieldBytes.BorrowChain | libraries-3/sovereign_crypto.c:253-261 | the mask is 0 exactly when t is below p; with mask -1 the other array holds t - p |
| FieldBytes.MaskedSwap | libraries-3/sovereign_crypto.c:262-264 | the xor-and-xor expression keeps t under mask 0 and takes m under mask -1 |
| FieldBytes.Pack | libraries-3/sovereign_crypto.c:246-270 | for limbs up to 2^62 the 32 bytes are the least non-negative residue modulo p |
| FieldBytes.PackCanonical | libraries-3/sovereign_crypto.c:246-270 | two elements pack to the same bytes if and only if they are congruent |
| FieldBytes.UnpackOfPack | libraries-3/sovereign_crypto.c:239-270 | unpacking packed bytes gives a congruent element, in canonical form |
| FieldBytes.PackOfUnpack | libraries-3/sovereign_crypto.c:239-270 | packing unpacked bytes clears the top bit, or subtracts p for the 19 encodings not below p |
| FieldBytes.IsNonzero | libraries-3/sovereign_crypto.c:282-288 | true exactly when the element is not congruent to 0 |
| Decompression.CurveEquation | libraries-3/sovereign_crypto.c:293-296 | the equation the fraction stands for is -x^2 + y^2 = 1 + D x^2 y^2 modulo p, that of section 5.1 of RFC 8032 |
| Decompression.CheckIsPower | libraries-3/sovereign_crypto.c:298-311 | the checked value equals num times u to the power (p - 1) / 4 with u = num den^7, as integers |
| Decompression.Complete | libraries-3/sovereign_crypto.c:290-320 | if p is prime and y has any square root num / den, decompression accepts y |
| Decompression.Sound | libraries-3/sovereign_crypto.c:290-328 | an accepted y gives a point of the curve, on the direct path for every I and on the other for every square root I of -1 |
| Decompression.SoundIff | libraries-3/sovereign_crypto.c:313-320 | if p is prime an accepted y gives a point of the curve exactly when the path was direct or I is a square root of -1 |
| Decompression.AcceptsExactlyTheCurve | libraries-3/sovereign_crypto.c:290-320 | if p is prime, y is accepted exactly when a point with that y exists, whatever I is |
| Decompression.ZeroExactlyAt | libraries-3/sovereign_crypto.c:298-320 | if p is prime, the x of an accepted y is 0 exactly when y squared is 1, or I is 0 and was used |
| Decompression.SignRecovered | libraries-3/sovereign_crypto.c:322-328 | if p is prime, the low bit of the canonical x of an accepted y is the requested sign, except exactly for sign 1 where y squared is 1 or where I is 0 and was used |
| Decompression.UniqueUpToSign | libraries-3/sovereign_crypto.c:290-328 | two points of the curve with one y have x equal up to sign, unless D is -1 and y squared is 1 |
| Decompression.InvertsCompression | libraries-3/sovereign_crypto.c:290-329 | if p is prime, decompressing y and the low bit of a canonical x of the curve recovers that x exactly when the path was direct or I is a square root of -1, unless D is -1 and y squared is 1 |
| Decompression.DenominatorVanishes | libraries-3/sovereign_crypto.c:293-296 | at a point of the curve the denominator is 0 exactly when D is -1 and y squared is 1 |
| Decompression.SameForCongruent | libraries-3/sovereign_crypto.c:290-329 | congruent y take the same path and deliver the same x |
| Decompression.StandardExactly | libraries-3/sovereign_crypto.c:290-329 | if p is prime and D is not -1, the encodings section 5.1.3 of RFC 8032 accepts are those accepted here with y below p and without sign 1 at y squared equal to 1 |
| Decompression.PathsAreQuartic | libraries-3/sovereign_crypto.c:310-320 | if p is prime, the direct path is taken exactly when num / den is a fourth power, the path that multiplies by I exactly when it is the opposite of one |
| Decompression.OnCurveExactly | libraries-3/sovereign_crypto.c:290-329 | if p is prime, an accepted y gives a point of the curve exactly when num / den is a fourth power or I is a square root of -1 |
| Unpackneg.Fraction | libraries-3/sovereign_crypto.c:293-296 | num and den hold y^2 - 1 and D y^2 + 1 |
| Unpackneg.CandidateRoot | libraries-3/sovereign_crypto.c:298-308 | the chain of products and the fixed power compute the candidate root of section 5.1.3 of RFC 8032 |
| Unpackneg.CheckRoot | libraries-3/sovereign_crypto.c:310-320 | returns 0 exactly when the check is num or -num, multiplying by I just in the second case |
| Unpackneg.SignBit | libraries-3/sovereign_crypto.c:324 | the 32 bytes are the number y + 2^255 sign, with y below 2^255 |
| Unpackneg.ApplySign | libraries-3/sovereign_crypto.c:322-327 | negates exactly when the low bit of the packed x differs from the top bit of the input |
| Unpackneg.UnpackNeg | libraries-3/sovereign_crypto.c:290-329 | for every 32 bytes, D and I: the decision and the residue of x are those the lemmas of Decompression are about, with the quotient of the bytes by 2^255 as sign |
| Unpackneg.EncodedPointReturns | libraries-3/sovereign_crypto.c:290-329 | if p is prime, the encoding of a point, y + 2^255 times the low bit of x, decompresses to that x exactly when the path was direct or I is a square root of -1, unless D is -1 and y squared is 1 |
| ShippedConstants.RootConstantIsNoRoot | libraries-3/sovereign_crypto.c:194-197 | the square of the shipped I is not -1 modulo p |
| ShippedConstants.ZeroEncoding | libraries-3/sovereign_crypto.c:313-320 | y = 0 is accepted on the path that multiplies by I, and lands on the curve exactly when I squared is -1 |
| ShippedConstants.ZeroKeyOffTheCurve | libraries-3/sovereign_crypto.c:331-339 | 32 zero bytes given to the signature check are accepted and with the shipped I give a point off the curve, for every D |
| ShippedConstants.CurveConstantIsNotMinusOne | libraries-3/sovereign_crypto.c:189-192 | the shipped D is not -1, so the exception of the uniqueness and inversion results does not arise |
| ShippedConstants.SignBitUnmatched | libraries-3/sovereign_crypto.c:322-328 | if p is prime, the encoding of y = 1 with sign 1 is accepted with an even x, and the standard refuses it unless D is -1 |
| ShippedConstants.PrimeEncodedAsZero | libraries-3/sovereign_crypto.c:239-244 | the encoding of p, which the standard refuses, is accepted and delivers the x of the encoding of 0, a different key |
| ShippedCommittee.CommitteeKeysDecompress | libraries-3/sovereign_identities.h:16-25 | if p is prime, all four committee keys decompress under the shipped D, the second alone on the path that multiplies by I |
| ShippedCommittee.SecondKeyOffTheCurve | libraries-3/sovereign_identities.h:20-21 | if p is prime, the second committee key with the shipped D and I gives a point off the curve |
| ShippedCommittee.ShippedVerdict | libraries-3/main.c:82-113 | if p is prime, under the shipped constants a frame is accepted exactly when the gate is open and each signing member has its key and three clear signature bits in its witness |
| MerkleDamgard.PadInjective | libraries-3/sha256.h:97-112 | messages whose bit length fits the length field have distinct paddings |
| MerkleDamgard.WalkBack | libraries-3/sha256.h:86-90 | equal final states over equally many blocks lead back to two distinct inputs of the compression function with one output |
| MerkleDamgard.Collision | libraries-3/sha256.h:97-112 | two distinct messages with one hash yield such a pair, each input on the chain of its own message |
| Streaming.FillBlock | libraries-3/sha256.h:74-84 | compressing the buffered bytes with the data that completes them continues the chain |
| Streaming.FinalBlocks | libraries-3/sha256.h:97-112 | padding costs one block after the whole ones, or two when the length no longer fits |
| Sha256.ScheduleAt | libraries-3/sha256.h:30-40 | every word of the schedule obeys the recurrence over earlier words, at whatever length the schedule is taken |
| Sha256.BytesInjective | libraries-3/sha256.h:114-119 | the digest bytes determine the state words |
| Sha256Standard.Choice | libraries-3/sha256.h:47 | Ch takes y where x is set and z elsewhere |
| Sha256Standard.Majority | libraries-3/sha256.h:50 | Maj is set where at least two of three are |
| Sha256Standard.Sigmas | libraries-3/sha256.h:35-49 | the four sigma functions by the rotations and shifts of section 4.1.2 of FIPS 180-4 |
| Sha256Standard.WordIsBigEndian | libraries-3/sha256.h:30-35 | a word is the number its four bytes make, most significant first |
| Sha256Standard.WordBytesAreBigEndian | libraries-3/sha256.h:114-119 | so are the four bytes written for a word |
| Sha256Standard.RoundConstants | libraries-3/sha256.h:17-26 | the 64 constants are the first 32 fraction bits of the cube roots of the first 64 primes |
| Sha256Standard.InitialState | libraries-3/sha256.h:61-67 | the initial state is the first 32 fraction bits of the square roots of the first 8 primes |
| Sha256Standard.DigestOfAbc | libraries-3/sha256.h:28-120 | the digest of "abc" is the published one |
| Sha256Context.FillSchedule | libraries-3/sha256.h:30-40 | the two loops fill the array with the schedule |
| Sha256Context.RunRounds | libraries-3/sha256.h:45-55 | the 64 rotating assignments compute the 64 rounds |
| Sha256Context.Context.Transform | libraries-3/sha256.h:28-59 | the block transformation is the compression function of section 6.2.2 of FIPS 180-4 |
| Sha256Context.Context.Update | libraries-3/sha256.h:69-95 | the context then stands for the old message followed by the data, whatever was buffered |
| Sha256Context.CountModBlock | libraries-3/sha256.h:71-72 | the low bits of the counter tell the fill of the buffer even after it wrapped |
| Sha256Context.LengthField | libraries-3/sha256.h:108-111 | eight times the wrapped counter gives the bytes of the bit length of the message |
| Sha256Context.Context.Final | libraries-3/sha256.h:97-120 | the digest is that of the padded whole message |
| Sha256Context.HashChunks | libraries-3/sha256.h:61-120 | any division of a message into updates yields the digest of the message |
| Sha256Context.DigestBinding | libraries-3/sha256.h:97-120 | two distinct messages below 2^61 bytes with one digest expose a collision of the compression function |
| Sha512.ScheduleAt | libraries-3/sovereign_crypto.c:43-56 | every word of the schedule obeys the recurrence over earlier words, at whatever length the schedule is taken |
| Sha512Standard.Choice | libraries-3/sovereign_crypto.c:8 | Ch takes y where x is set and z elsewhere |
| Sha512Standard.Majority | libraries-3/sovereign_crypto.c:9 | Maj is set where at least two of three are |
| Sha512Standard.Sigmas | libraries-3/sovereign_crypto.c:10-13 | the four sigma functions by the rotations and shifts of section 4.1.3 of FIPS 180-4 |
| Sha512Standard.WordIsBigEndian | libraries-3/sovereign_crypto.c:43-52 | a word is the number its eight bytes make, most significant first |
| Sha512Standard.WordBytesAreBigEndian | libraries-3/sovereign_crypto.c:160-164 | so are the eight bytes written for a word |
| Sha512Standard.InitialState | libraries-3/sovereign_crypto.c:90-98 | the initial state is the first 64 fraction bits of the square roots of the first 8 primes |
| Sha512Standard.RoundConstants | libraries-3/sovereign_crypto.c:15-36 | the 80 constants of the standard, given here, are the first 64 fraction bits of the cube roots of the first 80 primes |
| Sha512Standard.SourceTableDiffers | libraries-3/sovereign_crypto.c:15-16 | the first constant of the sources is not: its last 12 bits are zero |
| Sha512Standard.Rounds0 | libraries-3/sovereign_crypto.c:67-79 | the first four rounds of hashing "abc" over the constants of the standard, in numbers |
| Sha512Standard.CompressSteps | libraries-3/sovereign_crypto.c:58-87 | the working variables start as the state and are added to it in place |
| Sha512Context.Context.Transform | libraries-3/sovereign_crypto.c:38-88 | the block transformation is the compression function of section 6.4.2 of FIPS 180-4 over the given round constants |
| Sha512Context.Context.Update | libraries-3/sovereign_crypto.c:103-136 | the context then stands for the old message followed by the data, for every length; a call of 2^61 bytes or more leaves an excess of its top three length bits in the high counter word |
| Sha512Context.CounterExactIff | libraries-3/sovereign_crypto.c:105-111 | the two counter words stay the exact byte count modulo 2^128 if and only if the call brings fewer than 2^61 bytes |
| Sha512Context.LengthField | libraries-3/sovereign_crypto.c:150-156 | the two shifted words are the 16 bytes of the bit length |
| Sha512Context.PaddingExactIff | libraries-3/sovereign_crypto.c:138-156 | the padding is that of FIPS 180-4 exactly when the excess is a multiple of 2^61 |
| Sha512Context.Context.Final | libraries-3/sovereign_crypto.c:138-165 | the digest is that of the whole message padded with the counted length, and the standard one if the excess is a multiple of 2^61 |
| Sha512Context.HashChunks | libraries-3/sovereign_crypto.c:90-165 | any division of a message into updates yields the digest of the message with the counted length, the standard one if every update is below 2^61 bytes |
| Inference.Features | libraries-3/tinyml/tinyml_runtime.c:41 | each input byte counts as its two's complement value from -128 to 127 |
| Inference.HiddenImpulse | libraries-3/tinyml/tinyml_runtime.c:38-44 | an input that is zero but at j makes hidden unit i answer with its own bias and its weight of j, rounded down and cut at 0 |
| Inference.OutputImpulse | libraries-3/tinyml/tinyml_runtime.c:46-52 | a hidden layer that is zero but at j makes output i answer with its own bias and its weight of j, rounded down |
| Inference.ClassAndMargin | libraries-3/tinyml/tinyml_runtime.c:54-62 | class and confidence are sign and size of the margin between the outputs, up to saturation; no margin means class 0 |
| Inference.HiddenUnit | libraries-3/tinyml/tinyml_runtime.c:38-44 | a hidden unit equals its exact value, no 32-bit step overflowing for any table and input |
| Inference.OutputUnit | libraries-3/tinyml/tinyml_runtime.c:46-52 | an output equals its exact value without overflow when its row of weights has absolute sum at most 1004 |
| Inference.RowBoundIsExact | libraries-3/tinyml/tinyml_runtime.c:46-52 | with absolute sum 1005 some tables and input leave the 32-bit range |
| Inference.Infer | libraries-3/tinyml/tinyml_runtime.c:30-65 | class and saturated confidence are those of exact arithmetic, including the final difference |
| Inference.ShippedIsSafe | libraries-3/tinyml/tinyml_runtime.c:13-24 | the shipped tables meet the bound, with row sums 128 and 512 |
| Inference.ShippedOutputs | libraries-3/tinyml/tinyml_runtime.c:38-52 | under the shipped tables both outputs are closed forms in the sum of the inputs |
| Inference.ShippedClass | libraries-3/tinyml/tinyml_runtime.c:54-62 | the class is 1 exactly when the 128 signed bytes sum to 3328 or more |
| Inference.ShippedConfidence | libraries-3/tinyml/tinyml_runtime.c:54-62 | the confidence is a closed form in the sum of the signed bytes, never exceeds 126 and attains it |
| Frames.FourByteNumber | libraries-3/sovereign_contract.h:70-78 | a 32-bit field is the number its four bytes make, least significant first |
| Frames.ResponseBytes | libraries-3/sovereign_contract.h:92-97 | the 40 bytes of a response, one by one |
| Frames.ResponseDecodes | libraries-3/sovereign_contract.h:92-97 | reading the packed response back gives magic, status, flags and hash as they were put in |
| FrameLayout.HeaderRead | libraries-3/sovereign_contract.h:69-90 | in a frame put together field by field the accessors find magic, id, node count, bitmap, quorum count and first docket byte |
| FrameLayout.RecordsRead | libraries-3/sovereign_contract.h:43-89 | and every node, title type, witness key and witness signature in its place |
| FrameLayout.EveryFramePacked | libraries-3/sovereign_contract.h:69-90 | every 1152 bytes are such a frame |
| FrameLayout.HashedBytes | libraries-3/main.c:47-55 | its root hash is the digest of claimant, dockets and the counted nodes as they were put in |
| FrameLayout.EvaluatedRequest | libraries-3/main.c:46-76 | evaluation replaces its three verdict bytes and its hash and keeps every other field |
| FrameLayout.AcceptedRequest | libraries-3/main.c:82-113 | the committee check in terms of the fields put in: count, bitmap, and for each set bit the key of that member and three clear signature bits in the witness of its rank |
| Quorum.Verify32 | libraries-3/sovereign_crypto.c:174-180 | the or of differences is 0 exactly when the 32 bytes are equal |
| Quorum.Ed25519Verify | libraries-3/sovereign_crypto.c:331-354 | the return code depends on the top three bits of the signature and on whether the key decompresses, on nothing else |
| Quorum.PopCountIsRank | libraries-3/main.c:87-90 | the popcount is the number of set bits counted one by one |
| Quorum.WitnessLeft | libraries-3/main.c:92-97 | once the counts agree the guard on the witness index is never taken |
| Quorum.Accepted | libraries-3/main.c:82-113 | the verdict is 0 exactly when the count is 3 or 4, equals the popcount, and each set bit below 4 passes both checks on the witness with index the number of set bits below it |
| Quorum.VerdictCodes | libraries-3/main.c:82-113 | -1 exactly when the counts do not fit; otherwise -2 for a foreign key and -3 for a signature that fails, of the least member that is not backed |
| Quorum.AllCountedAreChecked | libraries-3/main.c:93-110 | as many witnesses are checked as are counted if and only if the bitmap is below 16 |
| Quorum.DistinctSigners | libraries-3/main.c:82-113 | the witnesses that acceptance checked carry pairwise distinct committee keys, for every accepted frame |
| Quorum.CountedSignersDistinct | libraries-3/main.c:82-113 | with a bitmap below 16 these are all the witnesses the quorum counts |
| Quorum.SignersOfAccepted | libraries-3/main.c:82-113 | the members behind an accepted frame are as many as the low four bits of the bitmap name, hence a quorum exactly when these bits reach the threshold |
| Quorum.AcceptedByEveryCommittee | libraries-3/main.c:82-113 | a frame passes under every committee exactly when the gate is open and the low four bits of the bitmap are clear |
| Quorum.NoMemberNamed | libraries-3/main.c:82-113 | bitmap 0x70 and count 3 make any frame pass with no member behind it |
| Quorum.VerdictReads | libraries-3/main.c:82-113 | frames with the same bitmap, count and witnesses get the same verdict |
| Quorum.VerifyCommittee | libraries-3/main.c:82-113 | the loop returns 0 or the code of the first failing check in bit order |
| Ingest.VerdictInBytes | libraries-3/main.c:58-75 | the verdict is 1, 0, 0 exactly when the first docket byte is set and a counted node ends in the bytes 1, 0, 0, 0, and 0, 1, 1 otherwise |
| Ingest.AnswerDecodes | libraries-3/main.c:249-298 | what a client reads from the response to any frame, accepted or refused |
| Ingest.IdsIncrease | libraries-3/main.c:252-273 | over every run accepted ids strictly increase, and the state is that of the last accepted frame or the initial one |
| Ingest.ReplayRefused | libraries-3/main.c:255-260 | a frame accepted anywhere in a run is answered 0xE002 whenever it comes again, and changes nothing |
| Ingest.RefusedLeaveNoTrace | libraries-3/main.c:252-273 | over every run the accepted frames alone lead to the same state, and none of them is refused then |
| Ingest.ReceiveConcat | libraries-3/main.c:240-300 | the outcome depends on the bytes alone, not on how they arrive |
| Ingest.StreamIsFrames | libraries-3/main.c:242-299 | after n bytes the machine has processed the first n / 1152 frames in order, sent one 40-byte response for each and holds the rest, fewer than 1152 |
| Wire.WireAnswer | libraries-3/main.c:242-299 | for any incoming bytes, response k on the line answers frame k in the state the earlier frames left |
| Wire.WireOrder | libraries-3/main.c:255-273 | for any incoming bytes, of two frames answered with success the later has the greater sequence id |
| Wire.WireReplay | libraries-3/main.c:255-260 | for any incoming bytes, a frame once answered with success gets 0xE002 whenever it is sent again |
| Certificates.AcceptanceMeans | libraries-3/main.c:252-271 | the success status means magic, fresh id, bounded nodes and a backed quorum, and conversely |
| Certificates.StatusCodes | libraries-3/main.c:252-298 | which of 0xE001, 0xE002, 0xE003, 0xE004 and 0x0000 a frame gets, each if and only if, in the order of the tests |
| Certificates.SuccessWithoutMember | libraries-3/main.c:252-273 | any fresh frame in bounds with bitmap 0x70 and count 3 is answered with success, with no member behind it |
| Certificates.EmptyFrameWithoutMember | libraries-3/main.c:252-273 | there is such a frame for every last id below 2^64 - 1 |
| Certificates.StatusReads | libraries-3/main.c:252-269 | frames with the same magic, id, node count, bitmap, quorum count and witnesses get the same status: no other byte is read for it |
| Certificates.WitnessesPassAgain | libraries-3/main.c:82-113 | under the bitmap, count and witnesses of a frame once accepted, a frame of the right magic is answered with success exactly when its id is new and its node count in bounds |
| Certificates.PreimageParts | libraries-3/main.c:47-52 | what is hashed is claimant, dockets and the counted nodes, in this order |
| Certificates.EvaluationIdempotent | libraries-3/main.c:46-76 | evaluating an evaluated frame changes nothing: hash and verdict do not depend on the fields they are stored in |
| Certificates.RootHashBlocks | libraries-3/main.c:47-55 | the padded preimage is node_count + 4 blocks |
| Certificates.PreimageDetermines | libraries-3/main.c:49-52 | the hashed bytes determine claimant, dockets, node count and the counted nodes |
| Certificates.RootHashBinding | libraries-3/main.c:46-56 | equal root hashes mean equal evidence, or expose a collision of the compression function |
| Certificates.AcceptedFlags | libraries-3/main.c:284-292 | every flag of an accepted response is tied to bytes of the frame: duty against the other two verdict flags, anomaly, quorum |
| Certificates.ShippedAnomaly | libraries-3/main.c:276-286 | with the shipped tables the anomaly flag is set exactly when a counted node has a signed byte sum of 3328 or more |
| RootServer.EvaluateAndHash | libraries-3/main.c:46-76 | the audit page then holds the frame with the digest of its evidence and its verdict filled in, both also stated in bytes |
| RootServer.FindTitle | libraries-3/main.c:58-64 | the search finds a counted node of aboriginal title exactly when there is one |
| RootServer.Sweep | libraries-3/main.c:276-286 | reports an anomaly exactly when the classifier flags some counted node |
| RootServer.Server.ProcessFrame | libraries-3/main.c:246-298 | response and new state are those of the abstract server |
| RootServer.Server.ReceiveByte | libraries-3/main.c:243-299 | one byte takes the object to the next state of the byte machine |
| RootServer.Server.Drain | libraries-3/main.c:240-300 | one poll takes it through the bytes found on the line |
| RootServer.Server.Serve | libraries-3/main.c:233-302 | any sequence of polls has the outcome of the concatenated bytes |

## Left out

- Decompression.Complete: takes the primality of 2^255 - 19 as a hypothesis, as do the other lemmas that need it; no certificate for it is part of this model.
- Quorum.Ed25519Verify: is not Ed25519 signature validity, because the code never evaluates the group equation.
- Quorum.DistinctSigners: is about the witnesses that are checked; `Quorum.AllCountedAreChecked` says when these are all the counted ones.
- Certificates.RootHashBinding: names the colliding inputs but, like any such result, does not say that none exist.
- FieldOps.Mul: operands are distinct or identical arrays; partially overlapping ones, which the code never passes, are not modelled.
- Inference.Infer: the null-pointer return is not modelled, since arguments are never null here; tables with larger output rows are outside its precondition.
- RootServer.Server: the shared audit page is owned by the server; concurrent writes by the client and the array reversal it can request are not modelled.
- The IPC branch that evaluates a frame on request: its operation code equals that of addition, which is tested first.
- UART port access, interrupt acknowledgement, printing, capability allocation, process creation and page mapping: foreign kernel calls.
- The hash-chained ledger of the whitepaper: not implemented in the code.
- The conformance of D, I and the SHA-512 round constants to their standards: the shipped values differ.
- The addition and negation requests of the IPC loop: each answers one message by one machine operation on its arguments.
- The copies of the classifier elsewhere in the repository: the same forward pass again.
