# bine: a verified model

bine is a Go library that drives a Tor process. This project models its three most intricate parts in Dafny and proves
what they promise.

**Ed25519.** `torutil/ed25519` signs with Tor's expanded private keys, on hand-unrolled fixed-width arithmetic. The
model follows it from the bottom up: int32 limbs and int64 products in arrays that the operations update in place
(`FieldElements`, `FieldProducts`, `FieldBytes`, `FieldPowers`), 21-bit limbs modulo the group order (`ScalarLimbs`,
`ScalarBytes`, `Scalars`), signed digits (`Recoding`), the point structures as classes (`GroupElements`), both scalar
multiplications (`BasePoint`, `ScalarMult`) and signatures (`Signing`). Every Go integer is a newtype of its width, so
each arithmetic step is proved not to overflow, except for shifts that pack limbs into bytes: these wrap, and
`BytePacking.Join` proves that the byte does not depend on what they lose. The methods are specified by values:
residues modulo 2^255 - 19 (`Residues`), affine points and the addition law (`Curve`), multiples of points
(`Multiples`), the coordinate systems (`PointCoordinates`) and the encoding of RFC 8032 (`PointDecoding`). The main
results are that a signature satisfies the verification equation of RFC 8032, section 5.1.7, and that both scalar
multiplications compute exactly the multiples they are named for, with the exact result for scalars beyond their
documented range or a bound on it.

**The control connection.** `control` reads the replies of the Tor control protocol from one stream that synchronous
requests and event readers share. `Replies` gives the reply format as a printer and the reader as a line-by-line
machine, and proves that they invert each other. `Connection` models the connection as a class whose methods loop as
the Go code does. `Interleavings` is a state machine over single lines in which any number of requests and event
readers compete for the read lock; its theorems hold in every state of every run. `Progress` proves that a thread on
its own does in this machine what the methods of the class do, and says exactly which states can still go on.
`Listeners` and `Events` treat the listener table and the choice of recipients.

**Codecs.** `QuotedStrings`, `Conf`, `SetConf`, `Base32` and `OnionIds` prove that quoted strings, configuration
entries, whole SETCONF lines and version 3 onion service IDs are read back as they were written, with the exact
conditions. `Formats` models what becomes of a text that is passed on as a format.

## Hypotheses

The results about Ed25519 name what they rest on, as predicates in their preconditions:

- `Residues.FermatsLittleTheorem`: the power P - 1 of every unit modulo P = 2^255 - 19 is 1; P is prime.
- `Multiples.AdditionIsAssociative`: the affine addition law is associative on the curve.
- `Signing.BaseHasOrderL`: the multiple of the base point by the group order is the neutral point.
- `BasePoint.IsBaseTable` and `BasePoint.IsOddTable`: the entries of the precomputed tables are the multiples of the
  base point that the Go code takes them for, with limbs in the carried range.

The results about onion service IDs rest on `OnionIds.DecodesBase32`: the base 32 decoder, a parameter, returns the
bytes of every string of whole groups of upper-case symbols. What it does with other strings is left open.

Hash functions are parameters, so the results hold for any. No other property is assumed.

## What the proofs found

- The documented limb preconditions of `FeMul` and `FeToBytes` are narrower than what `geAdd` and `FromBytes` pass to
  them. Both functions are proved under wider ranges that cover all call sites.
- `FromBytes` accepts y coordinates that are not reduced, and a sign bit with x = 0, which RFC 8032, section 5.1.3
  rejects. `PointDecoding.EncodeDecode` states, by the decoded string alone, exactly when encoding gives it back;
  `DecodedBeyondP` and `DecodedNegativeZero` are strings where it does not.
- A scalar of 2^255 or more may lose one carry in `slide`; `GeDoubleScalarMultVartime` then computes the multiple by a
  scalar that is smaller by 2^256. Below 2^255 nothing is lost, and thirty-two bytes 0xff do lose it
  (`Recoding.LostCarry`), which gives another point (`Signing.LostMultiple`).
- `PublicKey` accepts every private key, but `GeScalarMultBase` wants a last scalar byte of at most 127. Beyond that
  it ignores a last radix-16 digit above 8, and the public key then does not belong to the private key
  (`Signing.ComputedMatches`); thirty-two bytes 0xff are such a key (`Signing.UnmatchedKey`).
- `sendSetConf` and `sendSetEvents` pass their finished text as a format, so percent signs in it are taken for
  directives without arguments. `Formats` gives what Go's fmt package writes for them. `Conf.ReadSent`,
  `SetConf.SetConfReceived` and `Listeners.NamesReceived` say exactly when the server gets what was meant;
  `SetConf.PercentAtEnd`, `SetConf.PercentBeforeEntry` and `Listeners.PercentInName` are instances where it does not.
- `SendRequest` takes the read lock before it waits for its turn in the pipeline. When two requests overlap and the
  later one gets the lock first, it waits for the earlier one, which waits for the lock: neither is ever answered, and
  no event is relayed any more (`Progress.StuckForever`, `Progress.Overtaking`). `Progress.RequestsCanEnd` and
  `StuckByOvertaking` prove that nothing else stops the requests.
- `relayAsyncEvents` looks for a space in the whole text of an event with a body. An event whose head line is a bare
  code and whose body has a space, as NS events do, is relayed under a code that no listener asks for
  (`Events.BodyEvent`, `Events.ConsensusEvent`).
- A failed `AddEventListener` changes no multiplicity but may change the order in which channels are served:
  `Listeners.FailedAddOrder` says exactly when, `Listeners.FailedAddReorders` is an instance.
- `UnescapeSimpleQuotedStringContents` accepts a dangling backslash and drops it (`QuotedStrings.EscapeContents`).

## Model

| member | source | states |
|---|---|---|
| FieldElements.FeZero | torutil/ed25519/internal/edwards25519/edwards25519.go:20-22 | the element becomes zero, with all limbs zero |
| FieldElements.FeOne | torutil/ed25519/internal/edwards25519/edwards25519.go:24-27 | the element becomes one |
| FieldElements.FeAdd | torutil/ed25519/internal/edwards25519/edwards25519.go:29-40 | the value is the exact sum, the limbs grow by at most the sum of both sizes, no int32 overflows, and the destination may be an operand |
| FieldElements.FeSub | torutil/ed25519/internal/edwards25519/edwards25519.go:42-53 | the same for the difference |
| FieldElements.FeNeg | torutil/ed25519/internal/edwards25519/edwards25519.go:247-258 | the value is negated and the size stays |
| FieldElements.FeCopy | torutil/ed25519/internal/edwards25519/edwards25519.go:55-57 | the destination becomes a copy of the source |
| FieldElements.FeCombine | torutil/ed25519/internal/edwards25519/edwards25519.go:260-347 | twelve interleaved carries keep the value modulo 2^255 - 19, leave limbs within 1.01 * 2^25 and 1.01 * 2^24, and overflow neither int64 nor the final int32 conversions |
| FieldProducts.FeMul | torutil/ed25519/internal/edwards25519/edwards25519.go:376-427 | the product modulo 2^255 - 19 for limbs up to 1.65 * 2^26 and 1.65 * 2^25, with carried limbs, also when the destination is an operand |
| FieldProducts.SquareColumns | torutil/ed25519/internal/edwards25519/edwards25519.go:429-473 | the ten columns of the square are those of the general product, within half of the range of FeCombine |
| FieldProducts.FeSquare | torutil/ed25519/internal/edwards25519/edwards25519.go:475-478 | the square modulo 2^255 - 19, with carried limbs |
| FieldProducts.FeSquare2 | torutil/ed25519/internal/edwards25519/edwards25519.go:490-505 | twice the square modulo 2^255 - 19, with carried limbs |
| FieldBytes.FeFromBytes | torutil/ed25519/internal/edwards25519/edwards25519.go:94-107 | the low 255 bits of the bytes modulo 2^255 - 19; the top bit is ignored |
| FieldBytes.SplitTopBit | torutil/ed25519/internal/edwards25519/edwards25519.go:106 | the number in 32 bytes is its low 255 bits plus its top bit |
| FieldBytes.QuotientClaim | torutil/ed25519/internal/edwards25519/edwards25519.go:113-131 | the nested floors compute the quotient by 2^255 - 19, also for limbs up to 1.1 * 2^26 and 1.1 * 2^25 |
| FieldBytes.FeToBytes | torutil/ed25519/internal/edwards25519/edwards25519.go:132-219 | writes the unique representative in 0 .. 2^255 - 20, and leaves the argument equal to it |
| FieldBytes.FeIsNegative | torutil/ed25519/internal/edwards25519/edwards25519.go:221-225 | the parity of the representative; the argument keeps its value modulo 2^255 - 19 |
| FieldBytes.FeIsNonZero | torutil/ed25519/internal/edwards25519/edwards25519.go:227-238 | 0 exactly when the element is zero modulo 2^255 - 19, by or-ing and folding the bytes |
| FieldPowers.FeInvert | torutil/ed25519/internal/edwards25519/edwards25519.go:507-560 | z to the power 2^255 - 21 |
| FieldPowers.InverseFacts | torutil/ed25519/internal/edwards25519/edwards25519.go:507-560 | that power is the inverse of every non-zero element, and zero for zero |
| FieldPowers.FePow22523 | torutil/ed25519/internal/edwards25519/edwards25519.go:562-621 | z to the power 2^252 - 3, also when the result replaces z |
| Words.Load3 | torutil/ed25519/internal/edwards25519/edwards25519.go:77-83 | or-ing three shifted bytes adds them up as a little-endian number |
| Words.Load4 | torutil/ed25519/internal/edwards25519/edwards25519.go:85-92 | the same for four bytes |
| Scalars.ScMulAdd | torutil/ed25519/internal/edwards25519/edwards25519.go:1026-1449 | the canonical residue of a b + c modulo the group order for all 32-byte strings, without int64 overflow |
| Scalars.ScReduce | torutil/ed25519/internal/edwards25519/edwards25519.go:1457-1774 | the canonical residue of any 64-byte string modulo the group order |
| Scalars.ScMinimal | torutil/ed25519/internal/edwards25519/edwards25519.go:1780-1794 | decides whether a 32-byte number is below the group order |
| Scalars.ReducedScalar | torutil/ed25519/internal/edwards25519/edwards25519.go:965-970 | a reduced scalar meets the precondition of GeScalarMultBase |
| ScalarLimbs.ReduceLimbs | torutil/ed25519/internal/edwards25519/edwards25519.go:1146-1414 | folding with 2^252 = -27742317777372353535851937790883648493 and carrying gives the digits of the canonical residue; what the first closing fold leaves lies between -2^252 and 2^252, so the second one adds the order once to a negative value and nothing to another |
| ScalarLimbs.SplitSign | torutil/ed25519/internal/edwards25519/edwards25519.go:1338-1373 | floor carries split such a value into twelve digits and a quotient that is -1 for a negative value and 0 for another |
| Recoding.Slide | torutil/ed25519/internal/edwards25519/edwards25519.go:845-873 | digits that are zero or odd within -15 .. 15, four zeros behind each, whose weighted sum is the scalar, less 2^256 when a carry is lost; at most one is, and none below 2^255 |
| Recoding.LostCarry | torutil/ed25519/internal/edwards25519/edwards25519.go:857-865 | thirty-two bytes 0xff lose the carry: the only digits that Slide may leave for them sum to -1 |
| Recoding.Radix16 | torutil/ed25519/internal/edwards25519/edwards25519.go:971-988 | digits in -8 .. 7 whose sum with weights 16^i is the scalar; the last digit takes the rest, which is at most 8 for a last byte up to 127 and at most 16 in any case |
| Curve.DIsNotASquare | torutil/ed25519/internal/edwards25519/const.go:10-12 | the curve constant is not a square |
| Curve.DenominatorsAreUnits | torutil/ed25519/internal/edwards25519/edwards25519.go:623-630 | the addition law is complete: no denominator vanishes on the curve, because d is not a square |
| Curve.AddIsUnique | torutil/ed25519/internal/edwards25519/edwards25519.go:783-797 | the affine sum is the only solution of the addition equations with cleared denominators |
| Curve.AddIsOnCurve | torutil/ed25519/internal/edwards25519/edwards25519.go:783-797 | sums of points on the curve are on the curve |
| Curve.AddNeg | torutil/ed25519/internal/edwards25519/edwards25519.go:799-813 | a point and its opposite add up to the neutral point |
| Multiples.MultipleSum | torutil/ed25519/internal/edwards25519/edwards25519.go:875-878 | multiples of a point add like integers, negative ones included |
| Multiples.MultipleProduct | torutil/ed25519/internal/edwards25519/edwards25519.go:875-878 | multiples of multiples are multiples by the product |
| Multiples.MultipleModulo | torutil/ed25519/ed25519.go:175 | multiples depend only on the residue modulo the order of the point |
| PointCoordinates.ExtendedProduct | torutil/ed25519/internal/edwards25519/edwards25519.go:627 | in extended coordinates X Y = Z T |
| PointCoordinates.ProjectiveIsUnique | torutil/ed25519/internal/edwards25519/edwards25519.go:625-630 | coordinates represent one point on the curve |
| PointCoordinates.SumFormulas | torutil/ed25519/internal/edwards25519/edwards25519.go:783-828 | the addition formulas give the affine sum in completed coordinates |
| PointCoordinates.DifferenceFormulas | torutil/ed25519/internal/edwards25519/edwards25519.go:799-842 | the subtraction formulas give the sum with the opposite point |
| PointCoordinates.DoubleFormulas | torutil/ed25519/internal/edwards25519/edwards25519.go:658-670 | the doubling formulas give the sum of a curve point with itself |
| GroupElements.ConstantValues | torutil/ed25519/internal/edwards25519/const.go:10-23 | the limbs of d and 2d have those values modulo 2^255 - 19, and the square of SQRT_M1 is -1 |
| GroupElements.ProjectiveGroupElement.Zero | torutil/ed25519/internal/edwards25519/edwards25519.go:652-656 | the neutral point |
| GroupElements.ProjectiveGroupElement.Double | torutil/ed25519/internal/edwards25519/edwards25519.go:658-670 | the sum of the point with itself, with limbs in range for the conversions |
| GroupElements.ProjectiveGroupElement.ToBytes | torutil/ed25519/internal/edwards25519/edwards25519.go:672-680 | the encoding of the affine point |
| GroupElements.ExtendedGroupElement.Zero | torutil/ed25519/internal/edwards25519/edwards25519.go:682-687 | the neutral point |
| GroupElements.ExtendedGroupElement.Double | torutil/ed25519/internal/edwards25519/edwards25519.go:689-693 | the sum of the point with itself |
| GroupElements.ExtendedGroupElement.ToCached | torutil/ed25519/internal/edwards25519/edwards25519.go:695-700 | the cached form of the same point |
| GroupElements.ExtendedGroupElement.ToProjective | torutil/ed25519/internal/edwards25519/edwards25519.go:702-706 | the projective form of the same point |
| GroupElements.ExtendedGroupElement.ToBytes | torutil/ed25519/internal/edwards25519/edwards25519.go:708-716 | the encoding of the affine point: y with the parity of x in the top bit |
| GroupElements.ExtendedGroupElement.FromBytes | torutil/ed25519/internal/edwards25519/edwards25519.go:718-762 | true exactly when some curve point has this y coordinate; then Z = 1, T = X Y, and the point has this y and, unless x is zero, this sign |
| GroupElements.CompletedGroupElement.ToProjective | torutil/ed25519/internal/edwards25519/edwards25519.go:764-768 | the projective form of the same point |
| GroupElements.CompletedGroupElement.ToExtended | torutil/ed25519/internal/edwards25519/edwards25519.go:770-775 | the extended form of the same point |
| GroupElements.PreComputedGroupElement.Zero | torutil/ed25519/internal/edwards25519/edwards25519.go:777-781 | the neutral point |
| GroupElements.GeAdd | torutil/ed25519/internal/edwards25519/edwards25519.go:783-797 | the affine sum, with limbs in range for the conversions |
| GroupElements.GeSub | torutil/ed25519/internal/edwards25519/edwards25519.go:799-813 | the sum with the opposite point |
| GroupElements.GeMixedAdd | torutil/ed25519/internal/edwards25519/edwards25519.go:815-828 | the affine sum with a table entry |
| GroupElements.GeMixedSub | torutil/ed25519/internal/edwards25519/edwards25519.go:830-842 | the sum with the opposite of a table entry |
| PointDecoding.EquationOfRoot | torutil/ed25519/internal/edwards25519/edwards25519.go:740-743 | the candidate is the x coordinate exactly when v x^2 = u, which is the first test |
| PointDecoding.TimesRootOfMinusOne | torutil/ed25519/internal/edwards25519/edwards25519.go:744-748 | when v x^2 = -u, which is the second test, x times the root of -1 solves the curve equation |
| PointDecoding.NoRoot | torutil/ed25519/internal/edwards25519/edwards25519.go:743-746 | when both tests fail no x solves it |
| PointDecoding.Candidate | torutil/ed25519/internal/edwards25519/edwards25519.go:725-736 | for the candidate, v x^2 is u times the quarter power of u v^7 |
| PointDecoding.DecodeEncode | torutil/ed25519/internal/edwards25519/edwards25519.go:708-762 | the bytes of a curve point decode to that point and to no other |
| PointDecoding.EncodedByPlaces | torutil/ed25519/internal/edwards25519/edwards25519.go:708-716 | the encoding of a curve point is the only string whose low 255 bits are y and whose top bit is the parity of x |
| PointDecoding.EncodeDecode | torutil/ed25519/internal/edwards25519/edwards25519.go:718-762 | a decoded string is the encoding of its point exactly when its low 255 bits are below 2^255 - 19 and, if they are 1 or -1, its sign bit is clear |
| PointDecoding.DecodedBeyondP | torutil/ed25519/internal/edwards25519/edwards25519.go:721 | the bytes of 2^255 - 18 decode to the neutral point and are not its encoding |
| PointDecoding.DecodedNegativeZero | torutil/ed25519/internal/edwards25519/edwards25519.go:756-758 | 1 with the sign bit set decodes to the neutral point and is not its encoding |
| PointDecoding.DecodesIsUnique | torutil/ed25519/internal/edwards25519/edwards25519.go:718-762 | a string decodes to at most one point |
| BasePoint.BaseIsOnCurve | torutil/ed25519/internal/edwards25519/edwards25519.go:966-968 | the base point with y = 4/5 and even x is on the curve |
| BasePoint.EncodedBase | torutil/ed25519/internal/edwards25519/edwards25519.go:966-968 | its encoding is 0x58 followed by thirty-one bytes 0x66, and that of its opposite has the top bit set |
| BasePoint.FirstEntry | torutil/ed25519/internal/edwards25519/const.go:32-37 | the limbs at the head of bi, and of base in lines 79-83, are those of the base point, as the two table hypotheses say |
| BasePoint.FeCMove | torutil/ed25519/internal/edwards25519/edwards25519.go:59-75 | the element is replaced when the flag is one, and kept when it is zero |
| BasePoint.PreComputedGroupElementCMove | torutil/ed25519/internal/edwards25519/edwards25519.go:943-947 | the same for table entries |
| BasePoint.Equal | torutil/ed25519/internal/edwards25519/edwards25519.go:930-936 | 1 exactly when two non-negative numbers are equal |
| BasePoint.Negative | torutil/ed25519/internal/edwards25519/edwards25519.go:938-941 | 1 exactly when the number is negative |
| BasePoint.SelectPoint | torutil/ed25519/internal/edwards25519/edwards25519.go:949-963 | the selected entry is digit * 256^pos * B for digits in -8 .. 8, and the neutral point for all other int8 digits |
| ScalarMult.GeScalarMultBase | torutil/ed25519/internal/edwards25519/edwards25519.go:970-1014 | h is the multiple of the base point by the scalar, for every scalar with a top byte up to 127; for a larger one the last digit and its weight are missing when the digit exceeds 8 |
| ScalarMult.EvenAndOddDigits | torutil/ed25519/internal/edwards25519/edwards25519.go:990-1013 | odd digits, four doublings and even digits add up to the scalar |
| ScalarMult.OddMultiples | torutil/ed25519/internal/edwards25519/edwards25519.go:887-895 | the table holds the odd multiples up to 15 of A |
| ScalarMult.DoubleAndAdd | torutil/ed25519/internal/edwards25519/edwards25519.go:905-927 | one round of the main loop keeps the combination of both digit sums |
| Signing.LostMultiple | torutil/ed25519/internal/edwards25519/edwards25519.go:879-928 | with A = B a scalar of which the carry is lost gives another point |
| ScalarMult.GeDoubleScalarMultVartime | torutil/ed25519/internal/edwards25519/edwards25519.go:879-928 | r is a A + b B for all scalars below 2^255, and for larger ones with at most one lost carry of 2^256 in each scalar, which thirty-two bytes 0xff do lose |
| Signing.PublicKey | torutil/ed25519/ed25519.go:69-77 | the public key encodes the multiple of the base point by the first 32 private bytes, if the last of them is at most 127; for any other private key, the multiple by what GeScalarMultBase keeps of the scalar |
| Signing.ComputedMatches | torutil/ed25519/ed25519.go:69-77 | so the computed public key belongs to the private key exactly when the scalar leaves at most 8 for its last radix-16 digit |
| Signing.UnmatchedKey | torutil/ed25519/ed25519.go:69-77 | a private key that starts with thirty-two bytes 0xff leaves 16 for that digit, and its computed public key does not belong to it |
| Signing.Sign | torutil/ed25519/ed25519.go:148-184 | R is the encoding of r B, and S = k a + r modulo the group order, with r and k the reduced hashes of RFC 8032, section 5.1.6 |
| Signing.SignatureByPlaces | torutil/ed25519/ed25519.go:151-181 | by the places in the hashed strings: r is the hash of the second half of the private key and the message, k that of the encoding of R, the public key and the message; R encodes r B, and S is k a + r modulo the group order |
| Signing.SignatureVerifies | torutil/ed25519/ed25519.go:148-190 | every signature passes the check of RFC 8032, section 5.1.7, under the matching public key: S is reduced, and S B = R + k A with k the hash of any string x that holds the first half of the signature in its first 32 bytes, the public key in the next 32 and the message behind them |
| Signing.GroupEquation | torutil/ed25519/ed25519.go:174-176 | with L B = 0 the reductions modulo L do not change the group equation |
| Signing.Clamp | torutil/ed25519/ed25519.go:141-143 | the masks give a scalar that is a multiple of 8 in 2^254 .. 2^255 and leave the other bytes |
| Signing.ClampedKey | torutil/ed25519/ed25519.go:141-144 | a clamped key has the scalar of RFC 8032, section 5.1.5: the lowest three bits of the hash cleared, bit 254 set as the highest; so it meets the precondition of GeScalarMultBase |
| Signing.GenerateKey | torutil/ed25519/ed25519.go:132-145 | fails exactly when the source has fewer than 32 bytes; otherwise a clamped key pair whose public key matches, and seed and public key form a Go key |
| Signing.FromCryptoPrivateKey | torutil/ed25519/ed25519.go:38-44 | clamps the hash of the seed and takes over the public key, which matches exactly when the argument is a Go key: seed and encoded multiple of the base point by the scalar of the seed |
| Signing.GoKeyVerifies | torutil/ed25519/ed25519.go:38-44 | what the converted pair of a Go key signs passes the same check under the public key in the Go key |
| Signing.SameKeyFromSeed | torutil/ed25519/ed25519.go:38-44 | the pair converted from a Go key is the pair generated from its seed |
| Signing.SignMessage | torutil/ed25519/ed25519.go:83-88 | messages that were hashed before are refused, all others signed |
| Replies.StatusCodeIsText | control/response.go:68-69 | the accepted status codes are exactly the three-digit numbers from 100 on, without signs |
| Replies.ReadPrinted | control/response.go:54-106 | a printed reply is read as its code, data and last line, and reading stops right behind it |
| Replies.PrintRead | control/response.go:54-106 | conversely, whatever is read as a response is a printed reply with that meaning followed by the unread lines |
| Replies.TextsOfParts | control/response.go:86-96 | the data of a reply has one text for each of its parts, in order |
| Replies.LineFails | control/response.go:64-104 | outside of a body a line fails exactly if it has less than four characters, does not start with three digits of which the first is not zero, has another code than the lines before it, or none of the three separators, with the error of the first that applies; so does the end of the stream |
| Replies.ReadExample | control/response.go:54-106 | a concrete reply with a line and a dot-encoded body, stuffed and unstuffed, is read as its texts up to its closing line |
| Replies.BodyRoundTrip | control/response.go:91-96 | a dot-encoded body is read as its lines joined by newlines exactly when no blank line or line end closes it |
| Connection.Conn.ReadResponse | control/response.go:54-106 | the loop reads what the line-by-line reader specifies, errors and unread lines included |
| Connection.Conn.ReadDotBytes | control/response.go:88-93 | the lines up to a lone dot, with stuffed dots removed |
| Connection.Conn.SendRequest | control/conn.go:55-79 | writes the command, relays the events on the way in order, and returns the first synchronous response; on every printed stream the response is what the reply means, the outcome is ok exactly for the codes 250 and 251, and the lines behind the reply stay unread; where no reply can be read there is no response |
| Connection.Conn.SendRequestIgnoreResponse | control/conn.go:46-49 | does the same for a text that goes out as a format without arguments |
| Connection.AwaitPrinted | control/conn.go:66-75 | on a stream of events, a synchronous reply and a rest, the request gets that reply, relays those events and leaves the rest |
| Replies.AtoiOfThree | control/cmd_event.go:181 | three digits are a number, and so are a sign and two digits |
| Replies.AtoiFails | control/cmd_event.go:181 | and no other three characters |
| Connection.Conn.HandleNextEvent | control/cmd_event.go:173-192 | reads and relays one response if a 650 line is next; otherwise it consumes nothing |
| Connection.HandlePrinted | control/cmd_event.go:173-192 | an event reader that finds a printed reply sees its code and, for an event, takes exactly that reply |
| Connection.Conn.RelayAsyncEvents | control/cmd_event.go:269-306 | every listener of the event that the response stands for gets it once, in order; code, data and recipients are stated by the lemmas of Events |
| Events.LinesEvent | control/cmd_event.go:281-283 | a reply with several parts is relayed under the whole text of the first, with the texts of the others in order as its data array |
| Events.WordsEvent | control/cmd_event.go:272-286 | a reply with one line or none before the closing one is split at the first space of that line, or of the closing one |
| Events.BodyReplyEvent | control/cmd_event.go:272-279 | a printed event with a body is relayed under its own code exactly when its head line has arguments or its body no space, with the rest as its data |
| Events.DeliveredTo | control/cmd_event.go:288-305 | the event goes to the listeners of its code, in order, then to those of unrecognized events if and only if its code is not a known one |
| Events.DeliveredInOrder | control/conn.go:67-75 | of several responses each is relayed once, in the order in which they came |
| Events.LineEvent | control/cmd_event.go:284-286 | a single-line event is split at its first space |
| Events.BodyEvent | control/cmd_event.go:272-279 | an event with a body is relayed under its own code exactly when its head line has arguments or its body no space |
| Events.ConsensusEvent | control/cmd_event.go:272-279 | an NS event, whose head line is a bare code, is relayed under another code |
| Connection.Conn.AddEventListenerToMap | control/cmd_event.go:220-231 | the table becomes the one with the channel appended for every event; every changed list is a new array |
| Connection.Conn.RemoveEventListenerFromMap | control/cmd_event.go:233-257 | the table becomes the one without the first occurrences; every changed list is a new array |
| Connection.Conn.AddEventListener | control/cmd_event.go:200-208 | the SETEVENTS line names exactly the events of the enlarged table before it goes out as a format; the call succeeds exactly on the codes 250 and 251, the table stays on success and is reduced again on failure, and events on the way go to the enlarged table |
| Connection.Conn.RemoveEventListener | control/cmd_event.go:215-218 | the SETEVENTS line names exactly the events of the reduced table before it goes out as a format; the call succeeds exactly on the codes 250 and 251 |
| Connection.Conn.SendSetEvents | control/cmd_event.go:259-267 | the command names every event with a listener once and goes out as a format |
| Listeners.Added | control/cmd_event.go:220-231 | adding appends the channel once for every mention of an event and leaves other events alone |
| Listeners.RemovedMultiplicity | control/cmd_event.go:233-257 | removing lowers the multiplicity by one for every mention, as long as there is any, and leaves no empty list |
| Listeners.FailedAdd | control/cmd_event.go:200-208 | a failed add changes no multiplicity |
| Listeners.FailedAddOrder | control/cmd_event.go:200-208 | the whole table is as before exactly when, for every event of the call, nothing but the channel follows its first occurrence; the call may name events repeatedly |
| Listeners.FailedAddReorders | control/cmd_event.go:200-208 | a failed add of channel 1 turns the listeners 1, 2 into 2, 1 |
| Listeners.AddsMinusRemoves | control/cmd_event.go:195-257 | over every sequence of table changes a multiplicity is the adds minus the effective removes, and no event keeps an empty list |
| Listeners.CommandNames | control/cmd_event.go:259-267 | the words of the SETEVENTS line are the command and the names |
| Listeners.NamesReceived | control/cmd_event.go:259-267 | the words of the line as it is sent are the command and the names exactly when no name has a space, a line end or a percent sign |
| Listeners.PercentInName | control/cmd_event.go:266 | an event code A% goes out as A%!(NOVERB) |
| Interleavings.SafeRuns | control/conn.go:55-79 | over every interleaving the events in the replies read so far have been relayed, in stream order, their synchronous replies have been returned, the n-th request that gets a response gets the n-th of them, and event readers take only events |
| Interleavings.ReadersOfLines | control/conn.go:32-35 | lines are read in order: those of complete replies, then those of the present holder of the lock |
| Interleavings.WholeReplies | control/conn.go:32-35 | each complete reply was read from its first line to its last by one reader |
| Progress.RequestAlone | control/conn.go:55-79 | a request that nobody gets in the way of goes through the steps of the machine to the outcome, the relayed events and the unread lines of SendRequest |
| Progress.HandlerAlone | control/cmd_event.go:173-192 | an event reader goes through the steps of the machine to what HandleNextEvent does |
| Progress.StuckForever | control/conn.go:63-66 | when a request holds the read lock while it is the turn of another one, nothing is read, relayed or answered in any later state |
| Progress.RequestsCanEnd | control/conn.go:63-66 | from a state of any run all requests written so far can get a response or an error, exactly if no request holds the read lock out of turn |
| Progress.StuckByOvertaking | control/conn.go:63-66 | that is so exactly if some request has taken the lock while an earlier one was still waiting |
| Progress.Overtaking | control/conn.go:59-66 | a run of two requests that ends like this, on any stream |
| QuotedStrings.PartitionIsUnique | torutil/string.go:11-17 | the partition is the only way to write the string around its first separator |
| QuotedStrings.PartitionFromEndIsUnique | torutil/string.go:21-27 | the same for the last separator |
| QuotedStrings.UnescapeSimpleQuotedStringContents | torutil/string.go:78-112 | the loop computes the decoding, or fails where it fails |
| QuotedStrings.UnescapeSimpleQuotedString | torutil/string.go:69-74 | the decoding of what the quotes enclose; without quotes it fails |
| QuotedStrings.UnescapeSimpleQuotedStringIfNeeded | torutil/string.go:60-65 | a string without enclosing quotes stands for itself |
| QuotedStrings.UnescapeContents | torutil/string.go:54-56 | unescaping undoes escaping |
| QuotedStrings.UnescapeQuoted | torutil/string.go:48-50 | also with quotes around |
| QuotedStrings.UnescapeIfNeeded | torutil/string.go:32-37 | and with quotes only where they are needed |
| QuotedStrings.EscapeContents | torutil/string.go:78-112 | escaping undoes unescaping exactly on strings without a dangling backslash |
| QuotedStrings.DanglingBackslash | torutil/string.go:84-88 | such a backslash is accepted and dropped |
| QuotedStrings.QuotedIfNeeded | torutil/string.go:32-37 | a string is quoted exactly when it has a space, a backslash, a quote or a line end |
| QuotedStrings.QuotedOrNot | torutil/string.go:58-74 | what stands between two quotes is decoded, and every other string stands for itself |
| QuotedStrings.EscapedSum | torutil/string.go:39-56 | the characters of a string are escaped one by one |
| QuotedStrings.EscapedAlone | torutil/string.go:39-44 | the escaped form of every single character |
| Formats.FormatIsKept | control/conn.go:46-59 | a text that goes out as a format without arguments arrives unchanged, even up to quotes and backslashes, exactly when it has no percent sign |
| Formats.MissingArguments | control/conn.go:46-59 | what is written for a verb without an argument, and for a width or a precision that should be one |
| Formats.IndexAndPercent | control/conn.go:46-59 | what is written for a verb with an index, and for two percent signs |
| Conf.ReadWritten | control/cmd_conf.go:19-51 | the text of an entry is read back with the same key, value and set-or-unset state exactly when its key has no equals sign |
| Conf.ReadAllWritten | control/cmd_conf.go:19-51 | the same for all lines of a reply |
| Conf.ReadSent | control/cmd_conf.go:19-51 | what is sent for an entry is read back as the same entry exactly when its key has no equals sign and neither its key nor its value a percent sign |
| Conf.EntryOfLine | control/cmd_conf.go:36-50 | a line without an equals sign is an unset key; otherwise the value behind the first one is set even if it is empty, and the line fails exactly if the value is quoted and badly escaped |
| Conf.GetConfEntries | control/cmd_conf.go:36-50 | each line is read as one entry, and one bad value fails the whole |
| Connection.Conn.GetConf | control/cmd_conf.go:30-51 | asks for the keys and reads data and last line of an OK reply as entries; a printed reply with the text of one entry in each of its lines, the closing one included, gives the same entries in the same order, and any other code than 250 and 251 gives none |
| SetConf.SetConfCommand | control/cmd_conf.go:19-25 | the command grows by the text of every entry in turn |
| Connection.Conn.SendSetConf | control/cmd_conf.go:19-27 | the command goes out as a format, and the outcome is that of the first synchronous response: ok exactly for the codes 250 and 251 |
| SetConf.SetConfReceived | control/cmd_conf.go:19-27 | a reader who splits the sent line at its unquoted spaces gets the command and the same entries exactly when no key has an equals sign, a space or a line end and no key or value a percent sign |
| SetConf.PercentAtEnd | control/cmd_conf.go:26 | ContactInfo=100% goes out as ContactInfo=100%!(NOVERB) |
| SetConf.PercentBeforeEntry | control/cmd_conf.go:26 | SETCONF A=100% B=1 goes out as SETCONF A=100%!B(MISSING)=1 |
| Base32.DecodeEncode | torutil/key.go:16 | decoding undoes encoding on whole groups of five bytes |
| Base32.EncodeDecode | torutil/key.go:16 | encoding undoes decoding on whole groups of eight symbols |
| Base32.EncodedBits | torutil/key.go:16 | the eight symbols of a group stand for five bits each of its five bytes as one big-endian number, in the order A to Z, 2 to 7 |
| OnionIds.OnionServiceIDFromV3PublicKey | torutil/key.go:57-65 | a lower-case ID of 56 characters that decodes to the key, the first two bytes of the hash of x, and 3, for any x that holds ".onion checksum", the key and 3, in this order; a key of another length is cut off or padded |
| OnionIds.KeyOfServiceId | torutil/key.go:57-85 | the ID of a 32-byte key has 56 characters and leads back to the key |
| OnionIds.ServiceIdOfKey | torutil/key.go:69-85 | an accepted ID of 56 letters and digits is, up to case, the ID of the key it yields |
| OnionIds.LowerCaseId | torutil/key.go:69-85 | a lower-case ID yields a key exactly when it is the ID of that key |
| OnionIds.CheckedExactly | torutil/key.go:70-83 | the checks accept the 35 bytes of a key and nothing else |
| OnionIds.CheckedByPlaces | torutil/key.go:74-85 | of the decoded bytes exactly the key, the first two bytes of the hash of that same x, and 3 are accepted; otherwise the error tells whether the length, the version or the checksum is wrong, in this order |
| OnionIds.DecodedFirst | torutil/key.go:69-73 | the upper-case form of the ID is decoded first, and an error in it ends the reading |

## Left out

- The literal contents of the tables `base` and `bi`; only their meaning enters, as a hypothesis.
- Constant-time behaviour: the model covers values, not timing.
- `ed25519.Verify` of golang.org/x/crypto, SHA-512, SHA3-256 and the sources of randomness: libraries. A key source is
  the byte string that it would deliver.
- Version 2 onion service IDs (RSA keys), and the type switches that dispatch on kinds of keys.
- Aliasing of one point structure with another: the methods require distinct arrays, as Go's distinct structures have.
  Field operations are proved with aliased operands.
- Tables are values: a table entry is loaded into a fresh structure before it is used.
- Straight-line limb code is written with parallel assignments, with columns of products as functions, and with helper
  methods for parts of long bodies; the order of independent statements is not modelled. FeToBytes writes the bytes
  after all limbs are reduced, as the Go code does, but computes them as one sequence.
- GeDoubleScalarMultVartime: the scratch structures of the table and of the main loop are separate objects.
- PrivateKey.Verify, PublicKey.Verify, KeyPair accessors: delegation only.
- Strings are sequences of Unicode scalar values, which covers valid UTF-8; in the control connection the characters
  of a line that is read stand for bytes, those of a command for scalar values.
- ToUpper and ToLower of onion IDs: only ASCII letters have cases in the model. How the base 32 library treats strings
  that are not whole groups of symbols, line ends among them, is left open.
- Formats with arguments: only `%v` of GETCONF occurs in the model, with its result. The source of Go's fmt and
  textproto packages is not part of this model; Formats follows their documented behaviour.
- RawLines of a response, and the message text of its error: the error is represented by its code.
- ReadResponse: textproto's ReadLine and ReadDotBytes are steps on a sequence of lines without their line ends; Peek
  looks at the next line, and a line of fewer than three bytes counts as not a number.
- Interleavings: a run may stop at any point, and the end of the stream is its last line, where a request gives up
  instead of waiting for more. `Progress` tells what a run can still do, not what a scheduler will do.
- HandleEvents, EventWait, contexts, timers, blocking channel sends: a send is an append to a log. The event parsers
  after ParseEvent are field copying; an event is represented by its code and data.
- Connection.Conn: the read lock and the table lock are not fields; one call is what a thread does while it holds the
  lock.
- The request builders of the other commands, Close, debug output, process start and the examples.
