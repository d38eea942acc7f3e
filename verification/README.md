# Verified model of the ClairveilJS core

This project models five parts of the ClairveilJS SDK in Dafny and proves what they promise. Run
`dafny verify dfyconfig.toml`.

**Curve and field arithmetic.** `FieldArith` holds square-and-multiply, the Fermat inverse and Tonelli-Shanks;
`Edwards` the affine law of the a = -1 twisted Edwards curve and the extended-coordinate formulas of section 5.1.4
of RFC 8032; `ScalarMul` the projective loop, which refines affine double-and-add; `ByteCodec` the byte conversions
that go through hex text; `Compression` packing and unpacking; `NoteCrypto` the key agreement, the rejection
sampling and the note signatures. The field modulus, `d`, the order and the base point are parameters. The only
hypotheses are: the modulus is an odd prime (Fermat's theorem, the root bound and the existence of a non-residue are
proved in `NumberTheory`); -1 is a square and `d` is not (`Edwards.ValidCurve`; completeness of the law is proved
from it); the modulus is below 2^255 and the order is odd (`Compression.Compressible`). For the key agreement and
the signatures, the base point generates exactly `order` points (`NoteCrypto.BaseGenerates`). Closure, neutral element,
inverses and commutativity are proved. Associativity is assumed, by name (`ScalarMul.Associative`), only where a
result needs it: multiplication as repeated addition, the key agreement and the signature equation.

**Protobuf wire codec.** `JsBits` gives the JavaScript 32-bit operators as arithmetic; `Varint`, `Decimal` and `Utf8`
the two encoders, the zigzag maps, the decimal text of 64-bit integers and UTF-8; `Reader` the cursor and `Writer`
the mutable list of operations with its stack of saved lists. `Integers` states the round trips of every integer kind
and `MessageTree` those of whole messages, including unknown fields and groups a decoder must skip. `WireSkip`
compares skipping a field with reading it, on every buffer.

**Merkle snapshot verifier.** `MerklePath` treats the node hash as an unknown function into the field. No such
function is injective, so nothing is assumed about collisions: each binding result says that the property holds or that
the two paths at hand hash different pairs to the same node.

**Verified registry cache.** `AssetRegistry` splits each query at its awaits into atomic steps. A state machine over
these steps says what each delivers; its properties are proved for every run (`AssetRegistry.RunIsRight`,
`AssetRegistry.DeliveredExactly`), and `AssetRegistry.Drive` shows that the mutable resolver follows it in every
interleaving, including callers that overwrite arrays they were given.

**EVM harness, batch shapes, nullifier status.** `EvmHarness` interprets the bytecode by section 9.4 and Appendix H of
the Ethereum Yellow Paper; `BatchShapes` covers the fixture loader and the output loop of the batch check;
`Nullifiers` the status fold.

Where code and documentation or expectation differ, the model follows the code:

- `utf8Read` reuses its chunk between flushes. `Utf8.ReadOfWrite` states exactly when text survives, and
  `Utf8.StaleTextFails` gives text that does not. The condition can be checked before the call from the positions of
  the surrogate pairs (`Utf8.CleanText`), and holds for every string of at most 16384 units.
- `unpackPoint` accepts the identity with its sign bit set (`Compression.SignedIdentityAccepted`), which `packPoint`
  never produces; that string is the one exception in `Compression.PackOfUnpack`.
- `writeVarint64` shifts the object it is given, so a second `finish` can emit other bytes than the first. It emits
  the same bytes if and only if every 64-bit operation holds a value below 128 (`Writer.BinaryWriter.Finish`);
  `Writer.FinishTwice` is a case in which it does not.
- `skipType` accepts a field that its reader rejects if and only if a varint of more than ten bytes is skipped in it
  (`WireSkip.SkipMeetsReading`, `WireSkip.LongVarintIsSkippedOnly`).
- `fixed32`, `sfixed32`, `fixed64` and `sfixed64` do not check bounds. Behind the end of the buffer missing bytes act as
  zero, except that `fixed32` gives `NaN`.
- The batch fixture loader looks disclosure modes up on a plain object, so the twelve property names that every object
  inherits pass as modes (`BatchShapes.InheritedModeIsAccepted`, `BatchShapes.OnlyModesUnlessInherited`).
- `ldelim` without `fork` keeps only the current list, behind its own length (`Writer.BinaryWriter.Ldelim`).

The specification functions the table refers to are next to the members: for instance `Base128`, `Scan` and `ReadVarint`
for varints, `Encode` and `Emitted` for text, `Content` and `Saved` for the writer, `DoubleAndAdd` and `Times` for
scalar multiplication, `GoodPath` and `GoodResponse` for Merkle paths. Where such a definition has the shape of the code, a
lemma spells it out with the constants and texts of the protocol: `UnpackPoint` and `PackPoint` in their contracts,
`MerklePath.TruthIsAccepted`, `AssetRegistry.ValidateMeans`, `BatchShapes.GoodCaseMeans` and the like.

## Model

| member | source | states |
|---|---|---|
| FieldArith.Mod | src/core/crypto.js:36-39 | the truncated remainder lifted to `[0, modulus)` is the Euclidean remainder, for negative values too |
| FieldArith.SquareStep | src/core/crypto.js:45-49 | one round keeps `result * x^e` fixed modulo the modulus |
| FieldArith.ModPow | src/core/crypto.js:41-51 | returns `base^exponent` reduced, and 1 for a non-positive exponent |
| FieldArith.ModInvCorrect | src/core/crypto.js:53-59 | modulo a prime, throws exactly on multiples of it and otherwise returns the reduced inverse |
| FieldArith.ShanksInit | src/core/crypto.js:84-87 | the initial `x`, `t`, `c`, `m` satisfy the loop invariant `x^2 = n*t`, `t^(2^(m-1)) = 1`, `c^(2^(m-1)) = -1` |
| FieldArith.ShanksStep | src/core/crypto.js:89-106 | one round of the main loop keeps that invariant while `m` drops to the order exponent of `t` |
| FieldArith.FindNonResidue | src/core/crypto.js:79-82 | the search for a non-residue stops below every odd prime |
| FieldArith.OrderExponent | src/core/crypto.js:90-98 | the inner loop finds the least exponent below `m`, so its "field square root failed" throw is unreachable |
| FieldArith.ShanksLoop | src/core/crypto.js:89-108 | the loop terminates with a square root |
| FieldArith.ModSqrt | src/core/crypto.js:61-109 | for every odd prime: returns a canonical root exactly when the value is a square, and otherwise throws "not on curve" |
| NumberTheory.Fermat | src/core/crypto.js:53-59 | Fermat's little theorem, on which `modInv` rests |
| NumberTheory.NonResidueExists | src/core/crypto.js:79-82 | every odd prime has a non-residue |
| Edwards.CurveIsRegular | src/core/crypto.js:248-264 | the addition law is complete: on the curve no denominator of `pointAdd` vanishes |
| Edwards.SumOnCurve | src/core/crypto.js:248-264 | the sum of two curve points satisfies the curve equation |
| Edwards.PointAddTotal | src/core/crypto.js:248-264 | on curve points `pointAdd` never throws and returns the canonical sum, again on the curve |
| Edwards.PointAddCommutes | src/core/crypto.js:248-264 | addition is commutative |
| Edwards.PointAddIdentity | src/core/crypto.js:248-264 | (0, 1) is neutral on both sides |
| Edwards.PointAddInverse | src/core/crypto.js:248-264 | (-x, y) is the inverse of (x, y) |
| Edwards.RepresentsProduct | src/core/crypto.js:266-282 | a projective tuple that represents a point has `T*Z = X*Y` |
| Edwards.ExtendedAddCorrect | src/core/crypto.js:284-299 | `extendedAdd` of representations represents the affine sum, with `Z` not zero |
| Edwards.ExtendedDoubleCorrect | src/core/crypto.js:301-316 | `extendedDouble` represents the sum of the point with itself |
| Edwards.AffineOfRepresented | src/core/crypto.js:318-324 | `affinePoint` undoes the projective representation and does not throw |
| ScalarMul.LoopStep | src/core/crypto.js:332-337 | one iteration keeps `result` and `addend` on the curve and equal to the affine double-and-add |
| ScalarMul.ScalarMultiply | src/core/crypto.js:326-339 | throws exactly on negative scalars; on curve points equals double-and-add with `pointAdd` alone |
| ScalarMul.DoubleAndAddIsTimes | src/core/crypto.js:326-339 | with associativity, double-and-add is repeated addition |
| ScalarMul.MultiplyIsTimes | src/core/crypto.js:326-339 | with associativity, `scalarMultiply(P, k)` is `P` added `k` times |
| ScalarMul.TimesAdd | src/core/crypto.js:326-339 | `(j + k)P = jP + kP` |
| ScalarMul.TimesTimes | src/core/crypto.js:326-339 | `j(kP) = (jk)P` |
| ScalarMul.TimesCommute | src/core/crypto.js:326-339 | the order of two multiplications does not matter |
| ByteCodec.BytesToBigIntCorrect | src/core/crypto.js:130-138 | the detour through hex text gives the positional value, big- and little-endian |
| ByteCodec.BigIntToBytesIsToBE | src/core/crypto.js:140-147 | returns the fixed-width big-endian form of the reduced value and throws exactly when it does not fit |
| ByteCodec.BigIntToBytesCorrect | src/core/crypto.js:140-151 | both byte orders are inverted by the matching decoder |
| ByteCodec.BytesRoundTrip | src/core/crypto.js:130-151 | encoding a decoded byte string restores it when its value is already reduced |
| ByteCodec.HexText | src/core/browser-crypto.js:35-37 | `hexFromBytes` writes two lower-case digits per byte, the high one first |
| Compression.PackPoint | src/core/crypto.js:207-213 | writes 32 bytes: y below the top bit, little-endian, and the top bit set exactly for an x above (p-1)/2 |
| Compression.DenominatorNonZero | src/core/crypto.js:229-236 | the denominator `-1 - d*y^2` is never zero |
| Compression.CurveExists | src/core/crypto.js:15-22 | the hypotheses about the curve can be met |
| Compression.SolveX | src/core/crypto.js:229-237 | recovers an x exactly when some point of the curve has that y |
| Compression.AssertPrimeOrderPoint | src/core/crypto.js:194-200 | accepts exactly the points whose multiple by the order is the identity |
| Compression.UnpackPoint | src/core/crypto.js:219-242 | accepts exactly the encodings that denote a subgroup point and returns that point: on the curve, its y below the top bit, its x in the half the top bit says; and which error is thrown otherwise |
| Compression.UnpackOfPack | src/core/crypto.js:207-242 | packing a canonical subgroup point and unpacking gives that point and no other |
| Compression.PackOfUnpack | src/core/crypto.js:207-242 | packing an accepted encoding's point reproduces the bytes if and only if they are not the identity with its sign bit set |
| Compression.SignedIdentityAccepted | src/core/crypto.js:219-242 | the identity with its sign bit set is accepted, and denotes the identity and nothing else |
| Compression.PackThenUnpack | src/core/crypto.js:207-242 | the two calls composed return every canonical subgroup point |
| Compression.UnpackThenPack | src/core/crypto.js:207-242 | the two calls composed reproduce every accepted string but the identity with its sign bit set, which comes back without it |
| Compression.ZeroXIsIdentity | src/core/crypto.js:183-185 | the only subgroup point with x = 0 is the identity |
| NoteCrypto.RandomScalar | src/core/note.js:60-68 | returns the first acceptable draw reduced modulo the order, non-zero unless zero is allowed; none only if no remaining draw is acceptable |
| NoteCrypto.AcceptedMeans | src/core/note.js:60-68 | the acceptable draws are those below the largest multiple of the order up to 2^256, without multiples of the order if zero is not allowed |
| NoteCrypto.RandomScalarUniform | src/core/note.js:60-68 | every scalar is the result of the same number of accepted 256-bit draws: the rejection limit removes all bias |
| NoteCrypto.AsymEncryptWithSharedPoint | src/core/note.js:268-285 | the ciphertext is ephemeral key, nonce and sealed text under the hash of the shared point |
| NoteCrypto.AsymDecrypt | src/core/crypto.js:562-583 | short input, undecodable or identity ephemeral key and negative scalar are refused, each with its error; otherwise the tail is opened under the hash of the shared point, and a failed open is the decryption error |
| NoteCrypto.SharedPointsAgree | src/core/note.js:268-285 | both sides of the key agreement reach the same point |
| NoteCrypto.DecryptionUndoesEncryption | src/core/crypto.js:562-583 | every ciphertext for `secret * B` is answered with its plaintext |
| NoteCrypto.EncryptThenDecrypt | src/core/note.js:268-285 | encrypting to a public key and decrypting with its scalar returns the plaintext |
| NoteCrypto.SignNoteHash | src/core/note.js:346-370 | out-of-range scalars throw; otherwise the first draw that gives a nonce and a response below the field modulus signs: `R = r*B` packed and `s = r + mimc(R, P, message)*scalar` modulo the order; there is no signature only if no draw does |
| NoteCrypto.SignLoop | src/core/note.js:353-369 | the loop stops at the first usable draw and fills both halves of the signature from it |
| NoteCrypto.SignWith | src/core/note.js:354-368 | one round signs exactly if the response is below the field modulus, with the response over the five hashed words |
| NoteCrypto.RetryIsUnreachable | src/core/note.js:363-364 | when the order is not above the field modulus, as with the constants of the code, every accepted draw signs |
| NoteCrypto.SignatureVerifies | src/core/note.js:346-370 | every signature under the matching key satisfies `s*B = R + mimc(R, P, message)*P` |
| NoteCrypto.SignatureBindsMessage | src/core/note.js:346-370 | one signature stands for two messages only if their challenges times the scalar agree modulo the order, so with a prime order only if the challenges agree |
| NoteCrypto.PackedNonceBinds | src/core/note.js:354-366 | the packed commitment determines the nonce |
| JsBits.Concat32 | src/generated/varint.js:50-79 | or-ing `c << k` onto an `a` below bit `k` is concatenation, truncated to the 32-bit word |
| JsBits.BitAndMask | src/generated/varint.js:50-79 | masking with `2^k - 1` keeps the low `k` bits of the uint32 value |
| Varint.ScanVarint | src/generated/varint.js:50-79 | reading a base-128 encoding at any position gives its value and length |
| Varint.VarintLength | src/generated/varint.js:355-378 | the encoding has at most `k` bytes exactly when the value is below `2^(7k)` |
| Varint.WriteVarint32 | src/generated/varint.js:333-341 | stores exactly the base-128 encoding and nothing else |
| Varint.WriteVarint64 | src/generated/varint.js:343-354 | stores the base-128 encoding of hi*2^32+lo and leaves only its last byte in the object |
| Varint.Varint64Write | src/generated/varint.js:87-113 | pushes the same bytes as `writeVarint64` for every pair of halves |
| Varint.Int64LengthCorrect | src/generated/varint.js:355-378 | `int64Length` is the number of bytes `writeVarint64` writes |
| Varint.ZzEncodeCorrect | src/generated/varint.js:301-308 | `zzEncode` is the arithmetic zigzag map on all 64-bit values |
| Varint.ZzDecodeCorrect | src/generated/varint.js:310-317 | `zzDecode` is the inverse zigzag map on all 64-bit values |
| Varint.ZzRoundTrip | src/generated/varint.js:301-317 | decoding the zigzag encoding restores the value |
| Decimal.UInt64ToStringCorrect | src/generated/varint.js:157-202 | prints the canonical decimal numeral of hi*2^32+lo, for all halves |
| Decimal.IntermediatesSafe | src/generated/varint.js:157-202 | no intermediate of either branch reaches 2^53 |
| Decimal.NegateCorrect | src/generated/varint.js:213-223 | negates modulo 2^64, carry into the high word included |
| Decimal.Int64ToStringCorrect | src/generated/varint.js:138-148 | prints the canonical numeral of the signed value, the minimum included |
| Decimal.Int64FromStringCorrect | src/generated/varint.js:123-130 | for every optionally signed digit string, leading zeros and "-0" included, returns the two words of its value modulo 2^64 |
| Decimal.StringRoundTrip | src/generated/varint.js:123-202 | `int64FromString` undoes both printers: all 64 bits survive |
| Utf8.Utf8Length | src/generated/utf8.js:35-59 | is the number of bytes the string encodes to |
| Utf8.EncodeIsRfc3629 | src/generated/utf8.js:107-136 | on well-formed UTF-16 the encoding is the one of section 3 of RFC 3629 |
| Utf8.Utf8Write | src/generated/utf8.js:107-136 | writes exactly those bytes and returns their number |
| Utf8.Utf8Read | src/generated/utf8.js:60-105 | the result in terms of the decoded characters and of what each chunk flush emits, stale units included |
| Utf8.ReadOfWrite | src/generated/utf8.js:60-136 | reading what was written restores the string, lone surrogates included, if and only if no flush is stale |
| Utf8.ShortTextIsClean | src/generated/utf8.js:60-105 | every string of at most 16384 units is restored |
| Utf8.StaleTextFails | src/generated/utf8.js:60-105 | a concrete string of 16385 units that is not clean, and that reading its own encoding does not give back |
| Reader.ReadBack | src/generated/varint.js:50-79 | a varint written anywhere in a buffer is read back with its exact length |
| Reader.BinaryReader.Varint64Read | src/generated/varint.js:50-79 | on every buffer: value modulo 2^64 as two int32 words, error and new position |
| Reader.BinaryReader.Varint32Read | src/generated/varint.js:262-297 | on every buffer: the same outcome and position as the 64-bit reader, and its low 32 bits |
| Reader.BinaryReader.Uint32 | src/generated/binary.js:103-105 | the varint modulo 2^32 |
| Reader.BinaryReader.Int32 | src/generated/binary.js:106-108 | the varint as a signed 32-bit number |
| Reader.BinaryReader.Sint32 | src/generated/binary.js:109-112 | the inverse zigzag of the varint modulo 2^32 |
| Reader.BinaryReader.Int64 | src/generated/binary.js:123-126 | the varint as a signed 64-bit number |
| Reader.BinaryReader.Uint64 | src/generated/binary.js:127-130 | the varint modulo 2^64 |
| Reader.BinaryReader.Sint64 | src/generated/binary.js:131-136 | the inverse zigzag of the varint modulo 2^64 |
| Reader.BinaryReader.Bool | src/generated/binary.js:153-156 | true exactly for a non-zero 64-bit varint |
| Reader.BinaryReader.Fixed32 | src/generated/binary.js:113-117 | the four bytes as an unsigned number, and `NaN` exactly when fewer than four are left |
| Reader.BinaryReader.Sfixed32 | src/generated/binary.js:118-122 | the four bytes as a signed number, missing ones acting as zero |
| Reader.BinaryReader.Fixed64 | src/generated/binary.js:137-141 | the eight bytes as an unsigned number, missing ones acting as zero |
| Reader.BinaryReader.Sfixed64 | src/generated/binary.js:142-146 | the eight bytes as a signed number, missing ones acting as zero |
| Reader.BinaryReader.Bytes | src/generated/binary.js:157-162 | the bytes a length prefix announces, or an error when they run past the end |
| Reader.BinaryReader.String | src/generated/binary.js:163-166 | the text of those bytes |
| Reader.BinaryReader.Tag | src/generated/binary.js:58-63 | field number and wire type, and exactly which tags are illegal |
| Reader.BinaryReader.SkipVarint | src/generated/binary.js:64-77 | `skip()` stops behind the first byte without a continuation bit or throws at the end |
| Reader.BinaryReader.Skip | src/generated/binary.js:64-77 | `skip(length)` advances or throws without advancing |
| Reader.BinaryReader.SkipField | src/generated/binary.js:78-102 | `skipType` terminates on every buffer with the outcome of the recursive specification |
| Reader.BinaryReader.SkipFieldsOfGroup | src/generated/binary.js:90-95 | the loop over a group ends at its end tag, nested groups included |
| Reader.SkipType | src/generated/binary.js:78-102 | the position never moves back and is within the buffer whenever it returns |
| Reader.SkipMeetsVarint | src/generated/binary.js:64-77 | on every buffer, a varint is read if and only if it is skipped within ten bytes, and then both stop at the same position |
| Reader.SkipMeetsBytes | src/generated/binary.js:86-88 | on every buffer, reading and skipping a length-delimited value accept alike and stop at the same position |
| WireSkip.SkipMeetsReading | src/generated/binary.js:78-102 | on every buffer and for every wire type, a field can be read if and only if `skipType` accepts it and no varint skipped inside is longer than ten bytes; both then stop at the same position |
| WireSkip.SkipMeetsGroup | src/generated/binary.js:89-93 | the same for a group of fields at any depth |
| WireSkip.ReadFieldBack | src/generated/binary.js:43-328 | a field in the writer's encoding is read back by its wire type alone, groups at any depth included |
| WireSkip.LongVarintIsSkippedOnly | src/generated/varint.js:50-79 | an eleven-byte varint that `skip()` accepts and the reader rejects |
| Writer.Op.Proceed | src/generated/binary.js:178-182 | writes exactly the operation's bytes; a 64-bit value is consumed down to its last byte |
| Writer.SecondRun | src/generated/varint.js:343-354 | running a consumed 64-bit operation again writes only that last byte |
| Writer.WriteFixed32 | src/generated/varint.js:379-384 | stores the four little-endian bytes of the uint32 value |
| Writer.EmitLength | src/generated/binary.js:222-231 | the announced lengths add up to the number of bytes emitted, whether or not 64-bit values were consumed |
| Writer.BinaryWriter.constructor | src/generated/binary.js:201-205 | a new writer is a valid empty list with nothing saved |
| Writer.BinaryWriter.Push | src/generated/binary.js:217-221 | appends one operation: `len`, `tail` and the links stay consistent and saved lists are untouched |
| Writer.BinaryWriter.Uint32 | src/generated/binary.js:264-276 | appends the varint of `value >>> 0`, with exactly the length it reserves |
| Writer.BinaryWriter.Int32 | src/generated/binary.js:277-281 | appends ten bytes for a negative value and the 32-bit varint otherwise |
| Writer.BinaryWriter.Sint32 | src/generated/binary.js:282-284 | appends the zigzag varint |
| Writer.BinaryWriter.Int64 | src/generated/binary.js:285-290 | appends the varint of the value modulo 2^64 |
| Writer.BinaryWriter.Sint64 | src/generated/binary.js:291-296 | appends the zigzag varint of the 64-bit value |
| Writer.BinaryWriter.Fixed32 | src/generated/binary.js:306-310 | appends the four bytes of the word |
| Writer.BinaryWriter.Fixed64 | src/generated/binary.js:297-302 | appends the low word, then the high word |
| Writer.BinaryWriter.Bool | src/generated/binary.js:303-305 | appends one byte |
| Writer.BinaryWriter.Bytes | src/generated/binary.js:317-322 | appends length and bytes, the empty case included |
| Writer.BinaryWriter.String | src/generated/binary.js:323-328 | appends the UTF-8 length and the UTF-8 bytes |
| Writer.BinaryWriter.Tag | src/generated/binary.js:261-263 | appends the varint of field number and wire type |
| Writer.BinaryWriter.Fork | src/generated/binary.js:232-237 | saves the current content and starts an empty list |
| Writer.BinaryWriter.Reset | src/generated/binary.js:238-250 | returns to the list saved last, or to an empty one |
| Writer.BinaryWriter.Link | src/generated/binary.js:255-258 | the operations behind the noop join the parent list without being copied |
| Writer.BinaryWriter.Ldelim | src/generated/binary.js:251-260 | content becomes parent ++ varint(child length) ++ child, with an empty parent when nothing was forked |
| Writer.BinaryWriter.Finish | src/generated/binary.js:222-231 | every call emits exactly the content it finds; the next call emits the same bytes if and only if every 64-bit operation holds a value below 128, for any longer one is shifted away |
| Writer.FinishTwice | src/generated/binary.js:222-231 | a failing case: `int64(128)` is emitted as 0x80 0x01 by the first `finish` and as 0x01 0x00 by the second |
| Integers.Uint32Back | src/generated/binary.js:103-105 | `uint32` round-trips over its full range |
| Integers.Int32Back | src/generated/binary.js:277-281 | `int32` round-trips over its full range |
| Integers.Sint32Back | src/generated/binary.js:282-284 | `sint32` round-trips over its full range |
| Integers.Int64Back | src/generated/binary.js:285-288 | `int64` round-trips over its full range |
| Integers.Uint64Back | src/generated/binary.js:289-290 | `uint64` round-trips over its full range |
| Integers.Sint64Back | src/generated/binary.js:291-296 | `sint64` round-trips over its full range |
| Integers.BoolBack | src/generated/binary.js:303-305 | `bool` round-trips |
| Integers.Fixed32Back | src/generated/binary.js:306-310 | `fixed32` and `sfixed32` round-trip over their full ranges |
| Integers.Fixed64Back | src/generated/binary.js:297-302 | `fixed64` and `sfixed64` round-trip over their full ranges |
| MessageTree.WriteField | src/generated/clairveil/privacy/v1/genesis.js:29-72 | one field, nested messages through `fork`/`ldelim`, appends exactly its encoding |
| MessageTree.WriteFields | src/generated/clairveil/privacy/v1/genesis.js:29-72 | a list of fields appends exactly its encoding |
| MessageTree.SkipLandsAtEnd | src/generated/binary.js:78-102 | for every well-formed field in the writer's encoding, groups at any depth included, `skipType` lands where the field ends |
| MessageTree.TagBack | src/generated/binary.js:58-63 | a tag is read back with its number and wire type |
| MessageTree.DelimitedBack | src/generated/binary.js:157-162 | a length-delimited value is read back whole |
| MessageTree.DecodeOfEncode | src/generated/clairveil/privacy/v1/query.js:187-211 | decoding an encoded message, at any position, gives exactly the fields the decoder knows and stops at its end |
| MessageTree.KnownIsEverything | src/generated/clairveil/privacy/v1/query.js:187-211 | a decoder that knows every field drops nothing |
| MessageTree.TreeRoundTrip | src/generated/binary.js:43-328 | the whole tree of nested messages comes back, empty messages included |
| MessageTree.DecodeMessage | src/generated/clairveil/privacy/v1/query.js:195-211 | the decoding loop computes the specification on every buffer and schema |
| MessageTree.EncodeThenDecode | src/generated/binary.js:43-328 | writer, `finish`, reader and decoder together return the fields that were written |
| MerklePath.ShownIsExact | src/privacy/merkle-path.js:31-56 | normalized integers parse back and print alike only when equal |
| MerklePath.FieldText | src/privacy/merkle-path.js:58-65 | canonical field text and field elements determine each other |
| MerklePath.FieldTexts | src/privacy/merkle-path.js:58-65 | the accepted field texts, digit by digit |
| MerklePath.RequestMeans | src/privacy/merkle-path.js:78-112 | the accepted requests spelled out: 1 to 16 distinct non-zero commitments, a root, and a height below 2^63 or none |
| MerklePath.CheckHelpers | src/privacy/merkle-path.js:176-182 | the loop accepts exactly the bits of the leaf index |
| MerklePath.Fold | src/privacy/merkle-path.js:183-191 | the fold computes the root of the path, and reproduces the sibling texts |
| MerklePath.NormalizePath | src/privacy/merkle-path.js:151-201 | accepts exactly the paths that lead from the requested commitment to the root |
| MerklePath.NormalizeResponse | src/privacy/merkle-path.js:118-208 | accepts exactly the responses with the requested root and height, 1 to 2^32 leaves and one path per commitment, each with 32 siblings and the 32 bits of its index that lead to the root; returns their paths in request order |
| MerklePath.TruthIsAccepted | src/privacy/merkle-path.js:92-208 | every well-formed request for up to 16 leaves of a tree of 32 levels is answered, and every truthful response to it accepted, in any of the spellings of its integers |
| MerklePath.Uint64Exact | src/privacy/merkle-path.js:31-56 | the values taken for a 64-bit integer are its number while exact, its bigint and its decimal numeral, and no others |
| MerklePath.RootBinds | src/privacy/merkle-path.js:183-194 | equal root and index force equal leaf and siblings, or the two folds hash different pairs to one node at some level |
| MerklePath.CollisionIsReal | src/privacy/merkle-path.js:183-191 | what the binding results call a collision is two different pairs with one node hash |
| MerklePath.PathsBind | src/privacy/merkle-path.js:151-201 | two accepted paths with equal root and leaf index have the same commitment and siblings, or exhibit a node collision |
| MerklePath.LeavesAreDistinct | src/privacy/merkle-path.js:118-208 | the distinct commitments of an accepted response have distinct leaf indices, or two of its paths exhibit a node collision |
| MerklePath.TreePathLeadsUp | src/privacy/merkle-path.js:183-191 | in a tree, the fold from a leaf reaches the node above it at every level |
| MerklePath.HonestPathAccepted | src/privacy/merkle-path.js:151-201 | every path of an honest tree is accepted |
| MerklePath.HonestResponseAccepted | src/privacy/merkle-path.js:118-208 | a whole honest response is accepted |
| MerklePath.AcceptedIsMember | src/privacy/merkle-path.js:151-201 | against the root of a tree, an accepted commitment is the leaf at its index with the tree's siblings, or collides with the tree's path |
| MerklePath.LeafPathAccepted | src/privacy/merkle-path.js:151-201 | a path with the 32 siblings and the 32 bits of a leaf is accepted against the root of its tree |
| MerklePath.PathProvider.LookupMerklePath | src/privacy/merkle-path.js:217-230 | finds the last path of the snapshot with that commitment; "unknown commitment" exactly if there is none, "not canonical" exactly for texts that are no non-zero field element |
| MerklePath.LowerCaseIs | src/privacy/merkle-path.js:213-215 | keys and root are lower-cased letter by letter |
| MerklePath.SnapshotKeys | src/privacy/merkle-path.js:211-216 | the paths of a verified snapshot stand under the requested commitments, each under its own |
| MerklePath.VerifyThenLookup | src/privacy/merkle-path.js:211-231 | validating a response, building the provider and looking up: each requested commitment gives its own verified path, every other text an error |
| AssetRegistry.ValidatedIsDetermined | src/privacy/asset-registry.js:108-163 | an accepted mapping is determined by its denom, whatever the server sent |
| AssetRegistry.ValidateMeans | src/privacy/asset-registry.js:108-163 | accepted is exactly: version "privacy-asset-registry-v1", a canonical denom, the 32 bytes of its non-zero hash below the modulus, and the denom or hex ID that was asked for |
| AssetRegistry.DenomTexts | src/privacy/asset-denom.js:1-9 | the canonical denoms, character by character |
| AssetRegistry.IDTexts | src/privacy/asset-registry.js:47-58 | the texts taken as an ID: 64 hex digits of either case, standing for the same digits in lower case |
| AssetRegistry.OwnIDText | src/privacy/asset-registry.js:47-58 | the hex text of an ID, in either case, stands for that ID |
| AssetRegistry.NormalizeResponse | src/privacy/asset-registry.js:108-163 | accepts exactly the responses with the literal version, a canonical denom and the bytes of its hash, and returns their denom, bytes, hex text and value with an array of its own |
| AssetRegistry.CopyAsset | src/privacy/asset-registry.js:88-102 | a copy shares no array with the original |
| AssetRegistry.Resolver.StartByDenom | src/privacy/asset-registry.js:189-193 | refused exactly for other than canonical denoms; a hit exactly for a remembered denom, and then the stored, verified entry of that denom |
| AssetRegistry.Resolver.StartByID | src/privacy/asset-registry.js:201-205 | refused exactly for other than canonical IDs; a hit exactly for a remembered ID, and then the stored, verified entry with that ID |
| AssetRegistry.Resolver.FinishCached | src/privacy/asset-registry.js:189-192 | a hit is delivered as a fresh copy of the mapping of its denom |
| AssetRegistry.Resolver.Finish | src/privacy/asset-registry.js:193-211 | a response is validated, remembered under both keys and delivered as a fresh copy |
| AssetRegistry.Resolver.Remember | src/privacy/asset-registry.js:225-230 | both maps gain the entry and stay paired |
| AssetRegistry.Resolver.Clear | src/privacy/asset-registry.js:184-187 | empties both maps; entries already handed to a waiting query stay intact |
| AssetRegistry.RunIsRight | src/privacy/asset-registry.js:170-231 | in every run of the state machine from a sound state, every delivered mapping is right and the state stays sound |
| AssetRegistry.DeliveredExactly | src/privacy/asset-registry.js:189-211 | a step delivers exactly if it hands over a hit or an acceptable response to a query that waits for one, and what it delivers answers that query |
| AssetRegistry.HonestAnswerDelivers | src/privacy/asset-registry.js:193-211 | the response with the literal version, a canonical denom and the bytes of its hash delivers that mapping to every query that waits for it, by denom or by ID |
| AssetRegistry.OnlyHonestAnswersDeliver | src/privacy/asset-registry.js:193-211 | no other response delivers anything |
| AssetRegistry.TakeStep | src/privacy/asset-registry.js:170-231 | one step on the mutable resolver is one step of the state machine, and nothing callers hold is shared with the cache |
| AssetRegistry.Drive | src/privacy/asset-registry.js:170-231 | for every interleaving of queries, responses, clears and writes into returned arrays, the mutable resolver delivers, step by step, exactly what the state machine does, and each delivered mapping is right |
| AssetRegistry.RightIsUnique | src/privacy/asset-registry.js:170-231 | two right results of one query agree; by ID, unless their denoms exhibit a hash collision |
| AssetRegistry.FreshIsRight | src/privacy/asset-registry.js:145-163 | a fresh validated query gives a right result |
| AssetRegistry.MapsAgree | src/privacy/asset-registry.js:225-230 | the two maps are inverse to each other, up to two denoms with one ID |
| EvmHarness.Layout | tools/verify-evm-integration.js:138-142 | the runtime code has length 0x7b and the intended layout for every address |
| EvmHarness.LandingIsValid | tools/verify-evm-integration.js:138 | offset 0x51 is a valid jump destination whatever the address bytes |
| EvmHarness.PushDataIsNoTarget | tools/verify-evm-integration.js:138 | no byte inside the data of a push, so none of the address, is a jump destination |
| EvmHarness.HarnessAlwaysReverts | tools/verify-evm-integration.js:128-138 | exactly one call to the configured address with the same calldata and value, then a revert with 32 bytes 0xa5 if and only if it succeeded, 0xf1 otherwise |
| EvmHarness.MarkersDiffer | tools/verify-evm-integration.js:14-15 | the two markers can be told apart |
| EvmHarness.InitReturnsRuntime | tools/verify-evm-integration.js:143 | the init code returns exactly the runtime code |
| BatchShapes.CanonicalIffLanguage | tools/verify-evm-integration.js:79-87 | comparing with the rebuilt role list accepts exactly: payments, at most one change, padding |
| BatchShapes.AssignAmounts | tools/verify-evm-integration.js:95-101 | the loop hands out payment, change and zero amounts in role order |
| BatchShapes.LoadShape | tools/verify-evm-integration.js:48-124 | accepts exactly the good cases with a new id; the disclosure modes are looked up on a plain object, so names every object inherits count as known |
| BatchShapes.LoadReleaseShapes | tools/verify-evm-integration.js:35-126 | accepts exactly five good cases with distinct ids under the literal schema version and limits |
| BatchShapes.GoodCaseMeans | tools/verify-evm-integration.js:48-110 | the accepted cases spelled out: limits 16 and 32, numerals of positive integers, and roles that follow from the amounts, with a change output exactly if the payments leave a rest |
| BatchShapes.ShapeMeans | tools/verify-evm-integration.js:95-123 | the shape of an accepted case spelled out, counts and `selfViewEnabled` included |
| BatchShapes.OnlyModesUnlessInherited | tools/verify-evm-integration.js:75-76 | the modes of an accepted case are real modes if and only if none of them is an inherited property name |
| BatchShapes.InheritedModeIsAccepted | tools/verify-evm-integration.js:75-76 | a case with disclosure mode "toString" that is accepted |
| BatchShapes.ValueIsConserved | tools/verify-evm-integration.js:88-101 | the outputs of every accepted case add up to its inputs, whatever its disclosure modes |
| BatchShapes.ValidateOutputs | tools/verify-evm-integration.js:1028-1098 | the flag-driven loop accepts exactly the same role language, with positive payments and change, zero padding, and the payments' amounts |
| BatchShapes.GoodOutputsMean | tools/verify-evm-integration.js:1028-1098 | the accepted outputs spelled out: positive payments, a positive change output or none, then empty padding |
| BatchShapes.ShapePassesOutputCheck | tools/verify-evm-integration.js:1028-1096 | outputs that follow an accepted shape pass that loop |
| Nullifiers.StatusFold.AddStatus | src/browser/public-client.js:534-544 | one status keeps the map of unanimous keys and the set of spoiled ones |
| Nullifiers.CheckNullifiers | src/browser/public-client.js:522-566 | the entries are the answers to exactly the batches sent, and the result maps a key to b exactly when some entry spells it and every entry that does spells no other key and says b, as a boolean or in one or both record properties |
| Nullifiers.SingleStatus | src/browser/public-client.js:522-566 | one entry `{nullifier: k, used: b}` gives the result k -> b |
| Nullifiers.ObservedConcat | src/browser/public-client.js:545-553 | what was observed is the concatenation over the batches |
| Nullifiers.OrderIsIrrelevant | src/browser/public-client.js:522-566 | the result depends only on the multiset of statuses, not on order or batches |
| Nullifiers.ConflictIsFinal | src/browser/public-client.js:538-542 | a key with an unusable or contradicted status never reappears |
| Nullifiers.NormalizedIsDistinct | src/browser/public-client.js:523 | each non-empty key is requested once |
| Nullifiers.RequestsCover | src/browser/public-client.js:545-549 | the bodies sent hold 1000 keys each, the last at least one, and join to the whole list |

## Left out

- Associativity of the curve addition: a hypothesis of the group results, not proved; every other group axiom is.
- The concrete 254-bit constants: primality of the modulus, the order of the base point and the residue classes of -1 and `d` are hypotheses.
- SHA-256, AES-GCM, MiMC and the node and asset-ID hashes: unknown functions; only "decryption undoes encryption and the tag adds 16 bytes" is assumed; results that rest on collision resistance name the collision instead.
- Random bytes: a finite tape of 32-byte draws; `RandomScalar` returns none exactly when no remaining draw is accepted and `SignLoop` none only when no draw signs; termination with probability one is not modelled.
- Argument coercion (`BigInt(x)`, `Uint8Array.from`, `normalizeHex` prefixes and upper case): values are taken after it.
- Alias spellings of object properties in path requests, path responses and registry responses, and the error raised when two spellings disagree; the nullifier fold does model its two spellings.
- Error texts: one constructor stands for the throws of a validator where callers cannot tell them apart otherwise.
- `pool` in `binary.js`: `alloc` builds a new pool for every call, so `finish` is modelled with a fresh buffer.
- `float` and `double` (they only throw), the unused `varint32write`, and the duplicate codecs under `codegen/generated`.
- Decimal.Int64FromStringCorrect: `BigInt(text)` is modelled on optionally signed decimal digits, not on hex text or white space.
- Writer.BinaryWriter.Bytes: requires fewer than 2^32 bytes, beyond which the length `>>> 0` no longer matches the array.
- MessageTree: generated codecs are modelled over a schema from field numbers to kinds (64-bit varint, bytes, text, message, unknown); default-value elision, repeated-field grouping and the property names of concrete messages are not.
- MerklePath.PathProvider.LookupMerklePath: lower-casing changes the letters A to Z only; the texts of a verified snapshot hold no other letters.
- MerklePath.NormalizePath: helper entries are taken after `Number(value)`; a fraction or `NaN` is refused like any other value that is not 0 or 1.
- AssetRegistry.NormalizeResponse: the asset ID is taken after base64 or hex decoding, the version after trimming; the hash of a denom is a parameter.
- AssetRegistry.MapsAgree: two denoms with one ID would share the by-ID entry of the one remembered last; by-denom results are right regardless.
- EvmHarness.HarnessAlwaysReverts: gas is not metered, returned data is empty as in the code, and instructions the two programs do not use stop the machine.
- EvmHarness: the hex text of the bytecode and the check of the address format are not modelled, only the bytes.
- BatchShapes.LoadShape: texts are taken after `String(value ?? "").trim()`; reading and parsing the fixture file is not modelled.
- BatchShapes.ValidateOutputs: of `validateBatch`, the role and amount checks; digests, commitments, disclosure and transaction evidence are single-branch checks.
- Nullifiers.CheckNullifiers: the server is a function of batch position and batch, keys are normalized by a parameter, and the privacy-state adapter path is not modelled.
- HTTP, retries, wallets, reservations, bech32 addresses, note JSON and view tags: plumbing or easy members.
