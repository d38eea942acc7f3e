/** Key agreement encryption and note signatures of `note.js`, over uninterpreted hash and cipher functions. */
module NoteCrypto {
  import opened Wrappers
  import opened NumberTheory
  import opened FieldArith
  import opened JsBits
  import opened ByteCodec
  import opened Edwards
  import opened ScalarMul
  import opened Compression

  /** The foreign primitives; only `Authentic` is ever assumed about them. */
  datatype Primitives = Primitives(
    sha256: seq<byte> -> seq<byte>,
    encrypt: (seq<byte>, seq<byte>, seq<byte>) -> seq<byte>,
    decrypt: (seq<byte>, seq<byte>, seq<byte>) -> Option<seq<byte>>,
    mimcHash: seq<int> -> nat)

  /** AES-GCM: the tag adds 16 bytes and decryption under the same key and nonce undoes encryption. */
  ghost predicate Authentic(f: Primitives) {
    forall k, n, m ::
      |f.encrypt(k, n, m)| == |m| + 16 && f.decrypt(k, n, f.encrypt(k, n, m)) == Some(m)
  }

  /** The base point generates a group of exactly `order` elements. */
  ghost predicate BaseGenerates(c: Curve) {
    && Group(c) && Compressible(c)
    && Good(c, Ok(c.base))
    && Times(c, c.order, c.base) == Ok(IDENTITY)
    && forall k :: 0 < k < c.order ==> Times(c, k, c.base) != Ok(IDENTITY)
  }

  // ----- randomScalar -----

  function ScalarLimit(order: int): int
    requires 0 < order
  {
    Pow2(256) - Pow2(256) % order
  }

  /** The scalar a draw stands for. */
  function ScalarOf(order: int, draw: seq<byte>): (r: int)
    requires 0 < order
    ensures 0 <= r < order
  {
    FromBE(draw) % order
  }

  predicate Accepted(order: int, draw: seq<byte>, allowZero: bool)
    requires 0 < order
  {
    FromBE(draw) < ScalarLimit(order) && (allowZero || ScalarOf(order, draw) != 0)
  }

  /** The rejection loop, reading its 32-byte random draws from a tape; `None` when the tape runs out. */
  method RandomScalar(order: int, tape: seq<seq<byte>>, start: nat, allowZero: bool) returns (r: Option<int>, next: nat)
    requires 0 < order && start <= |tape|
    ensures start <= next <= |tape|
    ensures r.None? ==> next == |tape| && forall j :: start <= j < next ==> !Accepted(order, tape[j], allowZero)
    ensures r.Some? ==>
              && start < next && Accepted(order, tape[next - 1], allowZero)
              && r.value == ScalarOf(order, tape[next - 1]) && 0 <= r.value < order && (allowZero || r.value != 0)
              && forall j :: start <= j < next - 1 ==> !Accepted(order, tape[j], allowZero)
    ensures r.Some? ==> r.value == FromBE(tape[next - 1]) % order
  {
    hide FromBE, ScalarLimit, BytesToBigIntBE;
    next := start;
    while next < |tape|
      invariant start <= next <= |tape|
      invariant forall j :: start <= j < next ==> !Accepted(order, tape[j], allowZero)
    {
      BytesToBigIntCorrect(tape[next]);
      var candidate := BytesToBigIntBE(tape[next]);
      next := next + 1;
      if candidate >= ScalarLimit(order) {
        continue;
      }
      var scalar := candidate % order;
      if !allowZero && scalar == 0 {
        continue;
      }
      return Some(scalar), next;
    }
    return None, next;
  }

  /** The accepted draws are those below the largest multiple of the order, without the multiples themselves if asked. */
  lemma AcceptedMeans(order: int, draw: seq<byte>, allowZero: bool)
    requires 0 < order
    ensures Accepted(order, draw, allowZero) <==>
              FromBE(draw) < Pow2(256) / order * order && (allowZero || FromBE(draw) % order != 0)
  {
    hide Pow2, FromBE;
    DivisionIdentity(Pow2(256), order);
  }

  ghost function Preimages(order: int, limit: nat, s: int): (p: set<int>)
    requires 0 < order
    ensures forall x :: x in p <==> 0 <= x < limit && x % order == s
  {
    set x | 0 <= x < limit && x % order == s
  }

  lemma {:induction false} PreimageCount(order: int, q: nat, s: int)
    requires 0 <= s < order
    ensures 0 <= q * order && |Preimages(order, q * order, s)| == q
  {
    if q == 0 {
      assert 0 * order == 0;
      assert Preimages(order, 0, s) == {};
    } else {
      PreimageCount(order, q - 1, s);
      var lo := (q - 1) * order;
      assert q * order == lo + order;
      forall x | lo <= x < lo + order ensures x % order == s <==> x == lo + s {
        DivModUnique(x, q - 1, x - lo, order);
      }
      assert Preimages(order, q * order, s) == Preimages(order, lo, s) + {lo + s};
    }
  }

  /** Below the limit every scalar has the same number of 256-bit preimages: rejection sampling has no bias. */
  lemma RandomScalarUniform(order: int, s: int)
    requires 0 <= s < order <= Pow2(256)
    ensures 0 <= ScalarLimit(order) && |Preimages(order, ScalarLimit(order), s)| == Pow2(256) / order > 0
    ensures forall draw :: Accepted(order, draw, true) && FromBE(draw) % order == s <==>
                             FromBE(draw) in Preimages(order, ScalarLimit(order), s)
  {
    hide Pow2;
    var q := Pow2(256) / order;
    assert Pow2(256) == q * order + Pow2(256) % order;
    MulBound(q, order);
    assert q == 0 ==> q * order == 0;
    assert q >= 1;
    PreimageCount(order, q, s);
  }

  // ----- encryption to a public key -----

  method AsymEncryptWithSharedPoint(c: Curve, f: Primitives, plaintext: seq<byte>, receiver: Point,
                                    ephemeralScalar: nat, nonce: seq<byte>)
    returns (cipherText: seq<byte>, sharedPoint: Point)
    requires Compressible(c) && OnCurve(c, c.base) && OnCurve(c, receiver)
    ensures Multiply(c, ephemeralScalar, receiver) == Ok(sharedPoint)
    ensures Multiply(c, ephemeralScalar, c.base).Ok?
    ensures cipherText == Packed(c, Multiply(c, ephemeralScalar, c.base).value) + nonce
                          + f.encrypt(f.sha256(Packed(c, sharedPoint)), nonce, plaintext)
  {
    hide OnCurve, DoubleAndAdd, Packed;
    var ephemeral := ScalarMultiply(c, c.base, ephemeralScalar);
    var shared := ScalarMultiply(c, receiver, ephemeralScalar);
    sharedPoint := shared.value;
    var sharedBytes := PackPoint(c, sharedPoint);
    var sharedSecret := f.sha256(sharedBytes[..]);
    var ephemeralBytes := PackPoint(c, ephemeral.value);
    cipherText := ephemeralBytes[..] + nonce + f.encrypt(sharedSecret, nonce, plaintext);
  }

  /** The last step of `asymDecrypt`: the AES-GCM call under the key derived from the shared point. */
  function Opened(c: Curve, f: Primitives, bytes: seq<byte>, shared: Point): Result<seq<byte>>
    requires 0 < c.p && |bytes| >= 60
  {
    match f.decrypt(f.sha256(Packed(c, shared)), bytes[32..44], bytes[44..])
    case Some(m) => Ok(m)
    case None => Err(DecryptionFailed)
  }

  /** What `asymDecrypt` must answer once the ephemeral key decodes to `P`. */
  function Answer(c: Curve, f: Primitives, bytes: seq<byte>, scalar: int, P: Point): Result<seq<byte>>
    requires 1 < c.p && |bytes| >= 60
  {
    if P == IDENTITY then Err(IdentityNotAllowed)
    else if scalar < 0 then Err(NegativeScalar)
    else
      var shared := Multiply(c, scalar, P);
      if shared.Err? then Err(shared.error) else Opened(c, f, bytes, shared.value)
  }

  method AsymDecrypt(c: Curve, f: Primitives, bytes: seq<byte>, scalar: int) returns (r: Result<seq<byte>>)
    requires Compressible(c)
    ensures |bytes| < 60 ==> r == Err(BadLength)
    ensures |bytes| >= 60 && r.Ok? ==> exists P :: Decodes(c, bytes[..32], P)
    ensures forall P :: |bytes| >= 60 && Decodes(c, bytes[..32], P) ==> r == Answer(c, f, bytes, scalar, P)
    ensures |bytes| >= 60 && Decodes(c, bytes[..32], Point(0, 1)) ==> r == Err(IdentityNotAllowed)
    ensures forall P :: |bytes| >= 60 && Decodes(c, bytes[..32], P) && P != Point(0, 1) ==>
              if scalar < 0 then r == Err(NegativeScalar)
              else
                && Multiply(c, scalar, P).Ok?
                && var plain := f.decrypt(f.sha256(Packed(c, Multiply(c, scalar, P).value)), bytes[32..44], bytes[44..]);
                   r == if plain.Some? then Ok(plain.value) else Err(DecryptionFailed)
  {
    hide Decodes, FromLE, ValidCurve, OnCurve, Answer;
    if |bytes| < 32 + 12 + 16 {
      return Err(BadLength);
    }
    CompressibleModulus(c);
    var unpacked := UnpackPoint(c, bytes[..32]);
    if unpacked.Err? {
      return Err(unpacked.error);
    }
    DecodesOnlyOne(c, bytes[..32], unpacked.value);
    r := AnswerFor(c, f, bytes, scalar, unpacked.value);
    AnswerMeans(c, f, bytes, scalar, unpacked.value);
  }

  /** The answer, branch by branch. */
  lemma AnswerMeans(c: Curve, f: Primitives, bytes: seq<byte>, scalar: int, P: Point)
    requires Compressible(c) && 1 < c.p && |bytes| >= 60 && OnCurve(c, P)
    ensures P == Point(0, 1) ==> Answer(c, f, bytes, scalar, P) == Err(IdentityNotAllowed)
    ensures P != Point(0, 1) ==>
              if scalar < 0 then Answer(c, f, bytes, scalar, P) == Err(NegativeScalar)
              else
                && Multiply(c, scalar, P).Ok?
                && var plain := f.decrypt(f.sha256(Packed(c, Multiply(c, scalar, P).value)), bytes[32..44], bytes[44..]);
                   Answer(c, f, bytes, scalar, P) == if plain.Some? then Ok(plain.value) else Err(DecryptionFailed)
  {
    hide OnCurve, ValidCurve, DoubleAndAdd, Packed;
    if scalar >= 0 { MultiplyGood(c, scalar, P); }
  }

  /** `asymDecrypt` after `unpackPoint`. */
  method AnswerFor(c: Curve, f: Primitives, bytes: seq<byte>, scalar: int, ephemeral: Point)
    returns (r: Result<seq<byte>>)
    requires Compressible(c) && |bytes| >= 60 && Canonical(c, ephemeral) && OnCurve(c, ephemeral)
    ensures r == Answer(c, f, bytes, scalar, ephemeral)
  {
    hide OnCurve, DoubleAndAdd, Opened, ValidCurve;
    CompressibleModulus(c);
    DivModUnique(ephemeral.x, 0, ephemeral.x, c.p);
    DivModUnique(ephemeral.y, 0, ephemeral.y, c.p);
    if Mod(ephemeral.x, c.p) == 0 && Mod(ephemeral.y, c.p) == 1 {
      return Err(IdentityNotAllowed);
    }
    var shared := ScalarMultiply(c, ephemeral, scalar);
    if shared.Err? {
      return Err(shared.error);
    }
    r := OpenWith(c, f, bytes, shared.value);
  }

  method OpenWith(c: Curve, f: Primitives, bytes: seq<byte>, shared: Point) returns (r: Result<seq<byte>>)
    requires Compressible(c) && |bytes| >= 60
    ensures r == Opened(c, f, bytes, shared)
  {
    var packed := PackPoint(c, shared);
    var plain := f.decrypt(f.sha256(packed[..]), bytes[32..44], bytes[44..]);
    r := if plain.Some? then Ok(plain.value) else Err(DecryptionFailed);
  }

  lemma DecodesOnlyOne(c: Curve, bytes: seq<byte>, Q: Point)
    requires Compressible(c) && Decodes(c, bytes, Q)
    ensures Canonical(c, Q) && OnCurve(c, Q)
    ensures forall P :: Decodes(c, bytes, P) ==> P == Q
  {
    forall P | Decodes(c, bytes, P) ensures P == Q {
      DecodesUnique(c, bytes, P, Q);
    }
  }

  lemma DecodesUnique(c: Curve, bytes: seq<byte>, P: Point, Q: Point)
    requires Compressible(c) && Decodes(c, bytes, P) && Decodes(c, bytes, Q)
    ensures P == Q
  {
    SameX(c, P, Q, FromLE(bytes) >= Pow2(255));
  }

  lemma MultiplyCanonical(c: Curve, k: nat, P: Point)
    requires Group(c) && Good(c, Ok(P))
    ensures Multiply(c, k, P) == Times(c, k, P) && Good(c, Times(c, k, P))
  {
    MultiplyIsTimes(c, k, P);
    ReduceCanonical(c, P);
    TimesGood(c, k, P);
  }

  /** Every multiple of the base point passes the subgroup test. */
  lemma {:induction false} BaseMultipleInSubgroup(c: Curve, k: nat)
    requires BaseGenerates(c)
    ensures Good(c, Times(c, k, c.base)) && InSubgroup(c, Times(c, k, c.base).value)
  {
    TimesGood(c, k, c.base);
    var P := Times(c, k, c.base).value;
    MultiplyCanonical(c, c.order, P);
    TimesCommute(c, c.order, k, c.base);
    IdentityTimes(c, k);
  }

  lemma {:induction false} IdentityTimes(c: Curve, k: nat)
    requires ValidCurve(c)
    ensures Times(c, k, IDENTITY) == Ok(IDENTITY)
  {
    if k > 0 {
      IdentityTimes(c, k - 1);
      IdentityOnCurve(c);
      PlusIdentity(c, Ok(IDENTITY));
    }
  }

  /** Both sides of the key agreement reach the same point. */
  lemma SharedPointsAgree(c: Curve, secret: nat, ephemeral: nat)
    requires BaseGenerates(c)
    ensures Multiply(c, secret, c.base).Ok? && Multiply(c, ephemeral, c.base).Ok?
    ensures Multiply(c, ephemeral, Multiply(c, secret, c.base).value) == Multiply(c, secret, Multiply(c, ephemeral, c.base).value)
    ensures Multiply(c, ephemeral, Multiply(c, secret, c.base).value).Ok?
  {
    MultiplyCanonical(c, secret, c.base);
    MultiplyCanonical(c, ephemeral, c.base);
    TimesCommute(c, secret, ephemeral, c.base);
    MultiplyCanonical(c, ephemeral, Times(c, secret, c.base).value);
    MultiplyCanonical(c, secret, Times(c, ephemeral, c.base).value);
  }

  /** Every ciphertext for `secret * B`, whatever the nonces, is answered with its plaintext under `secret`. */
  lemma DecryptionUndoesEncryption(c: Curve, f: Primitives, plaintext: seq<byte>, secret: nat, ephemeral: nat,
                                   nonce: seq<byte>, ct: seq<byte>, shared: Point)
    requires BaseGenerates(c) && Authentic(f) && 0 < ephemeral < c.order && |nonce| == 12
    requires Multiply(c, secret, c.base).Ok? && Multiply(c, ephemeral, c.base).Ok?
    requires Multiply(c, ephemeral, Multiply(c, secret, c.base).value) == Ok(shared)
    requires ct == Packed(c, Multiply(c, ephemeral, c.base).value) + nonce
                   + f.encrypt(f.sha256(Packed(c, shared)), nonce, plaintext)
    ensures |ct| >= 60
    ensures var P := Multiply(c, ephemeral, c.base).value;
            Decodes(c, ct[..32], P) && Answer(c, f, ct, secret, P) == Ok(plaintext)
  {
    hide OnCurve, Packed, FromLE, Authentic, ValidCurve, Multiply, Group, Opened, Compressible, Decodes, BaseGenerates;
    GeneratesFacts(c);
    SharedPointsAgree(c, secret, ephemeral);
    EphemeralDecodes(c, ephemeral);
    var P := Multiply(c, ephemeral, c.base).value;
    CipherOpens(c, f, ct, shared, P, nonce, plaintext);
    assert ct[..32] == Packed(c, P);
  }

  /** `asymEncrypt` to `secret * B` followed by `asymDecrypt` with `secret` recovers the plaintext. */
  method EncryptThenDecrypt(c: Curve, f: Primitives, plaintext: seq<byte>, secret: nat, ephemeral: nat, nonce: seq<byte>)
    returns (r: Result<seq<byte>>)
    requires BaseGenerates(c) && Authentic(f) && 0 < ephemeral < c.order && |nonce| == 12
    ensures r == Ok(plaintext)
  {
    hide OnCurve, Packed, FromLE, Authentic, ValidCurve, DoubleAndAdd, Group, Opened, Compressible, Decodes, Answer,
         BaseGenerates;
    GeneratesFacts(c);
    SharedPointsAgree(c, secret, ephemeral);
    MultiplyGood(c, secret, c.base);
    var receiver := ScalarMultiply(c, c.base, secret);
    var cipherText, shared := AsymEncryptWithSharedPoint(c, f, plaintext, receiver.value, ephemeral, nonce);
    DecryptionUndoesEncryption(c, f, plaintext, secret, ephemeral, nonce, cipherText, shared);
    r := AsymDecrypt(c, f, cipherText, secret);
  }

  lemma EphemeralDecodes(c: Curve, ephemeral: nat)
    requires BaseGenerates(c) && 0 < ephemeral < c.order
    ensures Multiply(c, ephemeral, c.base).Ok?
    ensures var P := Multiply(c, ephemeral, c.base).value; P != IDENTITY && Decodes(c, Packed(c, P), P)
  {
    MultiplyCanonical(c, ephemeral, c.base);
    BaseMultipleInSubgroup(c, ephemeral);
    var P := Times(c, ephemeral, c.base).value;
    PackedMeans(c, P);
    UnpackOfPack(c, P, Packed(c, P), P);
  }

  lemma CipherOpens(c: Curve, f: Primitives, ct: seq<byte>, shared: Point, P: Point, nonce: seq<byte>, plaintext: seq<byte>)
    requires 0 < c.p && Authentic(f) && |nonce| == 12
    requires ct == Packed(c, P) + nonce + f.encrypt(f.sha256(Packed(c, shared)), nonce, plaintext)
    ensures |ct| >= 60 && Opened(c, f, ct, shared) == Ok(plaintext)
  {
    var body := f.encrypt(f.sha256(Packed(c, shared)), nonce, plaintext);
    assert |body| == |plaintext| + 16;
    assert ct[32..44] == nonce && ct[44..] == body;
  }

  // ----- signatures -----

  function Challenge(f: Primitives, R: Point, P: Point, messageHash: int): nat {
    f.mimcHash([R.x, R.y, P.x, P.y, messageHash])
  }

  /** The response `s` of `signNoteHash`. */
  function Response(order: int, r: nat, challenge: nat, scalar: int): (s: int)
    requires 0 < order
    ensures 0 <= s < order
  {
    (r + challenge * scalar) % order
  }

  /** `signature` is the encoding of `R = r*B` and of the response `s` for some nonce `r`. */
  ghost predicate SignedWith(c: Curve, f: Primitives, messageHash: int, scalar: int, P: Point, signature: seq<byte>, r: nat)
    requires 1 < c.p && 0 < c.order
  {
    && 0 < r < c.order && |signature| == 64 && Multiply(c, r, c.base).Ok?
    && var R := Multiply(c, r, c.base).value;
       && signature[..32] == Packed(c, R)
       && FromBE(signature[32..]) == Response(c.order, r, Challenge(f, R, P, messageHash), scalar)
  }

  /** The second half of a signature, with the hashed words written out. */
  lemma SignedEquation(c: Curve, f: Primitives, messageHash: int, scalar: int, P: Point, signature: seq<byte>, r: nat)
    requires 1 < c.p && 0 < c.order && SignedWith(c, f, messageHash, scalar, P, signature, r)
    ensures |signature| == 64 && Multiply(c, r, c.base).Ok?
    ensures var R := Multiply(c, r, c.base).value;
            FromBE(signature[32..]) == (r + f.mimcHash([R.x, R.y, P.x, P.y, messageHash]) * scalar) % c.order
  {
    hide Multiply, FromBE, Packed;
  }

  /** A draw that signs: it gives a nonce, and the response is below the field modulus. */
  predicate Usable(c: Curve, f: Primitives, messageHash: int, scalar: int, P: Point, draw: seq<byte>)
    requires 1 < c.p && 0 < c.order
  {
    Accepted(c.order, draw, false) && Fits(c, f, messageHash, scalar, P, ScalarOf(c.order, draw))
  }

  predicate Fits(c: Curve, f: Primitives, messageHash: int, scalar: int, P: Point, r: nat)
    requires 1 < c.p && 0 < c.order
  {
    Multiply(c, r, c.base).Ok?
    && Response(c.order, r, Challenge(f, Multiply(c, r, c.base).value, P, messageHash), scalar) < c.p
  }

  /** With the order not above the field modulus, every accepted draw signs: the retry is never taken. */
  lemma RetryIsUnreachable(c: Curve, f: Primitives, messageHash: int, scalar: int, P: Point, draw: seq<byte>)
    requires Compressible(c) && OnCurve(c, c.base) && c.order <= c.p
    ensures 1 < c.p && (Usable(c, f, messageHash, scalar, P, draw) <==> Accepted(c.order, draw, false))
  {
    hide OnCurve, DoubleAndAdd, ValidCurve, FromBE, Accepted;
    CompressibleModulus(c);
    MultiplyGood(c, ScalarOf(c.order, draw), c.base);
  }

  /**
   * The random draws come from a tape. The signature is made of the first usable draw, and there is none only if
   * no draw is usable.
   */
  method SignNoteHash(c: Curve, f: Primitives, messageHash: int, spendScalar: int, spendPubKey: Option<Point>,
                      tape: seq<seq<byte>>)
    returns (signature: Result<Option<seq<byte>>>, ghost at: nat, ghost P: Point)
    requires Compressible(c) && OnCurve(c, c.base)
    ensures spendPubKey.None? && spendScalar < 0 ==> signature == Err(NegativeScalar)
    ensures !(spendPubKey.None? && spendScalar < 0) && !(0 < spendScalar < c.order) ==> signature == Err(ScalarOutOfRange)
    ensures 0 < spendScalar < c.order ==> signature.Ok? && Multiply(c, spendScalar, c.base).Ok?
    ensures 0 < spendScalar < c.order ==>
              P == if spendPubKey.Some? then spendPubKey.value else Multiply(c, spendScalar, c.base).value
    ensures 0 < spendScalar < c.order && signature.value.None? ==>
              forall j :: 0 <= j < |tape| ==> !Usable(c, f, messageHash, spendScalar, P, tape[j])
    ensures 0 < spendScalar < c.order && signature.value.Some? ==>
              && at < |tape| && Usable(c, f, messageHash, spendScalar, P, tape[at])
              && (forall j :: 0 <= j < at ==> !Usable(c, f, messageHash, spendScalar, P, tape[j]))
              && SignedWith(c, f, messageHash, spendScalar, P, signature.value.value, FromBE(tape[at]) % c.order)
    ensures 0 < spendScalar < c.order && signature.value.Some? ==>
              && at < |tape| && |signature.value.value| == 64
              && var r := FromBE(tape[at]) % c.order;
                 0 < r && Multiply(c, r, c.base).Ok?
                 && var R := Multiply(c, r, c.base).value;
                    && signature.value.value[..32] == Packed(c, R)
                    && FromBE(signature.value.value[32..])
                       == (r + f.mimcHash([R.x, R.y, P.x, P.y, messageHash]) * spendScalar) % c.order
  {
    hide OnCurve, DoubleAndAdd, ValidCurve, Usable, SignedWith, Multiply, Packed, FromBE;
    CompressibleModulus(c);
    var pubKey := SignerKey(c, spendScalar, spendPubKey);
    if pubKey.Err? {
      return Err(pubKey.error), 0, IDENTITY;
    }
    if spendScalar <= 0 || spendScalar >= c.order {
      return Err(ScalarOutOfRange), 0, IDENTITY;
    }
    MultiplyOfBase(c, spendScalar);
    var signed: Option<seq<byte>>;
    signed, at := SignLoop(c, f, messageHash, spendScalar, pubKey.value, tape);
    signature, P := Ok(signed), pubKey.value;
  }

  /** `spendPubKey || scalarMultiply(CURVE_BASE, scalar)` */
  method SignerKey(c: Curve, spendScalar: int, spendPubKey: Option<Point>) returns (key: Result<Point>)
    requires Compressible(c) && OnCurve(c, c.base)
    ensures key == Err(NegativeScalar) <==> spendPubKey.None? && spendScalar < 0
    ensures spendPubKey.Some? ==> key == Ok(spendPubKey.value)
    ensures spendPubKey.None? && spendScalar >= 0 ==> 1 < c.p && key.Ok? && key == Multiply(c, spendScalar, c.base)
  {
    hide OnCurve, DoubleAndAdd, ValidCurve;
    CompressibleModulus(c);
    if spendPubKey.Some? {
      return Ok(spendPubKey.value);
    }
    key := ScalarMultiply(c, c.base, spendScalar);
  }

  lemma FirstSigns(c: Curve, f: Primitives, messageHash: int, scalar: int, P: Point, tape: seq<seq<byte>>,
                   signature: seq<byte>, at: nat)
    requires 1 < c.p && 0 < c.order && at < |tape|
    requires SignedWith(c, f, messageHash, scalar, P, signature, ScalarOf(c.order, tape[at]))
    ensures |signature| == 64
    ensures var r := FromBE(tape[at]) % c.order;
            0 < r && Multiply(c, r, c.base).Ok?
            && var R := Multiply(c, r, c.base).value;
               && signature[..32] == Packed(c, R)
               && FromBE(signature[32..]) == (r + f.mimcHash([R.x, R.y, P.x, P.y, messageHash]) * scalar) % c.order
  {
    hide Multiply, Packed, FromBE, Usable;
    SignedEquation(c, f, messageHash, scalar, P, signature, ScalarOf(c.order, tape[at]));
  }

  /** One round of the loop of `signNoteHash`: no signature, and so a retry, exactly if the response does not fit. */
  method SignWith(c: Curve, f: Primitives, messageHash: int, scalar: int, pubKey: Point, r: nat)
    returns (signature: Option<seq<byte>>)
    requires Compressible(c) && OnCurve(c, c.base) && 0 < r < c.order
    ensures 1 < c.p && (signature.Some? <==> Fits(c, f, messageHash, scalar, pubKey, r))
    ensures signature.Some? ==> SignedWith(c, f, messageHash, scalar, pubKey, signature.value, r)
    ensures signature.Some? ==>
              && |signature.value| == 64 && Multiply(c, r, c.base).Ok?
              && var R := Multiply(c, r, c.base).value;
                 FromBE(signature.value[32..])
                 == (r + f.mimcHash([R.x, R.y, pubKey.x, pubKey.y, messageHash]) * scalar) % c.order
  {
    hide OnCurve, DoubleAndAdd, Packed, ValidCurve, FromBE, SignedWith, Challenge, Response, Multiply;
    CompressibleModulus(c);
    var R := ScalarMultiply(c, c.base, r);
    MultiplyOfBase(c, r);
    var s := Response(c.order, r, Challenge(f, R.value, pubKey, messageHash), scalar);
    if s >= c.p {
      return None;
    }
    var packed := PackPoint(c, R.value);
    ResponseBytes(c, s);
    var sBytes := BigIntToBytesBE(s, 32, c.p).value;
    SignatureFormed(c, f, messageHash, scalar, pubKey, packed[..], sBytes, r);
    SignedEquation(c, f, messageHash, scalar, pubKey, packed[..] + sBytes, r);
    signature := Some(packed[..] + sBytes);
  }

  /** The loop of `signNoteHash`: draw a nonce, retry while the response is not below the modulus. */
  method SignLoop(c: Curve, f: Primitives, messageHash: int, scalar: int, pubKey: Point, tape: seq<seq<byte>>)
    returns (signature: Option<seq<byte>>, ghost at: nat)
    requires Compressible(c) && OnCurve(c, c.base) && 0 < scalar < c.order
    ensures 1 < c.p
    ensures signature.None? ==> forall j :: 0 <= j < |tape| ==> !Usable(c, f, messageHash, scalar, pubKey, tape[j])
    ensures signature.Some? ==>
              && at < |tape| && Usable(c, f, messageHash, scalar, pubKey, tape[at])
              && (forall j :: 0 <= j < at ==> !Usable(c, f, messageHash, scalar, pubKey, tape[j]))
              && SignedWith(c, f, messageHash, scalar, pubKey, signature.value, FromBE(tape[at]) % c.order)
    ensures signature.Some? ==>
              && at < |tape| && |signature.value| == 64
              && var r := FromBE(tape[at]) % c.order;
                 0 < r && Multiply(c, r, c.base).Ok?
                 && var R := Multiply(c, r, c.base).value;
                    && signature.value[..32] == Packed(c, R)
                    && FromBE(signature.value[32..])
                       == (r + f.mimcHash([R.x, R.y, pubKey.x, pubKey.y, messageHash]) * scalar) % c.order
  {
    hide FromBE, Packed, Multiply;
    hide OnCurve, ValidCurve, Compressible, SignedWith, Accepted, ScalarOf, Fits;
    CompressibleModulus(c);
    var next := 0;
    while next < |tape|
      invariant next <= |tape| && forall j :: 0 <= j < next ==> !Usable(c, f, messageHash, scalar, pubKey, tape[j])
      decreases |tape| - next
    {
      var nonce: Option<int>;
      nonce, next := RandomScalar(c.order, tape, next, false);
      if nonce.None? {
        break;
      }
      signature := SignWith(c, f, messageHash, scalar, pubKey, nonce.value);
      if signature.Some? {
        FirstSigns(c, f, messageHash, scalar, pubKey, tape, signature.value, next - 1);
        return signature, next - 1;
      }
    }
    return None, 0;
  }

  lemma MultiplyOfBase(c: Curve, k: nat)
    requires Compressible(c) && OnCurve(c, c.base)
    ensures Multiply(c, k, c.base) == DoubleAndAdd(c, k, Ok(IDENTITY), Ok(Reduce(c, c.base)))
    ensures Multiply(c, k, c.base).Ok?
  {
    MultiplyGood(c, k, c.base);
  }

  lemma SignatureFormed(c: Curve, f: Primitives, messageHash: int, scalar: int, P: Point,
                        packed: seq<byte>, sBytes: seq<byte>, r: nat)
    requires 1 < c.p && 0 < r < c.order && |packed| == 32 && |sBytes| == 32 && Multiply(c, r, c.base).Ok?
    requires packed == Packed(c, Multiply(c, r, c.base).value)
    requires FromBE(sBytes) ==
               Response(c.order, r, Challenge(f, Multiply(c, r, c.base).value, P, messageHash), scalar)
    ensures SignedWith(c, f, messageHash, scalar, P, packed + sBytes, r)
  {
    assert (packed + sBytes)[32..] == sBytes && (packed + sBytes)[..32] == packed;
  }

  lemma ResponseBytes(c: Curve, s: int)
    requires Compressible(c) && 0 <= s < c.p
    ensures BigIntToBytesBE(s, 32, c.p).Ok? && |BigIntToBytesBE(s, 32, c.p).value| == 32
    ensures FromBE(BigIntToBytesBE(s, 32, c.p).value) == s
  {
    hide ValidCurve, BytesToBigIntBE, FromBE;
    DivModUnique(s, 0, s, c.p);
    Pow2Add(1, 255);
    BigIntToBytesCorrect(s, 32, c.p);
    BytesToBigIntCorrect(BigIntToBytesBE(s, 32, c.p).value);
  }

  /** Multiples of a point of order `n` only depend on the scalar modulo `n`. */
  lemma TimesModOrder(c: Curve, m: nat)
    requires BaseGenerates(c)
    ensures 0 <= m % c.order && Times(c, m % c.order, c.base) == Times(c, m, c.base)
  {
    hide Times, BaseGenerates;
    GeneratesFacts(c);
    DivisionIdentity(m, c.order);
    TimesShift(c, m / c.order, m % c.order);
  }

  lemma TimesShift(c: Curve, q: nat, r: nat)
    requires BaseGenerates(c)
    ensures 0 <= q * c.order && Times(c, q * c.order + r, c.base) == Times(c, r, c.base)
  {
    hide Times, Good, Compressible, Plus, Group, ValidCurve;
    GeneratesFacts(c);
    TimesTimes(c, q, c.order, c.base);
    TimesAdd(c, q * c.order, r, c.base);
    IdentityTimes(c, q);
    TimesGood(c, r, c.base);
    PlusIdentity(c, Times(c, r, c.base));
  }

  lemma GeneratesFacts(c: Curve)
    requires BaseGenerates(c)
    ensures 1 < c.p && ValidCurve(c) && Group(c) && Compressible(c) && Good(c, Ok(c.base)) && OnCurve(c, c.base) && 0 < c.order
    ensures Times(c, c.order, c.base) == Ok(IDENTITY)
  {
  }

  /** In the group: `(r + k*scalar)*B` is `r*B + k*(scalar*B)`. */
  lemma ResponseEquation(c: Curve, r: nat, k: nat, scalar: nat)
    requires BaseGenerates(c)
    ensures Times(c, r, c.base).Ok? && Times(c, scalar, c.base).Ok? && 0 <= k * scalar
    ensures Times(c, r + k * scalar, c.base) == Plus(c, Times(c, r, c.base), Times(c, k, Times(c, scalar, c.base).value))
  {
    hide Times, Compressible, Plus, Group;
    GeneratesFacts(c);
    TimesGood(c, r, c.base);
    TimesTimes(c, k, scalar, c.base);
    TimesAdd(c, r, k * scalar, c.base);
  }

  /** The verification equation `s*B = R + challenge*P` holds for every signature under the matching key. */
  lemma SignatureVerifies(c: Curve, f: Primitives, messageHash: int, scalar: nat, P: Point, signature: seq<byte>, r: nat)
    requires BaseGenerates(c) && Multiply(c, scalar, c.base) == Ok(P)
    requires SignedWith(c, f, messageHash, scalar, P, signature, r)
    ensures var R, s := Multiply(c, r, c.base), FromBE(signature[32..]);
            R.Ok? && Multiply(c, s, c.base)
                     == Plus(c, R, Multiply(c, f.mimcHash([R.value.x, R.value.y, P.x, P.y, messageHash]), P))
  {
    hide ValidCurve, OnCurve, Packed, Plus, Group, Multiply, FromBE, Times, Compressible, BaseGenerates;
    GeneratesFacts(c);
    var R := Multiply(c, r, c.base);
    var k := Challenge(f, R.value, P, messageHash);
    MultiplyCanonical(c, r, c.base);
    MultiplyCanonical(c, scalar, c.base);
    MultiplyCanonical(c, FromBE(signature[32..]), c.base);
    MultiplyCanonical(c, k, P);
    ResponseEquation(c, r, k, scalar);
    TimesModOrder(c, r + k * scalar);
  }

  /** Two multiples of the base point are equal only if the scalars are, below the order. */
  lemma BaseMultiplesDiffer(c: Curve, r: nat, r': nat)
    requires BaseGenerates(c) && r < r' < c.order
    ensures Times(c, r, c.base) != Times(c, r', c.base)
  {
    hide Times, Compressible, Plus, Group, Good, ValidCurve;
    GeneratesFacts(c);
    if Times(c, r, c.base) == Times(c, r', c.base) {
      TimesAdd(c, r', c.order - r, c.base);
      TimesAdd(c, r, c.order - r, c.base);
      assert 1 * c.order == c.order;
      TimesShift(c, 1, r' - r);
    }
  }

  /** The packed form of a multiple of the base point determines the scalar, below the order. */
  lemma PackedNonceBinds(c: Curve, r: nat, r': nat)
    requires BaseGenerates(c) && r < c.order && r' < c.order
    requires Multiply(c, r, c.base).Ok? && Multiply(c, r', c.base).Ok?
    requires Packed(c, Multiply(c, r, c.base).value) == Packed(c, Multiply(c, r', c.base).value)
    ensures r == r'
  {
    hide Times, Group, ValidCurve, Multiply, Packed, PackedValue, Decodes;
    GeneratesFacts(c);
    BaseMultipleInSubgroup(c, r);
    BaseMultipleInSubgroup(c, r');
    MultiplyCanonical(c, r, c.base);
    MultiplyCanonical(c, r', c.base);
    var P, Q := Times(c, r, c.base).value, Times(c, r', c.base).value;
    PackedMeans(c, P);
    PackedMeans(c, Q);
    UnpackOfPack(c, P, Packed(c, P), P);
    UnpackOfPack(c, Q, Packed(c, Q), P);
    if r < r' { BaseMultiplesDiffer(c, r, r'); }
    if r' < r { BaseMultiplesDiffer(c, r', r); }
  }

  /**
   * One signature stands for two messages under one key only if their challenges agree once multiplied by the
   * scalar, modulo the order; with a prime order, only if the challenges agree.
   */
  lemma SignatureBindsMessage(c: Curve, f: Primitives, m: int, m': int, scalar: int, P: Point, signature: seq<byte>,
                              r: nat, r': nat)
    requires BaseGenerates(c) && 0 < scalar < c.order
    requires SignedWith(c, f, m, scalar, P, signature, r) && SignedWith(c, f, m', scalar, P, signature, r')
    ensures r == r' && Multiply(c, r, c.base).Ok?
    ensures var R := Multiply(c, r, c.base).value;
            var k, k' := f.mimcHash([R.x, R.y, P.x, P.y, m]), f.mimcHash([R.x, R.y, P.x, P.y, m']);
            && ((k - k') * scalar) % c.order == 0
            && (Prime(c.order) ==> k % c.order == k' % c.order)
  {
    hide Multiply, Packed, FromBE, Group, ValidCurve, BaseGenerates, Compressible;
    GeneratesFacts(c);
    PackedNonceBinds(c, r, r');
    SignedEquation(c, f, m, scalar, P, signature, r);
    SignedEquation(c, f, m', scalar, P, signature, r);
    var R := Multiply(c, r, c.base).value;
    EqualResponses(r, f.mimcHash([R.x, R.y, P.x, P.y, m]), f.mimcHash([R.x, R.y, P.x, P.y, m']), scalar, c.order);
  }

  lemma EqualResponses(r: int, k: int, k': int, scalar: int, order: int)
    requires 0 < scalar < order && (r + k * scalar) % order == (r + k' * scalar) % order
    ensures ((k - k') * scalar) % order == 0
    ensures Prime(order) ==> k % order == k' % order
  {
    CongIffMod(r + k * scalar, r + k' * scalar, order);
    assert r + k * scalar - (r + k' * scalar) == (k - k') * scalar;
    if Prime(order) {
      NoZeroDivisors(k - k', scalar, order);
      DivModUnique(scalar, 0, scalar, order);
      CongIffMod(k, k', order);
    }
  }
}
