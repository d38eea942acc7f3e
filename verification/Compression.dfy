/** Point compression: `packPoint` and `unpackPoint`. */
module Compression {
  import opened Wrappers
  import opened NumberTheory
  import opened FieldArith
  import opened JsBits
  import opened ByteCodec
  import opened Edwards
  import opened ScalarMul

  /** The curve constants of the module: the modulus leaves the top bit of 32 bytes free and the order is odd. */
  ghost predicate Compressible(c: Curve) {
    ValidCurve(c) && c.p <= Pow2(255) && c.order > 0 && c.order % 2 == 1
  }

  /** The hypotheses can be met: a curve over the field of five elements. */
  lemma CurveExists(order: int)
    requires order > 0 && order % 2 == 1
    ensures Compressible(Curve(5, 2, order, IDENTITY))
  {
    assert 5 % 2 == 1 && 5 % 3 == 2 && 5 % 4 == 1;
    assert IsRoot(2, -1, 5);
    forall y ensures !IsRoot(y, 2, 5) {
      NotRootOfTwo(y);
    }
    assert Pow2(3) == 8;
    Pow2Monotone(3, 255);
  }

  lemma NotRootOfTwo(y: int)
    ensures !IsRoot(y, 2, 5)
  {
    var r := y % 5;
    CongMod(y, 5);
    CongMul(r, y, r, y, 5);
    assert r == 0 || r == 1 || r == 2 || r == 3 || r == 4;
    assert (r * r - 2) % 5 != 0;
    if IsRoot(y, 2, 5) {
      CongTrans(r * r, y * y, 2, 5);
    }
  }

  predicate PointSign(c: Curve, P: Point)
    requires 0 < c.p
  {
    Mod(P.x, c.p) > (c.p - 1) / 2
  }

  /** The number whose 32 little-endian bytes `packPoint` returns. */
  function PackedValue(c: Curve, P: Point): int
    requires 0 < c.p
  {
    P.y % c.p + if PointSign(c, P) then Pow2(255) else 0
  }

  /** The 32 bytes `packPoint` returns: the little-endian form of that number. */
  function Packed(c: Curve, P: Point): (b: seq<byte>)
    requires 0 < c.p
    ensures |b| == 32
  {
    Reverse(ToBE(PackedValue(c, P), 32))
  }

  lemma PackedMeans(c: Curve, P: Point)
    requires Compressible(c)
    ensures FromLE(Packed(c, P)) == PackedValue(c, P)
  {
    Pow2Add(1, 255);
    var v := PackedValue(c, P);
    assert Reverse(Packed(c, P)) == ToBE(v, 32);
    ToBERoundTrip(v, 32);
  }

  lemma TopByte(t: int, low: int, w: int)
    requires 0 <= t < 256 && 0 <= low < w
    ensures 0 <= t % 128 * w + low < 128 * w
    ensures t * w + low == t % 128 * w + low + if t >= 128 then 128 * w else 0
  {
    var m := t % 128;
    TopByteBound(m, low, w);
    if t >= 128 { assert t == m + 128; JsBits.Distribute(m, 128, w); }
  }

  lemma TopByteBound(m: int, low: int, w: int)
    requires 0 <= m < 128 && 0 <= low < w
    ensures 0 <= m * w + low < 128 * w
  {
    assert m * w <= 127 * w;
  }

  /** The bit mask written at the top of byte 31, on the value of the whole string. */
  lemma SignBit(b: seq<byte>)
    requires |b| == 32
    ensures var low := FromLE(b[31 := b[31] % 128]);
            && 0 <= low < Pow2(255)
            && FromLE(b) == low + (if b[31] >= 128 then Pow2(255) else 0)
  {
    hide FromLE, Pow2;
    var m := b[31 := b[31] % 128];
    FromLETop(b);
    FromLETop(m);
    assert m[..31] == b[..31];
    Pow2Of255();
    TopByte(b[31], FromLE(b[..31]), Pow2(248));
  }

  lemma Pow2Of255()
    ensures Pow2(255) == 128 * Pow2(248) && Pow2(8 * 31) == Pow2(248)
  {
    Pow2Add(7, 248);
    assert Pow2(7) == 128;
  }

  lemma LowMask(x: byte)
    ensures BitAnd(x, 0x7f) == x % 128
  {
    hide And, Pow2, BitAnd;
    Pow2Bytes();
    BitAndMask(x, 7);
    ToUint32Same(x);
    var w := Pow2(7);
    assert ToUint32(x) % w == x % 128;
  }

  lemma Pow2Bytes()
    ensures Pow2(7) == 128 && Pow2(8) == 256
  {
  }

  lemma TopBitTest(x: byte)
    ensures BitAnd(x, 0x80) != 0 <==> x >= 128
  {
    hide And, Pow2;
    Pow2Bytes();
    AndBit(x, 7);
    assert And(x, 128) == if (x / 128) % 2 == 1 then 128 else 0;
    assert ToUint32(x) == x && ToUint32(0x80) == 128;
    assert BitAnd(x, 0x80) == ToInt32(And(x, 128));
    assert (x / 128) % 2 == 1 <==> x >= 128;
  }

  lemma SetTopBit(x: byte)
    requires x < 128
    ensures BitOr(x, 0x80) == x + 128
  {
    hide Or, Pow2;
    Pow2Bytes();
    OrDisjoint(x, 1, 7);
  }

  method PackPoint(c: Curve, P: Point) returns (out: array<byte>)
    requires Compressible(c)
    ensures fresh(out) && out[..] == Packed(c, P) && FromLE(out[..]) == PackedValue(c, P)
    ensures out.Length == 32 && FromLE(out[..]) % Pow2(255) == P.y % c.p
    ensures out[31] >= 128 <==> 2 * (P.x % c.p) > c.p - 1
  {
    hide FromLE, Pow2, BigIntToBytesLE, BytesToBigIntLE, Mod, BitOr, ValidCurve, Packed;
    CompressibleModulus(c);
    YBytes(c, P.y);
    var bytes := BigIntToBytesLE(P.y, 32, c.p).value;
    out := new byte[32](i requires 0 <= i < 32 => bytes[i]);
    assert out[..] == bytes;
    if PointSign(c, P) {
      ValueWithTopBit(bytes);
      SetTopBit(out[31]);
      out[31] := BitOr(out[31], 0x80) % 256;
      assert out[..] == bytes[31 := bytes[31] + 128];
    }
    PackedIs(c, P, out[..]);
    PackedBits(c, P, out[..]);
  }

  /** The bytes of `packPoint`: y below the top bit, and the top bit for an x in the upper half of the field. */
  lemma PackedBits(c: Curve, P: Point, b: seq<byte>)
    requires Compressible(c) && |b| == 32 && FromLE(b) == PackedValue(c, P)
    ensures FromLE(b) % Pow2(255) == P.y % c.p
    ensures b[31] >= 128 <==> 2 * (P.x % c.p) > c.p - 1
  {
    hide FromLE, Pow2, ValidCurve, PointSign;
    CompressibleModulus(c);
    SignBit(b);
    var low := FromLE(b[31 := b[31] % 128]);
    SplitTopBit(FromLE(b), low, b[31] >= 128);
    SplitTopBit(FromLE(b), P.y % c.p, PointSign(c, P));
    UpperHalf(c, P);
  }

  lemma UpperHalf(c: Curve, P: Point)
    requires 0 < c.p && c.p % 2 == 1
    ensures PointSign(c, P) <==> 2 * (P.x % c.p) > c.p - 1
  {
    DivisionIdentity(c.p - 1, 2);
  }

  lemma PackedIs(c: Curve, P: Point, b: seq<byte>)
    requires Compressible(c) && |b| == 32 && FromLE(b) == PackedValue(c, P)
    ensures b == Packed(c, P)
  {
    PackedMeans(c, P);
    FromLEInjective(b, Packed(c, P));
  }

  lemma YBytes(c: Curve, y: int)
    requires Compressible(c)
    ensures var b := BigIntToBytesLE(y, 32, c.p);
            b.Ok? && |b.value| == 32 && FromLE(b.value) == y % c.p && 0 <= y % c.p < Pow2(255)
  {
    Pow2Monotone(255, 256);
    BigIntToBytesCorrect(y, 32, c.p);
    BytesToBigIntCorrect(BigIntToBytesLE(y, 32, c.p).value);
  }

  lemma CompressibleModulus(c: Curve)
    requires Compressible(c)
    ensures OddField(c) && 1 < c.p && forall y: int :: y % c.p < Pow2(255)
  {
  }

  /** A value below `2^255` leaves the top bit of byte 31 clear; setting it adds `2^255`. */
  lemma ValueWithTopBit(b: seq<byte>)
    requires |b| == 32 && FromLE(b) < Pow2(255)
    ensures b[31] < 128 && FromLE(b[31 := b[31] + 128]) == FromLE(b) + Pow2(255)
  {
    hide FromLE, Pow2;
    SignBit(b);
    var t := b[31 := b[31] + 128];
    SignBit(t);
    assert t[31 := t[31] % 128] == b;
  }

  // ----- decoding -----

  /** Membership in the prime-order subgroup, as `assertPrimeOrderPoint` tests it. */
  ghost predicate InSubgroup(c: Curve, P: Point)
    requires 1 < c.p && 0 <= c.order
  {
    Multiply(c, c.order, P) == Ok(IDENTITY)
  }

  /** `P` is the point that the 32 bytes denote. */
  ghost predicate Decodes(c: Curve, bytes: seq<byte>, P: Point)
    requires 1 < c.p && 0 <= c.order
  {
    && |bytes| == 32
    && Canonical(c, P) && OnCurve(c, P) && InSubgroup(c, P)
    && P.y == FromLE(bytes) % Pow2(255)
    && (P.x == 0 || PointSign(c, P) == (FromLE(bytes) >= Pow2(255)))
  }

  /** The square of the x coordinate is determined by y: `x^2 * (-1 - d*y^2) = 1 - y^2`. */
  lemma CurveSolvedForX(c: Curve, x: int, y: int)
    requires 0 < c.p
    ensures OnCurve(c, Point(x, y)) <==> Cong(x * x * (-1 - c.d * (y * y)), 1 - y * y, c.p)
  {
    var lhs, rhs := y * y - x * x, 1 + c.d * (x * y) * (x * y);
    var l, r := x * x * (-1 - c.d * (y * y)), 1 - y * y;
    SolveIdentity(c.d, x, y);
    if Cong(lhs, rhs, c.p) { Combine(1, lhs - rhs, 0, 0, c.p); }
    if Cong(l, r, c.p) { Combine(1, l - r, 0, 0, c.p); }
  }

  lemma SolveIdentity(d: int, x: int, y: int)
    ensures (y * y - x * x) - (1 + d * (x * y) * (x * y)) == x * x * (-1 - d * (y * y)) - (1 - y * y)
  {
  }

  /** The denominator `-1 - d*y^2` of `unpackPoint` never vanishes on a valid curve. */
  lemma DenominatorNonZero(c: Curve, y: int)
    requires ValidCurve(c)
    ensures (-1 - c.d * (y * y)) % c.p != 0
  {
    var p := c.p;
    if (-1 - c.d * (y * y)) % p == 0 {
      var i :| IsRoot(i, -1, p);
      CongTrans(i * i, -1, c.d * (y * y), p);
      NonSquareForces(i, y, c.d, p);
      Combine(c.d * y, y, 1, -1 - c.d * (y * y), p);
      assert c.d * y * y + 1 * (-1 - c.d * (y * y)) == -1;
      DivModUnique(-1, -1, p - 1, p);
    }
  }

  lemma AssertPrimeOrderPointOk(c: Curve, P: Point)
    requires ValidCurve(c) && OnCurve(c, P) && 0 <= c.order
    ensures Good(c, Multiply(c, c.order, P))
  {
    MultiplyGood(c, c.order, P);
  }

  method AssertPrimeOrderPoint(c: Curve, P: Point) returns (r: Result<Point>)
    requires ValidCurve(c) && OnCurve(c, P) && 0 <= c.order
    ensures r == if InSubgroup(c, P) then Ok(P) else Err(NotInSubgroup)
  {
    AssertPrimeOrderPointOk(c, P);
    var multiplied := ScalarMultiply(c, P, c.order);
    ReduceCanonical(c, multiplied.value);
    if Mod(multiplied.value.x, c.p) != 0 || Mod(multiplied.value.y, c.p) != 1 {
      return Err(NotInSubgroup);
    }
    return Ok(P);
  }

  /** `x^2 = num/den` and the curve equation say the same, once `den` is inverted. */
  lemma RatioRoot(c: Curve, t: int, y: int, num: int, den: int, inv: int)
    requires Prime(c.p) && Cong(num, 1 - y * y, c.p) && Cong(den, -1 - c.d * (y * y), c.p) && Cong(den * inv, 1, c.p)
    ensures IsRoot(t, num * inv, c.p) <==> OnCurve(c, Point(t, y))
  {
    var p, N, D := c.p, 1 - y * y, -1 - c.d * (y * y);
    CurveSolvedForX(c, t, y);
    hide Cong, OnCurve;
    CongEq(inv, inv, p);
    CongEq(t * t, t * t, p);
    CongEq(num, num, p);
    CongMul(t * t, t * t, den, D, p);
    CongMul(num, num, den * inv, 1, p);
    CongMul(t * t, t * t, den * inv, 1, p);
    CongSym(num, N, p);
    CongSym(t * t * den, t * t * D, p);
    if IsRoot(t, num * inv, p) {
      CongEq(den, den, p);
      CongMul(t * t, num * inv, den, den, p);
      MoveFactor(num, inv, den);
      CongTrans(t * t * den, num * inv * den, num, p);
      CongTrans(t * t * D, t * t * den, num, p);
      CongTrans(t * t * D, num, N, p);
    }
    if Cong(t * t * D, N, p) {
      CongTrans(t * t * den, t * t * D, N, p);
      CongTrans(t * t * den, N, num, p);
      CongMul(t * t * den, num, inv, inv, p);
      MoveFactor(t * t, inv, den);
      CongSym(t * t * (den * inv), t * t, p);
      CongTrans(t * t, t * t * den * inv, num * inv, p);
    }
  }

  lemma MoveFactor(a: int, b: int, c: int)
    ensures a * b * c == a * (c * b) && a * c * b == a * (c * b)
  {
  }

  lemma ReducedTerms(c: Curve, y: int)
    requires Prime(c.p)
    ensures var y2 := (y * y) % c.p;
            && Cong((1 - y2) % c.p, 1 - y * y, c.p)
            && Cong((-1 - c.d * y2) % c.p, -1 - c.d * (y * y), c.p)
  {
    var p, y2 := c.p, (y * y) % c.p;
    hide Cong;
    CongMod(y * y, p);
    CongEq(1, 1, p);
    CongEq(-1, -1, p);
    CongEq(c.d, c.d, p);
    CongSub(1, 1, y2, y * y, p);
    CongMul(c.d, c.d, y2, y * y, p);
    CongSub(-1, -1, c.d * y2, c.d * (y * y), p);
    CongMod(1 - y2, p);
    CongMod(-1 - c.d * y2, p);
    CongTrans((1 - y2) % p, 1 - y2, 1 - y * y, p);
    CongTrans((-1 - c.d * y2) % p, -1 - c.d * y2, -1 - c.d * (y * y), p);
  }

  /** The part of `unpackPoint` that recovers a matching x coordinate. */
  method SolveX(c: Curve, y: int) returns (x: Result<int>)
    requires ValidCurve(c)
    ensures x.Ok? <==> exists t :: OnCurve(c, Point(t, y))
    ensures x.Ok? ==> 0 <= x.value < c.p && OnCurve(c, Point(x.value, y))
    ensures x.Err? ==> x.error == NotOnCurve
  {
    hide Mod, OnCurve;
    var y2 := Mod(y * y, c.p);
    var numerator := Mod(1 - y2, c.p);
    var denominator := Mod(-1 - c.d * y2, c.p);
    ReducedTerms(c, y);
    DenominatorNonZero(c, y);
    CongIffMod(denominator, -1 - c.d * (y * y), c.p);
    ModInvCorrect(denominator, c.p);
    var inverse := ModInv(denominator, c.p).value;
    x := ModSqrt(numerator * inverse, c.p);
    forall t ensures IsRoot(t, numerator * inverse, c.p) <==> OnCurve(c, Point(t, y)) {
      RatioRoot(c, t, y, numerator, denominator, inverse);
    }
    if x.Err? {
      assert forall t :: !IsRoot(t, numerator * inverse, c.p);
    }
  }

  /** Negating x stays on the curve and flips the sign of every non-zero x. */
  lemma NegateRoot(c: Curve, x: int, y: int)
    requires OddField(c) && 0 <= x < c.p && OnCurve(c, Point(x, y))
    ensures OnCurve(c, Point((-x) % c.p, y)) && (-x) % c.p == (if x == 0 then 0 else c.p - x)
    ensures x != 0 ==> PointSign(c, Point((-x) % c.p, y)) != PointSign(c, Point(x, y))
    ensures x == 0 ==> !PointSign(c, Point(x, y))
  {
    var p := c.p;
    if x == 0 {
      DivModUnique(0, 0, 0, p);
      assert -x == 0;
    } else {
      DivModUnique(-x, -1, p - x, p);
      DivModUnique(x, 0, x, p);
      DivModUnique(p - x, 0, p - x, p);
      NegatedX(c, Point(x, y));
      var v := Point(-x, y);
      ReduceXOnCurve(c, -x, y);
    }
  }

  lemma ReduceXOnCurve(c: Curve, x: int, y: int)
    requires 0 < c.p && OnCurve(c, Point(x, y))
    ensures OnCurve(c, Point(x % c.p, y))
  {
    CongMod(x, c.p);
    CurveSolvedForX(c, x, y);
    CurveSolvedForX(c, x % c.p, y);
    hide Cong, OnCurve;
    var D := -1 - c.d * (y * y);
    CongMul(x % c.p, x, x % c.p, x, c.p);
    CongEq(D, D, c.p);
    CongMul((x % c.p) * (x % c.p), x * x, D, D, c.p);
    CongTrans((x % c.p) * (x % c.p) * D, x * x * D, 1 - y * y, c.p);
  }

  /** Two canonical points with the same y have x coordinates that agree up to sign. */
  lemma SameXUpToSign(c: Curve, P: Point, Q: Point)
    requires ValidCurve(c) && Canonical(c, P) && Canonical(c, Q) && OnCurve(c, P) && OnCurve(c, Q) && P.y == Q.y
    ensures P.x == Q.x || P.x + Q.x == c.p
  {
    hide Cong, OnCurve, Prime;
    var p, D := c.p, -1 - c.d * (P.y * P.y);
    CurveSolvedForX(c, P.x, P.y);
    CurveSolvedForX(c, Q.x, Q.y);
    CongSym(Q.x * Q.x * D, 1 - P.y * P.y, p);
    CongTrans(P.x * P.x * D, 1 - P.y * P.y, Q.x * Q.x * D, p);
    DenominatorNonZero(c, P.y);
    CommuteSquares(P.x, Q.x, D);
    Cancel(D, P.x * P.x, Q.x * Q.x, p);
    EqualSquares(P.x, Q.x, p);
  }

  lemma CommuteSquares(x: int, y: int, D: int)
    ensures x * x * D == D * (x * x) && y * y * D == D * (y * y)
  {
  }

  lemma DifferenceOfSquares(x: int, y: int)
    ensures x * x - y * y == (x - y) * (x + y)
  {
  }

  /** Residues with congruent squares agree up to sign. */
  lemma EqualSquares(x: int, y: int, p: int)
    requires Prime(p) && 0 <= x < p && 0 <= y < p && Cong(x * x, y * y, p)
    ensures x == y || x + y == p
  {
    DifferenceOfSquares(x, y);
    NoZeroDivisors(x - y, x + y, p);
    if (x - y) % p == 0 {
      CongSmall(x, y, p);
    } else {
      SumOfResidues(x, y, p);
    }
  }

  lemma SumOfResidues(a: int, b: int, p: int)
    requires 0 < p && 0 <= a < p && 0 <= b < p && (a + b) % p == 0
    ensures a + b == p || (a == 0 && b == 0)
  {
    var k := (a + b) / p;
    assert a + b == k * p;
    assert k * p == (k - 1) * p + p;
    MulBound(k - 1, p);
    MulBound(k, p);
  }

  /** Equal y and equal sign (or x = 0) leave one point. */
  lemma SameX(c: Curve, P: Point, Q: Point, sign: bool)
    requires ValidCurve(c) && Canonical(c, P) && Canonical(c, Q) && OnCurve(c, P) && OnCurve(c, Q) && P.y == Q.y
    requires (P.x == 0 || PointSign(c, P) == sign) && (Q.x == 0 || PointSign(c, Q) == sign)
    ensures P == Q
  {
    SameXUpToSign(c, P, Q);
    NegateRoot(c, P.x, P.y);
    DivModUnique(Q.x, 0, Q.x, c.p);
    DivModUnique(P.x, 0, P.x, c.p);
  }

  lemma SplitTopBit(v: int, low: int, sign: bool)
    requires 0 <= low < Pow2(255) && v == low + if sign then Pow2(255) else 0
    ensures v % Pow2(255) == low && (v >= Pow2(255) <==> sign)
  {
    DivModUnique(v, if sign then 1 else 0, low, Pow2(255));
  }

  method UnpackPoint(c: Curve, bytes: seq<byte>) returns (r: Result<Point>)
    requires Compressible(c)
    ensures r.Ok? ==> Decodes(c, bytes, r.value)
    ensures r.Ok? ==> |bytes| == 32 && 0 <= r.value.x < c.p && r.value.y == FromLE(bytes) % Pow2(255) < c.p
    ensures r.Ok? ==> OnCurve(c, r.value) && Multiply(c, c.order, r.value) == Ok(Point(0, 1))
    ensures r.Ok? && r.value.x != 0 ==> (bytes[31] >= 128 <==> 2 * r.value.x > c.p - 1)
    ensures r.Err? ==> forall P :: !Decodes(c, bytes, P)
    ensures r == Err(BadLength) <==> |bytes| != 32
    ensures r == Err(NonCanonical) <==> |bytes| == 32 && FromLE(bytes) % Pow2(255) >= c.p
    ensures r == Err(NotOnCurve) <==>
              |bytes| == 32 && FromLE(bytes) % Pow2(255) < c.p && !exists x :: OnCurve(c, Point(x, FromLE(bytes) % Pow2(255)))
    ensures r.Err? ==> r.error in {BadLength, NonCanonical, NotOnCurve, NotInSubgroup}
  {
    hide InSubgroup, Multiply, FromLE, Pow2, BitAnd;
    if |bytes| != 32 {
      return Err(BadLength);
    }
    var p := c.p;
    var yBytes := new byte[32](i requires 0 <= i < 32 => bytes[i]);
    TopBitTest(yBytes[31]);
    LowMask(yBytes[31]);
    var sign := BitAnd(yBytes[31], 0x80) != 0;
    yBytes[31] := BitAnd(yBytes[31], 0x7f);
    assert yBytes[..] == bytes[31 := bytes[31] % 128];
    SignBit(bytes);
    BytesToBigIntCorrect(yBytes[..]);
    var y := BytesToBigIntLE(yBytes[..]);
    SplitTopBit(FromLE(bytes), y, sign);
    if y >= p {
      return Err(NonCanonical);
    }
    var root := SolveX(c, y);
    if root.Err? {
      return Err(root.error);
    }
    var x := root.value;
    NegateRoot(c, x, y);
    if PointSign(c, Point(x, y)) != sign {
      x := Mod(-x, p);
    }
    OnlyCandidate(c, bytes, Point(x, y));
    r := AssertPrimeOrderPoint(c, Point(x, y));
    if r.Ok? {
      DecodedBits(c, bytes, r.value);
    }
  }

  /** What an accepted encoding says about its point, bit by bit. */
  lemma DecodedBits(c: Curve, bytes: seq<byte>, P: Point)
    requires Compressible(c) && Decodes(c, bytes, P)
    ensures |bytes| == 32 && 0 <= P.x < c.p && P.y == FromLE(bytes) % Pow2(255) < c.p
    ensures OnCurve(c, P) && Multiply(c, c.order, P) == Ok(Point(0, 1))
    ensures P.x != 0 ==> (bytes[31] >= 128 <==> 2 * P.x > c.p - 1)
  {
    hide FromLE, Pow2, OnCurve, Multiply, ValidCurve, PointSign;
    CompressibleModulus(c);
    SignBit(bytes);
    SplitTopBit(FromLE(bytes), FromLE(bytes[31 := bytes[31] % 128]), bytes[31] >= 128);
    DivModUnique(P.x, 0, P.x, c.p);
    UpperHalf(c, P);
  }

  /** A point on the curve with the y and the sign of an encoding is the only one it can denote. */
  lemma OnlyCandidate(c: Curve, bytes: seq<byte>, Q: Point)
    requires Compressible(c) && |bytes| == 32 && Canonical(c, Q) && OnCurve(c, Q) && Q.y == FromLE(bytes) % Pow2(255)
    requires Q.x == 0 || PointSign(c, Q) == (FromLE(bytes) >= Pow2(255))
    ensures forall P :: Decodes(c, bytes, P) ==> P == Q
    ensures Decodes(c, bytes, Q) <==> InSubgroup(c, Q)
  {
    hide InSubgroup, OnCurve, FromLE, Pow2, PointSign;
    forall P | Decodes(c, bytes, P) ensures P == Q {
      SameX(c, P, Q, FromLE(bytes) >= Pow2(255));
    }
  }

  // ----- compression is undone exactly -----

  /** Packing a canonical subgroup point and unpacking it gives that point and no other. */
  lemma UnpackOfPack(c: Curve, P: Point, bytes: seq<byte>, Q: Point)
    requires Compressible(c) && Canonical(c, P) && OnCurve(c, P) && InSubgroup(c, P)
    requires |bytes| == 32 && FromLE(bytes) == PackedValue(c, P)
    ensures Decodes(c, bytes, Q) <==> Q == P
  {
    DivModUnique(P.y, 0, P.y, c.p);
    SplitTopBit(FromLE(bytes), P.y, PointSign(c, P));
    if Decodes(c, bytes, Q) {
      SameX(c, P, Q, PointSign(c, P));
    }
  }

  /** Once the addend is the identity, double-and-add leaves the accumulator alone. */
  lemma {:induction false} IdentityLoop(c: Curve, k: nat, acc: Result<Point>)
    requires ValidCurve(c) && Good(c, acc)
    ensures DoubleAndAdd(c, k, acc, Ok(IDENTITY)) == acc
  {
    if k > 0 {
      PlusIdentity(c, acc);
      PlusIdentity(c, Ok(IDENTITY));
      IdentityLoop(c, k / 2, acc);
    }
  }

  /** (0, -1) has order two, so an odd order keeps it out of the subgroup. */
  lemma OrderTwoOutside(c: Curve, P: Point)
    requires Compressible(c) && Canonical(c, P) && OnCurve(c, P) && P.x == 0 && P.y == c.p - 1
    ensures !InSubgroup(c, P)
  {
    ReduceCanonical(c, P);
    PlusIdentity(c, Ok(P));
    PointAddInverse(c, P);
    assert Point(-P.x, P.y) == P;
    IdentityLoop(c, c.order / 2, Ok(P));
  }

  /** The only subgroup point with x = 0 is the identity. */
  lemma ZeroXIsIdentity(c: Curve, P: Point)
    requires Compressible(c) && Canonical(c, P) && OnCurve(c, P) && InSubgroup(c, P) && P.x == 0
    ensures P == IDENTITY
  {
    var p := c.p;
    assert c.d * (0 * P.y) * (0 * P.y) == 0 by { assert 0 * P.y == 0; assert c.d * 0 == 0; }
    SquareRootsOfOne(P.y, p);
    DivModUnique(P.y, 0, P.y, p);
    if P.y == p - 1 { OrderTwoOutside(c, P); }
  }

  /** The encoding of the identity with its sign bit set. */
  function SignedIdentity(): (b: seq<byte>)
    ensures |b| == 32
  {
    [1] + seq(30, i => 0) + [0x80]
  }

  lemma SignedIdentityValue()
    ensures FromLE(SignedIdentity()) == 1 + Pow2(255)
  {
    hide Pow2;
    var b := SignedIdentity();
    FromLETop(b);
    LowOfIdentity(b[..31]);
    TopPower();
  }

  lemma TopPower()
    ensures 0x80 * Pow2(248) == Pow2(255)
  {
    assert Pow2(7) == 0x80;
    hide Pow2;
    Pow2Add(7, 248);
  }

  lemma LowOfIdentity(t: seq<byte>)
    requires t == [1] + seq(30, i => 0)
    ensures FromLE(t) == 1
  {
    assert Reverse(t) == seq(30, i => 0) + [1];
    ZerosValue(30);
    assert Reverse(t)[..30] == seq(30, i => 0);
  }

  lemma {:induction false} ZerosValue(n: nat)
    ensures FromBE(seq(n, i => 0)) == 0
  {
    if n > 0 {
      ZerosValue(n - 1);
      assert seq(n, i => 0 as byte)[..n - 1] == seq(n - 1, i => 0);
    }
  }

  /** The value of an accepted encoding, from the point it denotes. */
  lemma DecodedValue(c: Curve, bytes: seq<byte>, P: Point)
    requires Compressible(c) && Decodes(c, bytes, P)
    ensures P.x != 0 ==> FromLE(bytes) == PackedValue(c, P)
    ensures P.x == 0 ==> PackedValue(c, P) == P.y && (FromLE(bytes) == P.y || FromLE(bytes) == P.y + Pow2(255))
  {
    hide FromLE, Pow2, OnCurve, InSubgroup, ValidCurve;
    SignBit(bytes);
    var low := FromLE(bytes[31 := bytes[31] % 128]);
    SplitTopBit(FromLE(bytes), low, bytes[31] >= 128);
    CompressibleModulus(c);
    DivModUnique(P.y, 0, P.y, c.p);
    DivModUnique(P.x, 0, P.x, c.p);
  }

  /** An accepted encoding is reproduced by packing, except for one string: the identity with its sign bit set. */
  lemma PackOfUnpack(c: Curve, bytes: seq<byte>, P: Point, packed: seq<byte>)
    requires Compressible(c) && Decodes(c, bytes, P)
    requires |packed| == 32 && FromLE(packed) == PackedValue(c, P)
    ensures packed == bytes <==> bytes != SignedIdentity()
  {
    hide FromLE, Pow2, OnCurve, InSubgroup, ValidCurve, PackedValue, SignedIdentity;
    DecodedValue(c, bytes, P);
    SignedIdentityValue();
    if P.x == 0 {
      ZeroXIsIdentity(c, P);
    } else if bytes == SignedIdentity() {
      SignedIdentityAccepted(c, P);
    }
    if FromLE(packed) == FromLE(bytes) { FromLEInjective(packed, bytes); }
    if FromLE(bytes) == FromLE(SignedIdentity()) { FromLEInjective(bytes, SignedIdentity()); }
  }

  /** That string is accepted, and denotes the identity. */
  lemma SignedIdentityAccepted(c: Curve, P: Point)
    requires Compressible(c)
    ensures Decodes(c, SignedIdentity(), P) <==> P == IDENTITY
  {
    hide FromLE, Pow2, OnCurve, InSubgroup, ValidCurve, SignedIdentity, PointSign;
    CompressibleModulus(c);
    SignedIdentityValue();
    Pow2Of255();
    assert Pow2(248) >= 1;
    SplitTopBit(1 + Pow2(255), 1, true);
    IdentityOnCurve(c);
    IdentityInSubgroup(c);
    if Decodes(c, SignedIdentity(), P) {
      SameX(c, P, IDENTITY, true);
    }
  }

  lemma IdentityInSubgroup(c: Curve)
    requires Compressible(c)
    ensures InSubgroup(c, IDENTITY)
  {
    hide OnCurve, ValidCurve;
    CompressibleModulus(c);
    IdentityOnCurve(c);
    ReduceCanonical(c, IDENTITY);
    IdentityLoop(c, c.order, Ok(IDENTITY));
  }

  /** `unpackPoint(packPoint(P))`. */
  method PackThenUnpack(c: Curve, P: Point) returns (r: Result<Point>)
    requires Compressible(c) && OnCurve(c, P) && 0 <= P.x < c.p && 0 <= P.y < c.p
    requires Multiply(c, c.order, P) == Ok(IDENTITY)
    ensures r == Ok(P)
  {
    hide OnCurve, Multiply, FromLE, Pow2, PackedValue, Packed, ValidCurve;
    CompressibleModulus(c);
    var packed := PackPoint(c, P);
    UnpackOfPack(c, P, packed[..], P);
    r := UnpackPoint(c, packed[..]);
    if r.Ok? {
      UnpackOfPack(c, P, packed[..], r.value);
    }
  }

  /** `packPoint(unpackPoint(bytes))`: every accepted string is reproduced, but for the signed identity. */
  method UnpackThenPack(c: Curve, bytes: seq<byte>) returns (r: Result<seq<byte>>)
    requires Compressible(c)
    ensures r.Ok? ==> (r.value == bytes <==> bytes != [1] + seq(30, i => 0) + [0x80])
    ensures bytes == [1] + seq(30, i => 0) + [0x80] ==> r == Ok([1] + seq(31, i => 0))
  {
    hide OnCurve, Multiply, FromLE, Pow2, PackedValue, Packed, ValidCurve, Decodes;
    var unpacked := UnpackPoint(c, bytes);
    SignedIdentityAccepted(c, IDENTITY);
    if unpacked.Err? {
      return Err(unpacked.error);
    }
    var packed := PackPoint(c, unpacked.value);
    PackOfUnpack(c, bytes, unpacked.value, packed[..]);
    if bytes == SignedIdentity() {
      SignedIdentityAccepted(c, unpacked.value);
      IdentityPacked(c, packed[..]);
    }
    return Ok(packed[..]);
  }

  lemma IdentityPacked(c: Curve, b: seq<byte>)
    requires Compressible(c) && |b| == 32 && FromLE(b) == PackedValue(c, IDENTITY)
    ensures b == [1] + seq(31, i => 0)
  {
    hide FromLE, Pow2;
    CompressibleModulus(c);
    DivModUnique(1, 0, 1, c.p);
    DivModUnique(0, 0, 0, c.p);
    var one: seq<byte> := [1] + seq(31, i => 0);
    FromLETop(one);
    LowOfIdentity(one[..31]);
    FromLEInjective(b, one);
  }
}
