/** The a = -1 twisted Edwards curve: the affine law, its completeness, and the projective formulas. */
module Edwards {
  import opened Wrappers
  import opened NumberTheory
  import opened FieldArith

  datatype Point = Point(x: int, y: int)

  /** `(X : Y : Z : T)` with `x = X/Z`, `y = Y/Z`, `T = X*Y/Z`. */
  datatype Extended = Extended(X: int, Y: int, Z: int, T: int)

  /** The module constants: field modulus, curve coefficient, subgroup order, base point. */
  datatype Curve = Curve(p: int, d: int, order: int, base: Point)

  const IDENTITY := Point(0, 1)

  ghost predicate OddField(c: Curve) {
    Prime(c.p) && c.p % 2 == 1
  }

  /** The hypotheses that make the addition law complete: -1 is a square and `d` is not. */
  ghost predicate ValidCurve(c: Curve) {
    OddField(c) && IsSquare(-1, c.p) && !IsSquare(c.d, c.p)
  }

  ghost predicate OnCurve(c: Curve, P: Point)
    requires 0 < c.p
  {
    Cong(P.y * P.y - P.x * P.x, 1 + c.d * (P.x * P.y) * (P.x * P.y), c.p)
  }

  ghost predicate Canonical(c: Curve, P: Point) {
    0 <= P.x < c.p && 0 <= P.y < c.p
  }

  function Reduce(c: Curve, P: Point): Point
    requires 0 < c.p
  {
    Point(Mod(P.x, c.p), Mod(P.y, c.p))
  }

  // ----- the code -----

  function PointAdd(c: Curve, P: Point, Q: Point): Result<Point>
    requires 1 < c.p
  {
    var x1, y1, x2, y2 := Mod(P.x, c.p), Mod(P.y, c.p), Mod(Q.x, c.p), Mod(Q.y, c.p);
    var x1x2 := Mod(x1 * x2, c.p);
    var y1y2 := Mod(y1 * y2, c.p);
    var dxxyy := Mod(Mod(c.d * x1x2, c.p) * y1y2, c.p);
    var xNum := Mod(x1 * y2 + y1 * x2, c.p);
    var xDen := ModInv(1 + dxxyy, c.p);
    var yNum := Mod(y1y2 + x1x2, c.p);
    var yDen := ModInv(1 - dxxyy, c.p);
    if xDen.Err? then Err(xDen.error)
    else if yDen.Err? then Err(yDen.error)
    else Ok(Point(Mod(xNum * xDen.value, c.p), Mod(yNum * yDen.value, c.p)))
  }

  function ExtendedPoint(c: Curve, P: Point): Extended
    requires 0 < c.p
  {
    var x, y := Mod(P.x, c.p), Mod(P.y, c.p);
    Extended(x, y, 1, Mod(x * y, c.p))
  }

  const EXTENDED_IDENTITY := Extended(0, 1, 1, 0)

  /** The four products every projective formula ends with. */
  function Assemble(e: int, f: int, g: int, h: int, p: int): Extended
    requires 0 < p
  {
    Extended(Mod(e * f, p), Mod(g * h, p), Mod(f * g, p), Mod(e * h, p))
  }

  function ExtendedAdd(k: Curve, P: Extended, Q: Extended): Extended
    requires 0 < k.p
  {
    var a := Mod((P.Y - P.X) * (Q.Y - Q.X), k.p);
    var b := Mod((P.Y + P.X) * (Q.Y + Q.X), k.p);
    var c := Mod(2 * k.d * P.T * Q.T, k.p);
    var d := Mod(2 * P.Z * Q.Z, k.p);
    Assemble(Mod(b - a, k.p), Mod(d - c, k.p), Mod(d + c, k.p), Mod(b + a, k.p), k.p)
  }

  function ExtendedDouble(k: Curve, P: Extended): Extended
    requires 0 < k.p
  {
    var a := Mod(P.X * P.X, k.p);
    var b := Mod(P.Y * P.Y, k.p);
    var c := Mod(2 * P.Z * P.Z, k.p);
    var d := Mod(-a, k.p);
    var e := Mod((P.X + P.Y) * (P.X + P.Y) - a - b, k.p);
    var g := Mod(d + b, k.p);
    Assemble(e, Mod(g - c, k.p), g, Mod(d - b, k.p), k.p)
  }

  function AffinePoint(c: Curve, P: Extended): Result<Point>
    requires 1 < c.p
  {
    var inverseZ := ModInv(P.Z, c.p);
    if inverseZ.Err? then Err(inverseZ.error)
    else Ok(Point(Mod(P.X * inverseZ.value, c.p), Mod(P.Y * inverseZ.value, c.p)))
  }

  // ----- the affine law, free of divisions -----

  ghost function Cross(c: Curve, P: Point, Q: Point): int {
    c.d * (P.x * Q.x) * (P.y * Q.y)
  }

  /** `R = P + Q` with the denominators multiplied out. */
  ghost predicate IsSum(c: Curve, P: Point, Q: Point, R: Point)
    requires 0 < c.p
  {
    var e := Cross(c, P, Q);
    && Cong(R.x * (1 + e), P.x * Q.y + P.y * Q.x, c.p)
    && Cong(R.y * (1 - e), P.y * Q.y + P.x * Q.x, c.p)
  }

  ghost predicate Regular(c: Curve, P: Point, Q: Point)
    requires 0 < c.p
  {
    (1 + Cross(c, P, Q)) % c.p != 0 && (1 - Cross(c, P, Q)) % c.p != 0
  }

  lemma SumUnique(c: Curve, P: Point, Q: Point, R: Point, S: Point)
    requires Prime(c.p) && Regular(c, P, Q) && IsSum(c, P, Q, R) && IsSum(c, P, Q, S)
    requires Canonical(c, R) && Canonical(c, S)
    ensures R == S
  {
    var e := Cross(c, P, Q);
    DivideOut(1 + e, R.x, S.x, P.x * Q.y + P.y * Q.x, c.p);
    DivideOut(1 - e, R.y, S.y, P.y * Q.y + P.x * Q.x, c.p);
  }

  lemma DivideOut(u: int, r: int, s: int, n: int, p: int)
    requires Prime(p) && u % p != 0 && Cong(r * u, n, p) && Cong(s * u, n, p)
    requires 0 <= r < p && 0 <= s < p
    ensures r == s
  {
    CongSym(s * u, n, p);
    CongTrans(u * r, n, u * s, p);
    Cancel(u, r, s, p);
    CongSmall(r, s, p);
  }

  // ----- completeness: the denominators never vanish on the curve -----

  lemma RatioIsRoot(A: int, w: int, d: int, p: int)
    requires Prime(p) && w % p != 0 && Cong(A * A, d * (w * w), p)
    ensures IsSquare(d, p)
  {
    ModInvCorrect(w, p);
    var v := ModInv(w, p).value;
    CongMul(w * v, 1, w * v, 1, p);
    CongEq(v * v, v * v, p);
    CongMul(A * A, d * (w * w), v * v, v * v, p);
    Interchange(A, v, A, v);
    Interchange(w, v, w, v);
    CongEq(d, d, p);
    CongMul(d, d, (w * v) * (w * v), 1, p);
    assert d * (w * w) * (v * v) == d * ((w * w) * (v * v));
    CongTrans((A * v) * (A * v), d * ((w * v) * (w * v)), d, p);
    assert IsRoot(A * v, d, p);
  }

  /** `d` not being a square forces `w = 0` in `A^2 = d * w^2`. */
  lemma NonSquareForces(A: int, w: int, d: int, p: int)
    requires Prime(p) && !IsSquare(d, p) && Cong(A * A, d * (w * w), p)
    ensures w % p == 0
  {
    if w % p != 0 {
      RatioIsRoot(A, w, d, p);
    }
  }

  lemma SquareOfSum(i: int, s: int, x: int, y: int)
    requires s * s == 1
    ensures (i * x + s * y) * (i * x + s * y) == i * i * (x * x) + 2 * i * s * (x * y) + y * y
  {
    var u, v := i * x, s * y;
    assert u * u == i * i * (x * x) && u * v == i * s * (x * y);
    assert v * v == (s * s) * (y * y);
  }

  lemma CrossProducts(d: int, x1: int, y1: int, x2: int, y2: int)
    ensures var v1, v2, e := x1 * y1, x2 * y2, d * (x1 * x2) * (y1 * y2);
            && (d * v1 * v1) * (d * v2 * v2) == e * e
            && (d * v1 * v1) * v2 == e * v1
            && e == d * v1 * v2
  {
    var v1, v2, e := x1 * y1, x2 * y2, d * (x1 * x2) * (y1 * y2);
    Interchange(x1, x2, y1, y2);
    assert e == d * (v1 * v2);
    Interchange(d * v1, v1, d * v2, v2);
    Interchange(d * v1, d * v2, v1, v2);
    Interchange(d, v1, d, v2);
    assert (d * v1) * v2 == e;
    assert (d * v1 * v1) * v2 == ((d * v1) * v2) * v1;
    assert (d * v1 * v1) * (d * v2 * v2) == ((d * v1) * v2) * ((d * v2) * v1);
    assert (d * v2) * v1 == e;
  }

  /** The integer identity behind completeness: four cofactors times four vanishing expressions. */
  lemma CompletenessExpand(k: int, i: int, s: int, a1: int, b1: int, a2: int, b2: int, v1: int, v2: int, m: int, e: int)
    requires s * s == 1 && k * m == e * e && k * v2 == e * v1
    ensures (i * i * a1 + 2 * i * s * v1 + b1) - k * (i * i * a2 + 2 * i * v2 + b2) ==
              (b1 - a1 - (1 + k)) + (a1 - k * a2) * (i * i + 1) + -k * (b2 - a2 - (1 + m))
              + -(e + s + 2 * i * v1) * (e - s)
  {
    assert k * (2 * i * v2) == 2 * i * (k * v2);
    assert (e + s + 2 * i * v1) * (e - s) == e * e - s * s + 2 * i * v1 * e - 2 * i * v1 * s;
  }

  lemma Combine4(a: int, A: int, b: int, B: int, c: int, C: int, d: int, D: int, p: int)
    requires 0 < p && A % p == 0 && B % p == 0 && C % p == 0 && D % p == 0
    ensures (a * A + b * B + c * C + d * D) % p == 0
  {
    Combine(a, A, b, B, p);
    Combine(c, C, d, D, p);
    Combine(1, a * A + b * B, 1, c * C + d * D, p);
  }

  lemma CompletenessHalf(c: Curve, P: Point, Q: Point, i: int, s: int)
    requires ValidCurve(c) && OnCurve(c, P) && OnCurve(c, Q) && IsRoot(i, -1, c.p)
    requires s * s == 1 && Cong(Cross(c, P, Q), s, c.p)
    ensures (P.x * P.y * (i * Q.x + Q.y)) % c.p == 0
  {
    var v1, v2, e := P.x * P.y, Q.x * Q.y, Cross(c, P, Q);
    var A, B := i * P.x + s * P.y, i * Q.x + Q.y;
    var k, m := c.d * v1 * v1, c.d * v2 * v2;
    SquareOfSum(i, s, P.x, P.y);
    SquareOfSum(i, 1, Q.x, Q.y);
    CrossProducts(c.d, P.x, P.y, Q.x, Q.y);
    CompletenessExpand(k, i, s, P.x * P.x, P.y * P.y, Q.x * Q.x, Q.y * Q.y, v1, v2, m, e);
    CompletenessCong(k, i, s, P.x * P.x, P.y * P.y, Q.x * Q.x, Q.y * Q.y, v1, m, e, A * A - k * (B * B), c.p);
    SquareScaled(c.d, v1, B);
    NonSquareForces(A, v1 * B, c.d, c.p);
  }

  lemma SquareScaled(d: int, v: int, B: int)
    ensures d * ((v * B) * (v * B)) == d * v * v * (B * B)
  {
    Interchange(v, B, v, B);
    assert d * ((v * v) * (B * B)) == d * (v * v) * (B * B);
  }

  lemma CompletenessCong(k: int, i: int, s: int, a1: int, b1: int, a2: int, b2: int, v1: int, m: int, e: int, t: int, p: int)
    requires 0 < p && (i * i - -1) % p == 0 && (e - s) % p == 0
    requires (b1 - a1 - (1 + k)) % p == 0 && (b2 - a2 - (1 + m)) % p == 0
    requires t == (b1 - a1 - (1 + k)) + (a1 - k * a2) * (i * i + 1) + -k * (b2 - a2 - (1 + m))
                  + -(e + s + 2 * i * v1) * (e - s)
    ensures t % p == 0
  {
    Combine4(1, b1 - a1 - (1 + k), a1 - k * a2, i * i + 1, -k, b2 - a2 - (1 + m), -(e + s + 2 * i * v1), e - s, p);
  }

  /** On the curve, `d*x1*x2*y1*y2` is neither 1 nor -1. */
  lemma CrossNotUnit(c: Curve, P: Point, Q: Point, s: int)
    requires ValidCurve(c) && OnCurve(c, P) && OnCurve(c, Q) && s * s == 1
    ensures !Cong(Cross(c, P, Q), s, c.p)
  {
    if Cong(Cross(c, P, Q), s, c.p) {
      var p := c.p;
      var i :| IsRoot(i, -1, p);
      var P', Q' := Point(P.x, -P.y), Point(Q.x, -Q.y);
      NegatedY(c, P);
      NegatedY(c, Q);
      assert Cross(c, P', Q') == Cross(c, P, Q);
      CompletenessHalf(c, P, Q, i, s);
      CompletenessHalf(c, P', Q', i, s);
      CrossFactors(c, P, Q, s);
      var v := P.x * P.y;
      assert P'.x * P'.y == -v;
      NoZeroDivisors(v, i * Q.x + Q.y, p);
      assert -v * (i * Q.x - Q.y) == v * (Q.y - i * Q.x);
      NoZeroDivisors(v, Q.y - i * Q.x, p);
      Combine(1, i * Q.x + Q.y, 1, Q.y - i * Q.x, p);
      NoZeroDivisors(2, Q.y, p);
      DivModUnique(2, 0, 2, p);
    }
  }

  lemma NegatedY(c: Curve, P: Point)
    requires 0 < c.p && OnCurve(c, P)
    ensures OnCurve(c, Point(P.x, -P.y))
  {
    assert P.x * -P.y == -(P.x * P.y);
    assert c.d * -(P.x * P.y) * -(P.x * P.y) == c.d * (P.x * P.y) * (P.x * P.y);
    assert -P.y * -P.y == P.y * P.y;
  }

  /** A unit cross term has non-zero coordinates. */
  lemma CrossFactors(c: Curve, P: Point, Q: Point, s: int)
    requires Prime(c.p) && s * s == 1 && Cong(Cross(c, P, Q), s, c.p)
    ensures (P.x * P.y) % c.p != 0 && Q.y % c.p != 0
  {
    var e := Cross(c, P, Q);
    UnitNonZero(e, s, c.p);
    CrossRegrouped(c.d, P.x, P.y, Q.x, Q.y);
    if (P.x * P.y) % c.p == 0 { Combine(c.d * Q.x * Q.y, P.x * P.y, 0, 0, c.p); }
    if Q.y % c.p == 0 { Combine(c.d * P.x * Q.x * P.y, Q.y, 0, 0, c.p); }
  }

  lemma UnitNonZero(e: int, s: int, p: int)
    requires 1 < p && s * s == 1 && Cong(e, s, p)
    ensures e % p != 0
  {
    if e % p == 0 {
      Combine(s, e, -s, e - s, p);
      UnitDifference(e, s);
      DivModUnique(1, 0, 1, p);
      assert false;
    }
  }

  lemma UnitDifference(e: int, s: int)
    requires s * s == 1
    ensures s * e + -s * (e - s) == 1
  {
  }

  lemma CrossRegrouped(d: int, x1: int, y1: int, x2: int, y2: int)
    ensures d * (x1 * x2) * (y1 * y2) == (d * x2 * y2) * (x1 * y1)
    ensures d * (x1 * x2) * (y1 * y2) == (d * x1 * x2 * y1) * y2
  {
  }

  /** The addition law is complete on the curve. */
  lemma CurveIsRegular(c: Curve, P: Point, Q: Point)
    requires ValidCurve(c) && OnCurve(c, P) && OnCurve(c, Q)
    ensures Regular(c, P, Q)
  {
    var e := Cross(c, P, Q);
    CrossNotUnit(c, P, Q, -1);
    CrossNotUnit(c, P, Q, 1);
    if (1 - e) % c.p == 0 {
      CongSym(1, e, c.p);
    }
  }

  // ----- closure -----

  lemma DifferenceOfSquares(x1: int, y1: int, x2: int, y2: int)
    ensures (y1 * y2 + x1 * x2) * (y1 * y2 + x1 * x2) - (x1 * y2 + y1 * x2) * (x1 * y2 + y1 * x2)
              == (y1 * y1 - x1 * x1) * (y2 * y2 - x2 * x2)
  {
  }

  lemma SumOfSquares(x1: int, y1: int, x2: int, y2: int)
    ensures (y1 * y2 + x1 * x2) * (y1 * y2 + x1 * x2) + (x1 * y2 + y1 * x2) * (x1 * y2 + y1 * x2)
              == (y1 * y1 + x1 * x1) * (y2 * y2 + x2 * x2) + 4 * ((x1 * y1) * (x2 * y2))
  {
  }

  lemma ProductOfNumerators(x1: int, y1: int, x2: int, y2: int)
    ensures (x1 * y2 + y1 * x2) * (y1 * y2 + x1 * x2)
              == (x1 * y1) * (y2 * y2 + x2 * x2) + (x2 * y2) * (y1 * y1 + x1 * x1)
  {
  }

  lemma SquareOfSquares(x: int, y: int)
    ensures (y * y + x * x) * (y * y + x * x) == (y * y - x * x) * (y * y - x * x) + 4 * ((x * y) * (x * y))
  {
  }

  /** `d*(v1*s2 + v2*s1)^2` when `s^2 = w + 4*v^2`. */
  lemma ProductExpand(d: int, v1: int, v2: int, s1: int, s2: int, w1: int, w2: int)
    requires s1 * s1 == w1 + 4 * (v1 * v1) && s2 * s2 == w2 + 4 * (v2 * v2)
    ensures var q, e := v1 * s2 + v2 * s1, d * v1 * v2;
            d * (q * q) == (d * v1 * v1) * w2 + (d * v2 * v2) * w1 + 8 * (e * (v1 * v2)) + 2 * e * (s1 * s2)
  {
    var a, b, v := v1 * v1, v2 * v2, v1 * v2;
    SquareSubstituted(v1, v2, s1, s2, w1 + 4 * a, w2 + 4 * b);
    Interchange(v1, v1, v2, v2);
    ProductCollect(d, a, b, v, s1 * s2, w1, w2, (v1 * s2 + v2 * s1) * (v1 * s2 + v2 * s1));
    AssociateTerms(d, v1, v2, w1, w2, s1 * s2);
  }

  lemma SquareSubstituted(v1: int, v2: int, s1: int, s2: int, x1: int, x2: int)
    requires s1 * s1 == x1 && s2 * s2 == x2
    ensures (v1 * s2 + v2 * s1) * (v1 * s2 + v2 * s1) == (v1 * v1) * x2 + (v2 * v2) * x1 + 2 * ((v1 * v2) * (s1 * s2))
  {
    SquareTerms(v1, v2, s1, s2);
  }

  lemma SquareTerms(v1: int, v2: int, s1: int, s2: int)
    ensures (v1 * s2 + v2 * s1) * (v1 * s2 + v2 * s1)
              == v1 * v1 * (s2 * s2) + v2 * v2 * (s1 * s1) + 2 * (v1 * v2 * (s1 * s2))
  {
  }

  lemma AssociateTerms(d: int, v1: int, v2: int, w1: int, w2: int, s: int)
    ensures d * (v1 * v1) * w2 == (d * v1 * v1) * w2 && d * (v2 * v2) * w1 == (d * v2 * v2) * w1
    ensures d * (v1 * v2) * (v1 * v2) == (d * v1 * v2) * (v1 * v2)
    ensures d * (v1 * v2) * s == (d * v1 * v2) * s
  {
  }

  lemma ProductCollect(d: int, a: int, b: int, v: int, s: int, w1: int, w2: int, square: int)
    requires a * b == v * v && square == a * (w2 + 4 * b) + b * (w1 + 4 * a) + 2 * (v * s)
    ensures d * square
              == d * a * w2 + d * b * w1 + 8 * (d * v * v) + 2 * (d * v * s)
  {
    assert a * (w2 + 4 * b) == a * w2 + 4 * (a * b) && b * (w1 + 4 * a) == b * w1 + 4 * (a * b);
    assert d * (a * w2 + b * w1 + 8 * (v * v) + 2 * (v * s))
        == d * (a * w2) + d * (b * w1) + 8 * (d * (v * v)) + 2 * (d * (v * s));
  }

  /**
   * Over the integers: with `u = y^2 - x^2` and `v = x*y`, the curve equation of the sum with
   * denominators cleared only involves `u1`, `u2` and `k = d*v^2`.
   */
  lemma ClosureIdentity(d: int, x1: int, y1: int, x2: int, y2: int)
    ensures var nx, ny, v1, v2 := x1 * y2 + y1 * x2, y1 * y2 + x1 * x2, x1 * y1, x2 * y2;
            var u1, u2, e := y1 * y1 - x1 * x1, y2 * y2 - x2 * x2, d * v1 * v2;
            && ny * ny - nx * nx == u1 * u2
            && d * ((nx * ny) * (nx * ny)) ==
                 (d * v1 * v1) * (u2 * u2) + (d * v2 * v2) * (u1 * u1) + 8 * (e * (v1 * v2))
                 + 2 * e * (ny * ny + nx * nx - 4 * (v1 * v2))
  {
    DifferenceOfSquares(x1, y1, x2, y2);
    SumOfSquares(x1, y1, x2, y2);
    ProductOfNumerators(x1, y1, x2, y2);
    SquareOfSquares(x1, y1);
    SquareOfSquares(x2, y2);
    var u1, u2 := y1 * y1 - x1 * x1, y2 * y2 - x2 * x2;
    ProductExpand(d, x1 * y1, x2 * y2, y1 * y1 + x1 * x1, y2 * y2 + x2 * x2, u1 * u1, u2 * u2);
  }

  /** `G(u1, u2)` vanishes when `u1 = 1 + k1` and `u2 = 1 + k2`. */
  ghost function ClosureForm(u1: int, u2: int, k1: int, k2: int): int {
    u1 * u2 * (1 + k1 * k2) - (1 - k1 * k2) * (1 - k1 * k2) - k1 * (u2 * u2) - k2 * (u1 * u1)
  }

  lemma ClosureFormVanishes(u1: int, u2: int, k1: int, k2: int, p: int)
    requires 0 < p && Cong(u1, 1 + k1, p) && Cong(u2, 1 + k2, p)
    ensures ClosureForm(u1, u2, k1, k2) % p == 0
  {
    var w1, w2, K := 1 + k1, 1 + k2, k1 * k2;
    var f1, f2 := u2 * (1 + K) - k2 * (u1 + w1), w1 * (1 + K) - k1 * (u2 + w2);
    ClosureSplit(u1, u2, k1, k2);
    Combine(f1, u1 - w1, f2, u2 - w2, p);
  }

  lemma ClosureSplit(u1: int, u2: int, k1: int, k2: int)
    ensures var w1, w2, K := 1 + k1, 1 + k2, k1 * k2;
            (u2 * (1 + K) - k2 * (u1 + w1)) * (u1 - w1) + (w1 * (1 + K) - k1 * (u2 + w2)) * (u2 - w2)
              == ClosureForm(u1, u2, k1, k2)
  {
    ClosureDifference(u1, u2, 1 + k1, 1 + k2, k1 * k2, k1, k2);
    ClosureFormAtOne(k1, k2);
  }

  lemma ClosureDifference(u1: int, u2: int, w1: int, w2: int, K: int, k1: int, k2: int)
    ensures (u2 * (1 + K) - k2 * (u1 + w1)) * (u1 - w1) + (w1 * (1 + K) - k1 * (u2 + w2)) * (u2 - w2)
              == u1 * u2 * (1 + K) - w1 * w2 * (1 + K) - k2 * (u1 * u1 - w1 * w1) - k1 * (u2 * u2 - w2 * w2)
  {
    HalfDifference(u1, w1, u2 * (1 + K), k2);
    HalfDifference(u2, w2, w1 * (1 + K), k1);
    assert u2 * (1 + K) * u1 == u1 * u2 * (1 + K) && w1 * (1 + K) * w2 == w1 * w2 * (1 + K);
    assert w1 * (1 + K) * u2 == u2 * (1 + K) * w1;
  }

  lemma HalfDifference(u: int, w: int, m: int, k: int)
    ensures (m - k * (u + w)) * (u - w) == m * u - m * w - k * (u * u - w * w)
  {
  }

  lemma ClosureFormAtOne(k1: int, k2: int)
    ensures (1 + k1) * (1 + k2) * (1 + k1 * k2) - (1 - k1 * k2) * (1 - k1 * k2)
              == k1 * ((1 + k2) * (1 + k2)) + k2 * ((1 + k1) * (1 + k1))
  {
    var K := k1 * k2;
    assert (1 + k1) * (1 + k2) == 1 + k1 + k2 + K;
    ExpandAtOne(k1, k2, K);
    SquareAtOne(k1, k2);
    SquareAtOne(k2, k1);
  }

  lemma ExpandAtOne(k1: int, k2: int, K: int)
    ensures (1 + k1 + k2 + K) * (1 + K) - (1 - K) * (1 - K) == k1 + k2 + 4 * K + k1 * K + k2 * K
  {
  }

  lemma SquareAtOne(k: int, l: int)
    ensures k * ((1 + l) * (1 + l)) == k + 2 * (k * l) + l * (k * l)
  {
  }

  /** The cleared curve equation of the sum is `ClosureForm`. */
  lemma ClearedEquation(c: Curve, P: Point, Q: Point)
    requires 0 < c.p && OnCurve(c, P) && OnCurve(c, Q)
    ensures var nx, ny, e := P.x * Q.y + P.y * Q.x, P.y * Q.y + P.x * Q.x, Cross(c, P, Q);
            (ny * ny * ((1 + e) * (1 + e)) - nx * nx * ((1 - e) * (1 - e))
             - (1 + e) * (1 + e) * ((1 - e) * (1 - e)) - c.d * ((nx * ny) * (nx * ny))) % c.p == 0
  {
    var nx, ny, e := P.x * Q.y + P.y * Q.x, P.y * Q.y + P.x * Q.x, Cross(c, P, Q);
    var v1, v2 := P.x * P.y, Q.x * Q.y;
    var u1, u2 := P.y * P.y - P.x * P.x, Q.y * Q.y - Q.x * Q.x;
    var k1, k2 := c.d * v1 * v1, c.d * v2 * v2;
    ClosureIdentity(c.d, P.x, P.y, Q.x, Q.y);
    CrossProducts(c.d, P.x, P.y, Q.x, Q.y);
    ClosureFormVanishes(u1, u2, k1, k2, c.p);
    ClearedAlgebra(nx * nx, ny * ny, e, u1, u2, k1, k2, v1 * v2, c.d * ((nx * ny) * (nx * ny)));
  }

  lemma ClearedAlgebra(nx2: int, ny2: int, e: int, u1: int, u2: int, k1: int, k2: int, v: int, t: int)
    requires ny2 - nx2 == u1 * u2 && k1 * k2 == e * e
    requires t == k1 * (u2 * u2) + k2 * (u1 * u1) + 8 * (e * v) + 2 * e * (ny2 + nx2 - 4 * v)
    ensures ny2 * ((1 + e) * (1 + e)) - nx2 * ((1 - e) * (1 - e)) - (1 + e) * (1 + e) * ((1 - e) * (1 - e)) - t
              == ClosureForm(u1, u2, k1, k2)
  {
    assert (1 + e) * (1 + e) == 1 + 2 * e + e * e && (1 - e) * (1 - e) == 1 - 2 * e + e * e;
    assert (1 + e) * (1 + e) * ((1 - e) * (1 - e)) == (1 - e * e) * (1 - e * e) by {
      Interchange(1 + e, 1 + e, 1 - e, 1 - e);
    }
    assert ny2 * (1 + 2 * e + e * e) - nx2 * (1 - 2 * e + e * e)
        == (ny2 - nx2) * (1 + e * e) + 2 * e * (ny2 + nx2);
    assert u1 * u2 * (1 + k1 * k2) == (ny2 - nx2) * (1 + e * e);
  }

  lemma SumOnCurve(c: Curve, P: Point, Q: Point, R: Point)
    requires Prime(c.p) && OnCurve(c, P) && OnCurve(c, Q) && Regular(c, P, Q) && IsSum(c, P, Q, R)
    ensures OnCurve(c, R)
  {
    var nx, ny, e := P.x * Q.y + P.y * Q.x, P.y * Q.y + P.x * Q.x, Cross(c, P, Q);
    ClearedEquation(c, P, Q);
    FromCleared(c.d, R.x, R.y, nx, ny, 1 + e, 1 - e, c.p);
  }

  /** Dividing the cleared equation by the squared denominators. */
  lemma FromCleared(d: int, x: int, y: int, nx: int, ny: int, dx: int, dy: int, p: int)
    requires Prime(p) && dx % p != 0 && dy % p != 0 && Cong(x * dx, nx, p) && Cong(y * dy, ny, p)
    requires (ny * ny * (dx * dx) - nx * nx * (dy * dy) - dx * dx * (dy * dy) - d * ((nx * ny) * (nx * ny))) % p == 0
    ensures Cong(y * y - x * x, 1 + d * (x * y) * (x * y), p)
  {
    var X, Y := x * dx, y * dy;
    var D := dx * dx * (dy * dy);
    var g := y * y - x * x - (1 + d * (x * y) * (x * y));
    CongMul(X, nx, X, nx, p);
    CongMul(Y, ny, Y, ny, p);
    CongEq(dx * dx, dx * dx, p);
    CongEq(dy * dy, dy * dy, p);
    CongEq(D, D, p);
    CongEq(d, d, p);
    CongMul(Y * Y, ny * ny, dx * dx, dx * dx, p);
    CongMul(X * X, nx * nx, dy * dy, dy * dy, p);
    CongMul(X, nx, Y, ny, p);
    CongMul(X * Y, nx * ny, X * Y, nx * ny, p);
    CongMul(d, d, (X * Y) * (X * Y), (nx * ny) * (nx * ny), p);
    CongSub(Y * Y * (dx * dx), ny * ny * (dx * dx), X * X * (dy * dy), nx * nx * (dy * dy), p);
    CongSub(Y * Y * (dx * dx) - X * X * (dy * dy), ny * ny * (dx * dx) - nx * nx * (dy * dy), D, D, p);
    CongSub(Y * Y * (dx * dx) - X * X * (dy * dy) - D, ny * ny * (dx * dx) - nx * nx * (dy * dy) - D,
            d * ((X * Y) * (X * Y)), d * ((nx * ny) * (nx * ny)), p);
    ScaledEquation(d, x, y, dx, dy);
    var G := Y * Y * (dx * dx) - X * X * (dy * dy) - D - d * ((X * Y) * (X * Y));
    var H := ny * ny * (dx * dx) - nx * nx * (dy * dy) - D - d * ((nx * ny) * (nx * ny));
    Combine(1, G - H, 1, H, p);
    NonZeroProduct(dx, dx, p);
    NonZeroProduct(dy, dy, p);
    NonZeroProduct(dx * dx, dy * dy, p);
    NoZeroDivisors(D, g, p);
  }

  lemma NonZeroProduct(a: int, b: int, p: int)
    requires Prime(p) && a % p != 0 && b % p != 0
    ensures (a * b) % p != 0
  {
    if (a * b) % p == 0 { NoZeroDivisors(a, b, p); }
  }

  lemma ScaledEquation(d: int, x: int, y: int, dx: int, dy: int)
    ensures var X, Y, D := x * dx, y * dy, dx * dx * (dy * dy);
            D * (y * y - x * x - (1 + d * (x * y) * (x * y)))
              == Y * Y * (dx * dx) - X * X * (dy * dy) - D - d * ((X * Y) * (X * Y))
  {
    var X, Y, D := x * dx, y * dy, dx * dx * (dy * dy);
    Interchange(x, dx, x, dx);
    Interchange(y, dy, y, dy);
    Interchange(x, dx, y, dy);
    var v, w := x * y, dx * dy;
    Interchange(v, w, v, w);
    Interchange(dx, dx, dy, dy);
    ScaledTerms(dx * dx, dy * dy, x * x, y * y, d, v * v);
    DistributeScale(D, y * y, x * x, d * (v * v));
    assert d * v * v == d * (v * v);
  }

  lemma ScaledTerms(a: int, b: int, s: int, t: int, d: int, v: int)
    ensures t * b * a == a * b * t && s * a * b == a * b * s && d * (v * (a * b)) == a * b * (d * v)
  {
  }

  lemma DistributeScale(D: int, t: int, s: int, u: int)
    ensures D * (t - s - (1 + u)) == D * t - D * s - D - D * u
  {
  }

  // ----- `pointAdd` computes the sum -----

  /** `pointAdd` works on residues: representatives do not matter. */
  lemma PointAddMeets(c: Curve, P: Point, Q: Point)
    requires OddField(c)
    ensures PointAdd(c, P, Q).Ok? <==> Regular(c, P, Q)
    ensures PointAdd(c, P, Q).Ok? ==> Canonical(c, PointAdd(c, P, Q).value) && IsSum(c, P, Q, PointAdd(c, P, Q).value)
  {
    var p, e := c.p, Cross(c, P, Q);
    var x1, y1, x2, y2 := P.x % p, P.y % p, Q.x % p, Q.y % p;
    CongMod(P.x, p); CongMod(P.y, p); CongMod(Q.x, p); CongMod(Q.y, p);
    var x1x2, y1y2 := (x1 * x2) % p, (y1 * y2) % p;
    ReducedProduct(x1, P.x, x2, Q.x, p);
    ReducedProduct(y1, P.y, y2, Q.y, p);
    CongEq(c.d, c.d, p);
    ReducedProduct(c.d, c.d, x1x2, P.x * Q.x, p);
    ReducedProduct((c.d * x1x2) % p, c.d * (P.x * Q.x), y1y2, P.y * Q.y, p);
    var dxxyy := (((c.d * x1x2) % p) * y1y2) % p;
    assert Cong(dxxyy, e, p);
    CongEq(1, 1, p);
    CongAdd(1, 1, dxxyy, e, p);
    CongSub(1, 1, dxxyy, e, p);
    CongIffMod(1 + dxxyy, 1 + e, p);
    CongIffMod(1 - dxxyy, 1 - e, p);
    ModInvCorrect(1 + dxxyy, p);
    ModInvCorrect(1 - dxxyy, p);
    if PointAdd(c, P, Q).Ok? {
      var R := PointAdd(c, P, Q).value;
      CongMul(x1, P.x, y2, Q.y, p);
      CongMul(y1, P.y, x2, Q.x, p);
      CongAdd(x1 * y2, P.x * Q.y, y1 * x2, P.y * Q.x, p);
      Quotient(x1 * y2 + y1 * x2, P.x * Q.y + P.y * Q.x, 1 + dxxyy, 1 + e, ModInv(1 + dxxyy, p).value, p);
      CongAdd(y1y2, P.y * Q.y, x1x2, P.x * Q.x, p);
      Quotient(y1y2 + x1x2, P.y * Q.y + P.x * Q.x, 1 - dxxyy, 1 - e, ModInv(1 - dxxyy, p).value, p);
    }
  }

  lemma ReducedProduct(a: int, A: int, b: int, B: int, p: int)
    requires 0 < p && Cong(a, A, p) && Cong(b, B, p)
    ensures Cong((a * b) % p, A * B, p)
  {
    CongMul(a, A, b, B, p);
    CongMod(a * b, p);
    CongTrans((a * b) % p, a * b, A * B, p);
  }

  /** `num * inv(den)`, reduced as the code reduces it, times the true denominator gives the true numerator. */
  lemma Quotient(num: int, N: int, den: int, D: int, inv: int, p: int)
    requires 0 < p && Cong(num, N, p) && Cong(den, D, p) && Cong(den * inv, 1, p)
    ensures Cong((num % p * inv) % p * D, N, p)
  {
    CongMod(num, p);
    CongTrans(num % p, num, N, p);
    CongEq(inv, inv, p);
    ReducedProduct(num % p, N, inv, inv, p);
    CongSym(den, D, p);
    CongMul((num % p * inv) % p, N * inv, D, den, p);
    CongEq(N, N, p);
    CongMul(N, N, den * inv, 1, p);
    assert N * inv * den == N * (den * inv);
    CongTrans((num % p * inv) % p * D, N * inv * den, N, p);
  }

  /** On a valid curve `pointAdd` never throws, stays on the curve, and returns the reduced sum. */
  lemma PointAddTotal(c: Curve, P: Point, Q: Point)
    requires ValidCurve(c) && OnCurve(c, P) && OnCurve(c, Q)
    ensures PointAdd(c, P, Q).Ok?
    ensures var R := PointAdd(c, P, Q).value; Canonical(c, R) && OnCurve(c, R) && IsSum(c, P, Q, R)
  {
    CurveIsRegular(c, P, Q);
    PointAddMeets(c, P, Q);
    SumOnCurve(c, P, Q, PointAdd(c, P, Q).value);
  }

  lemma IdentityOnCurve(c: Curve)
    requires 1 < c.p
    ensures OnCurve(c, IDENTITY) && Canonical(c, IDENTITY)
  {
    assert IDENTITY.x * IDENTITY.y == 0;
    assert c.d * 0 * 0 == 0;
    CongEq(1, 1, c.p);
  }

  lemma PointAddCommutes(c: Curve, P: Point, Q: Point)
    requires 1 < c.p
    ensures PointAdd(c, P, Q) == PointAdd(c, Q, P)
  {
    hide ModInv;
    ProductsCommute(Mod(P.x, c.p), Mod(P.y, c.p), Mod(Q.x, c.p), Mod(Q.y, c.p));
  }

  lemma ProductsCommute(x1: int, y1: int, x2: int, y2: int)
    ensures x1 * x2 == x2 * x1 && y1 * y2 == y2 * y1 && x1 * y2 + y1 * x2 == x2 * y1 + y2 * x1
  {
  }

  lemma PointAddIdentity(c: Curve, P: Point)
    requires ValidCurve(c) && OnCurve(c, P)
    ensures PointAdd(c, IDENTITY, P) == Ok(Reduce(c, P)) && PointAdd(c, P, IDENTITY) == Ok(Reduce(c, P))
  {
    IdentityOnCurve(c);
    PointAddTotal(c, IDENTITY, P);
    CurveIsRegular(c, IDENTITY, P);
    CongMod(P.x, c.p);
    CongMod(P.y, c.p);
    assert Cross(c, IDENTITY, P) == 0 by { assert IDENTITY.x * P.x == 0; assert c.d * 0 == 0; }
    SumUnique(c, IDENTITY, P, PointAdd(c, IDENTITY, P).value, Reduce(c, P));
    PointAddCommutes(c, P, IDENTITY);
  }

  /** Facts about `(-x, y)`: it is on the curve and its cross term with `(x, y)` is `1 - (y^2 - x^2)`. */
  lemma NegatedX(c: Curve, P: Point)
    requires 0 < c.p && OnCurve(c, P)
    ensures var N := Point(-P.x, P.y);
            OnCurve(c, N) && Cong(1 * (1 - Cross(c, P, N)), P.y * P.y + P.x * -P.x, c.p)
  {
    var N, v := Point(-P.x, P.y), P.x * P.y;
    NegProducts(c.d, P.x, P.y);
    CrossProducts(c.d, P.x, P.y, N.x, N.y);
    CongSym(P.y * P.y - P.x * P.x, 1 + c.d * v * v, c.p);
  }

  lemma NegProducts(d: int, x: int, y: int)
    ensures -x * y == -(x * y) && -x * -x == x * x && x * -x == -(x * x)
    ensures d * (-x * y) * (-x * y) == d * (x * y) * (x * y) && d * (x * y) * (-x * y) == -(d * (x * y) * (x * y))
  {
  }

  /** `(-x, y)` is the inverse of `(x, y)`. */
  lemma PointAddInverse(c: Curve, P: Point)
    requires ValidCurve(c) && OnCurve(c, P)
    ensures OnCurve(c, Point(-P.x, P.y)) && PointAdd(c, P, Point(-P.x, P.y)) == Ok(IDENTITY)
  {
    hide Cong, Cross, PointAdd;
    var N := Point(-P.x, P.y);
    NegatedX(c, P);
    PointAddTotal(c, P, N);
    CurveIsRegular(c, P, N);
    IdentityOnCurve(c);
    assert 0 * (1 + Cross(c, P, N)) == 0 && P.x * N.y + P.y * N.x == 0 by { NegProducts(c.d, P.x, P.y); }
    CongEq(0, 0, c.p);
    SumUnique(c, P, N, PointAdd(c, P, N).value, IDENTITY);
  }

  // ----- the projective formulas refine the affine law -----

  /** `E` stands for the affine point `P`. */
  ghost predicate Represents(c: Curve, E: Extended, P: Point)
    requires 0 < c.p
  {
    && Cong(E.X, P.x * E.Z, c.p)
    && Cong(E.Y, P.y * E.Z, c.p)
    && Cong(E.T, P.x * P.y * E.Z, c.p)
    && E.Z % c.p != 0
  }

  /** The stored product `T` satisfies `T*Z = X*Y`. */
  lemma RepresentsProduct(c: Curve, E: Extended, P: Point)
    requires 0 < c.p && Represents(c, E, P)
    ensures Cong(E.T * E.Z, E.X * E.Y, c.p)
  {
    hide Cong;
    var m := E.Z * E.Z * (P.x * P.y);
    ProductOfScaled(E.X, E.Y, P.x, P.y, E.Z, E.Z, c.p);
    CongEq(E.Z, 1 * E.Z, c.p);
    ProductOfScaled(E.T, E.Z, P.x * P.y, 1, E.Z, E.Z, c.p);
    CongSym(E.X * E.Y, m, c.p);
    CongTrans(E.T * E.Z, m, E.X * E.Y, c.p);
  }

  /** What the four intermediate values must be for `Assemble` to give the sum `R`. */
  lemma AssembleSum(c: Curve, R: Point, e: int, f: int, g: int, h: int, l: int, k: int,
                    nx: int, ny: int, dx: int, dy: int)
    requires Prime(c.p) && l % c.p != 0 && k % c.p != 0 && dx % c.p != 0 && dy % c.p != 0
    requires Cong(R.x * dx, nx, c.p) && Cong(R.y * dy, ny, c.p)
    requires Cong(e, l * nx, c.p) && Cong(g, l * dx, c.p) && Cong(f, k * dy, c.p) && Cong(h, k * ny, c.p)
    ensures Represents(c, Assemble(e, f, g, h, c.p), R)
  {
    hide Cong;
    ScaledCoordinate(e, g, R.x, l, nx, dx, c.p);
    ScaledCoordinate(h, f, R.y, k, ny, dy, c.p);
    NonZeroScaled(f, k, dy, c.p);
    NonZeroScaled(g, l, dx, c.p);
    AssembleCoordinates(e, f, g, h, R.x, R.y, c.p);
  }

  lemma NonZeroScaled(g: int, l: int, dx: int, p: int)
    requires Prime(p) && l % p != 0 && dx % p != 0 && Cong(g, l * dx, p)
    ensures g % p != 0
  {
    hide Cong;
    NonZeroProduct(l, dx, p);
    CongIffMod(g, l * dx, p);
  }

  lemma AssembleCoordinates(e: int, f: int, g: int, h: int, x: int, y: int, p: int)
    requires Prime(p) && f % p != 0 && g % p != 0 && Cong(e, x * g, p) && Cong(h, y * f, p)
    ensures var E := Assemble(e, f, g, h, p);
            && Cong(E.X, x * E.Z, p) && Cong(E.Y, y * E.Z, p) && Cong(E.T, x * y * E.Z, p) && E.Z % p != 0
  {
    hide Cong;
    CongEq(f, f, p);
    CongEq(g, g, p);
    CoordinateFactors(x, y, f, g);
    Coordinate(e, f, x * g, f, x, f * g, p);
    Coordinate(g, h, g, y * f, y, f * g, p);
    Coordinate(e, h, x * g, y * f, x * y, f * g, p);
    NonZeroProduct(f, g, p);
    DivModUnique((f * g) % p, 0, (f * g) % p, p);
  }

  lemma CoordinateFactors(x: int, y: int, f: int, g: int)
    ensures x * g * f == x * (f * g) && g * (y * f) == y * (f * g) && x * g * (y * f) == x * y * (f * g)
  {
    Interchange(x, g, y, f);
  }

  lemma ScaledCoordinate(e: int, g: int, x: int, l: int, nx: int, dx: int, p: int)
    requires 0 < p && Cong(e, l * nx, p) && Cong(g, l * dx, p) && Cong(x * dx, nx, p)
    ensures Cong(e, x * g, p)
  {
    CongEq(l, l, p);
    CongEq(x, x, p);
    CongMul(l, l, x * dx, nx, p);
    CongMul(x, x, g, l * dx, p);
    assert x * (l * dx) == l * (x * dx);
    CongTrans(x * g, l * (x * dx), l * nx, p);
    CongSym(x * g, l * nx, p);
    CongTrans(e, l * nx, x * g, p);
  }

  lemma Coordinate(a: int, b: int, A: int, B: int, x: int, z: int, p: int)
    requires 0 < p && Cong(a, A, p) && Cong(b, B, p) && A * B == x * z
    ensures Cong((a * b) % p, x * (z % p), p)
  {
    ReducedProduct(a, A, b, B, p);
    CongMod(z, p);
    CongEq(x, x, p);
    CongMul(x, x, z, z % p, p);
    CongTrans((a * b) % p, x * z, x * (z % p), p);
  }

  lemma ReducedSum(u: int, v: int, U: int, V: int, p: int)
    requires 0 < p && Cong(u, U, p) && Cong(v, V, p)
    ensures Cong((u % p - v % p) % p, U - V, p) && Cong((u % p + v % p) % p, U + V, p)
  {
    CongMod(u, p);
    CongMod(v, p);
    CongTrans(u % p, u, U, p);
    CongTrans(v % p, v, V, p);
    CongSub(u % p, U, v % p, V, p);
    CongAdd(u % p, U, v % p, V, p);
    CongMod(u % p - v % p, p);
    CongMod(u % p + v % p, p);
    CongTrans((u % p - v % p) % p, u % p - v % p, U - V, p);
    CongTrans((u % p + v % p) % p, u % p + v % p, U + V, p);
  }

  lemma ProductOfScaled(a: int, b: int, s: int, t: int, z: int, w: int, p: int)
    requires 0 < p && Cong(a, s * z, p) && Cong(b, t * w, p)
    ensures Cong(a * b, z * w * (s * t), p)
  {
    CongMul(a, s * z, b, t * w, p);
    Interchange(s, z, t, w);
  }

  /** The two products `a` and `b` of the addition formula. */
  lemma AddNumerators(c: Curve, E: Extended, F: Extended, P: Point, Q: Point)
    requires 0 < c.p && Represents(c, E, P) && Represents(c, F, Q)
    ensures var m, nx, ny := E.Z * F.Z, P.x * Q.y + P.y * Q.x, P.y * Q.y + P.x * Q.x;
            && Cong((E.Y + E.X) * (F.Y + F.X), m * (ny + nx), c.p)
            && Cong((E.Y - E.X) * (F.Y - F.X), m * (ny - nx), c.p)
  {
    hide Cong, Represents;
    SumDifference(E, P, c);
    SumDifference(F, Q, c);
    ProductOfScaled(E.Y + E.X, F.Y + F.X, P.y + P.x, Q.y + Q.x, E.Z, F.Z, c.p);
    ProductOfScaled(E.Y - E.X, F.Y - F.X, P.y - P.x, Q.y - Q.x, E.Z, F.Z, c.p);
    SumsMultiplied(P.x, P.y, Q.x, Q.y);
  }

  lemma SumsMultiplied(x: int, y: int, u: int, v: int)
    ensures (y + x) * (v + u) == y * v + x * u + (x * v + y * u)
    ensures (y - x) * (v - u) == y * v + x * u - (x * v + y * u)
  {
  }

  lemma SumDifference(E: Extended, P: Point, c: Curve)
    requires 0 < c.p && Represents(c, E, P)
    ensures Cong(E.Y + E.X, (P.y + P.x) * E.Z, c.p) && Cong(E.Y - E.X, (P.y - P.x) * E.Z, c.p)
  {
    assert (P.y + P.x) * E.Z == P.y * E.Z + P.x * E.Z && (P.y - P.x) * E.Z == P.y * E.Z - P.x * E.Z;
    CongAdd(E.Y, P.y * E.Z, E.X, P.x * E.Z, c.p);
    CongSub(E.Y, P.y * E.Z, E.X, P.x * E.Z, c.p);
  }

  /** The product `c = 2*d*T1*T2` of the addition formula. */
  lemma AddCross(c: Curve, E: Extended, F: Extended, P: Point, Q: Point)
    requires 0 < c.p && Represents(c, E, P) && Represents(c, F, Q)
    ensures Cong(2 * c.d * E.T * F.T, 2 * (E.Z * F.Z) * Cross(c, P, Q), c.p)
  {
    var v1, v2, m := P.x * P.y, Q.x * Q.y, E.Z * F.Z;
    ProductOfScaled(E.T, F.T, v1, v2, E.Z, F.Z, c.p);
    CongEq(2 * c.d, 2 * c.d, c.p);
    CongMul(2 * c.d, 2 * c.d, E.T * F.T, m * (v1 * v2), c.p);
    CrossProducts(c.d, P.x, P.y, Q.x, Q.y);
    assert 2 * c.d * (m * (v1 * v2)) == 2 * m * (c.d * v1 * v2);
    assert 2 * c.d * E.T * F.T == 2 * c.d * (E.T * F.T);
  }

  lemma DistributeTerms(m: int, nx: int, ny: int, x: int)
    ensures m * (ny + nx) - m * (ny - nx) == 2 * m * nx && m * (ny + nx) + m * (ny - nx) == 2 * m * ny
    ensures 2 * m - 2 * m * x == 2 * m * (1 - x) && 2 * m + 2 * m * x == 2 * m * (1 + x)
    ensures m * (1 + x) - 2 * m == -m * (1 - x)
  {
  }

  /** The intermediate values `e, f, g, h` of the addition formula, up to the factor `2*Z1*Z2`. */
  lemma AddTerms(c: Curve, E: Extended, F: Extended, P: Point, Q: Point)
    returns (e: int, f: int, g: int, h: int)
    requires 0 < c.p && Represents(c, E, P) && Represents(c, F, Q)
    ensures ExtendedAdd(c, E, F) == Assemble(e, f, g, h, c.p)
    ensures var m, x := E.Z * F.Z, Cross(c, P, Q);
            && Cong(e, 2 * m * (P.x * Q.y + P.y * Q.x), c.p)
            && Cong(f, 2 * m * (1 - x), c.p)
            && Cong(g, 2 * m * (1 + x), c.p)
            && Cong(h, 2 * m * (P.y * Q.y + P.x * Q.x), c.p)
  {
    hide Cong, Represents, Cross, Mod;
    var p := c.p;
    var a, b := (E.Y - E.X) * (F.Y - F.X), (E.Y + E.X) * (F.Y + F.X);
    var t, d := 2 * c.d * E.T * F.T, 2 * E.Z * F.Z;
    AddNumerators(c, E, F, P, Q);
    AddCross(c, E, F, P, Q);
    AddReduced(a, b, t, d, E.Z * F.Z, P.x * Q.y + P.y * Q.x, P.y * Q.y + P.x * Q.x, Cross(c, P, Q), p);
    e, f, g, h := (b % p - a % p) % p, (d % p - t % p) % p, (d % p + t % p) % p, (b % p + a % p) % p;
  }

  lemma AddReduced(a: int, b: int, t: int, d: int, m: int, nx: int, ny: int, x: int, p: int)
    requires 0 < p && Cong(b, m * (ny + nx), p) && Cong(a, m * (ny - nx), p)
    requires Cong(t, 2 * m * x, p) && d == 2 * m
    ensures Cong((b % p - a % p) % p, 2 * m * nx, p) && Cong((b % p + a % p) % p, 2 * m * ny, p)
    ensures Cong((d % p - t % p) % p, 2 * m * (1 - x), p) && Cong((d % p + t % p) % p, 2 * m * (1 + x), p)
  {
    hide Cong;
    CongEq(d, 2 * m, p);
    ReducedSum(b, a, m * (ny + nx), m * (ny - nx), p);
    ReducedSum(d, t, 2 * m, 2 * m * x, p);
    DistributeTerms(m, nx, ny, x);
  }

  lemma ExtendedAddCorrect(c: Curve, E: Extended, F: Extended, P: Point, Q: Point, R: Point)
    requires OddField(c) && Represents(c, E, P) && Represents(c, F, Q) && Regular(c, P, Q) && IsSum(c, P, Q, R)
    ensures Represents(c, ExtendedAdd(c, E, F), R)
  {
    hide Cong;
    var m, x := E.Z * F.Z, Cross(c, P, Q);
    var e, f, g, h := AddTerms(c, E, F, P, Q);
    NonZeroProduct(E.Z, F.Z, c.p);
    DivModUnique(2, 0, 2, c.p);
    NonZeroProduct(2, m, c.p);
    AssembleSum(c, R, e, f, g, h, 2 * m, 2 * m, P.x * Q.y + P.y * Q.x, P.y * Q.y + P.x * Q.x, 1 + x, 1 - x);
  }

  /** Products of the doubling formula, in terms of the affine point and `m = Z^2`. */
  lemma DoubleProducts(c: Curve, E: Extended, P: Point)
    requires 0 < c.p && Represents(c, E, P)
    ensures var m := E.Z * E.Z;
            && Cong(E.X * E.X, m * (P.x * P.x), c.p)
            && Cong(E.Y * E.Y, m * (P.y * P.y), c.p)
            && Cong((E.X + E.Y) * (E.X + E.Y), m * ((P.y + P.x) * (P.y + P.x)), c.p)
  {
    SumDifference(E, P, c);
    ProductOfScaled(E.X, E.X, P.x, P.x, E.Z, E.Z, c.p);
    ProductOfScaled(E.Y, E.Y, P.y, P.y, E.Z, E.Z, c.p);
    ProductOfScaled(E.Y + E.X, E.Y + E.X, P.y + P.x, P.y + P.x, E.Z, E.Z, c.p);
  }

  lemma NegMod(a: int, A: int, p: int)
    requires 0 < p && Cong(a, A, p)
    ensures Cong((-(a % p)) % p, -A, p)
  {
    CongMod(a, p);
    CongTrans(a % p, a, A, p);
    CongEq(0, 0, p);
    CongSub(0, 0, a % p, A, p);
    CongMod(-(a % p), p);
    CongTrans((-(a % p)) % p, -(a % p), -A, p);
  }

  lemma ReducedTriple(u: int, v: int, w: int, U: int, V: int, W: int, p: int)
    requires 0 < p && Cong(u, U, p) && Cong(v, V, p) && Cong(w, W, p)
    ensures Cong((u - v % p - w % p) % p, U - V - W, p)
  {
    CongMod(v, p);
    CongMod(w, p);
    CongTrans(v % p, v, V, p);
    CongTrans(w % p, w, W, p);
    CongSub(u, U, v % p, V, p);
    CongSub(u - v % p, U - V, w % p, W, p);
    CongMod(u - v % p - w % p, p);
    CongTrans((u - v % p - w % p) % p, u - v % p - w % p, U - V - W, p);
  }

  /** The intermediate values of the doubling formula, up to the factor `Z^2` (negated in `f` and `h`). */
  lemma DoubleTerms(c: Curve, E: Extended, P: Point) returns (e: int, f: int, g: int, h: int)
    requires 0 < c.p && Represents(c, E, P) && OnCurve(c, P)
    ensures ExtendedDouble(c, E) == Assemble(e, f, g, h, c.p)
    ensures var m, x := E.Z * E.Z, Cross(c, P, P);
            && Cong(e, m * (P.x * P.y + P.y * P.x), c.p)
            && Cong(f, -m * (1 - x), c.p)
            && Cong(g, m * (1 + x), c.p)
            && Cong(h, -m * (P.y * P.y + P.x * P.x), c.p)
  {
    hide Cong, Represents, Cross, OnCurve, Mod;
    var p, m, x := c.p, E.Z * E.Z, Cross(c, P, P);
    var s := (E.X + E.Y) * (E.X + E.Y);
    var a, b, t := E.X * E.X, E.Y * E.Y, 2 * E.Z * E.Z;
    DoubleProducts(c, E, P);
    var d := (-(a % p)) % p;
    e, g, h := (s - a % p - b % p) % p, (d + b % p) % p, (d - b % p) % p;
    DoubleEGH(s, a, b, m, P.x, P.y, p);
    DoubleG(c, P, m, g);
    f := (g - t % p) % p;
    DoubleF(g, t, m, x, p);
  }

  lemma DoubleEGH(s: int, a: int, b: int, m: int, x: int, y: int, p: int)
    requires 0 < p && Cong(a, m * (x * x), p) && Cong(b, m * (y * y), p) && Cong(s, m * ((y + x) * (y + x)), p)
    ensures Cong((s - a % p - b % p) % p, m * (x * y + y * x), p)
    ensures var d := (-(a % p)) % p;
            && Cong((d + b % p) % p, -(m * (x * x)) + m * (y * y), p)
            && Cong((d - b % p) % p, -m * (y * y + x * x), p)
  {
    hide Cong;
    var A, B := m * (x * x), m * (y * y);
    ReducedTriple(s, a, b, m * ((y + x) * (y + x)), A, B, p);
    DoubleExpand(m, x, y);
    var d := (-(a % p)) % p;
    NegMod(a, A, p);
    DivModUnique(d, 0, d, p);
    ReducedSum(d, b, -A, B, p);
  }

  lemma DoubleF(g: int, t: int, m: int, x: int, p: int)
    requires 0 < p && 0 <= g < p && Cong(g, m * (1 + x), p) && t == 2 * m
    ensures Cong((g - t % p) % p, -m * (1 - x), p)
  {
    hide Cong;
    CongEq(t, 2 * m, p);
    DivModUnique(g, 0, g, p);
    ReducedSum(g, t, m * (1 + x), 2 * m, p);
    DistributeTerms(m, 0, 0, x);
  }

  lemma DoubleExpand(m: int, x: int, y: int)
    ensures m * ((y + x) * (y + x)) - m * (x * x) - m * (y * y) == m * (x * y + y * x)
    ensures -(m * (x * x)) - m * (y * y) == -m * (y * y + x * x)
  {
  }

  /** `extendedDouble` agrees projectively with adding the point to itself. */
  lemma ExtendedDoubleCorrect(c: Curve, E: Extended, P: Point, R: Point)
    requires OddField(c) && Represents(c, E, P) && OnCurve(c, P) && Regular(c, P, P) && IsSum(c, P, P, R)
    ensures Represents(c, ExtendedDouble(c, E), R)
  {
    hide Cong;
    var m, x := E.Z * E.Z, Cross(c, P, P);
    var e, f, g, h := DoubleTerms(c, E, P);
    NonZeroProduct(E.Z, E.Z, c.p);
    NegNonZero(m, c.p);
    AssembleSum(c, R, e, f, g, h, m, -m, P.x * P.y + P.y * P.x, P.y * P.y + P.x * P.x, 1 + x, 1 - x);
  }

  lemma NegNonZero(m: int, p: int)
    requires 0 < p && m % p != 0
    ensures (-m) % p != 0
  {
    if (-m) % p == 0 { Combine(-1, -m, 0, 0, p); }
  }

  /** The curve equation turns `g = Y^2 - X^2` into `Z^2 * (1 + d*x^2*y^2)`. */
  lemma DoubleG(c: Curve, P: Point, m: int, g: int)
    requires 0 < c.p && OnCurve(c, P)
    requires Cong(g, -(m * (P.x * P.x)) + m * (P.y * P.y), c.p)
    ensures Cong(g, m * (1 + Cross(c, P, P)), c.p)
  {
    CongEq(m, m, c.p);
    CrossProducts(c.d, P.x, P.y, P.x, P.y);
    CongMul(m, m, P.y * P.y - P.x * P.x, 1 + Cross(c, P, P), c.p);
    assert m * (P.y * P.y - P.x * P.x) == -(m * (P.x * P.x)) + m * (P.y * P.y);
    CongTrans(g, m * (P.y * P.y - P.x * P.x), m * (1 + Cross(c, P, P)), c.p);
  }

  /** Leaving projective coordinates gives back the canonical affine point. */
  lemma AffineOfRepresented(c: Curve, E: Extended, P: Point)
    requires OddField(c) && Represents(c, E, P)
    ensures AffinePoint(c, E) == Ok(Reduce(c, P))
  {
    ModInvCorrect(E.Z, c.p);
    var v := ModInv(E.Z, c.p).value;
    CoordinateOut(E.X, P.x, E.Z, v, c.p);
    CoordinateOut(E.Y, P.y, E.Z, v, c.p);
  }

  lemma CoordinateOut(X: int, x: int, z: int, v: int, p: int)
    requires 0 < p && Cong(X, x * z, p) && Cong(z * v, 1, p)
    ensures (X * v) % p == x % p
  {
    CongEq(v, v, p);
    CongEq(x, x, p);
    CongMul(X, x * z, v, v, p);
    CongMul(x, x, z * v, 1, p);
    assert x * z * v == x * (z * v);
    CongTrans(X * v, x * (z * v), x, p);
    CongIffMod(X * v, x, p);
  }

  lemma RepresentStart(c: Curve, P: Point)
    requires OddField(c)
    ensures Represents(c, ExtendedPoint(c, P), Reduce(c, P)) && Represents(c, EXTENDED_IDENTITY, IDENTITY)
  {
    var R := Reduce(c, P);
    CongMod(R.x * R.y, c.p);
    CongEq(R.x, R.x, c.p);
    CongEq(R.y, R.y, c.p);
    CongEq(0, 0, c.p);
    CongEq(1, 1, c.p);
    DivModUnique(1, 0, 1, c.p);
  }

  lemma ReduceOnCurve(c: Curve, P: Point)
    requires 0 < c.p && OnCurve(c, P)
    ensures OnCurve(c, Reduce(c, P)) && Canonical(c, Reduce(c, P))
  {
    var p, R := c.p, Reduce(c, P);
    CongMod(P.x, p);
    CongMod(P.y, p);
    CongMul(R.x, P.x, R.x, P.x, p);
    CongMul(R.y, P.y, R.y, P.y, p);
    CongMul(R.x, P.x, R.y, P.y, p);
    CongSub(R.y * R.y, P.y * P.y, R.x * R.x, P.x * P.x, p);
    CongEq(c.d, c.d, p);
    CongMul(c.d, c.d, R.x * R.y, P.x * P.y, p);
    CongMul(c.d * (R.x * R.y), c.d * (P.x * P.y), R.x * R.y, P.x * P.y, p);
    CongEq(1, 1, p);
    var rhs, rhs' := 1 + c.d * (P.x * P.y) * (P.x * P.y), 1 + c.d * (R.x * R.y) * (R.x * R.y);
    CongAdd(1, 1, c.d * (R.x * R.y) * (R.x * R.y), c.d * (P.x * P.y) * (P.x * P.y), p);
    CongSym(rhs', rhs, p);
    CongTrans(R.y * R.y - R.x * R.x, P.y * P.y - P.x * P.x, rhs, p);
    CongTrans(R.y * R.y - R.x * R.x, rhs, rhs', p);
  }
}
