/** Prime-field arithmetic: `mod`, `modPow`, `modInv` and the Tonelli-Shanks `modSqrt`. */
module FieldArith {
  import opened Wrappers
  import opened NumberTheory

  /** JavaScript's `%` on BigInts truncates toward zero. */
  function JsRem(a: int, m: int): int
    requires 0 < m
  {
    if a >= 0 then a % m else -((-a) % m)
  }

  /** `mod`: the truncated remainder lifted to `[0, modulus)` is the Euclidean remainder. */
  function Mod(value: int, modulus: int): (r: int)
    requires 0 < modulus
    ensures r == value % modulus
  {
    var result := JsRem(value, modulus);
    RemIsEuclidean(value, modulus);
    if result >= 0 then result else result + modulus
  }

  lemma RemIsEuclidean(a: int, m: int)
    requires 0 < m
    ensures a % m == if JsRem(a, m) >= 0 then JsRem(a, m) else JsRem(a, m) + m
  {
    if a < 0 {
      var q, r := (-a) / m, (-a) % m;
      assert a == -q * m - r;
      if r == 0 {
        DivModUnique(a, -q, 0, m);
      } else {
        DivModUnique(a, -q - 1, m - r, m);
      }
    }
  }

  // ----- square and multiply -----

  /** What `modPow` computes; a non-positive exponent leaves the accumulator at 1. */
  function PowMod(base: int, exponent: int, modulus: int): int
    requires 1 < modulus
  {
    if exponent <= 0 then 1 else Pow(base, exponent) % modulus
  }

  lemma PowModRange(base: int, exponent: nat, modulus: int)
    requires 1 < modulus
    ensures PowMod(base, exponent, modulus) == Pow(base, exponent) % modulus
  {
    DivModUnique(1, 0, 1, modulus);
  }

  /** One round of square-and-multiply keeps `result * x^e` fixed modulo `m`. */
  lemma SquareStep(result: int, x: int, e: nat, result': int, x': int, m: int)
    requires 1 < m && 0 < e
    requires result' == (if e % 2 == 1 then (result * x) % m else result)
    requires x' == (x * x) % m
    ensures Cong(result' * Pow(x', e / 2), result * Pow(x, e), m)
  {
    var h := e / 2;
    var w := Pow(x * x, h);
    PowMulBase(x, x, h);
    PowAdd(x, h, h);
    CongMod(x * x, m);
    PowCong(x', x * x, h, m);
    if e % 2 == 1 {
      assert Pow(x, e) == x * w by { assert h + h == e - 1; }
      CongMod(result * x, m);
      CongMul(result', result * x, Pow(x', h), w, m);
      assert (result * x) * w == result * (x * w);
    } else {
      assert h + h == e;
      CongEq(result, result, m);
      CongMul(result, result, Pow(x', h), w, m);
    }
  }

  method ModPow(base: int, exponent: int, modulus: int) returns (result: int)
    requires 1 < modulus
    ensures result == PowMod(base, exponent, modulus)
  {
    result := 1;
    var x := Mod(base, modulus);
    var e := exponent;
    ghost var goal := if e <= 0 then 1 else Pow(base, e);
    PowBaseMod(base, exponent, modulus);
    while e > 0
      invariant 0 <= result < modulus
      invariant exponent > 0 ==> e >= 0 && Cong(result * Pow(x, e), goal, modulus)
      invariant exponent <= 0 ==> e == exponent && result == 1
    {
      ghost var r0, x0, e0 := result, x, e;
      if e % 2 == 1 {
        result := Mod(result * x, modulus);
      }
      x := Mod(x * x, modulus);
      e := e / 2;
      SquareStep(r0, x0, e0, result, x, modulus);
      CongTrans(result * Pow(x, e), r0 * Pow(x0, e0), goal, modulus);
    }
    if exponent > 0 {
      CongMod(goal, modulus);
      CongTrans(result, goal, goal % modulus, modulus);
      CongSmall(result, goal % modulus, modulus);
    }
  }

  lemma PowBaseMod(base: int, exponent: int, modulus: int)
    requires 1 < modulus
    ensures exponent > 0 ==> Cong(1 * Pow(base % modulus, exponent), Pow(base, exponent), modulus)
  {
    if exponent > 0 {
      CongMod(base, modulus);
      PowCong(base % modulus, base, exponent, modulus);
    }
  }

  // ----- inverse -----

  function ModInv(value: int, p: int): Result<int>
    requires 1 < p
  {
    var normalized := Mod(value, p);
    if normalized == 0 then Err(InverseOfZero)
    else Ok(PowMod(normalized, p - 2, p))
  }

  /** Modulo a prime, `modInv` throws exactly on zero and otherwise returns the reduced inverse. */
  lemma ModInvCorrect(value: int, p: int)
    requires Prime(p)
    ensures ModInv(value, p).Ok? <==> value % p != 0
    ensures ModInv(value, p).Ok? ==>
              var r := ModInv(value, p).value;
              0 <= r < p && r % p != 0 && Cong(value * r, 1, p)
  {
    if value % p != 0 {
      var n := value % p;
      var e := Pow(n, p - 2);
      PowModRange(n, p - 2, p);
      DivModUnique(n, 0, n, p);
      Fermat(n, p);
      assert n * e == Pow(n, p - 1);
      CongMod(value, p);
      CongMod(e, p);
      CongMul(value, n, e % p, e, p);
      CongTrans(value * (e % p), n * e, 1, p);
      PowNonZero(n, p - 2, p);
      DivModUnique(e % p, 0, e % p, p);
    }
  }

  // ----- square root -----

  ghost predicate IsRoot(y: int, n: int, p: int)
    requires 0 < p
  {
    Cong(y * y, n, p)
  }

  ghost predicate IsSquare(n: int, p: int)
    requires 0 < p
  {
    exists y :: IsRoot(y, n, p)
  }

  lemma PowSquare(b: int, k: nat)
    ensures Pow(b, Pow2(k + 1)) == Pow(b, Pow2(k)) * Pow(b, Pow2(k))
  {
    PowAdd(b, Pow2(k), Pow2(k));
  }

  /** A non-zero square has `(p-1)/2`-th power 1. */
  lemma SquareHasPowerOne(n: int, y: int, p: int)
    requires Prime(p) && p % 2 == 1 && n % p != 0 && IsRoot(y, n, p)
    ensures Pow(n, (p - 1) / 2) % p == 1
  {
    var h := (p - 1) / 2;
    if y % p == 0 {
      CongIffMod(y * y, n, p);
      Combine(y, y, 0, 0, p);
    }
    PowCong(y * y, n, h, p);
    PowMulBase(y, y, h);
    PowAdd(y, h, h);
    assert h + h == p - 1;
    Fermat(y, p);
    CongSym(Pow(y * y, h), Pow(n, h), p);
    CongTrans(Pow(n, h), Pow(y * y, h), 1, p);
    CongIffMod(Pow(n, h), 1, p);
    DivModUnique(1, 0, 1, p);
  }

  /** The exponent `(p+1)/4` answers when `p = 3 (mod 4)`. */
  lemma QuarterPowerIsRoot(n: int, p: int)
    requires Prime(p) && p % 4 == 3 && Pow(n, (p - 1) / 2) % p == 1
    ensures IsRoot(Pow(n, (p + 1) / 4) % p, n, p)
  {
    var k, h := (p + 1) / 4, (p - 1) / 2;
    var r := Pow(n, k);
    CongMod(r, p);
    CongMul(r % p, r, r % p, r, p);
    PowAdd(n, k, k);
    assert k + k == h + 1;
    CongMod(Pow(n, h), p);
    CongEq(n, n, p);
    CongMul(n, n, Pow(n, h), 1, p);
    CongTrans((r % p) * (r % p), r * r, n, p);
  }

  /** What the Tonelli-Shanks loop keeps: `x^2 = n*t`, `c` has order `2^m`, and `t` lies in the group it spans. */
  ghost predicate ShanksInv(n: int, x: int, t: int, c: int, m: nat, p: int)
    requires 1 < p
  {
    && 1 <= m && 0 <= x < p && 0 <= t < p && 0 <= c < p
    && Cong(x * x, n * t, p)
    && Cong(Pow(t, Pow2(m - 1)), 1, p)
    && Cong(Pow(c, Pow2(m - 1)), -1, p)
  }

  lemma ShanksInit(n: int, z: int, q: nat, s: nat, p: int)
    requires Prime(p) && p % 2 == 1 && 1 <= s && q % 2 == 1 && q * Pow2(s) == p - 1
    requires Pow(n, (p - 1) / 2) % p == 1 && Pow(z, (p - 1) / 2) % p == p - 1
    ensures ShanksInv(n, Pow(n, (q + 1) / 2) % p, Pow(n, q) % p, Pow(z, q) % p, s, p)
  {
    var h := (p - 1) / 2;
    InitialRoot(n, q, p);
    assert q * Pow2(s - 1) == h by { HalveExponent(q, s, p); }
    OddPartPower(n, q, Pow2(s - 1), p);
    OddPartPower(z, q, Pow2(s - 1), p);
    CongMod(Pow(n, h), p);
    CongTrans(Pow(Pow(n, q) % p, Pow2(s - 1)), Pow(n, h), 1, p);
    CongIffMod(Pow(z, h), -1, p);
    DivModUnique(-1, -1, p - 1, p);
    CongTrans(Pow(Pow(z, q) % p, Pow2(s - 1)), Pow(z, h), -1, p);
  }

  lemma HalveExponent(q: nat, s: nat, p: int)
    requires 1 <= s && q * Pow2(s) == p - 1
    ensures q * Pow2(s - 1) == (p - 1) / 2
  {
    assert q * (2 * Pow2(s - 1)) == 2 * (q * Pow2(s - 1));
  }

  lemma InitialRoot(n: int, q: nat, p: int)
    requires 1 < p && q % 2 == 1
    ensures var x := Pow(n, (q + 1) / 2) % p; Cong(x * x, n * (Pow(n, q) % p), p)
  {
    var k := (q + 1) / 2;
    var x, t := Pow(n, k), Pow(n, q);
    PowAdd(n, k, k);
    assert k + k == q + 1;
    CongMod(x, p);
    CongMul(x % p, x, x % p, x, p);
    CongMod(t, p);
    CongEq(n, n, p);
    CongMul(n, n, t, t % p, p);
    CongTrans((x % p) * (x % p), x * x, n * (t % p), p);
  }

  lemma OddPartPower(b: int, q: nat, k: nat, p: int)
    requires 0 < p
    ensures 0 <= q * k && Cong(Pow(Pow(b, q) % p, k), Pow(b, q * k), p)
  {
    CongMod(Pow(b, q), p);
    PowCong(Pow(b, q) % p, Pow(b, q), k, p);
    PowPow(b, q, k);
  }

  /** The round that lowers `m` to the order exponent `i` of `t`. */
  lemma ShanksStep(n: int, x: int, t: int, c: int, m: nat, i: nat, b: int, p: int)
    requires Prime(p) && p % 2 == 1 && ShanksInv(n, x, t, c, m, p)
    requires 1 <= i < m && Pow(t, Pow2(i)) % p == 1 && Pow(t, Pow2(i - 1)) % p != 1
    requires b == Pow(c, Pow2(m - i - 1)) % p
    ensures ShanksInv(n, (x * b) % p, (t * ((b * b) % p)) % p, (b * b) % p, i, p)
  {
    var b2 := (b * b) % p;
    var k := Pow2(i - 1);
    CongMod(b * b, p);
    RootStep(n, x, t, b, b2, p);
    GeneratorStep(c, m, i, b, p);
    PowSquare(t, i - 1);
    CongMod(Pow(t, Pow2(i)), p);
    SquareRootsOfOne(Pow(t, k), p);
    DivModUnique(-1, -1, p - 1, p);
    CongIffMod(Pow(t, k), -1, p);
    PowMulBase(t, b2, k);
    CongMul(Pow(t, k), -1, Pow(b2, k), -1, p);
    CongMod(t * b2, p);
    PowCong((t * b2) % p, t * b2, k, p);
    CongTrans(Pow((t * b2) % p, k), Pow(t * b2, k), 1, p);
  }

  lemma RootStep(n: int, x: int, t: int, b: int, b2: int, p: int)
    requires 1 < p && Cong(x * x, n * t, p) && Cong(b2, b * b, p)
    ensures var x', t' := (x * b) % p, (t * b2) % p; Cong(x' * x', n * t', p)
  {
    var x', t' := (x * b) % p, (t * b2) % p;
    CongMod(x * b, p);
    CongMul(x', x * b, x', x * b, p);
    Interchange(x, b, x, b);
    CongSym(b2, b * b, p);
    CongMul(x * x, n * t, b * b, b2, p);
    CongTrans(x' * x', (x * x) * (b * b), (n * t) * b2, p);
    CongMod(t * b2, p);
    CongEq(n, n, p);
    CongMul(n, n, t * b2, t', p);
    assert (n * t) * b2 == n * (t * b2);
    CongTrans(x' * x', n * (t * b2), n * t', p);
  }

  lemma GeneratorStep(c: int, m: nat, i: nat, b: int, p: int)
    requires 1 < p && 1 <= i < m && Cong(Pow(c, Pow2(m - 1)), -1, p)
    requires b == Pow(c, Pow2(m - i - 1)) % p
    ensures Cong(Pow((b * b) % p, Pow2(i - 1)), -1, p)
  {
    var g := Pow(c, Pow2(m - i - 1));
    var k := Pow2(i - 1);
    PowSquare(c, m - i - 1);
    Pow2Add(m - i, i - 1);
    PowPow(c, Pow2(m - i), k);
    CongMod(g, p);
    CongMul(b, g, b, g, p);
    CongMod(b * b, p);
    CongTrans((b * b) % p, b * b, g * g, p);
    PowCong((b * b) % p, g * g, k, p);
    CongTrans(Pow((b * b) % p, k), Pow(g * g, k), -1, p);
  }

  /** The loop that writes `p - 1` as `q * 2^s` with `q` odd. */
  method OddPart(p: int) returns (q: nat, s: nat)
    requires 1 < p && p % 2 == 1
    ensures q % 2 == 1 && 1 <= s && q * Pow2(s) == p - 1
  {
    q, s := p - 1, 0;
    while q % 2 == 0
      invariant 0 < q && q * Pow2(s) == p - 1
      invariant s == 0 ==> q == p - 1
      decreases q
    {
      assert q * Pow2(s) == (q / 2) * Pow2(s + 1);
      q := q / 2;
      s := s + 1;
    }
  }

  /** The search for `z` stops, because a non-residue exists below every odd prime. */
  method FindNonResidue(p: int) returns (z: int)
    requires Prime(p) && p % 2 == 1
    ensures 2 <= z < p && Pow(z, (p - 1) / 2) % p == p - 1
  {
    z := 2;
    ghost var bound := NonResidueExists(p);
    PowModRange(bound, (p - 1) / 2, p);
    var power := ModPow(z, (p - 1) / 2, p);
    while power != p - 1
      invariant 2 <= z <= bound && power == PowMod(z, (p - 1) / 2, p)
      decreases bound - z
    {
      z := z + 1;
      power := ModPow(z, (p - 1) / 2, p);
    }
    PowModRange(z, (p - 1) / 2, p);
  }

  /**
   * The inner loop: the least `i >= 1` with `t^(2^i) = 1`. The throw guarded by `i >= m` is unreachable,
   * because `t^(2^(m-1)) = 1` already.
   */
  method OrderExponent(t: int, m: nat, p: int) returns (i: nat)
    requires 1 < p && 1 <= m && 0 <= t < p && t != 1 && Pow(t, Pow2(m - 1)) % p == 1
    ensures 1 <= i < m && Pow(t, Pow2(i)) % p == 1
    ensures forall j :: 0 <= j < i ==> Pow(t, Pow2(j)) % p != 1
  {
    i := 1;
    var candidate := Mod(t * t, p);
    DivModUnique(t, 0, t, p);
    assert Pow(t, 1) == t * Pow(t, 0);
    assert Pow(t, Pow2(0)) == t;
    PowSquare(t, 0);
    while candidate != 1
      invariant 1 <= i < m
      invariant candidate == Pow(t, Pow2(i)) % p
      invariant forall j :: 0 <= j < i ==> Pow(t, Pow2(j)) % p != 1
      decreases m - i
    {
      SquareMod(t, i, p);
      candidate := Mod(candidate * candidate, p);
      i := i + 1;
    }
  }

  /** The main loop; `m` strictly decreases. */
  method ShanksLoop(n: int, x0: int, t0: int, c0: int, s: nat, p: int) returns (x: int)
    requires Prime(p) && p % 2 == 1 && ShanksInv(n, x0, t0, c0, s, p)
    ensures 0 <= x < p && IsRoot(x, n, p)
  {
    var t, c, m := t0, c0, s;
    x := x0;
    while t != 1
      invariant ShanksInv(n, x, t, c, m, p)
      decreases m
    {
      OrderBound(t, m, p);
      var i := OrderExponent(t, m, p);
      var b := ModPow(c, Pow2(m - i - 1), p);
      PowModRange(c, Pow2(m - i - 1), p);
      var b2 := Mod(b * b, p);
      ShanksStep(n, x, t, c, m, i, b, p);
      x := Mod(x * b, p);
      t := Mod(t * b2, p);
      c := b2;
      m := i;
    }
    assert n * 1 == n;
  }

  /** Euler's criterion: only a square has the power 1. */
  lemma NoRoot(n: int, p: int)
    requires Prime(p) && p % 2 == 1 && n % p != 0 && Pow(n, (p - 1) / 2) % p != 1
    ensures !IsSquare(n, p)
  {
    hide IsRoot, Pow;
    if IsSquare(n, p) {
      var y :| IsRoot(y, n, p);
      SquareHasPowerOne(n, y, p);
    }
  }

  lemma ThreeModFour(q: nat, p: int)
    requires q % 2 == 1 && q * Pow2(1) == p - 1
    ensures p % 4 == 3
  {
    assert Pow2(1) == 2;
    DoubleOfOdd(q, p);
  }

  lemma DoubleOfOdd(q: nat, p: int)
    requires q % 2 == 1 && 2 * q == p - 1
    ensures p % 4 == 3
  {
    DivModUnique(p, q / 2, 3, 4);
  }

  /** The root of a square: one power if `p` is 3 modulo 4, and the loop otherwise. */
  method ShanksRoot(n: int, p: int) returns (x: int)
    requires Prime(p) && p % 2 == 1 && 0 < n < p && Pow(n, (p - 1) / 2) % p == 1
    ensures 0 <= x < p && IsRoot(x, n, p)
  {
    hide Mod, Pow, PowMod, Pow2, Prime, ShanksInv, IsRoot;
    var q, s := OddPart(p);
    if s == 1 {
      x := ModPow(n, (p + 1) / 4, p);
      ThreeModFour(q, p);
      PowModRange(n, (p + 1) / 4, p);
      QuarterPowerIsRoot(n, p);
      return;
    }
    var z := FindNonResidue(p);
    var c := ModPow(z, q, p);
    x := ModPow(n, (q + 1) / 2, p);
    var t := ModPow(n, q, p);
    PowModRange(z, q, p);
    PowModRange(n, (q + 1) / 2, p);
    PowModRange(n, q, p);
    ShanksInit(n, z, q, s, p);
    x := ShanksLoop(n, x, t, c, s, p);
  }

  method ModSqrt(value: int, p: int) returns (r: Result<int>)
    requires Prime(p) && p % 2 == 1
    ensures r.Ok? <==> IsSquare(value, p)
    ensures r.Ok? ==> 0 <= r.value < p && IsRoot(r.value, value, p)
    ensures r.Err? ==> r.error == NotOnCurve
  {
    hide Mod, PowMod, ShanksInv;
    var n := Mod(value, p);
    SameRoots(value, n, p);
    DivModUnique(n, 0, n, p);
    if n == 0 {
      assert IsRoot(0, n, p);
      return Ok(0);
    }
    var euler := ModPow(n, (p - 1) / 2, p);
    PowModRange(n, (p - 1) / 2, p);
    if euler != 1 {
      NoRoot(n, p);
      return Err(NotOnCurve);
    }
    var x := ShanksRoot(n, p);
    return Ok(x);
  }

  lemma SameRoots(value: int, n: int, p: int)
    requires 1 < p && n == value % p
    ensures forall y :: IsRoot(y, value, p) <==> IsRoot(y, n, p)
    ensures IsSquare(value, p) <==> IsSquare(n, p)
  {
    CongMod(value, p);
    forall y ensures IsRoot(y, value, p) <==> IsRoot(y, n, p) {
      if IsRoot(y, value, p) { CongTrans(y * y, value, n, p); }
      if IsRoot(y, n, p) { CongTrans(y * y, n, value, p); }
    }
    if IsSquare(value, p) {
      var y :| IsRoot(y, value, p);
      assert IsRoot(y, n, p);
    }
    if IsSquare(n, p) {
      var y :| IsRoot(y, n, p);
      assert IsRoot(y, value, p);
    }
  }

  lemma OrderBound(t: int, m: nat, p: int)
    requires 1 < p && 1 <= m && Cong(Pow(t, Pow2(m - 1)), 1, p)
    ensures Pow(t, Pow2(m - 1)) % p == 1
  {
    CongIffMod(Pow(t, Pow2(m - 1)), 1, p);
    DivModUnique(1, 0, 1, p);
  }

  lemma SquareMod(t: int, i: nat, p: int)
    requires 0 < p
    ensures var w := Pow(t, Pow2(i)) % p; (w * w) % p == Pow(t, Pow2(i + 1)) % p
  {
    var g := Pow(t, Pow2(i));
    PowSquare(t, i);
    CongMod(g, p);
    CongMul(g % p, g, g % p, g, p);
    CongIffMod((g % p) * (g % p), g * g, p);
  }
}
