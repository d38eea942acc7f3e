/** Divisibility, primes, and the three classical facts the field code rests on. */
module NumberTheory {

  // ----- divisibility by a variable modulus, one product at a time -----

  lemma MulBound(k: int, p: int)
    requires 0 < p
    ensures k >= 1 ==> k * p >= p
    ensures k <= -1 ==> k * p <= -p
  {
  }

  lemma DivModUnique(a: int, q: int, r: int, p: int)
    requires 0 < p && a == q * p + r && 0 <= r < p
    ensures a % p == r && a / p == q
  {
    var k := a / p - q;
    assert k * p == r - a % p by {
      assert a == a / p * p + a % p;
    }
    MulBound(k, p);
  }

  lemma DivisionIdentity(a: nat, p: int)
    requires 0 < p
    ensures a == a / p * p + a % p && 0 <= a / p && 0 <= a % p < p
  {
  }

  lemma Multiple(k: int, p: int)
    requires 0 < p
    ensures (k * p) % p == 0
  {
    DivModUnique(k * p, k, 0, p);
  }

  /** If `p` divides `a` and `b`, it divides every combination `x*a + y*b`. */
  lemma Combine(x: int, a: int, y: int, b: int, p: int)
    requires 0 < p && a % p == 0 && b % p == 0
    ensures (x * a + y * b) % p == 0
  {
    var i, j := a / p, b / p;
    assert a == i * p && b == j * p;
    assert x * a + y * b == (x * i + y * j) * p;
    Multiple(x * i + y * j, p);
  }

  // ----- congruence -----

  ghost predicate Cong(a: int, b: int, p: int)
    requires 0 < p
  {
    (a - b) % p == 0
  }

  lemma CongMod(a: int, p: int)
    requires 0 < p
    ensures Cong(a % p, a, p) && Cong(a, a % p, p)
  {
    assert a % p - a == -(a / p) * p;
    Multiple(-(a / p), p);
    Multiple(a / p, p);
  }

  lemma CongEq(a: int, b: int, p: int)
    requires 0 < p && a == b
    ensures Cong(a, b, p)
  {
    Multiple(0, p);
  }

  lemma CongSym(a: int, b: int, p: int)
    requires 0 < p && Cong(a, b, p)
    ensures Cong(b, a, p)
  {
    Combine(-1, a - b, 0, 0, p);
  }

  lemma CongTrans(a: int, b: int, c: int, p: int)
    requires 0 < p && Cong(a, b, p) && Cong(b, c, p)
    ensures Cong(a, c, p)
  {
    Combine(1, a - b, 1, b - c, p);
  }

  lemma CongAdd(a: int, b: int, c: int, d: int, p: int)
    requires 0 < p && Cong(a, b, p) && Cong(c, d, p)
    ensures Cong(a + c, b + d, p)
  {
    Combine(1, a - b, 1, c - d, p);
  }

  lemma CongSub(a: int, b: int, c: int, d: int, p: int)
    requires 0 < p && Cong(a, b, p) && Cong(c, d, p)
    ensures Cong(a - c, b - d, p)
  {
    Combine(1, a - b, -1, c - d, p);
  }

  lemma CongMul(a: int, b: int, c: int, d: int, p: int)
    requires 0 < p && Cong(a, b, p) && Cong(c, d, p)
    ensures Cong(a * c, b * d, p)
  {
    assert a * c - b * d == c * (a - b) + b * (c - d);
    Combine(c, a - b, b, c - d, p);
  }

  /** Two residues below the modulus are congruent only when they are equal. */
  lemma CongSmall(a: int, b: int, p: int)
    requires 0 < p && Cong(a, b, p) && 0 <= a < p && 0 <= b < p
    ensures a == b
  {
    var k := (a - b) / p;
    assert a - b == k * p;
    MulBound(k, p);
  }

  lemma CongIffMod(a: int, b: int, p: int)
    requires 0 < p
    ensures Cong(a, b, p) <==> a % p == b % p
  {
    CongMod(a, p);
    CongMod(b, p);
    if Cong(a, b, p) {
      CongTrans(a % p, a, b, p);
      CongTrans(a % p, b, b % p, p);
      CongSmall(a % p, b % p, p);
    }
    if a % p == b % p {
      CongTrans(a, a % p, b, p);
    }
  }

  // ----- primes -----

  ghost predicate Prime(p: int) {
    1 < p && forall d :: 1 < d < p ==> p % d != 0
  }

  /** Euclid's lemma, by the remainders of `p` modulo the first factor. */
  lemma EuclidIdentity(a: int, b: int, p: int, q: int, r: int)
    requires p == q * a + r
    ensures r * b == b * p + -q * (a * b)
  {
  }

  lemma EuclidRemainder(a: int, b: int, p: int, q: int, r: int)
    requires 0 < p && p == q * a + r && (a * b) % p == 0
    ensures (r * b) % p == 0
  {
    EuclidIdentity(a, b, p, q, r);
    Multiple(1, p);
    Combine(b, p, -q, a * b, p);
  }

  lemma {:induction false} EuclidStep(a: int, b: int, p: int)
    requires Prime(p) && 0 < a < p && (a * b) % p == 0
    ensures b % p == 0
    decreases a
  {
    if a > 1 {
      var q, r := p / a, p % a;
      EuclidRemainder(a, b, p, q, r);
      EuclidStep(r, b, p);
    }
  }

  lemma NoZeroDivisors(a: int, b: int, p: int)
    requires Prime(p) && (a * b) % p == 0
    ensures a % p == 0 || b % p == 0
  {
    if a % p != 0 {
      CongMod(a, p);
      CongEq(b, b, p);
      CongMul(a % p, a, b, b, p);
      Combine(1, (a % p) * b - a * b, 1, a * b, p);
      EuclidStep(a % p, b, p);
    }
  }

  lemma Cancel(x: int, a: int, b: int, p: int)
    requires Prime(p) && x % p != 0 && Cong(x * a, x * b, p)
    ensures Cong(a, b, p)
  {
    assert x * a - x * b == x * (a - b);
    NoZeroDivisors(x, a - b, p);
  }

  // ----- powers -----

  function Pow(b: int, e: nat): int {
    if e == 0 then 1 else b * Pow(b, e - 1)
  }

  lemma {:induction false} PowAdd(b: int, m: nat, n: nat)
    ensures Pow(b, m + n) == Pow(b, m) * Pow(b, n)
  {
    if m > 0 {
      PowAdd(b, m - 1, n);
      assert b * (Pow(b, m - 1) * Pow(b, n)) == b * Pow(b, m - 1) * Pow(b, n);
    }
  }

  lemma Interchange(a: int, b: int, x: int, y: int)
    ensures (a * b) * (x * y) == (a * x) * (b * y)
  {
    calc {
      (a * b) * (x * y);
      a * (b * (x * y));
      { assert b * (x * y) == x * (b * y); }
      a * (x * (b * y));
      (a * x) * (b * y);
    }
  }

  lemma {:induction false} PowMulBase(a: int, b: int, e: nat)
    ensures Pow(a * b, e) == Pow(a, e) * Pow(b, e)
  {
    if e > 0 {
      PowMulBase(a, b, e - 1);
      Interchange(a, b, Pow(a, e - 1), Pow(b, e - 1));
    }
  }

  lemma {:induction false} PowPow(b: int, m: nat, n: nat)
    ensures 0 <= m * n && Pow(Pow(b, m), n) == Pow(b, m * n)
  {
    if n > 0 {
      PowPow(b, m, n - 1);
      assert m * n == m + m * (n - 1);
      PowAdd(b, m, m * (n - 1));
    } else {
      assert m * n == 0;
    }
  }

  lemma {:induction false} PowCong(a: int, b: int, e: nat, p: int)
    requires 0 < p && Cong(a, b, p)
    ensures Cong(Pow(a, e), Pow(b, e), p)
  {
    if e == 0 {
      CongEq(1, 1, p);
    } else {
      PowCong(a, b, e - 1, p);
      CongMul(a, b, Pow(a, e - 1), Pow(b, e - 1), p);
    }
  }

  lemma {:induction false} PowOne(e: nat)
    ensures Pow(1, e) == 1
  {
    if e > 0 { PowOne(e - 1); }
  }

  lemma {:induction false} PowNonZero(b: int, e: nat, p: int)
    requires Prime(p) && b % p != 0
    ensures Pow(b, e) % p != 0
  {
    if e == 0 {
      DivModUnique(1, 0, 1, p);
    } else {
      PowNonZero(b, e - 1, p);
      if Pow(b, e) % p == 0 {
        NoZeroDivisors(b, Pow(b, e - 1), p);
      }
    }
  }

  function Pow2(k: nat): (r: nat)
    ensures r >= 1
  {
    if k == 0 then 1 else 2 * Pow2(k - 1)
  }

  lemma {:induction false} Pow2Add(j: nat, k: nat)
    ensures Pow2(j + k) == Pow2(j) * Pow2(k)
  {
    if j > 0 {
      Pow2Add(j - 1, k);
      DoubledProduct(Pow2(j - 1), Pow2(k));
    }
  }

  lemma DoubledProduct(a: int, b: int)
    ensures 2 * a * b == 2 * (a * b)
  {
  }

  // ----- Fermat's little theorem: multiplication by `a` permutes 1..p-1 -----

  ghost function Residues(n: nat): (s: set<int>)
    ensures forall i :: i in s <==> 1 <= i <= n
  {
    if n == 0 then {} else Residues(n - 1) + {n}
  }

  lemma {:induction false} ResiduesCard(n: nat)
    ensures |Residues(n)| == n
  {
    if n > 0 {
      ResiduesCard(n - 1);
      assert Residues(n) == Residues(n - 1) + {n};
    } else {
      assert Residues(0) == {};
    }
  }

  lemma HasElement(s: set<int>)
    ensures s == {} || exists x :: x in s
  {
    if forall x :: x !in s { assert s == {}; }
  }

  ghost function Pick(s: set<int>): (x: int)
    requires s != {}
    ensures x in s
  {
    HasElement(s);
    var y :| y in s;
    y
  }

  ghost function Product(s: set<int>): int {
    if s == {} then 1 else Pick(s) * Product(s - {Pick(s)})
  }

  lemma {:induction false} ProductRemove(s: set<int>, x: int)
    requires x in s
    ensures Product(s) == x * Product(s - {x})
    decreases |s|
  {
    var y := Pick(s);
    if y != x {
      ProductRemove(s - {y}, x);
      ProductRemove(s - {x}, y);
      assert s - {y} - {x} == s - {x} - {y};
      var r := Product(s - {y} - {x});
      assert y * (x * r) == x * (y * r);
    }
  }

  ghost function Scaled(s: set<int>, a: int, p: int): set<int>
    requires 0 < p
  {
    set i | i in s :: (a * i) % p
  }

  lemma ScaleInjective(a: int, i: int, j: int, p: int)
    requires Prime(p) && a % p != 0 && 0 <= i < p && 0 <= j < p && (a * i) % p == (a * j) % p
    ensures i == j
  {
    CongIffMod(a * i, a * j, p);
    Cancel(a, i, j, p);
    CongSmall(i, j, p);
  }

  lemma ScaledInsert(s: set<int>, x: int, a: int, p: int)
    requires Prime(p) && a % p != 0 && x in s && forall i :: i in s ==> 0 < i < p
    ensures (a * x) % p !in Scaled(s - {x}, a, p)
    ensures Scaled(s, a, p) == Scaled(s - {x}, a, p) + {(a * x) % p}
  {
    forall i | i in s - {x} ensures (a * x) % p != (a * i) % p {
      if (a * x) % p == (a * i) % p { ScaleInjective(a, x, i, p); }
    }
    assert s == (s - {x}) + {x};
  }

  lemma {:induction false} ScaledProduct(s: set<int>, a: int, p: int)
    requires Prime(p) && a % p != 0 && forall i :: i in s ==> 0 < i < p
    ensures |Scaled(s, a, p)| == |s|
    ensures Cong(Product(Scaled(s, a, p)), Pow(a, |s|) * Product(s), p)
    decreases |s|
  {
    if s == {} {
      assert Scaled(s, a, p) == {};
      CongEq(1, 1, p);
    } else {
      var x := Pick(s);
      ScaledInsert(s, x, a, p);
      ScaledProduct(s - {x}, a, p);
      ProductStep(Scaled(s, a, p), Scaled(s - {x}, a, p), a, x, Pow(a, |s| - 1), Product(s - {x}), p);
    }
  }

  lemma ProductStep(t: set<int>, t0: set<int>, a: int, x: int, q: int, r: int, p: int)
    requires 0 < p && (a * x) % p !in t0 && t == t0 + {(a * x) % p}
    requires Cong(Product(t0), q * r, p)
    ensures Cong(Product(t), (a * q) * (x * r), p)
  {
    var y := (a * x) % p;
    assert t - {y} == t0;
    ProductRemove(t, y);
    CongMod(a * x, p);
    CongMul(y, a * x, Product(t0), q * r, p);
    Interchange(a, x, q, r);
  }

  lemma {:induction false} ProductNonZero(s: set<int>, p: int)
    requires Prime(p) && forall i :: i in s ==> 0 < i < p
    ensures Product(s) % p != 0
    decreases |s|
  {
    if s == {} {
      DivModUnique(1, 0, 1, p);
    } else {
      var x := Pick(s);
      ProductNonZero(s - {x}, p);
      DivModUnique(x, 0, x, p);
      if Product(s) % p == 0 {
        NoZeroDivisors(x, Product(s - {x}), p);
      }
    }
  }

  lemma SubsetSameSize(a: set<int>, b: set<int>)
    requires a <= b && |a| == |b|
    ensures a == b
  {
    assert b == a + (b - a);
  }

  lemma ScaledWithin(n: nat, a: int, p: int)
    requires Prime(p) && a % p != 0 && n == p - 1
    ensures Scaled(Residues(n), a, p) <= Residues(n)
  {
    forall y | y in Scaled(Residues(n), a, p) ensures y in Residues(n) {
      var i :| i in Residues(n) && y == (a * i) % p;
      if y == 0 {
        NoZeroDivisors(a, i, p);
        DivModUnique(i, 0, i, p);
      }
    }
  }

  lemma Fermat(a: int, p: int)
    requires Prime(p) && a % p != 0
    ensures Cong(Pow(a, p - 1), 1, p)
  {
    var s := Residues(p - 1);
    ResiduesCard(p - 1);
    ScaledProduct(s, a, p);
    ScaledWithin(p - 1, a, p);
    SubsetSameSize(Scaled(s, a, p), s);
    ProductNonZero(s, p);
    CancelUnit(Product(s), Pow(a, p - 1), p);
  }

  lemma CancelUnit(w: int, e: int, p: int)
    requires Prime(p) && w % p != 0 && Cong(w, e * w, p)
    ensures Cong(e, 1, p)
  {
    assert w - e * w == w * (1 - e);
    NoZeroDivisors(w, 1 - e, p);
    CongSym(1, e, p);
  }

  // ----- a polynomial over the field has at most as many roots as its degree -----

  /** Horner evaluation; the leading coefficient comes first. */
  ghost function Eval(c: seq<int>, x: int): int {
    if c == [] then 0 else Eval(c[..|c| - 1], x) * x + c[|c| - 1]
  }

  /** Synthetic division by `X - r`. */
  ghost function Quotient(c: seq<int>, r: int): (q: seq<int>)
    ensures |q| == |c|
    ensures c != [] ==> q[0] == c[0]
  {
    if c == [] then []
    else if |c| == 1 then [c[0]]
    else
      var q := Quotient(c[..|c| - 1], r);
      q + [q[|q| - 1] * r + c[|c| - 1]]
  }

  lemma LinearStep(x: int, r: int, e: int, u: int, v: int, c: int)
    requires e == (x - r) * u + v
    ensures e * x + c == (x - r) * (u * x + v) + (v * r + c)
  {
    assert ((x - r) * u + v) * x == (x - r) * (u * x) + v * x;
    assert v * x == (x - r) * v + v * r;
  }

  /** `c(x) = (x - r) * q(x) + c(r)`, where the last entry of `Quotient` is the remainder. */
  lemma {:induction false} DivideByLinear(c: seq<int>, r: int, x: int)
    requires c != []
    ensures Quotient(c, r)[|c| - 1] == Eval(c, r)
    ensures Eval(c, x) == (x - r) * Eval(Quotient(c, r)[..|c| - 1], x) + Eval(c, r)
  {
    var n := |c| - 1;
    var q := Quotient(c, r);
    if n == 0 {
      assert c[..0] == [] && q[..0] == [];
    } else {
      var c' := c[..n];
      var q' := Quotient(c', r);
      DivideByLinear(c', r, x);
      assert q[..n] == q';
      var e, u, v := Eval(c', x), Eval(q'[..n - 1], x), Eval(c', r);
      assert Eval(q', x) == u * x + v;
      assert Eval(c, r) == v * r + c[n];
      LinearStep(x, r, e, u, v, c[n]);
    }
  }

  lemma EvalConstant(c: seq<int>, x: int)
    requires c != []
    ensures |c| == 1 ==> Eval(c, x) == c[0]
  {
    assert Eval(c[..|c| - 1], x) * x == if |c| == 1 then 0 else Eval(c[..|c| - 1], x) * x;
  }

  lemma {:induction false} RootBound(c: seq<int>, roots: set<int>, p: int)
    requires Prime(p) && c != [] && c[0] % p != 0
    requires forall r :: r in roots ==> 0 <= r < p && Eval(c, r) % p == 0
    ensures |roots| < |c|
    decreases |c|
  {
    if roots != {} {
      var r := Pick(roots);
      DivideByLinear(c, r, r);
      var q := Quotient(c, r)[..|c| - 1];
      EvalConstant(c, r);
      if |c| > 1 {
        forall s | s in roots - {r} ensures Eval(q, s) % p == 0 {
          DivideByLinear(c, r, s);
          assert (s - r) * Eval(q, s) == Eval(c, s) - Eval(c, r);
          Combine(1, Eval(c, s), -1, Eval(c, r), p);
          NoZeroDivisors(s - r, Eval(q, s), p);
          if (s - r) % p == 0 { CongSmall(s, r, p); }
        }
        RootBound(q, roots - {r}, p);
      }
    }
  }

  /** The coefficients of `X^h - 1`. */
  ghost function PowerMinusOne(h: nat): (c: seq<int>)
    requires 0 < h
    ensures |c| == h + 1 && c[0] == 1
  {
    seq(h + 1, i => if i == 0 then 1 else if i == h then -1 else 0)
  }

  lemma {:induction false} EvalMonomial(c: seq<int>, x: int)
    requires c != [] && c[0] == 1 && forall i :: 0 < i < |c| ==> c[i] == 0
    ensures Eval(c, x) == Pow(x, |c| - 1)
  {
    var n := |c| - 1;
    if n == 0 {
      assert c[..0] == [];
    } else {
      EvalMonomial(c[..n], x);
    }
  }

  lemma EvalPowerMinusOne(h: nat, x: int)
    requires 0 < h
    ensures Eval(PowerMinusOne(h), x) == Pow(x, h) - 1
  {
    var c := PowerMinusOne(h);
    EvalMonomial(c[..h], x);
  }

  /** Some residue has `z^((p-1)/2) = -1`: there are fewer roots of `X^((p-1)/2) - 1` than residues. */
  lemma NonResidueExists(p: int) returns (z: int)
    requires Prime(p) && p % 2 == 1
    ensures 2 <= z < p && Pow(z, (p - 1) / 2) % p == p - 1
  {
    var h := (p - 1) / 2;
    var s := Residues(p - 1);
    ResiduesCard(p - 1);
    var c := PowerMinusOne(h);
    DivModUnique(1, 0, 1, p);
    if forall r :: r in s ==> Eval(c, r) % p == 0 {
      RootBound(c, s, p);
      assert false;
    }
    z :| z in s && Eval(c, z) % p != 0;
    EvalPowerMinusOne(h, z);
    if z == 1 {
      PowOne(h);
    }
    DivModUnique(z, 0, z, p);
    HalfPowerIsSign(z, p);
  }

  /** `a^((p-1)/2)` is 1 or -1 for every non-zero residue. */
  lemma HalfPowerIsSign(a: int, p: int)
    requires Prime(p) && p % 2 == 1 && a % p != 0
    ensures Pow(a, (p - 1) / 2) % p == 1 || Pow(a, (p - 1) / 2) % p == p - 1
    ensures Pow(a, (p - 1) / 2) % p == 1 <==> (Pow(a, (p - 1) / 2) - 1) % p == 0
  {
    var h := (p - 1) / 2;
    Fermat(a, p);
    PowAdd(a, h, h);
    assert h + h == p - 1;
    SquareRootsOfOne(Pow(a, h), p);
  }

  lemma SquareRootsOfOne(w: int, p: int)
    requires Prime(p) && p % 2 == 1 && Cong(w * w, 1, p)
    ensures w % p == 1 || w % p == p - 1
    ensures w % p == 1 <==> (w - 1) % p == 0
  {
    assert w * w - 1 == (w - 1) * (w + 1);
    NoZeroDivisors(w - 1, w + 1, p);
    CongIffMod(w, 1, p);
    CongIffMod(w, -1, p);
    DivModUnique(1, 0, 1, p);
    DivModUnique(-1, -1, p - 1, p);
  }
}
