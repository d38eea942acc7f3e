/**
 * JavaScript's 32-bit operators on numbers: `& | ^ ~ << >>` yield int32, `>>>` yields uint32.
 * Bitwise operations are defined bit by bit; the lemmas give their arithmetic meaning for the masks and
 * shifts the code uses.
 */
module JsBits {
  import opened NumberTheory

  const TWO_31 := 0x8000_0000
  const TWO_32 := 0x1_0000_0000

  type byte = b: int | 0 <= b < 256

  // ----- bit by bit -----

  function And(a: nat, b: nat): nat {
    if a == 0 || b == 0 then 0
    else 2 * And(a / 2, b / 2) + if a % 2 == 1 && b % 2 == 1 then 1 else 0
  }

  function Or(a: nat, b: nat): nat
    decreases a + b
  {
    if a == 0 then b else if b == 0 then a
    else 2 * Or(a / 2, b / 2) + if a % 2 == 1 || b % 2 == 1 then 1 else 0
  }

  function Xor(a: nat, b: nat): nat
    decreases a + b
  {
    if a == 0 then b else if b == 0 then a
    else 2 * Xor(a / 2, b / 2) + if a % 2 != b % 2 then 1 else 0
  }

  // ----- the operators -----

  function ToUint32(x: int): (r: nat)
    ensures r < TWO_32
  {
    x % TWO_32
  }

  function ToInt32(x: int): (r: int)
    ensures -TWO_31 <= r < TWO_31 && r % TWO_32 == x % TWO_32
  {
    var u := x % TWO_32;
    if u >= TWO_31 then u - TWO_32 else u
  }

  function BitAnd(x: int, y: int): int { ToInt32(And(ToUint32(x), ToUint32(y))) }

  function BitOr(x: int, y: int): int { ToInt32(Or(ToUint32(x), ToUint32(y))) }

  function BitXor(x: int, y: int): int { ToInt32(Xor(ToUint32(x), ToUint32(y))) }

  function BitNot(x: int): int { -ToInt32(x) - 1 }

  function Shl(x: int, n: nat): int { ToInt32(ToUint32(x) * Pow2(n)) }

  function Sar(x: int, n: nat): int { ToInt32(x) / Pow2(n) }

  function Shr(x: int, n: nat): int { ToUint32(x) / Pow2(n) }

  // ----- arithmetic meaning -----

  lemma {:induction false} AndMask(a: nat, k: nat)
    ensures And(a, Pow2(k) - 1) == a % Pow2(k)
  {
    if k > 0 {
      AndMask(a / 2, k - 1);
      assert (Pow2(k) - 1) / 2 == Pow2(k - 1) - 1 && (k > 0 ==> (Pow2(k) - 1) % 2 == 1);
      ModDouble(a, Pow2(k - 1));
      if a != 0 && Pow2(k) - 1 != 0 {
      }
    }
  }

  /** Masking with a single bit tests that bit. */
  lemma {:induction false} AndBit(a: nat, k: nat)
    ensures And(a, Pow2(k)) == if (a / Pow2(k)) % 2 == 1 then Pow2(k) else 0
    decreases k
  {
    if k > 0 {
      AndBit(a / 2, k - 1);
      DivDouble(a, Pow2(k - 1));
      assert Pow2(k) / 2 == Pow2(k - 1) && Pow2(k) % 2 == 0;
    } else {
      AndOne(a);
    }
  }

  lemma AndOne(a: nat)
    ensures And(a, 1) == a % 2
  {
  }

  lemma DivDouble(a: nat, m: nat)
    requires 1 <= m
    ensures a / (2 * m) == a / 2 / m
  {
    var q, r := (a / 2) / m, (a / 2) % m;
    assert a / 2 == q * m + r;
    assert a == q * (2 * m) + (2 * r + a % 2) by { assert q * (2 * m) == 2 * (q * m); }
    DivModUnique(a, q, 2 * r + a % 2, 2 * m);
  }

  lemma ModDouble(a: nat, m: nat)
    requires 1 <= m
    ensures a % (2 * m) == 2 * ((a / 2) % m) + a % 2
  {
    var q, r := (a / 2) / m, (a / 2) % m;
    assert a / 2 == q * m + r;
    assert a == q * (2 * m) + (2 * r + a % 2) by { assert q * (2 * m) == 2 * (q * m); }
    DivModUnique(a, q, 2 * r + a % 2, 2 * m);
  }

  lemma OrNothing(b: nat)
    ensures Or(0, b) == b
  {
  }

  lemma OrEven(a: nat, h: nat)
    ensures Or(a, 2 * h) == 2 * Or(a / 2, h) + a % 2
  {
    assert (2 * h) / 2 == h && (2 * h) % 2 == 0;
  }

  /** OR of disjoint ranges of bits is addition. */
  lemma {:induction false} OrDisjoint(a: nat, c: nat, k: nat)
    requires a < Pow2(k)
    ensures Or(a, c * Pow2(k)) == a + c * Pow2(k)
    decreases k
  {
    hide Or;
    if k > 0 {
      OrDisjoint(a / 2, c, k - 1);
      var h := c * Pow2(k - 1);
      assert c * Pow2(k) == 2 * h;
      OrEven(a, h);
      assert a == 2 * (a / 2) + a % 2;
    } else {
      OrNothing(c * Pow2(k));
    }
  }

  /** XOR with all ones is complement. */
  lemma {:induction false} XorOnes(a: nat, k: nat)
    requires a < Pow2(k)
    ensures Xor(a, Pow2(k) - 1) == Pow2(k) - 1 - a
    decreases k
  {
    if k > 0 {
      XorOnes(a / 2, k - 1);
      assert (Pow2(k) - 1) / 2 == Pow2(k - 1) - 1;
      assert (Pow2(k) - 1) % 2 == 1;
    }
  }

  // ----- composed operators -----

  lemma Pow2Values()
    ensures Pow2(31) == TWO_31 && Pow2(32) == TWO_32
  {
    assert Pow2(8) == 256;
    Pow2Add(8, 8);
    Pow2Add(16, 16);
    assert Pow2(32) == 2 * Pow2(31);
  }

  lemma {:induction false} Pow2Monotone(j: nat, k: nat)
    requires j <= k
    ensures Pow2(j) <= Pow2(k)
    decreases k
  {
    if j < k { Pow2Monotone(j, k - 1); }
  }

  lemma ToUint32Same(x: int)
    ensures ToUint32(ToInt32(x)) == ToUint32(x)
    ensures 0 <= x < TWO_32 ==> ToUint32(x) == x
    ensures 0 <= x < TWO_31 ==> ToInt32(x) == x
  {
  }

  /** Masking with `2^k - 1` keeps the low `k` bits. */
  lemma BitAndMask(x: int, k: nat)
    requires k <= 31
    ensures BitAnd(x, Pow2(k) - 1) == ToUint32(x) % Pow2(k)
  {
    Pow2Values();
    Pow2Monotone(k, 31);
    AndMask(ToUint32(x), k);
    ToUint32Same(Pow2(k) - 1);
    ToUint32Same(ToUint32(x) % Pow2(k));
  }

  lemma ScaledRemainder(x: nat, m: nat, n: nat, w: int)
    requires 1 <= m && 1 <= n && m * n == w
    ensures (x * n) % w == (x % m) * n
  {
    var q, r := x / m, x % m;
    assert q * w == q * m * n;
    Distribute(q * m, r, n);
    ScaleLess(r, m, n);
    DivModUnique(x * n, q, r * n, w);
  }

  lemma Distribute(a: int, b: int, n: int)
    ensures (a + b) * n == a * n + b * n
  {
  }

  lemma ScaleLess(a: int, b: int, n: int)
    requires a < b && 0 < n
    ensures a * n < b * n
  {
  }

  /** A left shift drops the bits that leave the 32-bit word. */
  lemma ShlBits(c: nat, k: nat)
    requires k <= 31 && c < TWO_32
    ensures Pow2(32 - k) * Pow2(k) == TWO_32
    ensures ToUint32(Shl(c, k)) == (c * Pow2(k)) % TWO_32 == (c % Pow2(32 - k)) * Pow2(k)
  {
    Pow2Values();
    Pow2Add(32 - k, k);
    ScaledRemainder(c, Pow2(32 - k), Pow2(k), TWO_32);
    ToUint32Same(c);
    ToUint32Same(c * Pow2(k));
  }

  /** `a | (c << k)` with `a` below bit `k`: concatenation, truncated to the word. */
  lemma Concat32(a: int, c: nat, k: nat)
    requires k <= 31 && ToUint32(a) < Pow2(k) && c < TWO_32
    ensures ToUint32(BitOr(a, Shl(c, k))) == (ToUint32(a) + c * Pow2(k)) % TWO_32
  {
    hide *;
    var u, d := ToUint32(a), c % Pow2(32 - k);
    var x, y := c * Pow2(k), d * Pow2(k);
    ShlBits(c, k);
    OrDisjoint(u, d, k);
    FitsWord(u, d, Pow2(32 - k), Pow2(k));
    BitOrWord(a, Shl(c, k));
    AddMultipleMod(u, x, y);
  }

  lemma BitOrWord(x: int, y: int)
    requires Or(ToUint32(x), ToUint32(y)) < TWO_32
    ensures ToUint32(BitOr(x, y)) == Or(ToUint32(x), ToUint32(y))
  {
    ToUint32Same(Or(ToUint32(x), ToUint32(y)));
  }

  lemma FitsWord(u: nat, d: nat, m: nat, n: nat)
    requires u < n && d < m && m * n == TWO_32
    ensures u + d * n < TWO_32
  {
    assert (d + 1) * n <= m * n by { if d + 1 < m { ScaleLess(d + 1, m, n); } }
  }

  lemma AddMultipleMod(u: int, x: int, y: int)
    requires 0 <= u && y == x % TWO_32 && u + y < TWO_32
    ensures (u + x) % TWO_32 == u + y
  {
  }

  // ----- writing into a byte buffer -----

  /** `b` is `b0` with the bytes `w` written at `pos`. */
  ghost predicate Written(b: seq<byte>, b0: seq<byte>, pos: nat, w: seq<byte>) {
    |b| == |b0| && pos + |w| <= |b| && b == b0[..pos] + w + b0[pos + |w|..]
  }

  lemma WriteNothing(b: seq<byte>, pos: nat)
    requires pos <= |b|
    ensures Written(b, b, pos, [])
  {
  }

  lemma WriteOne(b: seq<byte>, b0: seq<byte>, pos: nat, w: seq<byte>, x: byte)
    requires Written(b, b0, pos, w) && pos + |w| < |b|
    ensures Written(b[pos + |w| := x], b0, pos, w + [x])
  {
  }

  /** Storing one byte at the write position. */
  method Store(buffer: array<byte>, offset: nat, x: int, ghost b0: seq<byte>, ghost pos: nat, ghost done: seq<byte>)
    requires 0 <= x < 256 && offset < buffer.Length && offset == pos + |done| && Written(buffer[..], b0, pos, done)
    modifies buffer
    ensures Written(buffer[..], b0, pos, done + [x])
  {
    WriteOne(buffer[..], b0, pos, done, x);
    ghost var b := buffer[..];
    buffer[offset] := x;
    assert buffer[..] == b[offset := buffer[offset]];
  }
}
