/** Base-128 varints over JavaScript numbers: one specification for the two encoders and the two decoders. */
module Varint {
  import opened NumberTheory
  import opened JsBits

  const TWO_64 := 0x1_0000_0000_0000_0000

  // ----- specification -----

  /** "Base 128 Varints" of the Protocol Buffers Encoding document: seven bits a byte, least significant first. */
  function Base128(v: nat): (b: seq<byte>)
    ensures b != []
  {
    if v < 128 then [v] else [v % 128 + 128] + Base128(v / 128)
  }

  /** A byte of the buffer; reading past the end acts as 0 under a bit operation. */
  function At(buf: seq<byte>, pos: int): byte {
    if 0 <= pos < |buf| then buf[pos] else 0
  }

  datatype Scanned = NoEnd | Value(v: nat, n: nat)

  /** The value of the varint at `pos` and its byte count, if one of the next `max` bytes ends it. */
  function Scan(buf: seq<byte>, pos: nat, max: nat): (s: Scanned)
    ensures s.Value? ==> 1 <= s.n <= max
    decreases max
  {
    if max == 0 then NoEnd
    else if At(buf, pos) < 128 then Value(At(buf, pos), 1)
    else
      match Scan(buf, pos + 1, max - 1)
      case NoEnd => NoEnd
      case Value(v, n) => Value(At(buf, pos) - 128 + 128 * v, n + 1)
  }

  /** What a scan gives after `i` continuation bytes worth `acc` have been consumed. */
  function Resume(s: Scanned, acc: nat, i: nat): Scanned {
    match s
    case NoEnd => NoEnd
    case Value(v, n) => Value(acc + v * Pow2(7 * i), n + i)
  }

  /** Reading one more byte of a scan in progress. */
  lemma ScanStep(buf: seq<byte>, pos: nat, i: nat, max: nat, acc: nat)
    requires i < max
    ensures var b := At(buf, pos + i);
            Resume(Scan(buf, pos + i, max - i), acc, i) ==
              if b < 128 then Value(acc + b * Pow2(7 * i), i + 1)
              else Resume(Scan(buf, pos + i + 1, max - (i + 1)), acc + b % 128 * Pow2(7 * i), i + 1)
  {
    var b, w := At(buf, pos + i), Pow2(7 * i);
    Pow2Add(7, 7 * i);
    assert Pow2(7) == 128;
    hide Pow2;
    if b >= 128 {
      assert b % 128 == b - 128;
      match Scan(buf, pos + i + 1, max - (i + 1)) {
        case NoEnd =>
        case Value(v, n) =>
          assert (b - 128 + 128 * v) * w == (b - 128) * w + v * (128 * w);
      }
    }
  }

  /** Decoding undoes encoding, at any position and whatever follows. */
  lemma {:induction false} ScanVarint(v: nat, buf: seq<byte>, pos: nat, max: nat)
    requires pos + |Base128(v)| <= |buf| && buf[pos..pos + |Base128(v)|] == Base128(v) && |Base128(v)| <= max
    ensures Scan(buf, pos, max) == Value(v, |Base128(v)|)
    decreases v
  {
    var w := Base128(v);
    assert buf[pos] == buf[pos..pos + |w|][0] == w[0];
    if v >= 128 {
      assert buf[pos + 1..pos + |w|] == buf[pos..pos + |w|][1..];
      ScanVarint(v / 128, buf, pos + 1, max - 1);
    }
  }

  lemma {:induction false} VarintLength(v: nat, k: nat)
    requires 1 <= k
    ensures |Base128(v)| <= k <==> v < Pow2(7 * k)
  {
    assert Pow2(0) == 1;
    hide Pow2;
    PowSeven(k - 1);
    if k > 1 && v >= 128 {
      VarintLength(v / 128, k - 1);
    }
  }

  lemma PowSeven(k: nat)
    ensures Pow2(7 * (k + 1)) == 128 * Pow2(7 * k)
  {
    assert Pow2(7) == 128;
    Pow2Add(7, 7 * k);
  }

  /** The powers of two that occur as constants. */
  lemma PowTable()
    ensures Pow2(0) == 1 && Pow2(3) == 8 && Pow2(4) == 16 && Pow2(7) == 128 && Pow2(8) == 256
    ensures Pow2(14) == 0x4000 && Pow2(16) == 0x1_0000 && Pow2(21) == 0x20_0000 && Pow2(24) == 0x100_0000
    ensures Pow2(25) == 0x200_0000 && Pow2(28) == 0x1000_0000 && Pow2(31) == TWO_31 && Pow2(32) == TWO_32
    ensures Pow2(35) == 8 * TWO_32 && Pow2(42) == 1024 * TWO_32 && Pow2(49) == 0x2_0000 * TWO_32
    ensures Pow2(56) == 0x100_0000 * TWO_32 && Pow2(63) == TWO_31 * TWO_32 && Pow2(64) == TWO_64 && Pow2(70) == 64 * TWO_64
  {
    hide Pow2;
    WordPowers();
    Pow2Add(32, 3);
    Pow2Add(35, 7);
    Pow2Add(42, 7);
    Pow2Add(49, 7);
    Pow2Add(56, 7);
    Pow2Add(32, 32);
    Pow2Add(63, 7);
  }

  lemma WordPowers()
    ensures Pow2(0) == 1 && Pow2(3) == 8 && Pow2(4) == 16 && Pow2(7) == 128 && Pow2(8) == 256
    ensures Pow2(14) == 0x4000 && Pow2(16) == 0x1_0000 && Pow2(21) == 0x20_0000 && Pow2(24) == 0x100_0000
    ensures Pow2(25) == 0x200_0000 && Pow2(28) == 0x1000_0000 && Pow2(31) == TWO_31 && Pow2(32) == TWO_32
  {
    hide Pow2;
    SmallPowers();
    Pow2Add(7, 7);
    Pow2Add(14, 7);
    Pow2Add(21, 3);
    Pow2Add(21, 4);
    Pow2Add(21, 7);
    Pow2Add(28, 3);
    Pow2Add(28, 4);
    Pow2Add(8, 8);
  }

  lemma SmallPowers()
    ensures Pow2(0) == 1 && Pow2(3) == 8 && Pow2(4) == 16 && Pow2(7) == 128 && Pow2(8) == 256
  {
  }

  /** A 32-bit value needs at most 5 bytes, a 64-bit value at most 10. */
  lemma VarintWidth(v: nat)
    ensures v < TWO_32 ==> |Base128(v)| <= 5
    ensures v < TWO_64 ==> |Base128(v)| <= 10
  {
    hide Base128, Pow2;
    VarintLength(v, 5);
    VarintLength(v, 10);
    PowTable();
  }

  // ----- the two halves of a 64-bit value -----

  /** The unsigned 64-bit value of a pair of 32-bit halves, whichever sign convention the halves use. */
  function U64(lo: int, hi: int): (v: nat)
    ensures v < TWO_64
  {
    ToUint32(lo) + TWO_32 * ToUint32(hi)
  }

  function I64(lo: int, hi: int): (v: int)
    ensures -0x8000_0000_0000_0000 <= v < 0x8000_0000_0000_0000 && v % TWO_64 == U64(lo, hi) % TWO_64
  {
    var u := U64(lo, hi);
    if u >= 0x8000_0000_0000_0000 then u - TWO_64 else u
  }

  /** The value an unsigned 64-bit word denotes in two's complement. */
  function Signed64(u: int): int { if u >= 0x8000_0000_0000_0000 then u - TWO_64 else u }

  // ----- JavaScript operators the loops use -----

  /** `x & 127` and `(x & 127) | 128`. */
  lemma SevenBits(x: int)
    ensures BitAnd(x, 127) == ToUint32(x) % 128
    ensures BitOr(BitAnd(x, 127), 128) == ToUint32(x) % 128 + 128
  {
    hide And, Or, BitAnd, Pow2;
    SmallPowers();
    BitAndMask(x, 7);
    var w := Pow2(7);
    assert ToUint32(x) % w == ToUint32(x) % 128;
    OrDisjoint(ToUint32(x) % 128, 1, 7);
  }

  lemma ShrBy(x: int, n: nat, w: int)
    requires w == Pow2(n)
    ensures Shr(x, n) == ToUint32(x) / w && 0 <= Shr(x, n) <= ToUint32(x)
  {
    DivisionBound(ToUint32(x), w);
  }

  lemma DivisionBound(a: nat, w: int)
    requires 1 <= w
    ensures 0 <= a / w <= a
  {
    hide *;
    DivisionIdentity(a, w);
    QuotientBound(a / w, w);
  }

  lemma QuotientBound(q: nat, w: int)
    requires 1 <= w
    ensures q <= q * w
  {
  }

  // ----- 32-bit encoder -----

  /** `(x & 127) | 128` followed by `x >>> 7`, on an unsigned 32-bit value. */
  lemma ShiftWord(x: nat)
    requires 127 < x < TWO_32
    ensures BitOr(BitAnd(x, 127), 128) == x % 128 + 128 && Shr(x, 7) == x / 128
    ensures Base128(x) == [BitOr(BitAnd(x, 127), 128)] + Base128(x / 128)
  {
    hide BitOr, BitAnd, Shr, Pow2;
    SevenBits(x);
    SmallPowers();
    ShrBy(x, 7, 128);
  }

  method WriteVarint32(value: nat, buf: array<byte>, pos: nat)
    requires value < TWO_32 && pos + |Base128(value)| <= buf.Length
    modifies buf
    ensures Written(buf[..], old(buf[..]), pos, Base128(value))
  {
    hide Base128, Written, BitOr, BitAnd, Shr;
    var val, p := value, pos;
    ghost var done: seq<byte> := [];
    ghost var b0 := buf[..];
    WriteNothing(b0, pos);
    assert done + Base128(val) == Base128(value);
    while val > 127
      invariant 0 <= val < TWO_32
      invariant done + Base128(val) == Base128(value) && p == pos + |done|
      invariant Written(buf[..], b0, pos, done)
      decreases val
    {
      ShiftWord(val);
      Store(buf, p, BitOr(BitAnd(val, 127), 128), b0, pos, done);
      done := done + [BitOr(BitAnd(val, 127), 128)];
      p := p + 1;
      val := Shr(val, 7);
    }
    LastByte(val);
    Store(buf, p, val, b0, pos, done);
  }

  lemma Regroup(a: seq<byte>, b: byte, c: seq<byte>)
    ensures a + [b] + c == a + ([b] + c)
  {
  }

  lemma LastByte(v: nat)
    requires v < 128
    ensures Base128(v) == [v]
  {
  }

  // ----- 64-bit encoders -----

  /** Shifting the pair right by seven bits. */
  lemma ShiftPair(lo: nat, hi: nat)
    requires lo < TWO_32 && hi < TWO_32
    ensures Shr(hi, 7) == hi / 128
    ensures ToUint32(BitOr(Shr(lo, 7), Shl(hi, 25))) + TWO_32 * (hi / 128) == (lo + TWO_32 * hi) / 128
  {
    hide Shl, BitOr, Pow2, Shr, ToUint32;
    PowTable();
    ToUint32Same(lo);
    ToUint32Same(hi);
    ShrBy(lo, 7, 128);
    ShrBy(hi, 7, 128);
    ToUint32Same(lo / 128);
    Concat32(Shr(lo, 7), hi, 25);
    PairDivision(lo, hi);
  }

  lemma PairDivision(lo: nat, hi: nat)
    requires lo < TWO_32 && hi < TWO_32
    ensures (lo / 128 + hi * 0x200_0000) % TWO_32 + TWO_32 * (hi / 128) == (lo + TWO_32 * hi) / 128
  {
    var x := lo / 128 + hi % 128 * 0x200_0000;
    assert lo / 128 + hi * 0x200_0000 == x + TWO_32 * (hi / 128);
    AddWords(x, hi / 128);
    assert (lo + TWO_32 * hi) / 128 == lo / 128 + 0x200_0000 * hi;
  }

  /**
   * `writeVarint64` shifts the pair it is given in place; `lo` and `hi` are what it leaves there, so a
   * second run would write only the last byte.
   */
  method WriteVarint64(lo0: nat, hi0: nat, buf: array<byte>, pos: nat) returns (lo: nat, hi: nat)
    requires lo0 < TWO_32 && hi0 < TWO_32 && pos + |Base128(U64(lo0, hi0))| <= buf.Length
    modifies buf
    ensures Written(buf[..], old(buf[..]), pos, Base128(U64(lo0, hi0)))
    ensures hi == 0 && lo < 128 && lo == Base128(U64(lo0, hi0))[|Base128(U64(lo0, hi0))| - 1]
  {
    hide Base128, Written, BitOr, BitAnd, Shr, Shl, U64, ToUint32;
    lo, hi := lo0, hi0;
    var p := pos;
    ghost var done: seq<byte> := [];
    ghost var b0, v := buf[..], U64(lo0, hi0);
    WriteNothing(b0, pos);
    assert done + Base128(U64(lo, hi)) == Base128(v);
    while hi != 0
      invariant lo < TWO_32 && hi < TWO_32
      invariant done + Base128(U64(lo, hi)) == Base128(v) && p == pos + |done|
      invariant Written(buf[..], b0, pos, done)
      decreases hi
    {
      PairStep(lo, hi);
      Regroup(done, BitOr(BitAnd(lo, 127), 128), Base128(U64(ToUint32(BitOr(Shr(lo, 7), Shl(hi, 25))), Shr(hi, 7))));
      Store(buf, p, BitOr(BitAnd(lo, 127), 128), b0, pos, done);
      done := done + [BitOr(BitAnd(lo, 127), 128)];
      p := p + 1;
      lo, hi := ToUint32(BitOr(Shr(lo, 7), Shl(hi, 25))), Shr(hi, 7);
    }
    LowOnly(lo);
    while lo > 127
      invariant lo < TWO_32
      invariant done + Base128(lo) == Base128(v) && p == pos + |done|
      invariant Written(buf[..], b0, pos, done)
      decreases lo
    {
      ShiftWord(lo);
      Regroup(done, BitOr(BitAnd(lo, 127), 128), Base128(lo / 128));
      Store(buf, p, BitOr(BitAnd(lo, 127), 128), b0, pos, done);
      done := done + [BitOr(BitAnd(lo, 127), 128)];
      p := p + 1;
      lo := Shr(lo, 7);
    }
    LastByte(lo);
    Store(buf, p, lo, b0, pos, done);
  }

  lemma LowOnly(lo: nat)
    requires lo < TWO_32
    ensures U64(lo, 0) == lo
  {
  }

  lemma PairStep(lo: nat, hi: nat)
    requires lo < TWO_32 && 0 < hi < TWO_32
    ensures 0 <= BitOr(BitAnd(lo, 127), 128) < 256 && 0 <= Shr(hi, 7) < hi
    ensures Base128(U64(lo, hi)) ==
              [BitOr(BitAnd(lo, 127), 128)] + Base128(U64(ToUint32(BitOr(Shr(lo, 7), Shl(hi, 25))), Shr(hi, 7)))
  {
    hide BitOr, BitAnd, Shr, Shl, Base128, ToUint32, U64;
    SevenBits(lo);
    ShiftPair(lo, hi);
    LowSeven(lo, hi);
    VarintStep(lo + TWO_32 * hi);
    ToUint32Same(lo);
    U64OfWords(lo, hi);
    U64OfWords(ToUint32(BitOr(Shr(lo, 7), Shl(hi, 25))), hi / 128);
  }

  lemma U64OfWords(lo: nat, hi: nat)
    requires lo < TWO_32 && hi < TWO_32
    ensures U64(lo, hi) == lo + TWO_32 * hi
  {
  }

  lemma LowSeven(lo: nat, hi: nat)
    requires 0 < hi
    ensures (lo + TWO_32 * hi) % 128 == lo % 128 && lo + TWO_32 * hi >= 128
  {
  }

  /** One byte pushed by `varint64write`: the low seven bits of `shift`, with the top bit when more follow. */
  lemma PushedByte(shift: nat, hasNext: bool)
    requires shift < TWO_32 && (!hasNext ==> shift < 128)
    ensures BitAnd(if hasNext then BitOr(shift, 0x80) else shift, 0xff) == if hasNext then shift % 128 + 128 else shift
  {
    hide And, Or, Pow2, BitAnd;
    SmallPowers();
    var w := Pow2(8);
    if hasNext {
      OrTopBit(shift);
      BitAndMask(BitOr(shift, 0x80), 8);
    } else {
      BitAndMask(shift, 8);
      ToUint32Same(shift);
    }
    assert w == 256;
  }

  /** `x | 0x80`, byte by byte: the rest of the word stays, bit 7 is set. */
  lemma OrTopBit(x: nat)
    requires x < TWO_32
    ensures ToUint32(BitOr(x, 0x80)) % 256 == x % 128 + 128
  {
    hide Or;
    OrBit7(x);
    ToUint32Same(x);
    Pow2Values();
    OrBound(x, 0x80, 32);
    ToUint32Same(Or(x, 0x80));
  }

  lemma OrBit7(x: nat)
    ensures Or(x, 128) % 256 == x % 128 + 128
  {
    hide Or, Pow2;
    SmallPowers();
    OrBit(x, 7);
    var w := Pow2(7);
    assert x / w == x / 128;
  }

  /** Setting a single bit adds it unless it is already there. */
  lemma {:induction false} OrBit(x: nat, k: nat)
    ensures Or(x, Pow2(k)) == if (x / Pow2(k)) % 2 == 1 then x else x + Pow2(k)
    decreases k
  {
    OrHalves(x, Pow2(k));
    if k > 0 {
      OrBit(x / 2, k - 1);
      DivDouble(x, Pow2(k - 1));
      assert Pow2(k) / 2 == Pow2(k - 1) && Pow2(k) % 2 == 0;
    } else {
      assert Or(x / 2, 0) == x / 2;
    }
  }

  /** One step of OR with an even number or with 1. */
  lemma OrHalves(a: nat, b: nat)
    ensures Or(a, b) == 2 * Or(a / 2, b / 2) + if a % 2 == 1 || b % 2 == 1 then 1 else 0
  {
  }

  lemma {:induction false} OrBound(a: nat, b: nat, k: nat)
    requires a < Pow2(k) && b < Pow2(k)
    ensures Or(a, b) < Pow2(k)
    decreases k
  {
    if k > 0 {
      OrBound(a / 2, b / 2, k - 1);
      OrHalves(a, b);
    }
  }

  /** `v` without its low `k` bits. */
  function Quot(v: nat, k: nat): nat {
    DivisionBound(v, Pow2(k));
    v / Pow2(k)
  }

  lemma QuotZero(v: nat)
    ensures Quot(v, 0) == v
  {
  }

  /** The value of the pair, shifted right by less than a word. */
  lemma LowShift(u: nat, h: nat, w: int, m: int)
    requires 1 <= w && 1 <= m && w * (128 * m) == TWO_32
    ensures var q := (u + TWO_32 * h) / w;
            && q == u / w + 128 * (h * m) && 0 <= u / w && 0 <= q
            && q % 128 == (u / w) % 128
            && (q < 128 <==> u / w < 128 && h == 0)
  {
    DivisionIdentity(u, w);
    WordMultiple(h, w, m);
    ShiftedSum(u / w, 128 * (h * m), w, u % w, TWO_32 * h);
    MulBound(h, m);
    assert h == 0 ==> h * m == 0;
  }

  lemma WordMultiple(h: nat, w: int, m: int)
    requires w * (128 * m) == TWO_32
    ensures TWO_32 * h == 128 * (h * m) * w
  {
    assert 128 * (h * m) * w == h * (w * (128 * m));
  }

  lemma ShiftedSum(q: int, k: int, w: int, r: int, x: int)
    requires 0 <= r < w && x == k * w
    ensures (q * w + r + x) / w == q + k
  {
    assert (q + k) * w == q * w + k * w;
    DivModUnique(q * w + r + x, q + k, r, w);
  }

  lemma NextGroup(v: nat, w: int)
    requires 1 <= w
    ensures 0 <= v / w && v / w / 128 == v / (w * 128)
  {
    DivisionIdentity(v, w);
    var q, r := v / w, v % w;
    var a, b := q / 128, q % 128;
    GroupSplit(a, b, w, r);
    DivModUnique(v, a, b * w + r, w * 128);
  }

  lemma GroupSplit(a: int, b: int, w: int, r: int)
    requires 0 <= b < 128 && 0 <= r < w
    ensures (128 * a + b) * w + r == a * (w * 128) + (b * w + r) && 0 <= b * w + r < w * 128
  {
    GroupDistributes(a, b, w);
    assert 0 <= (127 - b) * w == 127 * w - b * w;
  }

  lemma GroupDistributes(a: int, b: int, w: int)
    ensures (128 * a + b) * w == a * (w * 128) + b * w
  {
  }

  lemma VarintStep(q: nat)
    requires q >= 128
    ensures Base128(q) == [q % 128 + 128] + Base128(q / 128)
  {
  }

  /** One byte of the encoding of `v / w`. */
  lemma GroupBytes(v: nat, w: int, w': int, shift: nat, hasNext: bool)
    requires 1 <= w && w' == w * 128 && shift < TWO_32 && 0 <= v / w && (v / w) % 128 == shift % 128
    requires hasNext <==> v / w >= 128
    requires !hasNext ==> shift < 128
    ensures var b := BitAnd(if hasNext then BitOr(shift, 0x80) else shift, 0xff);
            && 0 <= b < 256 && 0 <= v / w'
            && Base128(v / w) == if hasNext then [b] + Base128(v / w') else [b]
  {
    hide BitAnd, BitOr, Base128;
    PushedByte(shift, hasNext);
    NextGroup(v, w);
    var q := v / w;
    if hasNext {
      VarintStep(q);
    } else {
      LastByte(q);
    }
  }

  /** An iteration of the first loop of `varint64write`, at shift `i`. */
  lemma LowGroup(lo: int, hi: int, i: nat)
    requires i in {0, 7, 14, 21} && -TWO_31 <= hi < TWO_32
    ensures var shift := Shr(lo, i);
            var hasNext := !(Shr(shift, 7) == 0 && hi == 0);
            var b := BitAnd(if hasNext then BitOr(shift, 0x80) else shift, 0xff);
            && 0 <= b < 256
            && Base128(Quot(U64(lo, hi), i)) == if hasNext then [b] + Base128(Quot(U64(lo, hi), i + 7)) else [b]
  {
    hide BitAnd, BitOr, Shr, Base128, Pow2, U64;
    LowQuotient(lo, hi, i);
    GroupBytes(U64(lo, hi), Pow2(i), Pow2(i + 7), Shr(lo, i), !(Shr(Shr(lo, i), 7) == 0 && hi == 0));
  }

  /** The quotient the first loop looks at, from the low word alone. */
  lemma LowQuotient(lo: int, hi: int, i: nat)
    requires i in {0, 7, 14, 21} && -TWO_31 <= hi < TWO_32
    ensures var shift, q := Shr(lo, i), Quot(U64(lo, hi), i);
            && 0 <= shift < TWO_32 && q % 128 == shift % 128
            && (q < 128 <==> Shr(shift, 7) == 0 && hi == 0)
            && (Shr(shift, 7) == 0 ==> shift < 128)
            && Pow2(i + 7) == Pow2(i) * 128
  {
    hide Shr, Pow2, ToUint32;
    var w := Pow2(i);
    Pow2Add(7, 25 - i);
    Pow2Add(i, 32 - i);
    Pow2Add(i, 7);
    PowTable();
    HalfZero(hi);
    LowShift(ToUint32(lo), ToUint32(hi), w, Pow2(25 - i));
    ShrBy(lo, i, w);
    var shift := Shr(lo, i);
    ShrBy(shift, 7, 128);
    ToUint32Same(shift);
  }

  lemma HalfZero(hi: int)
    requires -TWO_31 <= hi < TWO_32
    ensures hi == 0 <==> ToUint32(hi) == 0
  {
  }

  /** The byte that holds the top four bits of the low word and the low three of the high word. */
  lemma MiddleGroup(lo: int, hi: int)
    requires -TWO_31 <= hi < TWO_32
    ensures var splitBits := BitOr(BitAnd(Shr(lo, 28), 0x0f), Shl(BitAnd(hi, 0x07), 4));
            var hasMoreBits := !(Sar(hi, 3) == 0);
            var b := BitAnd(if hasMoreBits then BitOr(splitBits, 0x80) else splitBits, 0xff);
            && 0 <= b < 256
            && Base128(Quot(U64(lo, hi), 28)) == if hasMoreBits then [b] + Base128(Quot(U64(lo, hi), 35)) else [b]
  {
    hide BitAnd, BitOr, Shr, Shl, Base128, Pow2, U64, Sar;
    var splitBits := BitOr(BitAnd(Shr(lo, 28), 0x0f), Shl(BitAnd(hi, 0x07), 4));
    MiddleQuotient(lo, hi);
    PowTable();
    GroupBytes(U64(lo, hi), Pow2(28), Pow2(35), splitBits, !(Sar(hi, 3) == 0));
  }

  lemma MiddleQuotient(lo: int, hi: int)
    requires -TWO_31 <= hi < TWO_32
    ensures var splitBits, q := BitOr(BitAnd(Shr(lo, 28), 0x0f), Shl(BitAnd(hi, 0x07), 4)), Quot(U64(lo, hi), 28);
            && 0 <= splitBits < 128 && q % 128 == splitBits && (q < 128 <==> Sar(hi, 3) == 0)
  {
    hide BitAnd, BitOr, Shr, Shl, Pow2, Sar, ToUint32;
    var u, h := ToUint32(lo), ToUint32(hi);
    PowTable();
    ShrBy(lo, 28, 0x1000_0000);
    NibbleMasks(Shr(lo, 28), hi);
    ToUint32Same(u / 0x1000_0000);
    Concat32(u / 0x1000_0000, h % 8, 4);
    OrIsInt32(u / 0x1000_0000, Shl(h % 8, 4));
    SplitRange(u, h, BitOr(u / 0x1000_0000, Shl(h % 8, 4)));
    SarZero(hi);
    MiddleDivision(u, h);
  }

  lemma OrIsInt32(x: int, y: int)
    ensures -TWO_31 <= BitOr(x, y) < TWO_31
  {
  }

  lemma NibbleMasks(x: int, y: int)
    requires 0 <= x < 16
    ensures BitAnd(x, 0x0f) == x && BitAnd(y, 0x07) == ToUint32(y) % 8
  {
    hide BitAnd, Pow2;
    SmallPowers();
    BitAndMask(x, 4);
    BitAndMask(y, 3);
    var a, b := Pow2(4), Pow2(3);
    assert ToUint32(x) % a == x && ToUint32(y) % b == ToUint32(y) % 8;
  }

  lemma SplitRange(u: nat, h: nat, split: int)
    requires u < TWO_32 && -TWO_31 <= split < TWO_31
    requires ToUint32(split) == (u / 0x1000_0000 + h % 8 * 16) % TWO_32
    ensures split == u / 0x1000_0000 + h % 8 * 16 < 128
  {
  }

  lemma SarZero(hi: int)
    requires -TWO_31 <= hi < TWO_32
    ensures Sar(hi, 3) == 0 <==> ToUint32(hi) < 8
  {
    hide Pow2;
    SmallPowers();
    var w := Pow2(3);
    assert ToInt32(hi) / w == ToInt32(hi) / 8;
  }

  lemma MiddleDivision(u: nat, h: nat)
    requires u < TWO_32 && h < TWO_32
    ensures var q := (u + TWO_32 * h) / 0x1000_0000;
            q == u / 0x1000_0000 + 16 * h && q % 128 == u / 0x1000_0000 + h % 8 * 16 && (q < 128 <==> h < 8)
  {
  }

  /** An iteration of the second loop of `varint64write`, at shift `i` of the high word. */
  lemma HighGroup(lo: int, hi: int, i: nat)
    requires i in {3, 10, 17, 24}
    ensures var shift := Shr(hi, i);
            var hasNext := !(Shr(shift, 7) == 0);
            var b := BitAnd(if hasNext then BitOr(shift, 0x80) else shift, 0xff);
            && 0 <= b < 256
            && Base128(Quot(U64(lo, hi), 32 + i)) == if hasNext then [b] + Base128(Quot(U64(lo, hi), 39 + i)) else [b]
  {
    hide BitAnd, BitOr, Shr, Base128, Pow2, U64;
    HighQuotient(lo, hi, i);
    GroupBytes(U64(lo, hi), Pow2(32 + i), Pow2(39 + i), Shr(hi, i), !(Shr(Shr(hi, i), 7) == 0));
  }

  lemma HighQuotient(lo: int, hi: int, i: nat)
    ensures var shift := Shr(hi, i);
            && 0 <= shift < TWO_32 && Quot(U64(lo, hi), 32 + i) == shift
            && (Shr(shift, 7) == 0 <==> shift < 128)
            && Pow2(39 + i) == Pow2(32 + i) * 128
  {
    hide Shr, Pow2, ToUint32;
    HighShift(ToUint32(lo), ToUint32(hi), i);
    ShrBy(hi, i, Pow2(i));
    SmallPowers();
    ShrBy(Shr(hi, i), 7, 128);
    ToUint32Same(Shr(hi, i));
    Pow2Add(32 + i, 7);
  }

  lemma HighShift(u: nat, h: nat, i: nat)
    requires u < TWO_32
    ensures (u + TWO_32 * h) / Pow2(32 + i) == h / Pow2(i)
  {
    hide Pow2;
    var w := Pow2(i);
    Pow2Add(32, i);
    Pow2Values();
    DivisionIdentity(h, w);
    var r := h % w;
    assert u + TWO_32 * h == (h / w) * (TWO_32 * w) + (TWO_32 * r + u) by { assert TWO_32 * ((h / w) * w + r) == (h / w) * (TWO_32 * w) + TWO_32 * r; }
    assert TWO_32 * r + u < TWO_32 * w;
    DivModUnique(u + TWO_32 * h, h / w, TWO_32 * r + u, TWO_32 * w);
  }

  /** `varint64write` pushes the same bytes that `writeVarint64` stores. */
  method Varint64Write(lo: int, hi: int, bytes: seq<byte>) returns (out: seq<byte>)
    requires -TWO_31 <= hi < TWO_32
    ensures out == bytes + Base128(U64(lo, hi))
  {
    hide BitAnd, BitOr, Shr, Shl, Sar, Base128, Pow2, U64, Quot;
    out := bytes;
    var i := 0;
    PowTable();
    ghost var v := U64(lo, hi);
    QuotZero(v);
    while i < 28
      invariant i in {0, 7, 14, 21, 28}
      invariant out + Base128(Quot(v, i)) == bytes + Base128(v)
    {
      LowGroup(lo, hi, i);
      var shift := Shr(lo, i);
      var hasNext := !(Shr(shift, 7) == 0 && hi == 0);
      ghost var before := out;
      out := out + [BitAnd(if hasNext then BitOr(shift, 0x80) else shift, 0xff)];
      if !hasNext {
        return;
      }
      Regroup(before, out[|before|], Base128(Quot(v, i + 7)));
      i := i + 7;
    }
    MiddleGroup(lo, hi);
    var splitBits := BitOr(BitAnd(Shr(lo, 28), 0x0f), Shl(BitAnd(hi, 0x07), 4));
    var hasMoreBits := !(Sar(hi, 3) == 0);
    ghost var middle := out;
    out := out + [BitAnd(if hasMoreBits then BitOr(splitBits, 0x80) else splitBits, 0xff)];
    if !hasMoreBits {
      return;
    }
    Regroup(middle, out[|middle|], Base128(Quot(v, 35)));
    i := 3;
    while i < 31
      invariant i in {3, 10, 17, 24, 31}
      invariant out + Base128(Quot(v, 32 + i)) == bytes + Base128(v)
    {
      HighGroup(lo, hi, i);
      var shift := Shr(hi, i);
      var hasNext := !(Shr(shift, 7) == 0);
      ghost var before := out;
      out := out + [BitAnd(if hasNext then BitOr(shift, 0x80) else shift, 0xff)];
      if !hasNext {
        return;
      }
      Regroup(before, out[|before|], Base128(Quot(v, 39 + i)));
      i := i + 7;
    }
    LastBit(lo, hi);
    out := out + [BitAnd(Shr(hi, 31), 0x01)];
  }

  lemma LastBit(lo: int, hi: int)
    ensures 0 <= BitAnd(Shr(hi, 31), 0x01) < 256
    ensures Base128(Quot(U64(lo, hi), 63)) == [BitAnd(Shr(hi, 31), 0x01)]
  {
    hide BitAnd, Shr, Pow2;
    PowTable();
    ShrBy(hi, 31, TWO_31);
    ToUint32Same(Shr(hi, 31));
    HighShift(ToUint32(lo), ToUint32(hi), 31);
    OneBit(Shr(hi, 31));
    LastByte(Shr(hi, 31));
  }

  lemma OneBit(x: int)
    requires 0 <= x < 2
    ensures BitAnd(x, 1) == x
  {
    hide And, BitAnd;
    assert Pow2(1) == 2;
    BitAndMask(x, 1);
  }

  // ----- int64Length -----

  function LengthOfParts(part0: int, part1: int, part2: int): int {
    if part2 == 0 then
      if part1 == 0 then
        if part0 < 16384 then (if part0 < 128 then 1 else 2)
        else if part0 < 2097152 then 3 else 4
      else if part1 < 16384 then (if part1 < 128 then 5 else 6)
      else if part1 < 2097152 then 7 else 8
    else if part2 < 128 then 9 else 10
  }

  function Int64Length(lo0: int, hi0: int): int {
    var lo, hi := Shr(lo0, 0), Shr(hi0, 0);
    var part0 := lo;
    var part1 := Shr(BitOr(Shr(lo, 28), Shl(hi, 4)), 0);
    var part2 := Shr(hi, 24);
    LengthOfParts(part0, part1, part2)
  }

  /** The length computed from the three parts is the length of the encoding, for every pair of 32-bit halves. */
  lemma Int64LengthCorrect(lo: int, hi: int)
    ensures Int64Length(lo, hi) == |Base128(U64(lo, hi))|
  {
    hide BitOr, Shr, Shl, Base128, Pow2, ToUint32;
    var u, h := ToUint32(lo), ToUint32(hi);
    PowTable();
    ShrBy(lo, 0, 1);
    ShrBy(hi, 0, 1);
    ToUint32Same(u);
    ToUint32Same(h);
    ShrBy(u, 28, 0x1000_0000);
    ShrBy(h, 24, 0x100_0000);
    ToUint32Same(u / 0x1000_0000);
    Concat32(u / 0x1000_0000, h, 4);
    var part1 := BitOr(u / 0x1000_0000, Shl(h, 4));
    ShrBy(part1, 0, 1);
    PartsBound(u, h);
    Thresholds(u + TWO_32 * h);
  }

  /** The number of bytes of the encoding, by thresholds. */
  lemma Thresholds(v: nat)
    requires v < TWO_64
    ensures |Base128(v)| == if v < 128 then 1 else if v < 16384 then 2 else if v < 2097152 then 3 else if v < 0x1000_0000 then 4
                           else if v < 8 * TWO_32 then 5 else if v < 1024 * TWO_32 then 6 else if v < 0x2_0000 * TWO_32 then 7
                           else if v < 0x100_0000 * TWO_32 then 8 else if v < TWO_31 * TWO_32 then 9 else 10
  {
    hide Base128, Pow2;
    PowTable();
    VarintLength(v, 1);
    VarintLength(v, 2);
    VarintLength(v, 3);
    VarintLength(v, 4);
    VarintLength(v, 5);
    VarintLength(v, 6);
    VarintLength(v, 7);
    VarintLength(v, 8);
    VarintLength(v, 9);
    VarintLength(v, 10);
  }

  lemma PartsBound(u: nat, h: nat)
    requires u < TWO_32 && h < TWO_32
    ensures var v, part1, part2 := u + TWO_32 * h, (u / 0x1000_0000 + h * 16) % TWO_32, h / 0x100_0000;
            LengthOfParts(u, part1, part2) ==
              if v < 128 then 1 else if v < 16384 then 2 else if v < 2097152 then 3 else if v < 0x1000_0000 then 4
              else if v < 8 * TWO_32 then 5 else if v < 1024 * TWO_32 then 6 else if v < 0x2_0000 * TWO_32 then 7
              else if v < 0x100_0000 * TWO_32 then 8 else if v < TWO_31 * TWO_32 then 9 else 10
  {
  }

  // ----- zigzag -----

  /** "Signed Integers": 0, -1, 1, -2, ... become 0, 1, 2, 3, ... */
  function ZigZag(v: int): nat { if v >= 0 then 2 * v else -2 * v - 1 }

  function UnZigZag(n: nat): int { if n % 2 == 0 then n / 2 else -(n / 2) - 1 }

  lemma ZigZagInverse(v: int, n: nat)
    ensures UnZigZag(ZigZag(v)) == v && ZigZag(UnZigZag(n)) == n
  {
    if v >= 0 {
      DivModUnique(2 * v, v, 0, 2);
    } else {
      DivModUnique(-2 * v - 1, -v - 1, 1, 2);
    }
    DivisionIdentity(n, 2);
  }

  function ZzEncode(lo: int, hi: int): (int, int) {
    var mask := Sar(hi, 31);
    (Shr(BitXor(Shl(lo, 1), mask), 0), Shr(BitXor(BitOr(Shl(hi, 1), Shr(lo, 31)), mask), 0))
  }

  function ZzDecode(lo: int, hi: int): (int, int) {
    var mask := -BitAnd(lo, 1);
    (Shr(BitXor(BitOr(Shr(lo, 1), Shl(hi, 31)), mask), 0), Shr(BitXor(Shr(hi, 1), mask), 0))
  }

  /** The mask is 0 or all ones; XOR with it keeps or complements the word. */
  lemma MaskWord(x: int, mask: int)
    requires mask == 0 || mask == -1
    ensures Shr(BitXor(x, mask), 0) == if mask == 0 then ToUint32(x) else TWO_32 - 1 - ToUint32(x)
  {
    hide Xor;
    Pow2Values();
    var u := ToUint32(x);
    assert Pow2(0) == 1;
    if mask == 0 {
      assert Xor(u, 0) == u by { XorZero(u); }
      ToUint32Same(u);
    } else {
      XorOnes(u, 32);
      ToUint32Same(TWO_32 - 1 - u);
    }
  }

  lemma XorZero(u: nat)
    ensures Xor(u, 0) == u
  {
  }

  lemma SarSign(x: int)
    ensures Sar(x, 31) == if ToUint32(x) >= TWO_31 then -1 else 0
  {
    hide Pow2;
    PowTable();
  }

  /** `hi << 1 | lo >>> 31`: the high word of the doubled pair. */
  lemma DoubleHigh(lo: int, hi: int)
    ensures ToUint32(BitOr(Shl(hi, 1), Shr(lo, 31))) == (2 * ToUint32(hi)) % TWO_32 + ToUint32(lo) / TWO_31
    ensures ToUint32(Shl(lo, 1)) == (2 * ToUint32(lo)) % TWO_32
  {
    hide Shl, Shr, Or, Pow2, ToUint32;
    PowTable();
    assert Pow2(1) == 2 by { Pow2One(); }
    ShlWord(hi);
    ShlWord(lo);
    ShrBy(lo, 31, TWO_31);
    var b := ToUint32(lo) / TWO_31;
    ToUint32Same(b);
    var e := ToUint32(hi) % TWO_31;
    EvenOr(e, b);
    ToUint32Same(2 * e + b);
    assert (2 * ToUint32(hi)) % TWO_32 == 2 * e;
    BitOrWord(Shl(hi, 1), Shr(lo, 31));
  }

  lemma Pow2One()
    ensures Pow2(1) == 2
  {
  }

  lemma ShlWord(x: int)
    ensures ToUint32(Shl(x, 1)) == (2 * ToUint32(x)) % TWO_32
  {
    hide ToUint32, ToInt32, Pow2;
    Pow2One();
    ToUint32Same(ToUint32(x) * 2);
    ToUint32Mod(2 * ToUint32(x));
  }

  lemma AddWords(acc: int, k: int)
    ensures (acc + TWO_32 * k) % TWO_32 == acc % TWO_32
  {
  }

  lemma ToUint32Mod(x: int)
    ensures ToUint32(x) == x % TWO_32
  {
  }

  lemma EvenOr(e: nat, b: nat)
    requires b < 2
    ensures Or(2 * e, b) == 2 * e + b
  {
    OrHalves(2 * e, b);
    assert Or(e, 0) == e;
  }

  /** `zzEncode` is the arithmetic zigzag map on every 64-bit value. */
  lemma ZzEncodeCorrect(lo: int, hi: int)
    ensures var (l, h) := ZzEncode(lo, hi);
            0 <= l < TWO_32 && 0 <= h < TWO_32 && U64(l, h) == ZigZag(I64(lo, hi))
  {
    hide Shl, Shr, BitOr, BitXor, Sar, ToUint32;
    var u, h := ToUint32(lo), ToUint32(hi);
    SarSign(hi);
    DoubleHigh(lo, hi);
    MaskWord(Shl(lo, 1), Sar(hi, 31));
    MaskWord(BitOr(Shl(hi, 1), Shr(lo, 31)), Sar(hi, 31));
    var (a, b) := ZzEncode(lo, hi);
    EncodeArithmetic(u, h, a, b);
    ToUint32Same(a);
    ToUint32Same(b);
  }

  lemma EncodeArithmetic(u: nat, h: nat, a: int, b: int)
    requires u < TWO_32 && h < TWO_32
    requires a == if h < TWO_31 then (2 * u) % TWO_32 else TWO_32 - 1 - (2 * u) % TWO_32
    requires var w := (2 * h) % TWO_32 + u / TWO_31; b == if h < TWO_31 then w else TWO_32 - 1 - w
    ensures var v := u + TWO_32 * h;
            0 <= a < TWO_32 && 0 <= b < TWO_32
            && a + TWO_32 * b == ZigZag(if v >= 0x8000_0000_0000_0000 then v - TWO_64 else v)
  {
    var c := u / TWO_31;
    assert (2 * u) % TWO_32 == 2 * u - TWO_32 * c;
    if h < TWO_31 {
      assert (2 * h) % TWO_32 == 2 * h;
    } else {
      assert (2 * h) % TWO_32 == 2 * h - TWO_32;
    }
  }

  /** `zzDecode` inverts the arithmetic zigzag map on every 64-bit value. */
  lemma ZzDecodeCorrect(lo: int, hi: int)
    ensures var (l, h) := ZzDecode(lo, hi);
            0 <= l < TWO_32 && 0 <= h < TWO_32 && I64(l, h) == UnZigZag(U64(lo, hi))
  {
    hide Shl, Shr, BitOr, BitXor, BitAnd, ToUint32;
    var u, h := ToUint32(lo), ToUint32(hi);
    LowBit(lo);
    HalveLow(lo, hi);
    var mask := -BitAnd(lo, 1);
    MaskWord(BitOr(Shr(lo, 1), Shl(hi, 31)), mask);
    MaskWord(Shr(hi, 1), mask);
    var (a, b) := ZzDecode(lo, hi);
    DecodeArithmetic(u, h, a, b);
    ToUint32Same(a);
    ToUint32Same(b);
  }

  lemma LowBit(x: int)
    ensures BitAnd(x, 1) == ToUint32(x) % 2
  {
    hide BitAnd, Pow2;
    Pow2One();
    BitAndMask(x, 1);
    var w := Pow2(1);
    assert ToUint32(x) % w == ToUint32(x) % 2;
  }

  lemma HalveLow(lo: int, hi: int)
    ensures ToUint32(BitOr(Shr(lo, 1), Shl(hi, 31))) == ToUint32(lo) / 2 + ToUint32(hi) % 2 * TWO_31
    ensures ToUint32(Shr(hi, 1)) == ToUint32(hi) / 2
  {
    hide Shl, Shr, BitOr, ToUint32, Pow2;
    PowTable();
    Pow2One();
    ShrBy(lo, 1, 2);
    ShrBy(hi, 1, 2);
    ToUint32Same(ToUint32(lo) / 2);
    ToUint32Same(ToUint32(hi) / 2);
    ShlSame(hi, 31);
    Concat32(Shr(lo, 1), ToUint32(hi), 31);
    HalveArithmetic(ToUint32(lo), ToUint32(hi));
  }

  lemma ShlSame(x: int, n: nat)
    ensures Shl(x, n) == Shl(ToUint32(x), n)
  {
    ToUint32Same(ToUint32(x));
  }

  lemma HalveArithmetic(u: nat, h: nat)
    requires u < TWO_32 && h < TWO_32
    ensures (u / 2 + h * TWO_31) % TWO_32 == u / 2 + h % 2 * TWO_31
  {
    var x := u / 2 + h % 2 * TWO_31;
    assert u / 2 + h * TWO_31 == x + TWO_32 * (h / 2);
    AddWords(x, h / 2);
  }

  lemma DecodeArithmetic(u: nat, h: nat, a: int, b: int)
    requires u < TWO_32 && h < TWO_32
    requires var w := u / 2 + h % 2 * TWO_31; a == if u % 2 == 0 then w else TWO_32 - 1 - w
    requires b == if u % 2 == 0 then h / 2 else TWO_32 - 1 - h / 2
    ensures var v := a + TWO_32 * b;
            0 <= a < TWO_32 && 0 <= b < TWO_32
            && (if v >= 0x8000_0000_0000_0000 then v - TWO_64 else v) == UnZigZag(u + TWO_32 * h)
  {
    DivisionIdentity(u, 2);
    DivisionIdentity(h, 2);
    DivModUnique(u + TWO_32 * h, u / 2 + TWO_31 * h, u % 2, 2);
  }

  /** The pair of `zzDecode(zzEncode(lo, hi))` denotes the value it started from. */
  lemma ZzRoundTrip(lo: int, hi: int)
    ensures var (l, h) := ZzEncode(lo, hi); var (l', h') := ZzDecode(l, h); I64(l', h') == I64(lo, hi)
  {
    hide ZzEncode, ZzDecode, U64, I64;
    var (l, h) := ZzEncode(lo, hi);
    ZzEncodeCorrect(lo, hi);
    ZzDecodeCorrect(l, h);
    ZigZagInverse(I64(lo, hi), U64(l, h));
  }
}
