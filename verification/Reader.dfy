/** `BinaryReader`: a cursor over bytes. */
module Reader {
  import opened Wrappers
  import opened NumberTheory
  import opened JsBits
  import opened Varint
  import opened Decimal
  import opened Utf8

  predicate IsInt32(x: int) { -TWO_31 <= x < TWO_31 }

  // ----- what reading a varint does: the outcome and the new position -----

  /** Ten bytes at most; running past the end is noticed only after the last byte. */
  function ReadVarint(buf: seq<byte>, pos: nat): (r: (Result<nat>, nat))
    ensures r.1 > pos && (r.0.Ok? ==> r.1 <= |buf|)
  {
    match Scan(buf, pos, 10)
    case NoEnd => (Err(InvalidVarint), pos + 10)
    case Value(v, n) => (if pos + n > |buf| then Err(PrematureEof) else Ok(v), pos + n)
  }

  /** A varint written at `pos` is read back, whatever follows it. */
  lemma ReadBack(v: nat, buf: seq<byte>, pos: nat)
    requires v < TWO_64 && pos + |Base128(v)| <= |buf| && buf[pos..pos + |Base128(v)|] == Base128(v)
    ensures ReadVarint(buf, pos) == (Ok(v), pos + |Base128(v)|)
  {
    hide Base128, Scan;
    VarintWidth(v);
    ScanVarint(v, buf, pos, 10);
  }

  /** One of the first four bytes joins the low word. */
  lemma LowByte(low: int, b: byte, i: nat)
    requires i < 4 && ToUint32(low) < Pow2(7 * i)
    ensures ToUint32(BitOr(low, Shl(BitAnd(b, 0x7f), 7 * i))) == ToUint32(low) + b % 128 * Pow2(7 * i) < Pow2(7 * (i + 1))
  {
    hide BitOr, Shl, BitAnd, ToUint32, Pow2;
    SevenBitsOf(b);
    Concat32(low, b % 128, 7 * i);
    PowTable();
    Pow2Add(7, 7 * i);
    Pow2Monotone(7 * (i + 1), 28);
    GroupFits(ToUint32(low), b % 128, Pow2(7 * i));
  }

  lemma SevenBitsOf(b: byte)
    ensures BitAnd(b, 0x7f) == b % 128 && (BitAnd(b, 0x80) == 0 <==> b < 128)
  {
    hide BitAnd, Pow2;
    PowTable();
    SevenBits(b);
    ToUint32Same(b);
    BitSeven(b);
  }

  lemma BitSeven(b: byte)
    ensures BitAnd(b, 0x80) == 0 <==> b < 128
  {
    hide And, Pow2;
    PowTable();
    AndBit(b, 7);
    var w := Pow2(7);
    assert b / w == b / 128;
    ToUint32Same(b);
    assert BitAnd(b, 0x80) == ToInt32(And(b, 128));
    assert (b / 128) % 2 == 1 <==> b >= 128;
  }

  lemma GroupFits(a: int, c: int, w: int)
    requires 0 <= a < w && 0 <= c < 128
    ensures 0 <= c * w && a + c * w < 128 * w
  {
    assert c * w <= 127 * w;
  }

  /** The fifth byte is split: four bits for the low word, three for the high word. */
  lemma MiddleByte(low: int, b: byte)
    requires ToUint32(low) < 0x1000_0000
    ensures var lo, hi := BitOr(low, Shl(BitAnd(b, 0x0f), 28)), Sar(BitAnd(b, 0x70), 4);
            && U64(lo, hi) == ToUint32(low) + b % 128 * 0x1000_0000 && 0 <= hi < 8
            && ToUint32(lo) == ToUint32(low) + b % 16 * 0x1000_0000
  {
    hide BitOr, Shl, BitAnd, Sar, ToUint32, Pow2;
    PowTable();
    NibbleOf(b);
    Concat32(low, b % 16, 28);
    ToUint32Same(b / 16 % 8);
    MiddleArithmetic(ToUint32(low), b);
  }

  lemma MiddleArithmetic(u: nat, b: byte)
    requires u < 0x1000_0000
    ensures (u + b % 16 * 0x1000_0000) % TWO_32 == u + b % 16 * 0x1000_0000
    ensures u + b % 16 * 0x1000_0000 + TWO_32 * (b / 16 % 8) == u + b % 128 * 0x1000_0000
  {
    assert u + b % 16 * 0x1000_0000 < TWO_32;
    assert b % 128 == b % 16 + 16 * (b / 16 % 8);
  }

  lemma NibbleOf(b: byte)
    ensures BitAnd(b, 0x0f) == b % 16 && Sar(BitAnd(b, 0x70), 4) == b / 16 % 8
  {
    hide BitAnd, Sar, Pow2;
    PowTable();
    Masks(b);
    HighNibble(b);
    var q := b / 16 % 8;
    SarSmall(16 * q, 4, 16);
    DivModUnique(16 * q, q, 0, 16);
  }

  lemma HighNibble(b: byte)
    ensures BitAnd(b, 0x70) == 16 * (b / 16 % 8)
  {
    hide And, Pow2;
    PowTable();
    AndShift(b, 7, 4);
    assert Up(7, 4) == 0x70 && Down(b, 4) == b / 16;
    AndMask(b / 16, 3);
    var v := Pow2(3);
    assert (b / 16) % v == b / 16 % 8;
    assert Up(b / 16 % 8, 4) == 16 * (b / 16 % 8);
    ToUint32Same(b);
  }

  /** The last five bytes join the high word; the tenth contributes a single bit. */
  lemma HighByte(lo: int, high: int, b: byte, shift: nat, acc: nat)
    requires shift in {3, 10, 17, 24, 31} && ToUint32(high) < Pow2(shift) && acc == U64(lo, high)
    ensures var high' := BitOr(high, Shl(BitAnd(b, 0x7f), shift));
            var acc' := acc + b % 128 * Pow2(32 + shift);
            && U64(lo, high') == acc' % TWO_64
            && (shift < 31 ==> U64(lo, high') == acc' && ToUint32(high') < Pow2(shift + 7))
  {
    hide BitOr, Shl, BitAnd, ToUint32, Pow2, U64;
    SevenBitsOf(b);
    HighGroup(lo, high, b % 128, shift);
  }

  lemma HighGroup(lo: int, high: int, c: nat, shift: nat)
    requires c < 128 && shift in {3, 10, 17, 24, 31} && ToUint32(high) < Pow2(shift)
    ensures var high' := BitOr(high, Shl(c, shift));
            var acc' := U64(lo, high) + c * Pow2(32 + shift);
            && U64(lo, high') == acc' % TWO_64
            && (shift < 31 ==> U64(lo, high') == acc' && ToUint32(high') < Pow2(shift + 7))
  {
    hide BitOr, Shl, ToUint32, Pow2;
    Concat32(high, c, shift);
    HighPowers(shift);
    HighJoin(ToUint32(lo), ToUint32(high), c, Pow2(shift), Pow2(32 + shift), ToUint32(BitOr(high, Shl(c, shift))));
  }

  lemma HighPowers(shift: nat)
    requires shift in {3, 10, 17, 24, 31}
    ensures Pow2(32 + shift) == TWO_32 * Pow2(shift) && Pow2(shift + 7) == 128 * Pow2(shift)
    ensures shift < 31 ==> 128 * Pow2(shift) <= TWO_31
  {
    hide Pow2;
    PowTable();
    Pow2Add(32, shift);
    Pow2Add(shift, 7);
    if shift < 31 { Pow2Monotone(shift + 7, 31); }
  }

  lemma HighJoin(u: nat, h: nat, c: nat, w: nat, W: nat, h': nat)
    requires u < TWO_32 && h < w && c < 128 && W == TWO_32 * w && h' == (h + c * w) % TWO_32
    ensures u + TWO_32 * h' == (u + TWO_32 * h + c * W) % TWO_64
    ensures 128 * w <= TWO_31 ==> h' < 128 * w && u + TWO_32 * h' == u + TWO_32 * h + c * W
  {
    GroupFits(h, c, w);
    HighArithmetic(u, h, c * w);
    ScaleFactor(c, w);
  }

  lemma ScaleFactor(c: int, w: int)
    ensures c * (TWO_32 * w) == TWO_32 * (c * w)
  {
  }

  lemma HighArithmetic(u: nat, h: nat, x: nat)
    requires u < TWO_32
    ensures u + TWO_32 * ((h + x) % TWO_32) == (u + TWO_32 * h + TWO_32 * x) % TWO_64
    ensures h + x < TWO_32 ==> (h + x) % TWO_32 == h + x
  {
    var q, r := (h + x) / TWO_32, (h + x) % TWO_32;
    assert u + TWO_32 * h + TWO_32 * x == q * TWO_64 + (u + TWO_32 * r);
    DivModUnique(u + TWO_32 * h + TWO_32 * x, q, u + TWO_32 * r, TWO_64);
  }

  /** After `i <= 4` continuation bytes: the low word holds their value. */
  ghost predicate LowProgress(buf: seq<byte>, pos0: nat, low: int, i: nat) {
    i <= 4 && ToUint32(low) < Pow2(7 * i)
    && Scan(buf, pos0, 10) == Resume(Scan(buf, pos0 + i, 10 - i), ToUint32(low), i)
  }

  /** After `i >= 5` continuation bytes: the pair holds their value. */
  ghost predicate HighProgress(buf: seq<byte>, pos0: nat, lo: int, hi: int, i: nat) {
    5 <= i <= 10
    && (i < 10 ==> ToUint32(hi) < Pow2(7 * i - 32) && Scan(buf, pos0, 10) == Resume(Scan(buf, pos0 + i, 10 - i), U64(lo, hi), i))
    && (i == 10 ==> Scan(buf, pos0, 10) == NoEnd)
  }

  lemma StartProgress(buf: seq<byte>, pos: nat)
    ensures LowProgress(buf, pos, 0, 0)
  {
    assert Pow2(7 * 0) == 1;
  }

  lemma LowStep(buf: seq<byte>, pos0: nat, low: int, i: nat, b: byte)
    requires LowProgress(buf, pos0, low, i) && i < 4 && b == At(buf, pos0 + i)
    ensures var low' := BitOr(low, Shl(BitAnd(b, 0x7f), 7 * i));
            if BitAnd(b, 0x80) == 0
            then Scan(buf, pos0, 10) == Value(U64(low', 0), i + 1) && U64(low', 0) % TWO_64 == U64(low', 0)
            else LowProgress(buf, pos0, low', i + 1)
  {
    hide BitOr, BitAnd, Shl, Pow2, At, ToUint32, Scan;
    ScanStep(buf, pos0, i, 10, ToUint32(low));
    LowByte(low, b, i);
    SevenBitsOf(b);
    LowPair(BitOr(low, Shl(BitAnd(b, 0x7f), 7 * i)));
  }

  lemma LowPair(low: int)
    ensures U64(low, 0) == ToUint32(low) && ToUint32(low) % TWO_64 == ToUint32(low)
  {
  }

  lemma MiddleStep(buf: seq<byte>, pos0: nat, low: int, b: byte)
    requires LowProgress(buf, pos0, low, 4) && b == At(buf, pos0 + 4)
    ensures var lo, hi := BitOr(low, Shl(BitAnd(b, 0x0f), 28)), Sar(BitAnd(b, 0x70), 4);
            if BitAnd(b, 0x80) == 0
            then Scan(buf, pos0, 10) == Value(U64(lo, hi), 5) && U64(lo, hi) % TWO_64 == U64(lo, hi)
            else HighProgress(buf, pos0, lo, hi, 5)
  {
    hide BitOr, BitAnd, Shl, Sar, Pow2, At, ToUint32, Scan, U64;
    PowTable();
    ScanStep(buf, pos0, 4, 10, ToUint32(low));
    MiddleByte(low, b);
    SevenBitsOf(b);
    ToUint32Same(Sar(BitAnd(b, 0x70), 4));
  }

  lemma HighStep(buf: seq<byte>, pos0: nat, lo: int, hi: int, i: nat, b: byte)
    requires HighProgress(buf, pos0, lo, hi, i) && i < 10 && b == At(buf, pos0 + i)
    ensures var hi' := BitOr(hi, Shl(BitAnd(b, 0x7f), 7 * i - 32));
            if BitAnd(b, 0x80) == 0
            then Scan(buf, pos0, 10).Value? && Scan(buf, pos0, 10).n == i + 1 && U64(lo, hi') == Scan(buf, pos0, 10).v % TWO_64
            else HighProgress(buf, pos0, lo, hi', i + 1)
  {
    hide BitOr, BitAnd, Shl, Pow2, At, ToUint32, U64, Scan;
    var acc, shift := U64(lo, hi), 7 * i - 32;
    assert i in {5, 6, 7, 8, 9} && shift in {3, 10, 17, 24, 31} && 32 + shift == 7 * i;
    ScanStep(buf, pos0, i, 10, acc);
    HighByte(lo, hi, b, shift, acc);
    SevenBitsOf(b);
    ScanZero(buf, pos0 + 10);
  }

  lemma ScanZero(buf: seq<byte>, pos: nat)
    ensures Scan(buf, pos, 0) == NoEnd
  {
  }

  // ----- the 32-bit reader scans the same bytes -----

  lemma FirstByte(buf: seq<byte>, pos0: nat, b: byte)
    requires b == At(buf, pos0)
    ensures BitAnd(b, 0x7f) == BitOr(0, Shl(BitAnd(b, 0x7f), 7 * 0))
  {
    hide BitAnd;
    SevenBitsOf(b);
    assert Pow2(0) == 1;
    ToUint32Same(b % 128);
  }

  /** A non-negative word below 2^31 is returned as it stands. */
  lemma SmallWord(x: int, y: int)
    requires ToUint32(BitOr(x, y)) < 0x1000_0000
    ensures BitOr(x, y) == ToUint32(BitOr(x, y))
  {
    OrIsInt32(x, y);
  }

  lemma LowStep32(buf: seq<byte>, pos0: nat, low: int, i: nat, b: byte)
    requires LowProgress(buf, pos0, low, i) && i < 4 && b == At(buf, pos0 + i)
    ensures var low' := BitOr(low, Shl(BitAnd(b, 0x7f), 7 * i));
            if BitAnd(b, 0x80) == 0
            then 0 <= low' < TWO_32 && Scan(buf, pos0, 10) == Value(low', i + 1)
            else LowProgress(buf, pos0, low', i + 1)
  {
    hide BitOr, BitAnd, Shl, At, Scan, ToUint32, Pow2;
    PowTable();
    LowStep(buf, pos0, low, i, b);
    LowByte(low, b, i);
    Pow2Monotone(7 * (i + 1), 28);
    var low' := BitOr(low, Shl(BitAnd(b, 0x7f), 7 * i));
    SmallWord(low, Shl(BitAnd(b, 0x7f), 7 * i));
    LowPair(low');
  }

  /** Bytes five to ten only matter for where the varint ends: `acc` is its value so far, `w` its low word. */
  ghost predicate TailProgress(buf: seq<byte>, pos0: nat, w: int, acc: nat, i: nat, b: byte) {
    5 <= i <= 10 && acc % TWO_32 == w
    && Scan(buf, pos0, 10) == if b < 128 then Value(acc, i) else Resume(Scan(buf, pos0 + i, 10 - i), acc, i)
  }

  lemma TailStart(buf: seq<byte>, pos0: nat, low: int, b: byte)
    requires LowProgress(buf, pos0, low, 4) && b == At(buf, pos0 + 4)
    ensures TailProgress(buf, pos0, Shr(BitOr(low, Shl(BitAnd(b, 0x0f), 28)), 0), ToUint32(low) + b % 128 * 0x1000_0000, 5, b)
  {
    hide BitOr, BitAnd, Shl, Shr, Pow2, At, ToUint32, Scan, U64;
    PowTable();
    ScanStep(buf, pos0, 4, 10, ToUint32(low));
    MiddleByte(low, b);
    HalfRange(BitOr(low, Shl(BitAnd(b, 0x0f), 28)));
    TailArithmetic(ToUint32(low), b);
  }

  lemma TailArithmetic(u: nat, b: byte)
    requires u < 0x1000_0000
    ensures (u + b % 128 * 0x1000_0000) % TWO_32 == u + b % 16 * 0x1000_0000
    ensures b < 128 ==> b % 128 == b
  {
    assert b % 128 == b % 16 + 16 * (b / 16 % 8);
    assert u + b % 128 * 0x1000_0000 == (u + b % 16 * 0x1000_0000) + (b / 16 % 8) * TWO_32;
  }

  lemma TailStep(buf: seq<byte>, pos0: nat, w: int, acc: nat, i: nat, b: byte, b': byte) returns (acc': nat)
    requires TailProgress(buf, pos0, w, acc, i, b) && i < 10 && b >= 128 && b' == At(buf, pos0 + i)
    ensures TailProgress(buf, pos0, w, acc', i + 1, b')
  {
    hide Pow2, At, Scan;
    ScanStep(buf, pos0, i, 10, acc);
    Pow2Add(32, 7 * i - 32);
    PowTable();
    var k := b' % 128 * Pow2(7 * i - 32);
    assert b' % 128 * Pow2(7 * i) == TWO_32 * k;
    acc' := acc + b' % 128 * Pow2(7 * i);
    AddWords(acc, k);
  }

  lemma TailNoEnd(buf: seq<byte>, pos0: nat, w: int, acc: nat, b: byte)
    requires TailProgress(buf, pos0, w, acc, 10, b) && b >= 128
    ensures Scan(buf, pos0, 10) == NoEnd
  {
    ScanZero(buf, pos0 + 10);
  }

  // ----- what the other readers do -----

  function ReadBytes(buf: seq<byte>, pos: nat): (r: (Result<seq<byte>>, nat))
    ensures r.1 > pos && (r.0.Ok? ==> r.1 <= |buf|)
  {
    match ReadVarint(buf, pos)
    case (Err(e), p) => (Err(e), p)
    case (Ok(v), p) =>
      var end := p + v % TWO_32;
      (if end > |buf| then Err(PrematureEof) else Ok(buf[p..end]), end)
  }

  /** The four bytes at `pos`, least significant first; missing bytes count as 0. */
  function FixedAt(buf: seq<byte>, pos: nat): (v: nat)
    ensures v < TWO_32
  {
    At(buf, pos) as int + 256 * (At(buf, pos + 1) as int) + 0x1_0000 * (At(buf, pos + 2) as int)
    + 0x100_0000 * (At(buf, pos + 3) as int)
  }

  lemma FixedOps(b0: int, b1: int, b2: int, b3: int)
    requires 0 <= b0 < 256 && 0 <= b1 < 256 && 0 <= b2 < 256 && 0 <= b3 < 256
    ensures var u := b0 + 256 * b1 + 0x1_0000 * b2 + 0x100_0000 * b3;
            && BitOr(BitOr(b0, Shl(b1, 8)), Shl(b2, 16)) + b3 * 0x1000000 == u
            && BitOr(BitOr(b0, Shl(b1, 8)), Shl(b2, 16)) + Shl(b3, 24) == ToInt32(u)
  {
    hide BitOr, Shl, Pow2;
    PowTable();
    ShlSmall(b1, 8, 256);
    ShlSmall(b2, 16, 0x1_0000);
    JoinBits(b0, b1, 8, 256);
    JoinBits(b0 + 256 * b1, b2, 16, 0x1_0000);
    TopShift(b3);
  }

  lemma TopShift(b: byte)
    ensures Shl(b, 24) == if b >= 128 then b * 0x100_0000 - TWO_32 else b * 0x100_0000
  {
    hide Pow2;
    PowTable();
    ToUint32Same(b);
  }

  // ----- skipping -----

  /**
   * `skip()` without a length: up to and including the first byte without a continuation bit, however many there are.
   */
  function SkipBytes(buf: seq<byte>, pos: nat): (r: (Result<()>, nat))
    ensures r.1 >= pos && (r.0.Ok? ==> pos < r.1 <= |buf|)
    decreases |buf| - pos
  {
    if pos >= |buf| then (Err(IndexOutOfRange), pos)
    else if buf[pos] < 128 then (Ok(()), pos + 1)
    else SkipBytes(buf, pos + 1)
  }

  function SkipLength(buf: seq<byte>, pos: nat, length: nat): (Result<()>, nat) {
    if pos + length > |buf| then (Err(IndexOutOfRange), pos) else (Ok(()), pos + length)
  }

  /** What is left to read; it shrinks with every tag inside a group. */
  function Remaining(buf: seq<byte>, pos: nat): nat { if pos <= |buf| then |buf| - pos else 0 }

  /** `skipType`: the outcome and the new position, on every buffer. */
  function SkipType(buf: seq<byte>, pos: nat, wireType: int): (r: (Result<()>, nat))
    ensures r.1 >= pos && (r.0.Ok? ==> r.1 <= |buf|)
    decreases Remaining(buf, pos), 1
  {
    if wireType == 0 then SkipBytes(buf, pos)
    else if wireType == 1 then SkipLength(buf, pos, 8)
    else if wireType == 2 then
      match ReadVarint(buf, pos)
      case (Err(e), p) => (Err(e), p)
      case (Ok(v), p) => SkipLength(buf, p, v % TWO_32)
    else if wireType == 3 then SkipGroup(buf, pos)
    else if wireType == 5 then SkipLength(buf, pos, 4)
    else (Err(InvalidWireType), pos)
  }

  /** The loop of the group case: fields until an end-group tag. */
  function SkipGroup(buf: seq<byte>, pos: nat): (r: (Result<()>, nat))
    ensures r.1 >= pos && (r.0.Ok? ==> r.1 <= |buf|)
    decreases Remaining(buf, pos), 0
  {
    match ReadVarint(buf, pos)
    case (Err(e), p) => (Err(e), p)
    case (Ok(v), p) =>
      if v % 8 == 4 then (Ok(()), p)
      else
        var r := SkipType(buf, p, v % 8);
        if r.0.Err? then r else SkipGroup(buf, r.1)
  }

  lemma {:induction false} SkipMeetsScan(buf: seq<byte>, pos: nat, max: nat)
    ensures var s, skip := Scan(buf, pos, max), SkipBytes(buf, pos);
            && (s.Value? && pos + s.n <= |buf| <==> skip.0.Ok? && skip.1 <= pos + max)
            && (s.Value? && pos + s.n <= |buf| ==> skip.1 == pos + s.n)
    decreases max
  {
    if max > 0 && pos < |buf| && buf[pos] >= 128 {
      SkipMeetsScan(buf, pos + 1, max - 1);
    }
  }

  /**
   * `skip()` accepts every varint the readers accept and stops at the same position; what it accepts beyond
   * that are the varints of more than ten bytes, and only those.
   */
  lemma SkipMeetsVarint(buf: seq<byte>, pos: nat)
    ensures ReadVarint(buf, pos).0.Ok? <==> SkipBytes(buf, pos).0.Ok? && SkipBytes(buf, pos).1 <= pos + 10
    ensures ReadVarint(buf, pos).0.Ok? ==> ReadVarint(buf, pos).1 == SkipBytes(buf, pos).1
  {
    hide Scan, SkipBytes;
    SkipMeetsScan(buf, pos, 10);
  }

  /** Skipping and reading a length-delimited value accept the same buffers and stop at the same position. */
  lemma SkipMeetsBytes(buf: seq<byte>, pos: nat)
    ensures ReadBytes(buf, pos).0.Ok? <==> SkipType(buf, pos, 2).0.Ok?
    ensures ReadBytes(buf, pos).0.Ok? ==> ReadBytes(buf, pos).1 == SkipType(buf, pos, 2).1
  {
    hide ReadVarint;
  }

  class BinaryReader {
    const buf: seq<byte>
    const len: nat
    var pos: nat

    ghost predicate Valid()
      reads this
    {
      len == |buf|
    }

    constructor (bytes: seq<byte>)
      ensures Valid() && buf == bytes && pos == 0
    {
      buf := bytes;
      len := |bytes|;
      pos := 0;
    }

    /** `buf[pos++]`. */
    method NextByte() returns (b: byte)
      requires Valid()
      modifies this`pos
      ensures b == At(buf, old(pos)) && pos == old(pos) + 1
    {
      b := if pos < |buf| then buf[pos] else 0;
      pos := pos + 1;
    }

    /** `assertBounds`, with the value to return when it does not throw. */
    method Bounded<T>(value: T) returns (r: Result<T>)
      requires Valid()
      ensures r == if pos > |buf| then Err(PrematureEof) else Ok(value)
    {
      r := if pos > len then Err(PrematureEof) else Ok(value);
    }

    method Varint64Read() returns (r: Result<(int, int)>)
      requires Valid()
      modifies this`pos
      ensures pos == ReadVarint(buf, old(pos)).1
      ensures match ReadVarint(buf, old(pos)).0
              case Err(e) => r == Err(e)
              case Ok(v) => r.Ok? && U64(r.value.0, r.value.1) == v % TWO_64 && IsInt32(r.value.0) && IsInt32(r.value.1)
    {
      hide BitOr, BitAnd, Shl, Sar, At, U64, Scan, LowProgress, HighProgress;
      var lowBits, highBits, shift := 0, 0, 0;
      ghost var pos0 := pos;
      StartProgress(buf, pos);
      while shift < 28
        invariant Valid() && shift == 7 * (pos - pos0) && pos0 <= pos <= pos0 + 4
        invariant LowProgress(buf, pos0, lowBits, pos - pos0) && highBits == 0 && IsInt32(lowBits)
        decreases 28 - shift
      {
        var b := NextByte();
        LowStep(buf, pos0, lowBits, pos - 1 - pos0, b);
        OrIsInt32(lowBits, Shl(BitAnd(b, 0x7f), shift));
        lowBits := BitOr(lowBits, Shl(BitAnd(b, 0x7f), shift));
        if BitAnd(b, 0x80) == 0 {
          r := Bounded((lowBits, highBits));
          return;
        }
        shift := shift + 7;
      }
      var middleByte := NextByte();
      MiddleStep(buf, pos0, lowBits, middleByte);
      OrIsInt32(lowBits, Shl(BitAnd(middleByte, 0x0f), 28));
      NibbleOf(middleByte);
      lowBits := BitOr(lowBits, Shl(BitAnd(middleByte, 0x0f), 28));
      highBits := Sar(BitAnd(middleByte, 0x70), 4);
      if BitAnd(middleByte, 0x80) == 0 {
        r := Bounded((lowBits, highBits));
        return;
      }
      shift := 3;
      while shift <= 31
        invariant Valid() && shift == 7 * (pos - pos0) - 32 && pos0 + 5 <= pos <= pos0 + 10
        invariant HighProgress(buf, pos0, lowBits, highBits, pos - pos0) && IsInt32(lowBits) && IsInt32(highBits)
        decreases 38 - shift
      {
        var b := NextByte();
        HighStep(buf, pos0, lowBits, highBits, pos - 1 - pos0, b);
        OrIsInt32(highBits, Shl(BitAnd(b, 0x7f), shift));
        highBits := BitOr(highBits, Shl(BitAnd(b, 0x7f), shift));
        if BitAnd(b, 0x80) == 0 {
          r := Bounded((lowBits, highBits));
          return;
        }
        shift := shift + 7;
      }
      NoEndAfterTen(buf, pos0, lowBits, highBits);
      return Err(InvalidVarint);
    }

    method Varint32Read() returns (r: Result<int>)
      requires Valid()
      modifies this`pos
      ensures pos == ReadVarint(buf, old(pos)).1
      ensures r == match ReadVarint(buf, old(pos)).0 case Err(e) => Err(e) case Ok(v) => Ok(v % TWO_32)
    {
      hide BitOr, BitAnd, Shl, Shr, At, Scan, LowProgress, TailProgress;
      ghost var pos0 := pos;
      StartProgress(buf, pos);
      var b := NextByte();
      FirstByte(buf, pos0, b);
      LowStep32(buf, pos0, 0, 0, b);
      var result := BitAnd(b, 0x7f);
      if BitAnd(b, 0x80) == 0 {
        r := Bounded(result);
        return;
      }
      b := NextByte();
      LowStep32(buf, pos0, result, 1, b);
      result := BitOr(result, Shl(BitAnd(b, 0x7f), 7));
      if BitAnd(b, 0x80) == 0 {
        r := Bounded(result);
        return;
      }
      b := NextByte();
      LowStep32(buf, pos0, result, 2, b);
      result := BitOr(result, Shl(BitAnd(b, 0x7f), 14));
      if BitAnd(b, 0x80) == 0 {
        r := Bounded(result);
        return;
      }
      b := NextByte();
      LowStep32(buf, pos0, result, 3, b);
      result := BitOr(result, Shl(BitAnd(b, 0x7f), 21));
      if BitAnd(b, 0x80) == 0 {
        r := Bounded(result);
        return;
      }
      b := NextByte();
      TailStart(buf, pos0, result, b);
      ghost var acc: nat := ToUint32(result) + (b as int) % 128 * 0x1000_0000;
      result := BitOr(result, Shl(BitAnd(b, 0x0f), 28));
      SevenBitsOf(b);
      var readBytes := 5;
      while BitAnd(b, 0x80) != 0 && readBytes < 10
        invariant Valid() && 5 <= readBytes <= 10 && pos == pos0 + readBytes
        invariant TailProgress(buf, pos0, Shr(result, 0), acc, readBytes, b)
        invariant BitAnd(b, 0x80) == 0 <==> b < 128
        decreases 10 - readBytes
      {
        var b' := NextByte();
        acc := TailStep(buf, pos0, Shr(result, 0), acc, readBytes, b, b');
        b := b';
        SevenBitsOf(b);
        readBytes := readBytes + 1;
      }
      if BitAnd(b, 0x80) != 0 {
        TailNoEnd(buf, pos0, Shr(result, 0), acc, b);
        return Err(InvalidVarint);
      }
      TailEnd(buf, pos0, Shr(result, 0), acc, readBytes, b);
      r := Bounded(Shr(result, 0));
    }

    method Uint32() returns (r: Result<int>)
      requires Valid()
      modifies this`pos
      ensures pos == ReadVarint(buf, old(pos)).1
      ensures r == match ReadVarint(buf, old(pos)).0 case Err(e) => Err(e) case Ok(v) => Ok(v % TWO_32)
    {
      r := Varint32Read();
    }

    method Int32() returns (r: Result<int>)
      requires Valid()
      modifies this`pos
      ensures pos == ReadVarint(buf, old(pos)).1
      ensures r == match ReadVarint(buf, old(pos)).0 case Err(e) => Err(e) case Ok(v) => Ok(ToInt32(v))
    {
      hide ReadVarint;
      r := Uint32();
      if r.Ok? {
        OrZero(r.value);
        r := Ok(BitOr(r.value, 0));
      }
    }

    method Sint32() returns (r: Result<int>)
      requires Valid()
      modifies this`pos
      ensures pos == ReadVarint(buf, old(pos)).1
      ensures r == match ReadVarint(buf, old(pos)).0 case Err(e) => Err(e) case Ok(v) => Ok(UnZigZag(v % TWO_32))
    {
      hide ReadVarint;
      r := Uint32();
      if r.Ok? {
        var num := r.value;
        r := Ok(if num % 2 == 1 then -((num + 1) / 2) else num / 2);
      }
    }

    method Int64() returns (r: Result<int>)
      requires Valid()
      modifies this`pos
      ensures pos == ReadVarint(buf, old(pos)).1
      ensures r == match ReadVarint(buf, old(pos)).0 case Err(e) => Err(e) case Ok(v) => Ok(Signed64(v % TWO_64))
    {
      hide ReadVarint, U64, Int64ToString, SignedNumeral, BigIntOf, IsInteger;
      var pair := Varint64Read();
      if pair.Err? {
        return Err(pair.error);
      }
      var (lo, hi) := pair.value;
      Int64ToStringCorrect(lo, hi);
      ParseSignedNumeral(I64(lo, hi));
      return Ok(BigIntOf(Int64ToString(lo, hi)));
    }

    method Uint64() returns (r: Result<int>)
      requires Valid()
      modifies this`pos
      ensures pos == ReadVarint(buf, old(pos)).1
      ensures r == match ReadVarint(buf, old(pos)).0 case Err(e) => Err(e) case Ok(v) => Ok(v % TWO_64)
    {
      hide ReadVarint, U64, UInt64ToString, SignedNumeral, BigIntOf, IsInteger;
      var pair := Varint64Read();
      if pair.Err? {
        return Err(pair.error);
      }
      var (lo, hi) := pair.value;
      UnsignedParse(lo, hi);
      return Ok(BigIntOf(UInt64ToString(lo, hi)));
    }

    method Sint64() returns (r: Result<int>)
      requires Valid()
      modifies this`pos
      ensures pos == ReadVarint(buf, old(pos)).1
      ensures r == match ReadVarint(buf, old(pos)).0 case Err(e) => Err(e) case Ok(v) => Ok(UnZigZag(v % TWO_64))
    {
      hide ReadVarint, U64, I64, Int64ToString, SignedNumeral, BigIntOf, IsInteger, ZzDecode;
      var pair := Varint64Read();
      if pair.Err? {
        return Err(pair.error);
      }
      var (lo, hi) := pair.value;
      ZzDecodeCorrect(lo, hi);
      var (zlo, zhi) := ZzDecode(lo, hi);
      Int64ToStringCorrect(zlo, zhi);
      ParseSignedNumeral(I64(zlo, zhi));
      return Ok(BigIntOf(Int64ToString(zlo, zhi)));
    }

    method Bool() returns (r: Result<bool>)
      requires Valid()
      modifies this`pos
      ensures pos == ReadVarint(buf, old(pos)).1
      ensures r == match ReadVarint(buf, old(pos)).0 case Err(e) => Err(e) case Ok(v) => Ok(v % TWO_64 != 0)
    {
      hide ReadVarint;
      var pair := Varint64Read();
      if pair.Err? {
        return Err(pair.error);
      }
      return Ok(pair.value.0 != 0 || pair.value.1 != 0);
    }

    /** No fixed-width reader checks the bounds; None is the NaN that a missing fourth byte gives. */
    method Fixed32() returns (val: Option<int>)
      requires Valid()
      modifies this`pos
      ensures pos == old(pos) + 4
      ensures val == if old(pos) + 4 <= |buf| then Some(FixedAt(buf, old(pos))) else None
    {
      hide BitOr, Shl, ToInt32, At;
      var b0, b1, b2, b3 := At(buf, pos), At(buf, pos + 1), At(buf, pos + 2), At(buf, pos + 3);
      FixedOps(b0, b1, b2, b3);
      val := if pos + 3 < |buf| then Some(BitOr(BitOr(b0, Shl(b1, 8)), Shl(b2, 16)) + (b3 as int) * 0x1000000) else None;
      pos := pos + 4;
    }

    method Sfixed32() returns (val: int)
      requires Valid()
      modifies this`pos
      ensures pos == old(pos) + 4 && val == ToInt32(FixedAt(buf, old(pos)))
    {
      hide BitOr, Shl, ToInt32, At;
      var b0, b1, b2, b3 := At(buf, pos), At(buf, pos + 1), At(buf, pos + 2), At(buf, pos + 3);
      FixedOps(b0, b1, b2, b3);
      val := BitOr(BitOr(b0, Shl(b1, 8)), Shl(b2, 16)) + Shl(b3, 24);
      pos := pos + 4;
    }

    method Fixed64() returns (val: int)
      requires Valid()
      modifies this`pos
      ensures pos == old(pos) + 8 && val == FixedAt(buf, old(pos)) + TWO_32 * FixedAt(buf, old(pos) + 4)
    {
      hide UInt64ToString, SignedNumeral, BigIntOf, IsInteger, ToInt32, FixedAt;
      var lo := Sfixed32();
      var hi := Sfixed32();
      ToUint32Same(FixedAt(buf, old(pos)));
      ToUint32Same(FixedAt(buf, old(pos) + 4));
      UnsignedParse(lo, hi);
      val := BigIntOf(UInt64ToString(lo, hi));
    }

    method Sfixed64() returns (val: int)
      requires Valid()
      modifies this`pos
      ensures pos == old(pos) + 8 && val == Signed64(FixedAt(buf, old(pos)) + TWO_32 * FixedAt(buf, old(pos) + 4))
    {
      hide Int64ToString, SignedNumeral, BigIntOf, IsInteger, ToInt32, FixedAt;
      var lo := Sfixed32();
      var hi := Sfixed32();
      ToUint32Same(FixedAt(buf, old(pos)));
      ToUint32Same(FixedAt(buf, old(pos) + 4));
      Int64ToStringCorrect(lo, hi);
      ParseSignedNumeral(I64(lo, hi));
      val := BigIntOf(Int64ToString(lo, hi));
    }

    method Bytes() returns (r: Result<seq<byte>>)
      requires Valid()
      modifies this`pos
      ensures (r, pos) == ReadBytes(buf, old(pos))
    {
      hide ReadVarint;
      var n := Uint32();
      if n.Err? {
        return Err(n.error);
      }
      var start := pos;
      pos := pos + n.value;
      if pos > len {
        return Err(PrematureEof);
      }
      return Ok(buf[start..start + n.value]);
    }

    method String() returns (r: Result<seq<unit16>>)
      requires Valid()
      modifies this`pos
      ensures pos == ReadBytes(buf, old(pos)).1
      ensures r == match ReadBytes(buf, old(pos)).0
                   case Err(e) => Err(e)
                   case Ok(b) => Ok(FromCharCode(Emitted(Pieces(b, 0, |b|), [], 0)))
    {
      var bytes := Bytes();
      if bytes.Err? {
        return Err(bytes.error);
      }
      var str := Utf8Read(bytes.value, 0, |bytes.value|);
      return Ok(str);
    }

    /** `[fieldNo, wireType, tag]`. */
    method Tag() returns (r: Result<(int, int, int)>)
      requires Valid()
      modifies this`pos
      ensures pos == ReadVarint(buf, old(pos)).1
      ensures match ReadVarint(buf, old(pos)).0
              case Err(e) => r == Err(e)
              case Ok(v) =>
                var tag := v % TWO_32;
                r == if tag < 8 || tag % 8 > 5 then Err(IllegalTag) else Ok((tag / 8, tag % 8, tag))
    {
      hide ReadVarint;
      var tag := Uint32();
      if tag.Err? {
        return Err(tag.error);
      }
      TagParts(tag.value);
      var fieldNo, wireType := Shr(tag.value, 3), BitAnd(tag.value, 7);
      if fieldNo <= 0 || wireType < 0 || wireType > 5 {
        return Err(IllegalTag);
      }
      return Ok((fieldNo, wireType, tag.value));
    }

    method SkipVarint() returns (r: Result<()>)
      requires Valid()
      modifies this`pos
      ensures (r, pos) == SkipBytes(buf, old(pos))
    {
      while true
        invariant Valid() && SkipBytes(buf, pos) == SkipBytes(buf, old(pos))
        decreases |buf| - pos
      {
        if pos >= len {
          return Err(IndexOutOfRange);
        }
        var b := NextByte();
        SevenBitsOf(b);
        if BitAnd(b, 128) == 0 {
          return Ok(());
        }
      }
    }

    method Skip(length: nat) returns (r: Result<()>)
      requires Valid()
      modifies this`pos
      ensures (r, pos) == SkipLength(buf, old(pos), length)
    {
      if pos + length > len {
        return Err(IndexOutOfRange);
      }
      pos := pos + length;
      return Ok(());
    }

    /** `skipType`. */
    method SkipField(wireType: int) returns (r: Result<()>)
      requires Valid()
      modifies this`pos
      ensures (r, pos) == SkipType(buf, old(pos), wireType)
      decreases Remaining(buf, pos), 1
    {
      hide ReadVarint, SkipBytes, SkipLength, SkipGroup;
      if wireType == 0 {
        r := SkipVarint();
      } else if wireType == 1 {
        r := Skip(8);
      } else if wireType == 2 {
        var n := Uint32();
        if n.Err? {
          return Err(n.error);
        }
        r := Skip(n.value);
      } else if wireType == 3 {
        r := SkipFieldsOfGroup();
      } else if wireType == 5 {
        r := Skip(4);
      } else {
        return Err(InvalidWireType);
      }
    }

    /** The loop of the group case of `skipType`. */
    method SkipFieldsOfGroup() returns (r: Result<()>)
      requires Valid()
      modifies this`pos
      ensures (r, pos) == SkipGroup(buf, old(pos))
      decreases Remaining(buf, pos), 0
    {
      hide ReadVarint, SkipType, BitAnd, Shr;
      while true
        invariant Valid() && pos >= old(pos)
        invariant SkipGroup(buf, pos) == SkipGroup(buf, old(pos))
        decreases Remaining(buf, pos)
      {
        ghost var before := pos;
        var tag := Uint32();
        if tag.Err? {
          return Err(tag.error);
        }
        TagParts(tag.value);
        WireTypeOf(ReadVarint(buf, before).0.value);
        var wireType := BitAnd(tag.value, 7);
        if wireType == 4 {
          return Ok(());
        }
        r := SkipField(wireType);
        if r.Err? {
          return;
        }
      }
    }
  }

  lemma OrZero(x: int)
    ensures BitOr(x, 0) == ToInt32(x)
  {
    OrWithZero(ToUint32(x));
  }

  lemma OrWithZero(a: nat)
    ensures Or(a, 0) == a
  {
  }

  lemma TagParts(tag: int)
    requires 0 <= tag < TWO_32
    ensures Shr(tag, 3) == tag / 8 && BitAnd(tag, 7) == tag % 8
  {
    hide BitAnd, Shr, Pow2;
    PowTable();
    ShrBy(tag, 3, 8);
    Masks(tag);
    ToUint32Same(tag);
  }

  lemma WireTypeOf(v: nat)
    ensures v % TWO_32 % 8 == v % 8
  {
  }

  lemma UnsignedParse(lo: int, hi: int)
    ensures IsInteger(UInt64ToString(lo, hi)) && BigIntOf(UInt64ToString(lo, hi)) == U64(lo, hi)
  {
    hide UInt64ToString, IsInteger, BigIntOf;
    UInt64ToStringCorrect(lo, hi);
    UnsignedText(U64(lo, hi));
    ParseSignedNumeral(U64(lo, hi));
  }

  lemma TailEnd(buf: seq<byte>, pos0: nat, w: int, acc: nat, i: nat, b: byte)
    requires TailProgress(buf, pos0, w, acc, i, b) && b < 128
    ensures Scan(buf, pos0, 10) == Value(acc, i) && acc % TWO_32 == w
  {
  }

  lemma NoEndAfterTen(buf: seq<byte>, pos0: nat, lo: int, hi: int)
    requires HighProgress(buf, pos0, lo, hi, 10)
    ensures Scan(buf, pos0, 10) == NoEnd
  {
  }
}
