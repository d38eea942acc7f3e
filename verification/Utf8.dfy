/** UTF-8 on JavaScript strings, which are sequences of UTF-16 code units and may hold lone surrogates. */
module Utf8 {
  import opened NumberTheory
  import opened JsBits
  import opened Varint

  type unit16 = u: int | 0 <= u < 0x1_0000

  const CHUNK_LIMIT := 8191

  // ----- bit operations of the code and their arithmetic -----

  function Up(m: nat, k: nat): nat
    decreases k
  {
    if k == 0 then m else 2 * Up(m, k - 1)
  }

  function Down(a: nat, k: nat): nat
    decreases k
  {
    if k == 0 then a else Down(a / 2, k - 1)
  }

  lemma {:induction false} AndShift(a: nat, m: nat, k: nat)
    ensures And(a, Up(m, k)) == Up(And(Down(a, k), m), k)
    decreases k
  {
    if k > 0 {
      AndEven(a, Up(m, k - 1));
      AndShift(a / 2, m, k - 1);
    }
  }

  lemma AndEven(a: nat, w: nat)
    ensures And(a, 2 * w) == 2 * And(a / 2, w)
  {
    assert (2 * w) / 2 == w && (2 * w) % 2 == 0;
  }

  lemma {:induction false} OrCommutes(a: nat, b: nat)
    ensures Or(a, b) == Or(b, a)
    decreases a + b
  {
    if a != 0 && b != 0 { OrCommutes(a / 2, b / 2); }
  }

  /** `c & 0xfc00`: the top six bits of a code unit. */
  lemma SurrogateMask(c: unit16)
    ensures BitAnd(c, 0xfc00) == c - c % 1024
  {
    hide And, Pow2;
    TopSix(c);
    ToUint32Same(c);
    assert BitAnd(c, 0xfc00) == ToInt32(And(c, 0xfc00));
  }

  lemma TopSix(c: unit16)
    ensures And(c, 0xfc00) == (c / 1024) * 1024
  {
    hide And, Pow2;
    AndShift(c, 63, 10);
    TenShifts(c);
    TenAndSix();
    AndMask(c / 1024, 6);
    var v := Pow2(6);
    assert (c / 1024) % v == c / 1024;
    TenUps(c / 1024);
  }

  lemma TenShifts(c: nat)
    ensures Down(c, 10) == c / 1024 && Up(63, 10) == 0xfc00
  {
  }

  lemma TenUps(x: nat)
    ensures Up(x, 10) == x * 1024
  {
  }

  lemma TenAndSix()
    ensures Pow2(10) == 1024 && Pow2(6) == 64 && Pow2(5) == 32 && Pow2(12) == 4096 && Pow2(18) == 0x4_0000
  {
    Pow2Add(6, 6);
    Pow2Add(12, 6);
    assert Pow2(6) == 64;
  }

  predicate IsHigh(c: unit16) { 0xd800 <= c < 0xdc00 }

  predicate IsLow(c: unit16) { 0xdc00 <= c < 0xe000 }

  /** The two mask tests of the code are surrogate tests. */
  lemma SurrogateTests(c: unit16)
    ensures BitAnd(c, 0xfc00) == 0xd800 <==> IsHigh(c)
    ensures BitAnd(c, 0xfc00) == 0xdc00 <==> IsLow(c)
    ensures BitAnd(0, 0xfc00) == 0
  {
    hide BitAnd;
    SurrogateMask(c);
    SurrogateMask(0);
  }

  /** `x & (2^k - 1)` for a small non-negative `x`. */
  lemma MaskLow(x: nat, k: nat, w: int)
    requires x < TWO_32 && k <= 31 && w == Pow2(k)
    ensures BitAnd(x, w - 1) == x % w
  {
    BitAndMask(x, k);
    ToUint32Same(x);
  }

  lemma Masks(x: nat)
    requires x < TWO_32
    ensures BitAnd(x, 63) == x % 64 && BitAnd(x, 31) == x % 32 && BitAnd(x, 15) == x % 16 && BitAnd(x, 7) == x % 8
    ensures BitAnd(x, 0x03ff) == x % 1024
  {
    hide BitAnd, Pow2;
    TenAndSix();
    PowTable();
    MaskLow(x, 6, 64);
    MaskLow(x, 5, 32);
    MaskLow(x, 4, 16);
    MaskLow(x, 3, 8);
    MaskLow(x, 10, 1024);
  }

  /** `a | (c * 2^k)` and `(c * 2^k) | a` with `a` below bit `k`. */
  lemma JoinBits(a: nat, c: nat, k: nat, w: int)
    requires w == Pow2(k) && a < w && a + c * w < TWO_31
    ensures 0 <= c * w && BitOr(a, c * w) == a + c * w && BitOr(c * w, a) == a + c * w
  {
    hide Or, Pow2;
    assert 0 <= c * w;
    OrDisjoint(a, c, k);
    OrCommutes(a, c * w);
    ToUint32Same(a);
    ToUint32Same(c * w);
    ToUint32Same(a + c * w);
  }

  lemma SarSmall(x: nat, k: nat, w: int)
    requires w == Pow2(k) && x < TWO_31
    ensures Sar(x, k) == x / w
  {
    ToUint32Same(x);
  }

  lemma ShlSmall(x: nat, k: nat, w: int)
    requires w == Pow2(k) && x < TWO_32 && 0 <= x * w < TWO_31
    ensures Shl(x, k) == x * w
  {
    ToUint32Same(x);
    ToUint32Same(x * w);
  }

  // ----- specification of the encoder -----

  predicate StartsWithPair(s: seq<unit16>) { |s| >= 2 && IsHigh(s[0]) && IsLow(s[1]) }

  function PairValue(hi: unit16, lo: unit16): int { 0x10000 + hi % 1024 * 1024 + lo % 1024 }

  /** Section 3 of RFC 3629, one code point at a time. */
  function CodePoint(c: int): (b: seq<byte>)
    requires 0 <= c < 0x11_0000
    ensures 1 <= |b| <= 4
  {
    if c < 128 then [c]
    else if c < 2048 then [192 + c / 64, 128 + c % 64]
    else if c < 0x1_0000 then [224 + c / 4096, 128 + c / 64 % 64, 128 + c % 64]
    else [240 + c / 0x4_0000, 128 + c / 4096 % 64, 128 + c / 64 % 64, 128 + c % 64]
  }

  /** A surrogate pair becomes one code point; a lone surrogate is encoded like any other unit. */
  function Encode(s: seq<unit16>): seq<byte> {
    if s == [] then []
    else if StartsWithPair(s) then CodePoint(PairValue(s[0], s[1])) + Encode(s[2..])
    else CodePoint(s[0]) + Encode(s[1..])
  }

  /** The UTF-16 form of a Unicode scalar value. */
  function Utf16(c: int): seq<unit16>
    requires 0 <= c < 0x11_0000
  {
    if c < 0x1_0000 then [c] else [0xd800 + (c - 0x10000) / 1024, 0xdc00 + (c - 0x10000) % 1024]
  }

  /** Unicode scalar values: every code point but the surrogates. */
  type scalar = c: int | 0 <= c < 0xd800 || 0xe000 <= c < 0x11_0000

  function Utf16All(cs: seq<scalar>): seq<unit16>
  {
    if cs == [] then [] else Utf16(cs[0]) + Utf16All(cs[1..])
  }

  function Rfc3629(cs: seq<scalar>): seq<byte>
  {
    if cs == [] then [] else CodePoint(cs[0]) + Rfc3629(cs[1..])
  }

  /** On well-formed UTF-16 the encoder is the UTF-8 of RFC 3629. */
  lemma {:induction false} EncodeIsRfc3629(cs: seq<scalar>)
    ensures Encode(Utf16All(cs)) == Rfc3629(cs)
  {
    if cs != [] {
      EncodeIsRfc3629(cs[1..]);
      var c, rest := cs[0], Utf16All(cs[1..]);
      var s := Utf16All(cs);
      if c < 0x1_0000 {
        assert s[1..] == rest;
      } else {
        assert s[2..] == rest;
        assert PairValue(s[0], s[1]) == c;
      }
    }
  }

  // ----- utf8Length -----

  method Utf8Length(str: seq<unit16>) returns (len: nat)
    ensures len == |Encode(str)|
  {
    hide BitAnd, Encode, CodePoint;
    len := 0;
    var i := 0;
    assert str[0..] == str;
    while i < |str|
      invariant i <= |str| && len + |Encode(str[i..])| == |Encode(str)|
    {
      var c := str[i];
      SurrogateTests(c);
      var next: unit16 := if i + 1 < |str| then str[i + 1] else 0;
      SurrogateTests(next);
      EncodeHead(str, i);
      if c < 128 {
        len := len + 1;
      } else if c < 2048 {
        len := len + 2;
      } else if BitAnd(c, 0xfc00) == 0xd800 && BitAnd(next, 0xfc00) == 0xdc00 {
        i := i + 1;
        len := len + 4;
      } else {
        len := len + 3;
      }
      i := i + 1;
    }
    EncodeNothing(str[i..]);
  }

  lemma EncodeNothing(s: seq<unit16>)
    ensures s == [] ==> Encode(s) == []
  {
  }

  predicate PairAt(str: seq<unit16>, i: nat) { i + 1 < |str| && IsHigh(str[i]) && IsLow(str[i + 1]) }

  /** The bytes of the character at `i` and the index after it. */
  function HeadBytes(str: seq<unit16>, i: nat): (b: seq<byte>)
    requires i < |str|
    ensures |b| == if PairAt(str, i) then 4 else if str[i] < 128 then 1 else if str[i] < 2048 then 2 else 3
  {
    CodePoint(if PairAt(str, i) then PairValue(str[i], str[i + 1]) else str[i])
  }

  lemma EncodeHead(str: seq<unit16>, i: nat)
    requires i < |str|
    ensures Encode(str[i..]) == HeadBytes(str, i) + Encode(str[if PairAt(str, i) then i + 2 else i + 1..])
  {
    var s := str[i..];
    assert s[1..] == str[i + 1..];
    if PairAt(str, i) { assert s[2..] == str[i + 2..]; }
    assert StartsWithPair(s) <==> PairAt(str, i);
  }

  // ----- utf8Write -----

  /** The bytes the code stores for a value below 2^16 outside the four-byte branch, and for a pair. */
  lemma StoredBytes(c: nat)
    requires c < 0x11_0000
    ensures c < 2048 ==> BitOr(Sar(c, 6), 192) == 192 + c / 64
    ensures BitOr(BitAnd(c, 63), 128) == 128 + c % 64
    ensures c < 0x1_0000 ==> BitOr(Sar(c, 12), 224) == 224 + c / 4096
    ensures BitOr(BitAnd(Sar(c, 6), 63), 128) == 128 + c / 64 % 64
    ensures BitOr(BitAnd(Sar(c, 12), 63), 128) == 128 + c / 4096 % 64
    ensures BitOr(Sar(c, 18), 240) == 240 + c / 0x4_0000
  {
    hide BitOr, BitAnd, Sar, Pow2;
    TenAndSix();
    PowTable();
    SarSmall(c, 6, 64);
    SarSmall(c, 12, 4096);
    SarSmall(c, 18, 0x4_0000);
    Masks(c);
    Masks(c / 64);
    Masks(c / 4096);
    if c < 2048 { JoinBits(c / 64, 6, 5, 32); }
    JoinBits(c % 64, 2, 6, 64);
    if c < 0x1_0000 { JoinBits(c / 4096, 14, 4, 16); }
    JoinBits(c / 64 % 64, 2, 6, 64);
    JoinBits(c / 4096 % 64, 2, 6, 64);
    JoinBits(c / 0x4_0000, 30, 3, 8);
  }

  /** `0x10000 + ((c1 & 0x03ff) << 10) + (c2 & 0x03ff)`. */
  lemma CombinePair(c1: unit16, c2: unit16)
    ensures 0x10000 + Shl(BitAnd(c1, 0x03ff), 10) + BitAnd(c2, 0x03ff) == PairValue(c1, c2)
  {
    hide BitAnd, Shl, Pow2;
    TenAndSix();
    Masks(c1);
    Masks(c2);
    ShlSmall(c1 % 1024, 10, 1024);
  }

  method Utf8Write(str: seq<unit16>, buffer: array<byte>, offset0: nat) returns (n: nat)
    requires offset0 + |Encode(str)| <= buffer.Length
    modifies buffer
    ensures Written(buffer[..], old(buffer[..]), offset0, Encode(str)) && n == |Encode(str)|
  {
    hide BitAnd, BitOr, Sar, Shl, Encode, Written, HeadBytes;
    var offset, i := offset0, 0;
    ghost var done: seq<byte> := [];
    ghost var b0 := buffer[..];
    WriteNothing(buffer[..], offset0);
    assert str[0..] == str;
    while i < |str|
      invariant i <= |str| && offset == offset0 + |done| && done + Encode(str[i..]) == Encode(str)
      invariant Written(buffer[..], b0, offset0, done)
    {
      EncodeHead(str, i);
      ghost var head := HeadBytes(str, i);
      ghost var rest := Encode(str[if PairAt(str, i) then i + 2 else i + 1..]);
      assert |done| + |head| + |rest| == |Encode(str)|;
      offset, i := WriteCharacter(str, i, buffer, offset, b0, offset0, done);
      assert done + (head + rest) == done + head + rest;
      done := done + head;
    }
    EncodeNothing(str[i..]);
    assert done + [] == done;
    n := offset - offset0;
  }

  /** The four bytes of a pair. */
  method StoreFour(c: nat, buffer: array<byte>, offset: nat, ghost b0: seq<byte>, ghost pos: nat, ghost done: seq<byte>)
    requires 0x1_0000 <= c < 0x11_0000 && offset == pos + |done| && offset + 4 <= buffer.Length
    requires Written(buffer[..], b0, pos, done)
    modifies buffer
    ensures Written(buffer[..], b0, pos, done + CodePoint(c))
  {
    hide BitAnd, BitOr, Sar, Written;
    StoredBytes(c);
    ghost var head := CodePoint(c);
    Store(buffer, offset, BitOr(Sar(c, 18), 240), b0, pos, done);
    Store(buffer, offset + 1, BitOr(BitAnd(Sar(c, 12), 63), 128), b0, pos, done + head[..1]);
    assert done + head[..1] + [head[1]] == done + head[..2];
    Store(buffer, offset + 2, BitOr(BitAnd(Sar(c, 6), 63), 128), b0, pos, done + head[..2]);
    assert done + head[..2] + [head[2]] == done + head[..3];
    Store(buffer, offset + 3, BitOr(BitAnd(c, 63), 128), b0, pos, done + head[..3]);
    assert done + head[..3] + [head[3]] == done + head;
  }

  /** One iteration of the `utf8Write` loop. */
  method WriteCharacter(str: seq<unit16>, i0: nat, buffer: array<byte>, offset0: nat,
                        ghost b0: seq<byte>, ghost pos: nat, ghost done: seq<byte>)
    returns (offset: nat, i: nat)
    requires i0 < |str| && offset0 == pos + |done| && offset0 + |HeadBytes(str, i0)| <= buffer.Length
    requires Written(buffer[..], b0, pos, done)
    modifies buffer
    ensures i == (if PairAt(str, i0) then i0 + 2 else i0 + 1) && offset == offset0 + |HeadBytes(str, i0)|
    ensures Written(buffer[..], b0, pos, done + HeadBytes(str, i0))
  {
    hide BitAnd, BitOr, Sar, Shl, Written;
    offset, i := offset0, i0;
    var c1 := str[i];
    var c2: unit16 := if i + 1 < |str| then str[i + 1] else 0;
    SurrogateTests(c1);
    SurrogateTests(c2);
    StoredBytes(c1);
    ghost var head := HeadBytes(str, i0);
    if c1 < 128 {
      Store(buffer, offset, c1, b0, pos, done);
      assert head == [c1];
      offset := offset + 1;
    } else if c1 < 2048 {
      Store(buffer, offset, BitOr(Sar(c1, 6), 192), b0, pos, done);
      Store(buffer, offset + 1, BitOr(BitAnd(c1, 63), 128), b0, pos, done + head[..1]);
      assert done + head[..1] + [head[1]] == done + head;
      offset := offset + 2;
    } else if BitAnd(c1, 0xfc00) == 0xd800 && BitAnd(c2, 0xfc00) == 0xdc00 {
      var c := 0x10000 + Shl(BitAnd(c1, 0x03ff), 10) + BitAnd(c2, 0x03ff);
      CombinePair(c1, c2);
      StoreFour(c, buffer, offset, b0, pos, done);
      offset := offset + 4;
      i := i + 1;
    } else {
      Store(buffer, offset, BitOr(Sar(c1, 12), 224), b0, pos, done);
      Store(buffer, offset + 1, BitOr(BitAnd(Sar(c1, 6), 63), 128), b0, pos, done + head[..1]);
      assert done + head[..1] + [head[1]] == done + head[..2];
      Store(buffer, offset + 2, BitOr(BitAnd(c1, 63), 128), b0, pos, done + head[..2]);
      assert done + head[..2] + [head[2]] == done + head;
      offset := offset + 3;
    }
    i := i + 1;
  }

  // ----- utf8Read: decoding one character -----

  /** The one or two code units the character at `pos` decodes to, and the position after it. */
  function Piece(buf: seq<byte>, pos: nat): (r: (seq<int>, nat))
    ensures 1 <= |r.0| <= 2 && pos < r.1
  {
    var t := At(buf, pos);
    if t < 128 then ([t], pos + 1)
    else if 191 < t < 224 then ([t % 32 * 64 + At(buf, pos + 1) % 64], pos + 2)
    else if t > 239 then
      var v := t % 8 * 0x4_0000 + At(buf, pos + 1) % 64 * 4096 + At(buf, pos + 2) % 64 * 64 + At(buf, pos + 3) % 64 - 0x10000;
      ([0xd800 + v / 1024, 0xdc00 + v % 1024], pos + 4)
    else ([t % 16 * 4096 + At(buf, pos + 1) % 64 * 64 + At(buf, pos + 2) % 64], pos + 3)
  }

  function Pieces(buf: seq<byte>, start: nat, end: nat): (p: seq<seq<int>>)
    ensures forall i :: 0 <= i < |p| ==> 1 <= |p[i]| <= 2
    decreases end - start
  {
    if start >= end then [] else
      var (u, next) := Piece(buf, start);
      [u] + Pieces(buf, next, end)
  }

  /** The bit expressions of the two-, three- and four-byte branches. */
  lemma DecodeOps(t: byte, b1: byte, b2: byte, b3: byte)
    ensures BitOr(Shl(BitAnd(t, 31), 6), BitAnd(b1, 63)) == t % 32 * 64 + b1 % 64
    ensures BitOr(BitOr(Shl(BitAnd(t, 15), 12), Shl(BitAnd(b1, 63), 6)), BitAnd(b2, 63))
              == t % 16 * 4096 + b1 % 64 * 64 + b2 % 64
    ensures BitOr(BitOr(BitOr(Shl(BitAnd(t, 7), 18), Shl(BitAnd(b1, 63), 12)), Shl(BitAnd(b2, 63), 6)), BitAnd(b3, 63))
              == t % 8 * 0x4_0000 + b1 % 64 * 4096 + b2 % 64 * 64 + b3 % 64
  {
    hide BitOr, BitAnd, Shl, Pow2;
    TenAndSix();
    Masks(t);
    Masks(b1);
    Masks(b2);
    Masks(b3);
    var x1, x2, x3 := b1 % 64, b2 % 64, b3 % 64;
    ShlSmall(t % 32, 6, 64);
    ShlSmall(t % 16, 12, 4096);
    ShlSmall(t % 8, 18, 0x4_0000);
    ShlSmall(x1, 6, 64);
    ShlSmall(x1, 12, 4096);
    ShlSmall(x2, 6, 64);
    JoinBits(x1, t % 32, 6, 64);
    JoinBits(x1 * 64, t % 16, 12, 4096);
    JoinBits(x2, t % 16 * 64 + x1, 6, 64);
    JoinBits(x1 * 4096, t % 8, 18, 0x4_0000);
    JoinBits(x2 * 64, t % 8 * 64 + x1, 12, 4096);
    JoinBits(x3, t % 8 * 4096 + x1 * 64 + x2, 6, 64);
  }

  /** `t >> 10` and `t & 1023` on a possibly negative difference. */
  lemma SurrogateOps(v: int)
    requires -0x10000 <= v < 0x20_0000
    ensures Sar(v, 10) == v / 1024 && BitAnd(v, 1023) == v % 1024
  {
    hide And, Pow2, BitAnd;
    TenAndSix();
    BitAndMask(v, 10);
    var w := Pow2(10);
    assert ToUint32(v) % w == ToUint32(v) % 1024;
    assert (v % TWO_32) % 1024 == v % 1024;
    assert ToInt32(v) / w == ToInt32(v) / 1024;
  }

  // ----- the reused chunk -----

  /** `chunk[i] = x`, which appends when `i` is the length. */
  function Put(chunk: seq<int>, i: nat, x: int): (c: seq<int>)
    requires i <= |chunk|
    ensures |c| == if i < |chunk| then |chunk| else i + 1
    ensures c[..i] == chunk[..i] && c[i] == x
  {
    if i < |chunk| then chunk[i := x] else chunk + [x]
  }

  function PutPiece(chunk: seq<int>, i: nat, p: seq<int>): (c: seq<int>)
    requires i <= |chunk| && 1 <= |p| <= 2
    ensures |c| == if i + |p| <= |chunk| then |chunk| else i + |p|
    ensures c[..i + |p|] == chunk[..i] + p
  {
    var c1 := Put(chunk, i, p[0]);
    if |p| == 1 then c1 else
      var c2 := Put(c1, i + 1, p[1]);
      assert c2[..i + 2] == c1[..i + 1] + [p[1]];
      c2
  }

  /** All units the rest of the loop emits. A full chunk is emitted whole, whatever its previous use left behind. */
  function Emitted(p: seq<seq<int>>, chunk: seq<int>, i: nat): seq<int>
    requires i <= |chunk| && forall k :: 0 <= k < |p| ==> 1 <= |p[k]| <= 2
  {
    if p == [] then chunk[..i]
    else
      var c := PutPiece(chunk, i, p[0]);
      if i + |p[0]| > CHUNK_LIMIT then c + Emitted(p[1..], c, 0) else Emitted(p[1..], c, i + |p[0]|)
  }

  function Concat(p: seq<seq<int>>): seq<int> {
    if p == [] then [] else p[0] + Concat(p[1..])
  }

  /**
   * No flush finds stale units: a chunk of 8192 never follows one of 8193. `h` is the length the chunk has grown to.
   */
  predicate Clean(p: seq<seq<int>>, i: nat, h: nat) {
    p == [] ||
    var i', h' := i + |p[0]|, if i + |p[0]| > h then i + |p[0]| else h;
    if i' > CHUNK_LIMIT then i' == h' && Clean(p[1..], 0, h') else Clean(p[1..], i', h')
  }

  /** A stale flush only ever adds units. */
  lemma {:induction false} EmittedLength(p: seq<seq<int>>, chunk: seq<int>, i: nat)
    requires i <= |chunk| && forall k :: 0 <= k < |p| ==> 1 <= |p[k]| <= 2
    ensures |Emitted(p, chunk, i)| >= i + |Concat(p)|
    ensures !Clean(p, i, |chunk|) ==> |Emitted(p, chunk, i)| > i + |Concat(p)|
  {
    hide PutPiece;
    if p != [] {
      var c := PutPiece(chunk, i, p[0]);
      if i + |p[0]| > CHUNK_LIMIT {
        EmittedLength(p[1..], c, 0);
      } else {
        EmittedLength(p[1..], c, i + |p[0]|);
      }
    }
  }

  lemma {:induction false} EmittedClean(p: seq<seq<int>>, chunk: seq<int>, i: nat)
    requires i <= |chunk| && forall k :: 0 <= k < |p| ==> 1 <= |p[k]| <= 2
    requires Clean(p, i, |chunk|)
    ensures Emitted(p, chunk, i) == chunk[..i] + Concat(p)
  {
    hide PutPiece;
    if p != [] {
      var c, n, rest := PutPiece(chunk, i, p[0]), i + |p[0]|, Concat(p[1..]);
      assert c[..n] + rest == chunk[..i] + (p[0] + rest);
      if n > CHUNK_LIMIT {
        EmittedClean(p[1..], c, 0);
        assert c[..n] == c && c[..0] + rest == rest;
      } else {
        EmittedClean(p[1..], c, n);
      }
    } else {
      assert chunk[..i] + Concat(p) == chunk[..i];
    }
  }

  /** `String.fromCharCode` reduces every number to 16 bits. */
  function FromCharCode(s: seq<int>): (r: seq<unit16>)
    ensures |r| == |s| && forall i :: 0 <= i < |s| ==> r[i] == s[i] % 0x1_0000
  {
    seq(|s|, i requires 0 <= i < |s| => s[i] % 0x1_0000)
  }

  lemma FromCharCodeConcat(a: seq<int>, b: seq<int>)
    ensures FromCharCode(a + b) == FromCharCode(a) + FromCharCode(b)
  {
  }

  /** One iteration of the `utf8Read` loop up to the flush test. */
  method ReadCharacter(buffer: seq<byte>, start0: nat, chunk0: seq<int>, i0: nat)
    returns (start: nat, chunk: seq<int>, i: nat)
    requires start0 < |buffer| && i0 <= |chunk0|
    ensures start == Piece(buffer, start0).1
    ensures chunk == PutPiece(chunk0, i0, Piece(buffer, start0).0) && i == i0 + |Piece(buffer, start0).0|
  {
    hide BitOr, BitAnd, Shl, Sar, Put;
    start, chunk, i := start0, chunk0, i0;
    var t: int := buffer[start];
    start := start + 1;
    var b1, b2, b3 := At(buffer, start), At(buffer, start + 1), At(buffer, start + 2);
    DecodeOps(t, b1, b2, b3);
    if t < 128 {
      chunk := Put(chunk, i, t);
      i := i + 1;
    } else if t > 191 && t < 224 {
      chunk := Put(chunk, i, BitOr(Shl(BitAnd(t, 31), 6), BitAnd(b1, 63)));
      i := i + 1;
      start := start + 1;
    } else if t > 239 && t < 365 {
      t := BitOr(BitOr(BitOr(Shl(BitAnd(t, 7), 18), Shl(BitAnd(b1, 63), 12)), Shl(BitAnd(b2, 63), 6)), BitAnd(b3, 63)) - 0x10000;
      SurrogateOps(t);
      chunk := Put(chunk, i, 0xd800 + Sar(t, 10));
      i := i + 1;
      chunk := Put(chunk, i, 0xdc00 + BitAnd(t, 1023));
      i := i + 1;
      start := start + 3;
    } else {
      chunk := Put(chunk, i, BitOr(BitOr(Shl(BitAnd(t, 15), 12), Shl(BitAnd(b1, 63), 6)), BitAnd(b2, 63)));
      i := i + 1;
      start := start + 2;
    }
  }

  method Utf8Read(buffer: seq<byte>, start0: nat, end: nat) returns (str: seq<unit16>)
    requires end <= |buffer|
    ensures str == FromCharCode(Emitted(Pieces(buffer, start0, end), [], 0))
  {
    hide Emitted, Piece, FromCharCode, PutPiece;
    if start0 >= end {
      EmittedNothing([], 0);
      return [];
    }
    var start: nat, chunk: seq<int>, i: nat := start0, [], 0;
    var parts: seq<unit16> := [];
    ghost var goal := FromCharCode(Emitted(Pieces(buffer, start0, end), [], 0));
    while start < end
      invariant i <= |chunk|
      invariant parts + FromCharCode(Emitted(Pieces(buffer, start, end), chunk, i)) == goal
      decreases end - start
    {
      EmittedStep(buffer, start, end, chunk, i);
      start, chunk, i := ReadCharacter(buffer, start, chunk, i);
      if i > CHUNK_LIMIT {
        FromCharCodeConcat(chunk, Emitted(Pieces(buffer, start, end), chunk, 0));
        parts := parts + FromCharCode(chunk);
        i := 0;
      }
    }
    EmittedNothing(chunk, i);
    if i > 0 {
      parts := parts + FromCharCode(chunk[..i]);
    }
    return parts;
  }

  lemma EmittedNothing(chunk: seq<int>, i: nat)
    requires i <= |chunk|
    ensures Emitted([], chunk, i) == chunk[..i] && (i == 0 ==> FromCharCode(chunk[..i]) == [])
  {
  }

  lemma EmittedStep(buffer: seq<byte>, start: nat, end: nat, chunk: seq<int>, i: nat)
    requires start < end && i <= |chunk|
    ensures var (u, next) := Piece(buffer, start);
            var c := PutPiece(chunk, i, u);
            && i + |u| <= |c|
            && Emitted(Pieces(buffer, start, end), chunk, i) ==
                 if i + |u| > CHUNK_LIMIT then c + Emitted(Pieces(buffer, next, end), c, 0)
                 else Emitted(Pieces(buffer, next, end), c, i + |u|)
  {
    hide Piece, PutPiece;
    var (u, next) := Piece(buffer, start);
    assert Pieces(buffer, start, end)[0] == u;
    assert Pieces(buffer, start, end)[1..] == Pieces(buffer, next, end);
  }

  // ----- round trip -----

  /** The units of a string grouped as the decoder produces them. */
  function UnitPieces(s: seq<unit16>): (p: seq<seq<int>>)
    ensures forall i :: 0 <= i < |p| ==> 1 <= |p[i]| <= 2
  {
    if s == [] then []
    else if StartsWithPair(s) then [[s[0], s[1]]] + UnitPieces(s[2..])
    else [[s[0]]] + UnitPieces(s[1..])
  }

  lemma {:induction false} ConcatUnitPieces(s: seq<unit16>)
    ensures Concat(UnitPieces(s)) == s
  {
    if s != [] {
      var p := UnitPieces(s);
      if StartsWithPair(s) {
        ConcatUnitPieces(s[2..]);
        assert p[1..] == UnitPieces(s[2..]);
      } else {
        ConcatUnitPieces(s[1..]);
        assert p[1..] == UnitPieces(s[1..]);
      }
    }
  }

  /** Decoding the encoding of one character. */
  lemma PieceOfCodePoint(buf: seq<byte>, pos: nat, c: int)
    requires 0 <= c < 0x11_0000
    requires pos + |CodePoint(c)| <= |buf| && buf[pos..pos + |CodePoint(c)|] == CodePoint(c)
    ensures c < 0x1_0000 ==> Piece(buf, pos) == ([c], pos + |CodePoint(c)|)
    ensures c >= 0x1_0000 ==>
              Piece(buf, pos) == ([0xd800 + (c - 0x10000) / 1024, 0xdc00 + (c - 0x10000) % 1024], pos + 4)
  {
    var b := CodePoint(c);
    assert forall k {:trigger b[k]} :: 0 <= k < |b| ==> At(buf, pos + k) == buf[pos..pos + |b|][k] == b[k];
    assert At(buf, pos) == b[0] by { assert At(buf, pos + 0) == b[0]; }
    CodePointDigits(c);
    if c >= 128 { assert At(buf, pos + 1) == b[1]; }
    if c >= 2048 { assert At(buf, pos + 2) == b[2]; }
    if c >= 0x1_0000 { assert At(buf, pos + 3) == b[3]; }
  }

  /** The payload bits of each byte of an encoded code point. */
  lemma CodePointDigits(c: int)
    requires 0 <= c < 0x11_0000
    ensures var b := CodePoint(c);
            && (|b| == 2 ==> 191 < b[0] < 224 && (b[0] as int) % 32 * 64 + (b[1] as int) % 64 == c)
            && (|b| == 3 ==> 223 < b[0] < 240
                             && (b[0] as int) % 16 * 4096 + (b[1] as int) % 64 * 64 + (b[2] as int) % 64 == c)
            && (|b| == 4 ==> 239 < b[0]
                             && (b[0] as int) % 8 * 0x4_0000 + (b[1] as int) % 64 * 4096
                                + (b[2] as int) % 64 * 64 + (b[3] as int) % 64 == c)
  {
    Tags(c / 64, c / 4096, c / 0x4_0000);
    Continuation(c);
    Continuation(c / 64);
    Continuation(c / 4096);
    assert c / 4096 == c / 64 / 64 && c / 0x4_0000 == c / 4096 / 64;
  }

  lemma Continuation(x: int)
    requires 0 <= x
    ensures (128 + x % 64) % 64 == x % 64
  {
  }

  lemma Tags(x: int, y: int, z: int)
    ensures 0 <= x < 32 ==> (192 + x) % 32 == x
    ensures 0 <= y < 16 ==> (224 + y) % 16 == y
    ensures 0 <= z < 8 ==> (240 + z) % 8 == z
  {
  }

  lemma PairBack(hi: unit16, lo: unit16)
    requires IsHigh(hi) && IsLow(lo)
    ensures var c := PairValue(hi, lo);
            0x1_0000 <= c < 0x11_0000 && 0xd800 + (c - 0x10000) / 1024 == hi && 0xdc00 + (c - 0x10000) % 1024 == lo
  {
  }

  lemma {:induction false} PiecesOfEncoding(s: seq<unit16>, buf: seq<byte>, start: nat, end: nat)
    requires end <= |buf| && start + |Encode(s)| == end && buf[start..end] == Encode(s)
    ensures Pieces(buf, start, end) == UnitPieces(s)
    decreases |s|
  {
    hide Piece, CodePoint, At, Encode, UnitPieces;
    EncodeNothing(s);
    if s != [] {
      var (c, rest) := Uncons(s);
      EncodeUncons(s);
      SplitSlice(buf, start, end, CodePoint(c), Encode(rest));
      PieceOfCodePoint(buf, start, c);
      PiecesOfEncoding(rest, buf, start + |CodePoint(c)|, end);
    } else {
      assert UnitPieces([]) == [] by { NoPieces(); }
    }
  }

  lemma NoPieces()
    ensures UnitPieces([]) == []
  {
  }

  /** The first character of a string, and what follows. */
  function Uncons(s: seq<unit16>): (r: (int, seq<unit16>))
    requires s != []
    ensures 0 <= r.0 < 0x11_0000 && |r.1| < |s|
  {
    if StartsWithPair(s) then (PairValue(s[0], s[1]), s[2..]) else (s[0], s[1..])
  }

  lemma FourByteCodePoint(c: int)
    requires 0x1_0000 <= c < 0x11_0000
    ensures |CodePoint(c)| == 4
  {
  }

  lemma EncodeUncons(s: seq<unit16>)
    requires s != []
    ensures var (c, rest) := Uncons(s);
            && Encode(s) == CodePoint(c) + Encode(rest)
            && UnitPieces(s) == [if c < 0x1_0000 then [c] else [0xd800 + (c - 0x10000) / 1024, 0xdc00 + (c - 0x10000) % 1024]]
                                + UnitPieces(rest)
            && (c >= 0x1_0000 ==> |CodePoint(c)| == 4)
  {
    hide CodePoint, PairValue, IsHigh, IsLow;
    if StartsWithPair(s) {
      PairBack(s[0], s[1]);
      FourByteCodePoint(PairValue(s[0], s[1]));
    }
  }

  lemma SplitSlice(buf: seq<byte>, start: nat, end: nat, a: seq<byte>, b: seq<byte>)
    requires start <= end <= |buf| && buf[start..end] == a + b
    ensures start + |a| <= end && buf[start..start + |a|] == a && buf[start + |a|..end] == b
  {
    assert |a + b| == end - start;
    assert buf[start..start + |a|] == buf[start..end][..|a|];
    assert buf[start + |a|..end] == buf[start..end][|a|..];
  }

  /** The condition a caller can evaluate on the string alone. */
  predicate CleanText(s: seq<unit16>) { Clean(UnitPieces(s), 0, 0) }

  /** `utf8Read(utf8Write(s)) == s` holds exactly for clean text, lone surrogates included. */
  lemma ReadOfWrite(s: seq<unit16>, buf: seq<byte>, start: nat, end: nat)
    requires end <= |buf| && start + |Encode(s)| == end && buf[start..end] == Encode(s)
    ensures FromCharCode(Emitted(Pieces(buf, start, end), [], 0)) == s <==> CleanText(s)
  {
    hide Emitted, Clean, Encode, Pieces, FromCharCode, UnitPieces;
    var p := UnitPieces(s);
    PiecesOfEncoding(s, buf, start, end);
    ConcatUnitPieces(s);
    EmittedLength(p, [], 0);
    FromCharCodeUnits(s);
    if CleanText(s) {
      EmittedClean(p, [], 0);
      var none: seq<int> := [];
      assert none[..0] + Concat(p) == s;
    }
  }

  lemma FromCharCodeUnits(s: seq<unit16>)
    ensures FromCharCode(s) == s
  {
  }

  lemma {:induction false} CleanWhenShort(p: seq<seq<int>>, i: nat, h: nat)
    requires forall k :: 0 <= k < |p| ==> 1 <= |p[k]| <= 2
    requires i <= h && i <= CHUNK_LIMIT
    requires h <= CHUNK_LIMIT + 1 ==> i + |Concat(p)| <= 2 * CHUNK_LIMIT + 2 && (i == h || h == CHUNK_LIMIT + 1)
    requires h > CHUNK_LIMIT + 1 ==> h == CHUNK_LIMIT + 2 && i + |Concat(p)| <= CHUNK_LIMIT
    ensures Clean(p, i, h)
  {
    if p != [] {
      var i', h' := i + |p[0]|, if i + |p[0]| > h then i + |p[0]| else h;
      if i' > CHUNK_LIMIT {
        CleanWhenShort(p[1..], 0, h');
      } else {
        CleanWhenShort(p[1..], i', h');
      }
    }
  }

  /** Two chunks cannot go wrong: every string of at most 16384 units is clean. */
  lemma ShortTextIsClean(s: seq<unit16>)
    requires |s| <= 2 * CHUNK_LIMIT + 2
    ensures CleanText(s)
  {
    ConcatUnitPieces(s);
    CleanWhenShort(UnitPieces(s), 0, 0);
  }

  lemma {:induction false} SinglesRun(n: nat, rest: seq<unit16>, i: nat, h: nat)
    requires i + n <= CHUNK_LIMIT
    ensures var s := seq(n, _ => 0x61 as unit16) + rest;
            Clean(UnitPieces(s), i, h) <==> Clean(UnitPieces(rest), i + n, if n == 0 || i + n <= h then h else i + n)
    decreases n
  {
    hide UnitPieces;
    var s := seq(n, _ => 0x61 as unit16) + rest;
    if n == 0 {
      assert s == rest;
    } else {
      var t := seq(n - 1, _ => 0x61 as unit16) + rest;
      assert s == [0x61] + t;
      SinglePiece(t);
      SinglesRun(n - 1, rest, i + 1, if i + 1 > h then i + 1 else h);
    }
  }

  lemma SinglePiece(rest: seq<unit16>)
    ensures UnitPieces([0x61] + rest) == [[0x61]] + UnitPieces(rest)
  {
    assert ([0x61] + rest)[1..] == rest;
  }

  /** The shortest failing shape: a pair in slots 8191 and 8192, then exactly one more full chunk. */
  function StaleText(): seq<unit16> {
    seq(8191, _ => 0x61 as unit16) + ([0xd83d as unit16, 0xde00] + (seq(8191, _ => 0x61 as unit16) + [0x61]))
  }

  lemma StaleTextFails()
    ensures |StaleText()| == 2 * CHUNK_LIMIT + 3 && !CleanText(StaleText())
    ensures var b := Encode(StaleText()); FromCharCode(Emitted(Pieces(b, 0, |b|), [], 0)) != StaleText()
  {
    hide Clean, Encode, Emitted, Pieces, FromCharCode, UnitPieces;
    StaleTextIsStale();
    ReadOfWrite(StaleText(), Encode(StaleText()), 0, |Encode(StaleText())|);
  }

  lemma StaleTextIsStale()
    ensures |StaleText()| == 2 * CHUNK_LIMIT + 3 && !CleanText(StaleText())
  {
    hide Clean;
    var tail := seq(8191, _ => 0x61 as unit16) + [0x61];
    var mid := [0xd83d as unit16, 0xde00] + tail;
    SinglesRun(8191, mid, 0, 0);
    SinglesRun(8191, [0x61], 0, 8193);
    PairFlush(tail);
    LastFlush();
  }

  lemma PairFlush(tail: seq<unit16>)
    ensures Clean(UnitPieces([0xd83d as unit16, 0xde00] + tail), 8191, 8191) <==> Clean(UnitPieces(tail), 0, 8193)
  {
    var mid := [0xd83d as unit16, 0xde00] + tail;
    assert mid[2..] == tail;
    var p := UnitPieces(mid);
    assert p[0] == [0xd83d, 0xde00] && p[1..] == UnitPieces(tail);
  }

  lemma LastFlush()
    ensures !Clean(UnitPieces([0x61]), 8191, 8193)
  {
    assert UnitPieces([0x61]) == [[0x61]] + UnitPieces([]);
  }
}
