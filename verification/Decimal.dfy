/** 64-bit integers as decimal text: `int64FromString`, `int64ToString`, `uInt64ToString`, `negate`. */
module Decimal {
  import opened NumberTheory
  import opened JsBits
  import opened Varint

  // ----- numerals -----

  function DigitChar(d: int): (ch: char)
    requires 0 <= d < 10
    ensures DigitValue(ch) == d
  {
    '0' + d as char
  }

  function DigitValue(ch: char): int { ch as int - '0' as int }

  predicate IsDigit(ch: char) { '0' <= ch <= '9' }

  /** `String(n)` for a non-negative integer: the canonical decimal numeral. */
  function Numeral(n: nat): (s: string)
    ensures s != "" && forall i :: 0 <= i < |s| ==> IsDigit(s[i])
    ensures s[0] == '0' ==> n == 0
  {
    if n < 10 then [DigitChar(n)] else Numeral(n / 10) + [DigitChar(n % 10)]
  }

  /** `value.toString()` for a BigInt. */
  function SignedNumeral(v: int): string {
    if v >= 0 then Numeral(v) else "-" + Numeral(-v)
  }

  function ParseDigits(s: string): int {
    if s == "" then 0 else 10 * ParseDigits(s[..|s| - 1]) + DigitValue(s[|s| - 1])
  }

  /** The text forms `BigInt(text)` is applied to here: an optional minus sign and at least one digit. */
  predicate IsInteger(s: string) {
    var digits := if s != "" && s[0] == '-' then s[1..] else s;
    digits != "" && forall i :: 0 <= i < |digits| ==> IsDigit(digits[i])
  }

  /** `BigInt(text)`. */
  function BigIntOf(s: string): int
    requires IsInteger(s)
  {
    if s[0] == '-' then -ParseDigits(s[1..]) else ParseDigits(s)
  }

  /** A digit string without leading zeros is the numeral of its value. */
  lemma {:induction false} NumeralOfParse(s: string)
    requires s != "" && (forall i :: 0 <= i < |s| ==> IsDigit(s[i])) && (s[0] == '0' ==> |s| == 1)
    ensures ParseDigits(s) >= 0 && Numeral(ParseDigits(s)) == s && (s[0] != '0' ==> ParseDigits(s) > 0)
  {
    var init, last := s[..|s| - 1], s[|s| - 1];
    assert s == init + [last] && 0 <= DigitValue(last) < 10 && DigitChar(DigitValue(last)) == last;
    if |s| > 1 {
      NumeralOfParse(init);
      var m, d := ParseDigits(init), DigitValue(last);
      DivModUnique(10 * m + d, m, d, 10);
    }
  }

  lemma {:induction false} ParseNumeral(n: nat)
    ensures ParseDigits(Numeral(n)) == n
  {
    if n >= 10 {
      ParseNumeral(n / 10);
      assert Numeral(n)[..|Numeral(n)| - 1] == Numeral(n / 10);
    } else {
      assert Numeral(n)[..0] == "";
    }
  }

  /** Parsing undoes printing, for every integer. */
  lemma ParseSignedNumeral(v: int)
    ensures IsInteger(SignedNumeral(v)) && BigIntOf(SignedNumeral(v)) == v
  {
    ParseNumeral(if v >= 0 then v else -v);
    if v < 0 {
      assert SignedNumeral(v)[1..] == Numeral(-v);
    }
  }

  function Pow10(k: nat): (r: nat)
    ensures r >= 1
  {
    if k == 0 then 1 else 10 * Pow10(k - 1)
  }

  /** The last `k` decimal digits of `r`, with leading zeros. */
  function Padded(r: nat, k: nat): (s: string)
    ensures |s| == k
  {
    if k == 0 then "" else Padded(r / 10, k - 1) + [DigitChar(r % 10)]
  }

  lemma AppendDigit(m: nat, d: nat)
    requires m >= 1 && d < 10
    ensures Numeral(10 * m + d) == Numeral(m) + [DigitChar(d)]
  {
  }

  /** The numeral of `q * 10^k + r` is the numeral of `q` followed by `r` padded to `k` digits. */
  lemma {:induction false} NumeralConcat(q: nat, r: nat, k: nat)
    requires q > 0 && r < Pow10(k)
    ensures 0 <= q * Pow10(k) + r && Numeral(q * Pow10(k) + r) == Numeral(q) + Padded(r, k)
    decreases k
  {
    hide Numeral;
    if k == 0 {
      assert q * Pow10(0) + r == q;
      assert Numeral(q) + "" == Numeral(q);
    } else {
      NumeralConcat(q, r / 10, k - 1);
      var w := Pow10(k - 1);
      assert q * (10 * w) == 10 * (q * w);
      MulBound(q, w);
      AppendDigit(q * w + r / 10, r % 10);
    }
  }

  lemma {:induction false} PaddedZero(k: nat)
    ensures Padded(0, k) == seq(k, i => '0')
  {
    if k > 0 { PaddedZero(k - 1); }
  }

  /** Zero-padding a numeral to seven digits, as `"0000000".slice(partial.length) + partial` does. */
  lemma {:induction false} PadNumeral(r: nat, k: nat)
    requires 0 < k && r < Pow10(k)
    ensures |Numeral(r)| <= k && seq(k - |Numeral(r)|, i => '0') + Numeral(r) == Padded(r, k)
    decreases k
  {
    if r < 10 {
      PaddedZero(k - 1);
    } else {
      PadNumeral(r / 10, k - 1);
      var z := k - |Numeral(r)|;
      assert seq(z, i => '0') + Numeral(r) == (seq(z, i => '0') + Numeral(r / 10)) + [DigitChar(r % 10)];
    }
  }

  // ----- the code -----

  function DecimalFrom1e7WithLeadingZeros(digit1e7: nat): string {
    var partial := Numeral(digit1e7);
    (if |partial| <= 7 then "0000000"[|partial|..] else "") + partial
  }

  /** `digitA`, `digitB`, `digitC` before carries, from the 24:24:16 split. */
  function DigitA(low: int, mid: int, high: int): int { low + mid * 6777216 + high * 6710656 }

  function DigitB(mid: int, high: int): int { mid + high * 8147497 }

  function DigitC(high: int): int { high * 2 }

  function UInt64ToString(lo0: int, hi0: int): string {
    var lo, hi := Shr(lo0, 0), Shr(hi0, 0);
    HalfRange(lo0);
    HalfRange(hi0);
    if hi <= 0x1fffff then Numeral(TWO_32 * hi + lo)
    else
      SplitRanges(lo, hi);
      var low := BitAnd(lo, 0xffffff);
      var mid := BitAnd(BitOr(Shr(lo, 24), Shl(hi, 8)), 0xffffff);
      var high := BitAnd(Sar(hi, 16), 0xffff);
      Assemble(DigitA(low, mid, high), DigitB(mid, high), DigitC(high))
  }

  /** The carry propagation and the final concatenation. */
  function Assemble(a0: nat, b0: nat, c0: nat): string {
    var base := 10000000;
    var b1 := if a0 >= base then b0 + a0 / base else b0;
    var a := if a0 >= base then a0 % base else a0;
    var c := if b1 >= base then c0 + b1 / base else c0;
    var b := if b1 >= base then b1 % base else b1;
    Numeral(c) + DecimalFrom1e7WithLeadingZeros(b) + DecimalFrom1e7WithLeadingZeros(a)
  }

  lemma HalfRange(x: int)
    ensures Shr(x, 0) == ToUint32(x) && 0 <= Shr(x, 0) < TWO_32
  {
    ShrBy(x, 0, 1);
  }

  /** The three parts of the split are the base-2^24 digits of the value. */
  lemma SplitRanges(lo: nat, hi: nat)
    requires lo < TWO_32 && hi < TWO_32
    ensures BitAnd(lo, 0xffffff) == lo % 0x100_0000
    ensures BitAnd(BitOr(Shr(lo, 24), Shl(hi, 8)), 0xffffff) == lo / 0x100_0000 + hi % 0x1_0000 * 0x100
    ensures BitAnd(Sar(hi, 16), 0xffff) == hi / 0x1_0000
  {
    hide BitAnd, BitOr, Shr, Shl, Sar, Pow2, ToUint32;
    PowTable();
    ToUint32Same(lo);
    ToUint32Same(hi);
    BitAndMask(lo, 24);
    ShrBy(lo, 24, 0x100_0000);
    ToUint32Same(lo / 0x100_0000);
    Concat32(lo / 0x100_0000, hi, 8);
    BitAndMask(BitOr(lo / 0x100_0000, Shl(hi, 8)), 24);
    MidDigits(lo, hi);
    BitAndMask(Sar(hi, 16), 16);
    SarHigh(hi);
  }

  lemma MidDigits(lo: nat, hi: nat)
    requires lo < TWO_32 && hi < TWO_32
    ensures (lo / 0x100_0000 + hi * 0x100) % TWO_32 % 0x100_0000 == lo / 0x100_0000 + hi % 0x1_0000 * 0x100
  {
    var a, c := lo / 0x100_0000, hi / 0x1_0000;
    var x := a + hi % 0x1_0000 * 0x100;
    var k, r := c / 0x100, c % 0x100;
    assert a < 0x100 && x < 0x100_0000;
    assert a + hi * 0x100 == (x + 0x100_0000 * r) + TWO_32 * k;
    AddWords(x + 0x100_0000 * r, k);
    DivModUnique(x + 0x100_0000 * r, r, x, 0x100_0000);
  }

  /** `hi >> 16` is negative for large `hi`; masking with 0xffff recovers the unsigned quotient. */
  lemma SarHigh(hi: nat)
    requires hi < TWO_32
    ensures ToUint32(Sar(hi, 16)) % 0x1_0000 == hi / 0x1_0000
  {
    hide Pow2;
    PowTable();
    var w := Pow2(16);
    assert ToInt32(hi) / w == ToInt32(hi) / 0x1_0000;
  }

  /** `mid` carries the base-1e7 digits of 2^24 and `high` those of 2^48. */
  lemma DigitsValue(low: int, mid: int, high: int)
    ensures DigitA(low, mid, high) + 10000000 * DigitB(mid, high) + 100000000000000 * DigitC(high)
              == low + 0x100_0000 * mid + 0x1_0000_0000_0000 * high
  {
  }

  /** The digits and their carries stay in the range in which doubles are exact. */
  lemma DigitsAreSafe(low: nat, mid: nat, high: nat)
    requires low < 0x100_0000 && mid < 0x100_0000 && high < 0x1_0000
    ensures var a, b, c := DigitA(low, mid, high), DigitB(mid, high), DigitC(high);
            && 0 <= a < 0x20_0000_0000_0000 && 0 <= b < 0x20_0000_0000_0000 && 0 <= c < 0x20_0000_0000_0000
            && b + a / 10000000 < 0x20_0000_0000_0000 && c + (b + a / 10000000) / 10000000 < 0x20_0000_0000_0000
  {
  }

  /** In both branches of `uInt64ToString`, no intermediate leaves the range in which doubles are exact. */
  lemma IntermediatesSafe(lo0: int, hi0: int)
    ensures var lo, hi := Shr(lo0, 0), Shr(hi0, 0);
            if hi <= 0x1fffff then 0 <= TWO_32 * hi + lo < 0x20_0000_0000_0000
            else
              var low, mid, high :=
                BitAnd(lo, 0xffffff), BitAnd(BitOr(Shr(lo, 24), Shl(hi, 8)), 0xffffff), BitAnd(Sar(hi, 16), 0xffff);
              var a, b, c := DigitA(low, mid, high), DigitB(mid, high), DigitC(high);
              && 0 <= a < 0x20_0000_0000_0000 && 0 <= b < 0x20_0000_0000_0000 && 0 <= c < 0x20_0000_0000_0000
              && b + a / 10000000 < 0x20_0000_0000_0000 && c + (b + a / 10000000) / 10000000 < 0x20_0000_0000_0000
  {
    hide BitAnd, BitOr, Shr, Shl, Sar, DigitA, DigitB, DigitC;
    HalfRange(lo0);
    HalfRange(hi0);
    var lo, hi := Shr(lo0, 0), Shr(hi0, 0);
    SplitRanges(lo, hi);
    DigitsAreSafe(lo % 0x100_0000, lo / 0x100_0000 + hi % 0x1_0000 * 0x100, hi / 0x1_0000);
  }

  lemma AssembleCorrect(a0: nat, b0: nat, c0: nat)
    requires a0 + 10000000 * b0 + 100000000000000 * c0 >= 100000000000000
    ensures Assemble(a0, b0, c0) == Numeral(a0 + 10000000 * b0 + 100000000000000 * c0)
  {
    hide Numeral, Padded, Pow10, DecimalFrom1e7WithLeadingZeros;
    var base := 10000000;
    var b1 := b0 + a0 / base;
    var a, b, c := a0 % base, b1 % base, c0 + b1 / base;
    Pow10Of7();
    SevenDigits(a);
    SevenDigits(b);
    CarriesKeepValue(a0, b0, c0);
    NumeralConcat(c, b, 7);
    NumeralConcat(c * base + b, a, 7);
    assert Numeral(c) + (Padded(b, 7) + Padded(a, 7)) == Numeral(c) + Padded(b, 7) + Padded(a, 7);
  }

  lemma Pow10Of7()
    ensures Pow10(7) == 10000000
  {
  }

  lemma CarriesKeepValue(a0: nat, b0: nat, c0: nat)
    ensures var base := 10000000;
            var b1 := b0 + a0 / base;
            ((c0 + b1 / base) * base + b1 % base) * base + a0 % base == a0 + base * b0 + 100000000000000 * c0
  {
  }

  lemma SevenDigits(r: nat)
    requires r < 10000000
    ensures DecimalFrom1e7WithLeadingZeros(r) == Padded(r, 7)
  {
    hide Numeral, Padded;
    assert Pow10(7) == 10000000;
    PadNumeral(r, 7);
    var k := |Numeral(r)|;
    assert "0000000" == seq(7, i => '0');
    assert "0000000"[k..] == seq(7 - k, i => '0');
  }

  /** `uInt64ToString` prints the canonical numeral of the unsigned value of the pair. */
  lemma UInt64ToStringCorrect(lo: int, hi: int)
    ensures UInt64ToString(lo, hi) == Numeral(U64(lo, hi))
  {
    hide BitAnd, BitOr, Shr, Shl, Sar, Numeral, Assemble, ToUint32;
    var u, h := ToUint32(lo), ToUint32(hi);
    HalfRange(lo);
    HalfRange(hi);
    if h > 0x1fffff {
      SplitRanges(u, h);
      var low, mid, high := u % 0x100_0000, u / 0x100_0000 + h % 0x1_0000 * 0x100, h / 0x1_0000;
      DigitsValue(low, mid, high);
      DigitsAreSafe(low, mid, high);
      SplitValue(u, h);
      AssembleCorrect(DigitA(low, mid, high), DigitB(mid, high), DigitC(high));
    }
  }

  lemma SplitValue(u: nat, h: nat)
    requires u < TWO_32 && h < TWO_32
    ensures u % 0x100_0000 + 0x100_0000 * (u / 0x100_0000 + h % 0x1_0000 * 0x100) + 0x1_0000_0000_0000 * (h / 0x1_0000)
              == u + TWO_32 * h
  {
  }

  /** `negate`: two's complement negation of the pair. */
  function Negate(lowBits: int, highBits: int): (int, int) {
    if lowBits != 0 then (ToInt32(BitNot(lowBits) + 1), ToInt32(BitNot(highBits)))
    else (ToInt32(lowBits), ToInt32(BitNot(highBits) + 1))
  }

  lemma NegateCorrect(lo: int, hi: int)
    requires -TWO_31 <= lo < TWO_31
    ensures var (l, h) := Negate(lo, hi); U64(l, h) == -(U64(lo, hi) as int) % TWO_64
  {
    var u, w := ToUint32(lo), ToUint32(hi);
    NotWord(lo);
    NotWord(hi);
    ToUint32Same(BitNot(lo) + 1);
    ToUint32Same(BitNot(hi));
    ToUint32Same(BitNot(hi) + 1);
    NegateArithmetic(u, w);
  }

  lemma NotWord(x: int)
    ensures ToUint32(BitNot(x)) == TWO_32 - 1 - ToUint32(x)
    ensures ToUint32(BitNot(x) + 1) == (TWO_32 - ToUint32(x)) % TWO_32
  {
  }

  lemma NegateArithmetic(u: nat, w: nat)
    requires u < TWO_32 && w < TWO_32
    ensures -(u + TWO_32 * w as int) % TWO_64 ==
              if u != 0 then (TWO_32 - u) + TWO_32 * (TWO_32 - 1 - w) else TWO_32 * ((TWO_32 - w) % TWO_32)
  {
  }

  function Int64ToString(lo: int, hi: int): string {
    var bits := (ToInt32(lo), ToInt32(hi));
    var negative := BitAnd(bits.1, 0x80000000) != 0;
    var bits' := if negative then Negate(bits.0, bits.1) else bits;
    var result := UInt64ToString(bits'.0, bits'.1);
    if negative then "-" + result else result
  }

  lemma SignTest(x: int)
    ensures BitAnd(x, 0x80000000) != 0 <==> ToUint32(x) >= TWO_31
  {
    hide And, Pow2;
    PowTable();
    var u := ToUint32(x);
    AndBit(u, 31);
    assert ToUint32(0x80000000) == TWO_31;
    var w := Pow2(31);
    assert u / w == u / TWO_31;
    assert (u / TWO_31) % 2 == 1 <==> u >= TWO_31;
    assert BitAnd(x, 0x80000000) == ToInt32(And(u, TWO_31));
  }

  /** `int64ToString` prints the canonical numeral of the signed value, the minimum included. */
  lemma Int64ToStringCorrect(lo: int, hi: int)
    ensures Int64ToString(lo, hi) == SignedNumeral(I64(lo, hi))
  {
    hide BitAnd, UInt64ToString, Numeral, Negate, ToInt32, ToUint32;
    var l, h := ToInt32(lo), ToInt32(hi);
    ToUint32Same(lo);
    ToUint32Same(hi);
    SignTest(h);
    NegateCorrect(l, h);
    var (nl, nh) := Negate(l, h);
    UInt64ToStringCorrect(l, h);
    UInt64ToStringCorrect(nl, nh);
    SignedValue(ToUint32(lo), ToUint32(hi));
  }

  lemma SignedValue(u: nat, h: nat)
    requires u < TWO_32 && h < TWO_32
    ensures var v := u + TWO_32 * h;
            && (h >= TWO_31 <==> v >= 0x8000_0000_0000_0000)
            && (h >= TWO_31 ==> -(v as int) % TWO_64 == TWO_64 - v)
  {
  }

  /** `int64FromString`: the low and high words of the value modulo 2^64. */
  function Int64FromString(dec: string): (int, int)
    requires IsInteger(dec)
  {
    var unsigned := BigIntOf(dec) % TWO_64;
    (unsigned % TWO_32, unsigned / TWO_32)
  }

  /** Any integer text, canonical or not, gives the two words of its value modulo 2^64. */
  lemma Int64FromStringCorrect(dec: string)
    requires IsInteger(dec)
    ensures var (lo, hi) := Int64FromString(dec);
            0 <= lo < TWO_32 && 0 <= hi < TWO_32 && U64(lo, hi) == BigIntOf(dec) % TWO_64
  {
    hide IsInteger, BigIntOf;
    var u := BigIntOf(dec) % TWO_64;
    ToUint32Same(u % TWO_32);
    ToUint32Same(u / TWO_32);
  }

  /** `int64FromString(value.toString())`. */
  lemma Int64OfNumeral(v: int)
    ensures IsInteger(SignedNumeral(v))
    ensures var (lo, hi) := Int64FromString(SignedNumeral(v));
            0 <= lo < TWO_32 && 0 <= hi < TWO_32 && U64(lo, hi) == v % TWO_64
  {
    hide IsInteger, BigIntOf, SignedNumeral, Int64FromString, U64;
    ParseSignedNumeral(v);
    Int64FromStringCorrect(SignedNumeral(v));
  }

  /** All 64 bits survive the trip through text, signed or unsigned. */
  lemma StringRoundTrip(lo: int, hi: int)
    ensures IsInteger(Int64ToString(lo, hi)) && IsInteger(UInt64ToString(lo, hi))
    ensures Int64FromString(Int64ToString(lo, hi)) == (ToUint32(lo), ToUint32(hi))
    ensures Int64FromString(UInt64ToString(lo, hi)) == (ToUint32(lo), ToUint32(hi))
  {
    hide Int64ToString, UInt64ToString, SignedNumeral, Numeral, IsInteger, BigIntOf, ToUint32;
    Int64ToStringCorrect(lo, hi);
    UInt64ToStringCorrect(lo, hi);
    UnsignedText(U64(lo, hi));
    ParseSignedNumeral(I64(lo, hi));
    ParseSignedNumeral(U64(lo, hi));
    SplitWords(ToUint32(lo), ToUint32(hi));
  }

  lemma UnsignedText(n: nat)
    ensures SignedNumeral(n) == Numeral(n)
  {
  }

  lemma SplitWords(u: nat, h: nat)
    requires u < TWO_32 && h < TWO_32
    ensures var v := u + TWO_32 * h; v % TWO_64 == v && v % TWO_32 == u && v / TWO_32 == h
  {
  }
}
