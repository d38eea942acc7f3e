/** `bigIntToBytesBE/LE` and `bytesToBigIntBE/LE`, which pass through hexadecimal text. */
module ByteCodec {
  import opened Wrappers
  import opened NumberTheory
  import opened FieldArith
  import opened JsBits

  // ----- positional values -----

  /** The big-endian number a byte string denotes. */
  function FromBE(bytes: seq<byte>): nat {
    if bytes == [] then 0 else 256 * FromBE(bytes[..|bytes| - 1]) + bytes[|bytes| - 1]
  }

  function Reverse<T>(s: seq<T>): (r: seq<T>)
    ensures |r| == |s| && forall i :: 0 <= i < |s| ==> r[i] == s[|s| - 1 - i]
  {
    seq(|s|, i requires 0 <= i < |s| => s[|s| - 1 - i])
  }

  function FromLE(bytes: seq<byte>): nat { FromBE(Reverse(bytes)) }

  /** The fixed-width big-endian digits of `n` modulo `256^size`. */
  function ToBE(n: nat, size: nat): (b: seq<byte>)
    ensures |b| == size
  {
    if size == 0 then [] else ToBE(n / 256, size - 1) + [n % 256]
  }

  lemma {:induction false} ToBERoundTrip(n: nat, size: nat)
    requires n < Pow2(8 * size)
    ensures FromBE(ToBE(n, size)) == n
  {
    if size > 0 {
      assert Pow2(8 * size) == 256 * Pow2(8 * (size - 1)) by { PowByte(size); }
      ToBERoundTrip(n / 256, size - 1);
      assert ToBE(n, size)[..size - 1] == ToBE(n / 256, size - 1);
    }
  }

  lemma PowByte(size: nat)
    requires 0 < size
    ensures Pow2(8 * size) == 256 * Pow2(8 * (size - 1))
  {
    Pow2Add(8, 8 * (size - 1));
    assert Pow2(8) == 256;
  }

  lemma {:induction false} FromBERoundTrip(bytes: seq<byte>)
    ensures FromBE(bytes) < Pow2(8 * |bytes|) && ToBE(FromBE(bytes), |bytes|) == bytes
  {
    if bytes != [] {
      var n := |bytes| - 1;
      FromBERoundTrip(bytes[..n]);
      PowByte(n + 1);
      assert bytes[..n] + [bytes[n]] == bytes;
    }
  }

  /** Byte strings of equal length with equal value are equal. */
  lemma FromBEInjective(a: seq<byte>, b: seq<byte>)
    requires |a| == |b| && FromBE(a) == FromBE(b)
    ensures a == b
  {
    FromBERoundTrip(a);
    FromBERoundTrip(b);
  }

  lemma FromLEInjective(a: seq<byte>, b: seq<byte>)
    requires |a| == |b| && FromLE(a) == FromLE(b)
    ensures a == b
  {
    FromBEInjective(Reverse(a), Reverse(b));
    assert forall i :: 0 <= i < |a| ==> a[i] == Reverse(a)[|a| - 1 - i] && b[i] == Reverse(b)[|a| - 1 - i];
  }

  // ----- hexadecimal text -----

  function HexChar(d: int): (ch: char)
    requires 0 <= d < 16
    ensures HexValue(ch) == d
  {
    if d < 10 then '0' + d as char else 'a' + (d - 10) as char
  }

  /** The value of a lower-case hexadecimal digit, -1 for any other character. */
  function HexValue(ch: char): int {
    if '0' <= ch <= '9' then ch as int - '0' as int
    else if 'a' <= ch <= 'f' then ch as int - 'a' as int + 10
    else -1
  }

  /** `n.toString(16)`. */
  function HexNumeral(n: nat): string {
    if n < 16 then [HexChar(n)] else HexNumeral(n / 16) + [HexChar(n % 16)]
  }

  function PadStart(s: string, width: nat): string {
    if |s| >= width then s else seq(width - |s|, i => '0') + s
  }

  /** `BigInt("0x" + hex)` for a string of hex digits, and 0 for the empty string. */
  function ParseHex(s: string): int {
    if s == "" then 0 else 16 * ParseHex(s[..|s| - 1]) + HexValue(s[|s| - 1])
  }

  function HexFromBytes(bytes: seq<byte>): string {
    if bytes == [] then ""
    else HexFromBytes(bytes[..|bytes| - 1]) + PadStart(HexNumeral(bytes[|bytes| - 1]), 2)
  }

  ghost predicate IsHex(s: string) {
    forall i :: 0 <= i < |s| ==> 0 <= HexValue(s[i])
  }

  lemma HexValueRange(ch: char)
    ensures -1 <= HexValue(ch) < 16
  {
  }

  /** `bytesFromHex` on lower-case text without prefix: pairs of digits. */
  function BytesFromHex(s: string): seq<byte>
    requires |s| % 2 == 0 && IsHex(s)
  {
    if s == "" then []
    else
      var n := |s| - 2;
      HexValueRange(s[n]);
      HexValueRange(s[n + 1]);
      BytesFromHex(s[..n]) + [16 * HexValue(s[n]) + HexValue(s[n + 1])]
  }

  /** The fixed-width hexadecimal digits of `n` modulo `16^width`. */
  function HexDigits(n: nat, width: nat): (s: string)
    ensures |s| == width && IsHex(s)
  {
    if width == 0 then "" else HexDigits(n / 16, width - 1) + [HexChar(n % 16)]
  }

  lemma PowNibble(width: nat)
    requires 0 < width
    ensures Pow2(4 * width) == 16 * Pow2(4 * (width - 1))
  {
    Pow2Add(4, 4 * (width - 1));
    assert Pow2(4) == 16;
  }

  lemma {:induction false} ZeroDigits(width: nat)
    ensures HexDigits(0, width) == seq(width, i => '0')
  {
    if width > 0 { ZeroDigits(width - 1); }
  }

  /**
   * A numeral fits `width` digits exactly when the number is below `16^width`; padding then gives the fixed-width
   * form.
   */
  lemma {:induction false} PadNumeral(n: nat, width: nat)
    requires 0 < width
    ensures |HexNumeral(n)| <= width <==> n < Pow2(4 * width)
    ensures n < Pow2(4 * width) ==> PadStart(HexNumeral(n), width) == HexDigits(n, width)
  {
    PowNibble(width);
    if n < 16 {
      ZeroDigits(width - 1);
      assert Pow2(4 * (width - 1)) >= 1;
    } else if width == 1 {
      assert Pow2(0) == 1;
      assert |HexNumeral(n / 16)| >= 1;
    } else {
      PadNumeral(n / 16, width - 1);
      var s := HexNumeral(n / 16);
      if n < Pow2(4 * width) {
        assert PadStart(HexNumeral(n), width) == PadStart(s, width - 1) + [HexChar(n % 16)];
      }
    }
  }

  lemma HexDigitsSplit(n: nat, width: nat)
    requires 2 <= width
    ensures HexDigits(n, width) == HexDigits(n / 256, width - 2) + [HexChar(n / 16 % 16), HexChar(n % 16)]
  {
    assert HexDigits(n / 16, width - 1) == HexDigits(n / 16 / 16, width - 2) + [HexChar(n / 16 % 16)];
    assert n / 16 / 16 == n / 256;
  }

  lemma {:induction false} HexDigitsToBytes(n: nat, size: nat)
    ensures BytesFromHex(HexDigits(n, 2 * size)) == ToBE(n, size)
  {
    hide BytesFromHex, HexDigits, HexChar;
    NoDigits(n);
    if size > 0 {
      HexDigitsToBytes(n / 256, size - 1);
      HexDigitsSplit(n, 2 * size);
      BytesFromHexAppend(HexDigits(n / 256, 2 * (size - 1)), n / 16 % 16, n % 16);
      TwoNibbles(n);
    }
  }

  lemma NoDigits(n: nat)
    ensures HexDigits(n, 0) == "" && BytesFromHex("") == []
  {
  }

  lemma TwoNibbles(n: nat)
    ensures 16 * (n / 16 % 16) + n % 16 == n % 256
  {
  }

  lemma BytesFromHexAppend(s: string, a: int, b: int)
    requires |s| % 2 == 0 && IsHex(s) && 0 <= a < 16 && 0 <= b < 16
    ensures IsHex(s + [HexChar(a), HexChar(b)])
    ensures BytesFromHex(s + [HexChar(a), HexChar(b)]) == BytesFromHex(s) + [16 * a + b]
  {
    hide HexChar, HexValue, BytesFromHex, IsHex;
    var t := s + [HexChar(a), HexChar(b)];
    HexAppend(s, HexChar(a), HexChar(b));
    assert t[..|t| - 2] == s;
    LastPair(t, s, a, b);
  }

  lemma HexAppend(s: string, x: char, y: char)
    requires IsHex(s) && 0 <= HexValue(x) && 0 <= HexValue(y)
    ensures IsHex(s + [x, y])
  {
    hide HexValue;
  }

  lemma LastPair(t: string, s: string, a: int, b: int)
    requires 2 <= |t| && |t| % 2 == 0 && IsHex(t) && t[..|t| - 2] == s
    requires HexValue(t[|t| - 2]) == a && HexValue(t[|t| - 1]) == b && 0 <= a < 16 && 0 <= b < 16
    ensures |s| % 2 == 0 && IsHex(s) && BytesFromHex(t) == BytesFromHex(s) + [16 * a + b]
  {
    hide HexValue;
    assert forall i :: 0 <= i < |s| ==> s[i] == t[i];
    assert BytesFromHex(t) == BytesFromHex(t[..|t| - 2]) + [16 * HexValue(t[|t| - 2]) + HexValue(t[|t| - 1])];
  }

  lemma ByteDigits(high: nat, b: byte)
    ensures var v := 256 * high + b; v / 256 == high && v / 16 % 16 == b / 16 % 16 && v % 16 == b % 16
  {
    var w := 16 * high;
    assert 256 * high + b == 16 * w + b;
    assert (16 * w + b) / 16 == w + b / 16;
  }

  lemma {:induction false} BytesToHexDigits(bytes: seq<byte>)
    ensures HexFromBytes(bytes) == HexDigits(FromBE(bytes), 2 * |bytes|)
  {
    if bytes == [] {
    } else {
      hide HexDigits, HexNumeral, PadStart, HexChar;
      var n := |bytes| - 1;
      BytesToHexDigits(bytes[..n]);
      TwoDigits(bytes[n]);
      NextDigits(FromBE(bytes[..n]), bytes[n], n);
    }
  }

  lemma HexCharIs(d: int)
    requires 0 <= d < 16
    ensures HexChar(d) == "0123456789abcdef"[d]
  {
  }

  /** Two lower-case digits for each byte, the high one first. */
  ghost predicate IsHexText(s: string, bytes: seq<byte>) {
    && |s| == 2 * |bytes|
    && forall i :: 0 <= i < |bytes| ==>
         s[2 * i] == "0123456789abcdef"[bytes[i] / 16] && s[2 * i + 1] == "0123456789abcdef"[bytes[i] % 16]
  }

  lemma HexTextAppend(s: string, bytes: seq<byte>, b: byte)
    requires IsHexText(s, bytes)
    ensures IsHexText(s + ["0123456789abcdef"[b / 16], "0123456789abcdef"[b % 16]], bytes + [b])
  {
  }

  lemma ByteText(b: byte)
    ensures PadStart(HexNumeral(b), 2) == ["0123456789abcdef"[b / 16], "0123456789abcdef"[b % 16]]
  {
    hide HexNumeral, PadStart, HexChar;
    TwoDigits(b);
    HexCharIs(b / 16);
    HexCharIs(b % 16);
  }

  lemma {:induction false} AllHexText(bytes: seq<byte>)
    ensures IsHexText(HexFromBytes(bytes), bytes)
  {
    if bytes == [] {
    } else {
      hide HexNumeral, PadStart, IsHexText;
      var n := |bytes| - 1;
      AllHexText(bytes[..n]);
      ByteText(bytes[n]);
      HexTextAppend(HexFromBytes(bytes[..n]), bytes[..n], bytes[n]);
      assert bytes[..n] + [bytes[n]] == bytes;
    }
  }

  /** `hexFromBytes`, digit by digit. */
  lemma HexText(bytes: seq<byte>)
    ensures |HexFromBytes(bytes)| == 2 * |bytes|
    ensures forall i :: 0 <= i < |bytes| ==>
              && HexFromBytes(bytes)[2 * i] == "0123456789abcdef"[bytes[i] / 16]
              && HexFromBytes(bytes)[2 * i + 1] == "0123456789abcdef"[bytes[i] % 16]
  {
    hide HexFromBytes;
    AllHexText(bytes);
  }

  lemma NextDigits(high: nat, b: byte, size: nat)
    ensures HexDigits(256 * high + b, 2 * size + 2) ==
            HexDigits(high, 2 * size) + [HexChar(b / 16 % 16), HexChar(b % 16)]
  {
    hide HexDigits, HexChar;
    ByteDigits(high, b);
    HexDigitsSplit(256 * high + b, 2 * size + 2);
  }

  lemma TwoDigits(b: byte)
    ensures PadStart(HexNumeral(b), 2) == [HexChar(b / 16 % 16), HexChar(b % 16)]
  {
    hide HexNumeral, PadStart, HexChar;
    assert Pow2(8) == 256;
    PadNumeral(b, 2);
    HexDigitsSplit(b, 2);
  }

  lemma {:induction false} ParseHexDigits(n: nat, width: nat)
    requires n < Pow2(4 * width)
    ensures ParseHex(HexDigits(n, width)) == n
  {
    if width > 0 {
      PowNibble(width);
      ParseHexDigits(n / 16, width - 1);
      assert HexDigits(n, width)[..width - 1] == HexDigits(n / 16, width - 1);
    }
  }

  // ----- the code -----

  function BytesToBigIntBE(bytes: seq<byte>): int {
    var hex := HexFromBytes(bytes);
    if hex != "" then ParseHex(hex) else 0
  }

  function BytesToBigIntLE(bytes: seq<byte>): int { BytesToBigIntBE(Reverse(bytes)) }

  function BigIntToBytesBE(value: int, size: nat, p: int): Result<seq<byte>>
    requires 0 < p
  {
    var hex := PadStart(HexNumeral(Mod(value, p)), 2 * size);
    if |hex| > 2 * size then Err(DoesNotFit)
    else
      FitsWhenShort(Mod(value, p), size);
      Ok(BytesFromHex(hex))
  }

  lemma FitsWhenShort(n: nat, size: nat)
    requires |PadStart(HexNumeral(n), 2 * size)| <= 2 * size
    ensures 0 < size && n < Pow2(8 * size) && PadStart(HexNumeral(n), 2 * size) == HexDigits(n, 2 * size)
  {
    if size > 0 {
      PadNumeral(n, 2 * size);
    }
  }

  function BigIntToBytesLE(value: int, size: nat, p: int): Result<seq<byte>>
    requires 0 < p
  {
    var be := BigIntToBytesBE(value, size, p);
    if be.Err? then be else Ok(Reverse(be.value))
  }

  /** The detour through hex text computes the positional value. */
  lemma BytesToBigIntCorrect(bytes: seq<byte>)
    ensures BytesToBigIntBE(bytes) == FromBE(bytes) && BytesToBigIntLE(bytes) == FromLE(bytes)
  {
    FromBERoundTrip(bytes);
    BytesToHexDigits(bytes);
    ParseHexDigits(FromBE(bytes), 2 * |bytes|);
    var r := Reverse(bytes);
    FromBERoundTrip(r);
    BytesToHexDigits(r);
    ParseHexDigits(FromBE(r), 2 * |r|);
  }

  /** `bigIntToBytesBE` throws exactly when the reduced value needs more than `size` bytes. */
  lemma BigIntToBytesIsToBE(value: int, size: nat, p: int)
    requires 0 < p && 0 < size
    ensures BigIntToBytesBE(value, size, p) ==
              if value % p < Pow2(8 * size) then Ok(ToBE(value % p, size)) else Err(DoesNotFit)
  {
    hide Mod, HexNumeral, ToBE;
    var n := Mod(value, p);
    PadNumeral(n, 2 * size);
    if n < Pow2(8 * size) {
      HexDigitsToBytes(n, size);
    }
  }

  /** ... and otherwise both byte orders are inverted by the matching `bytesToBigInt`. */
  lemma BigIntToBytesCorrect(value: int, size: nat, p: int)
    requires 0 < p && 0 < size
    ensures BigIntToBytesBE(value, size, p).Ok? <==> value % p < Pow2(8 * size)
    ensures BigIntToBytesBE(value, size, p).Ok? ==>
              var b := BigIntToBytesBE(value, size, p).value;
              |b| == size && BytesToBigIntBE(b) == value % p
    ensures BigIntToBytesLE(value, size, p).Ok? <==> value % p < Pow2(8 * size)
    ensures BigIntToBytesLE(value, size, p).Ok? ==>
              var b := BigIntToBytesLE(value, size, p).value;
              |b| == size && BytesToBigIntLE(b) == value % p
  {
    hide Mod, BigIntToBytesBE, ToBE, FromBE, BytesToBigIntBE;
    BigIntToBytesIsToBE(value, size, p);
    var b := ToBE(value % p, size);
    BytesToBigIntCorrect(b);
    assert Reverse(Reverse(b)) == b;
    if value % p < Pow2(8 * size) {
      ToBERoundTrip(value % p, size);
    }
  }

  /** Decoding and encoding again restores every byte string whose value is already reduced. */
  lemma BytesRoundTrip(bytes: seq<byte>, p: int)
    requires 0 < p && bytes != [] && FromBE(bytes) < p
    ensures BigIntToBytesBE(BytesToBigIntBE(bytes), |bytes|, p) == Ok(bytes)
  {
    var n := FromBE(bytes);
    BytesToBigIntCorrect(bytes);
    FromBERoundTrip(bytes);
    DivModUnique(n, 0, n, p);
    BigIntToBytesCorrect(n, |bytes|, p);
    var b := BigIntToBytesBE(n, |bytes|, p).value;
    BytesToBigIntCorrect(b);
    FromBEInjective(b, bytes);
  }

  // ----- the top byte of a little-endian string -----

  lemma {:induction false} FromBEPrepend(h: byte, t: seq<byte>)
    ensures FromBE([h] + t) == h * Pow2(8 * |t|) + FromBE(t)
  {
    if t == [] {
      assert ([h] + t)[..0] == [];
    } else {
      var n := |t| - 1;
      assert ([h] + t)[..n + 1] == [h] + t[..n];
      FromBEPrepend(h, t[..n]);
      PowByte(n + 1);
      assert 256 * (h * Pow2(8 * n)) == h * (256 * Pow2(8 * n));
    }
  }

  lemma FromLETop(b: seq<byte>)
    requires b != []
    ensures var n := |b| - 1;
            FromLE(b) == b[n] * Pow2(8 * n) + FromLE(b[..n]) && 0 <= FromLE(b[..n]) < Pow2(8 * n)
  {
    var n := |b| - 1;
    assert Reverse(b) == [b[n]] + Reverse(b[..n]);
    FromBEPrepend(b[n], Reverse(b[..n]));
    FromBERoundTrip(Reverse(b[..n]));
  }
}
