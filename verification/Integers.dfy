/** Every integer kind is read back over its full range, wherever its bytes stand. */
module Integers {
  import opened JsBits
  import opened Varint
  import opened Writer
  import opened Reader
  import opened MessageTree

  predicate IsInt64(v: int) { -0x8000_0000_0000_0000 <= v < 0x8000_0000_0000_0000 }

  lemma Uint32Back(v: nat, buf: seq<byte>, pos: nat)
    requires v < TWO_32 && Placed(buf, pos, Base128(ToUint32(v)))
    ensures ReadVarint(buf, pos).0.Ok? && ReadVarint(buf, pos).0.value % TWO_32 == v
  {
    hide Base128, ReadVarint;
    ReadBack(v, buf, pos);
  }

  lemma Int32Back(v: int, buf: seq<byte>, pos: nat)
    requires IsInt32(v) && Placed(buf, pos, Base128(if v < 0 then v % TWO_64 else ToUint32(v)))
    ensures ReadVarint(buf, pos).0.Ok? && ToInt32(ReadVarint(buf, pos).0.value) == v
  {
    hide Base128, ReadVarint;
    ReadBack(if v < 0 then v % TWO_64 else ToUint32(v), buf, pos);
    if v < 0 {
      assert v % TWO_64 == v + TWO_64 && (v + TWO_64) % TWO_32 == v + TWO_32;
    }
  }

  lemma Sint32Back(v: int, buf: seq<byte>, pos: nat)
    requires IsInt32(v) && Placed(buf, pos, Base128(ZigZag(ToInt32(v))))
    ensures ReadVarint(buf, pos).0.Ok? && UnZigZag(ReadVarint(buf, pos).0.value % TWO_32) == v
  {
    hide Base128, ReadVarint;
    ReadBack(ZigZag(v), buf, pos);
    ZigZagInverse(v, 0);
  }

  lemma Int64Back(v: int, buf: seq<byte>, pos: nat)
    requires IsInt64(v) && Placed(buf, pos, Base128(v % TWO_64))
    ensures ReadVarint(buf, pos).0.Ok? && Signed64(ReadVarint(buf, pos).0.value % TWO_64) == v
  {
    hide Base128, ReadVarint;
    ReadBack(v % TWO_64, buf, pos);
    if v < 0 { assert v % TWO_64 == v + TWO_64; }
  }

  lemma Uint64Back(v: nat, buf: seq<byte>, pos: nat)
    requires v < TWO_64 && Placed(buf, pos, Base128(v % TWO_64))
    ensures ReadVarint(buf, pos).0.Ok? && ReadVarint(buf, pos).0.value % TWO_64 == v
  {
    hide Base128, ReadVarint;
    ReadBack(v, buf, pos);
  }

  lemma Sint64Back(v: int, buf: seq<byte>, pos: nat)
    requires IsInt64(v) && Placed(buf, pos, Base128(ZigZag(Signed64(v % TWO_64))))
    ensures ReadVarint(buf, pos).0.Ok? && UnZigZag(ReadVarint(buf, pos).0.value % TWO_64) == v
  {
    hide Base128, ReadVarint;
    if v < 0 { assert v % TWO_64 == v + TWO_64; }
    ReadBack(ZigZag(v), buf, pos);
    ZigZagInverse(v, 0);
  }

  lemma BoolBack(v: bool, buf: seq<byte>, pos: nat)
    requires Placed(buf, pos, [if v then 1 else 0])
    ensures ReadVarint(buf, pos).0.Ok? && (ReadVarint(buf, pos).0.value % TWO_64 != 0 <==> v)
  {
    hide ReadVarint;
    ReadBack(if v then 1 else 0, buf, pos);
  }

  lemma Fixed32Back(v: int, buf: seq<byte>, pos: nat)
    requires Placed(buf, pos, FixedBytes(ToUint32(v)))
    ensures FixedAt(buf, pos) == ToUint32(v)
    ensures IsInt32(v) ==> ToInt32(FixedAt(buf, pos)) == v
  {
    var u := ToUint32(v);
    forall i | 0 <= i < 4 ensures buf[pos + i] == FixedBytes(u)[i] {
      assert buf[pos..pos + 4][i] == buf[pos + i];
    }
    FourBytes(u);
  }

  lemma FourBytes(u: nat)
    requires u < TWO_32
    ensures u % 256 + 256 * (u / 256 % 256) + 0x1_0000 * (u / 0x1_0000 % 256) + 0x100_0000 * (u / 0x100_0000) == u
  {
  }

  lemma Fixed64Back(v: int, buf: seq<byte>, pos: nat)
    requires Placed(buf, pos, FixedBytes64(v % TWO_64))
    ensures FixedAt(buf, pos) + TWO_32 * FixedAt(buf, pos + 4) == v % TWO_64
    ensures IsInt64(v) ==> Signed64(FixedAt(buf, pos) + TWO_32 * FixedAt(buf, pos + 4)) == v
  {
    hide FixedBytes, FixedAt;
    var u := v % TWO_64;
    PlacedSplit(buf, pos, FixedBytes(u % TWO_32), FixedBytes(u / TWO_32));
    ToUint32Same(u % TWO_32);
    ToUint32Same(u / TWO_32);
    Fixed32Back(u % TWO_32, buf, pos);
    Fixed32Back(u / TWO_32, buf, pos + 4);
    assert u % TWO_32 + TWO_32 * (u / TWO_32) == u;
    if IsInt64(v) && v < 0 { assert u == v + TWO_64; }
  }
}
