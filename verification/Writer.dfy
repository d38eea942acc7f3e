/** `BinaryWriter`: a linked list of write operations with a stack of saved lists. */
module Writer {
  import opened NumberTheory
  import opened JsBits
  import opened Varint
  import opened Decimal
  import opened Utf8

  /** The `{lo, hi}` object of a 64-bit operation; writing it out shifts it down to its last byte. */
  class Int64Bits {
    var lo: nat
    var hi: nat

    constructor (l: nat, h: nat)
      ensures lo == l && hi == h
    {
      lo, hi := l, h;
    }
  }

  /** The function of an operation together with its value. */
  datatype OpVal =
    | Noop
    | Varint32(n: nat)
    | Varint64(bits: Int64Bits)
    | Fixed32(word: int)
    | Byte(b: int)
    | Raw(bytes: seq<byte>)
    | Text(str: seq<unit16>)

  /** The `{lo, hi}` object an operation owns. */
  function BitsOf(val: OpVal): set<Int64Bits> {
    if val.Varint64? then {val.bits} else {}
  }

  /** The four little-endian bytes of a 32-bit word. */
  function FixedBytes(u: nat): (b: seq<byte>)
    requires u < TWO_32
    ensures |b| == 4
  {
    [u % 256, u / 256 % 256, u / 0x1_0000 % 256, u / 0x100_0000]
  }

  /** What is left of a 64-bit value once `w` has been written for it: its last seven-bit group. */
  predicate Spent(bits: Int64Bits, w: seq<byte>)
    reads bits
  {
    bits.hi == 0 && bits.lo < 128 && w != [] && bits.lo == w[|w| - 1]
  }

  function Held(bits: Int64Bits): nat
    reads bits
  {
    U64(bits.lo, bits.hi)
  }

  predicate InRange(val: OpVal)
    reads BitsOf(val)
  {
    match val
    case Varint32(n) => n < TWO_32
    case Varint64(bits) => bits.lo < TWO_32 && bits.hi < TWO_32
    case _ => true
  }

  /** What an operation writes. */
  function Output(val: OpVal): seq<byte>
    reads BitsOf(val)
  {
    match val
    case Noop => []
    case Varint32(n) => Base128(n)
    case Varint64(bits) => Base128(U64(bits.lo, bits.hi))
    case Fixed32(n) => FixedBytes(ToUint32(n))
    case Byte(n) => [n % 256]
    case Raw(bytes) => bytes
    case Text(str) => Encode(str)
  }

  lemma FixedStores(n: int)
    ensures var u := ToUint32(n);
            && BitAnd(n, 255) == u % 256
            && BitAnd(Shr(n, 8), 255) == u / 256 % 256
            && BitAnd(Shr(n, 16), 255) == u / 0x1_0000 % 256
            && Shr(n, 24) == u / 0x100_0000
  {
    hide BitAnd, Shr, Pow2, ToUint32;
    PowTable();
    ShrBy(n, 8, 256);
    ShrBy(n, 16, 0x1_0000);
    ShrBy(n, 24, 0x100_0000);
    LowByteMask(n);
    LowByteMask(Shr(n, 8));
    LowByteMask(Shr(n, 16));
    ToUint32Same(Shr(n, 8));
    ToUint32Same(Shr(n, 16));
  }

  lemma LowByteMask(x: int)
    ensures BitAnd(x, 255) == ToUint32(x) % 256
  {
    hide BitAnd, Pow2;
    PowTable();
    BitAndMask(x, 8);
    var w := Pow2(8);
    assert ToUint32(x) % w == ToUint32(x) % 256;
  }

  class Op {
    const val: OpVal
    const len: nat
    var next: Op?

    constructor (v: OpVal, l: nat)
      ensures val == v && len == l && next == null
    {
      val, len, next := v, l, null;
    }

    /** Runs the operation; afterwards a 64-bit value holds only its last seven-bit group. */
    method Proceed(buf: array<byte>, pos: nat)
      requires InRange(val) && pos + |Output(val)| <= buf.Length
      modifies buf, BitsOf(val)
      ensures Written(buf[..], old(buf[..]), pos, old(Output(val)))
      ensures val.Varint64? ==> Spent(val.bits, old(Output(val)))
    {
      hide Written, Base128, Encode, BitAnd, Shr;
      ghost var b0 := buf[..];
      match val
      case Noop =>
        WriteNothing(b0, pos);
      case Varint32(n) =>
        WriteVarint32(n, buf, pos);
      case Varint64(bits) =>
        var lo, hi := WriteVarint64(bits.lo, bits.hi, buf, pos);
        bits.lo, bits.hi := lo, hi;
      case Fixed32(n) =>
        WriteFixed32(n, buf, pos);
      case Byte(n) =>
        WriteByte(n, buf, pos);
      case Raw(bytes) =>
        WriteBytes(bytes, buf, pos);
      case Text(str) =>
        var n := Utf8Write(str, buf, pos);
    }
  }

  /** A second run of a 64-bit operation writes only the last byte of the first run. */
  lemma SecondRun(bits: Int64Bits, w: seq<byte>)
    requires Spent(bits, w)
    ensures Output(Varint64(bits)) == [w[|w| - 1]]
  {
    LastByte(bits.lo);
    LowOnly(bits.lo);
  }

  method WriteFixed32(val: int, buf: array<byte>, pos: nat)
    requires pos + 4 <= buf.Length
    modifies buf
    ensures Written(buf[..], old(buf[..]), pos, FixedBytes(ToUint32(val)))
  {
    FixedStores(val);
    hide BitAnd, Shr;
    ghost var u, b0 := ToUint32(val), buf[..];
    ghost var w := FixedBytes(u);
    WriteNothing(b0, pos);
    Store(buf, pos, BitAnd(val, 255), b0, pos, []);
    Store(buf, pos + 1, BitAnd(Shr(val, 8), 255), b0, pos, w[..1]);
    assert w[..1] + [w[1]] == w[..2];
    Store(buf, pos + 2, BitAnd(Shr(val, 16), 255), b0, pos, w[..2]);
    assert w[..2] + [w[2]] == w[..3];
    Store(buf, pos + 3, Shr(val, 24), b0, pos, w[..3]);
    assert w[..3] + [w[3]] == w;
  }

  lemma ByteOfValue(val: int)
    ensures BitAnd(val, 255) == val % 256
  {
    hide BitAnd;
    LowByteMask(val);
  }

  method WriteByte(val: int, buf: array<byte>, pos: nat)
    requires pos + 1 <= buf.Length
    modifies buf
    ensures Written(buf[..], old(buf[..]), pos, [val % 256])
  {
    hide BitAnd;
    ByteOfValue(val);
    ghost var b0 := buf[..];
    WriteNothing(b0, pos);
    Store(buf, pos, BitAnd(val, 255), b0, pos, []);
    assert [] + [val % 256] == [val % 256];
  }

  method WriteBytes(val: seq<byte>, buf: array<byte>, pos: nat)
    requires pos + |val| <= buf.Length
    modifies buf
    ensures Written(buf[..], old(buf[..]), pos, val)
  {
    ghost var b0 := buf[..];
    forall i | 0 <= i < |val| {
      buf[pos + i] := val[i];
    }
    assert buf[..] == b0[..pos] + val + b0[pos + |val|..];
  }

  // ----- lists of operations -----

  ghost function Bits(ops: seq<Op>): set<Int64Bits> {
    set o | o in ops && o.val.Varint64? :: o.val.bits
  }

  /** Everything a list owns. */
  ghost function Objects(ops: seq<Op>): set<object> {
    var nodes: set<object> := set o | o in ops;
    var values: set<object> := Bits(ops);
    nodes + values
  }

  /** Linked, pairwise distinct operations with separate value objects, starting at a sentinel. */
  ghost predicate Spine(ops: seq<Op>, head: Op, tail: Op)
    reads ops
  {
    && ops != [] && ops[0] == head && ops[|ops| - 1] == tail && head.val.Noop? && head.len == 0
    && (forall i :: 0 <= i < |ops| - 1 ==> ops[i].next == ops[i + 1])
    && (forall i, j :: 0 <= i < j < |ops| ==> ops[i] != ops[j])
    && (forall i, j :: 0 <= i < j < |ops| && ops[i].val.Varint64? && ops[j].val.Varint64? ==> ops[i].val.bits != ops[j].val.bits)
  }

  ghost predicate Chain(ops: seq<Op>, head: Op, tail: Op)
    reads ops
  {
    Spine(ops, head, tail) && tail in ops && tail.next == null
  }

  /** Appending one operation to a spine whose tail now links to it. */
  lemma SpineAppend(ops: seq<Op>, head: Op, tail: Op, op: Op)
    requires Spine(ops, head, tail) && tail.next == op && op !in ops
    requires op.val.Varint64? ==> op.val.bits !in Bits(ops)
    ensures Spine(ops + [op], head, op)
  {
    var all := ops + [op];
    forall i, j | 0 <= i < j < |all| && all[i].val.Varint64? && all[j].val.Varint64? ensures all[i].val.bits != all[j].val.bits {
      assert all[i] in ops;
    }
  }

  /** Every operation writes no more than the length it announced; once pushed, exactly that much. */
  ghost predicate Intact(ops: seq<Op>)
    reads Bits(ops)
  {
    forall i :: 0 <= i < |ops| ==> InRange(ops[i].val) && |Output(ops[i].val)| <= ops[i].len
  }

  function Zeros(n: nat): (z: seq<byte>)
    ensures |z| == n && forall i :: 0 <= i < n ==> z[i] == 0
  {
    seq(n, _ => 0)
  }

  function Padded(w: seq<byte>, len: nat): (b: seq<byte>)
    ensures |w| <= len ==> |b| == len
  {
    w + Zeros(if |w| <= len then len - |w| else 0)
  }

  /** The bytes an operation takes up in the buffer: what it writes, then zeros up to its announced length. */
  function Block(op: Op): seq<byte>
    reads BitsOf(op.val)
  {
    Padded(Output(op.val), op.len)
  }

  ghost function Emit(ops: seq<Op>): seq<byte>
    reads Bits(ops)
  {
    if ops == [] then [] else Emit(ops[..|ops| - 1]) + Block(ops[|ops| - 1])
  }

  ghost function TotalLen(ops: seq<Op>): nat {
    if ops == [] then 0 else TotalLen(ops[..|ops| - 1]) + ops[|ops| - 1].len
  }

  /** The announced lengths add up to the length of the output. */
  lemma {:induction false} EmitLength(ops: seq<Op>)
    requires Intact(ops)
    ensures |Emit(ops)| == TotalLen(ops)
  {
    hide Output, InRange;
    if ops != [] {
      EmitLength(ops[..|ops| - 1]);
    }
  }

  lemma {:induction false} EmitConcat(a: seq<Op>, b: seq<Op>)
    ensures Emit(a + b) == Emit(a) + Emit(b) && TotalLen(a + b) == TotalLen(a) + TotalLen(b)
  {
    hide Block;
    if b == [] {
      assert a + b == a;
    } else {
      var init, last := b[..|b| - 1], b[|b| - 1];
      assert a + b == (a + init) + [last];
      EmitAppend(a + init, last);
      EmitConcat(a, init);
    }
  }

  lemma EmitAppend(ops: seq<Op>, op: Op)
    ensures Emit(ops + [op]) == Emit(ops) + Block(op) && TotalLen(ops + [op]) == TotalLen(ops) + op.len
  {
    hide Block;
    assert (ops + [op])[..|ops|] == ops;
  }

  /** A saved list: the fields of the writer at the time of a `fork`. */
  class State {
    const head: Op
    const tail: Op
    const len: nat
    const next: State?
    ghost const ops: seq<Op>

    constructor (h: Op, t: Op, l: nat, n: State?, ghost o: seq<Op>)
      ensures head == h && tail == t && len == l && next == n && ops == o
    {
      head, tail, len, next, ops := h, t, l, n, o;
    }
  }

  ghost predicate Frame(ops: seq<Op>, head: Op, tail: Op, len: nat)
    reads Objects(ops)
  {
    Chain(ops, head, tail) && TotalLen(ops) == len && Intact(ops)
  }

  lemma FrameParts(ops: seq<Op>, head: Op, tail: Op, len: nat)
    requires Frame(ops, head, tail, len)
    ensures Spine(ops, head, tail) && Intact(ops) && TotalLen(ops) == len && tail in ops && tail.next == null
  {
  }

  /** A frame whose last operation has just been linked to a new one. */
  lemma AppendedFrame(ops: seq<Op>, head: Op, tail: Op, len: nat, op: Op)
    requires Spine(ops, head, tail) && Intact(ops) && TotalLen(ops) == len
    requires tail.next == op && op !in ops && op.next == null
    requires InRange(op.val) && |Output(op.val)| == op.len && BitsOf(op.val) !! Bits(ops)
    ensures Frame(ops + [op], head, op, len + op.len) && Block(op) == Output(op.val)
  {
    SpineAppend(ops, head, tail, op);
    EmitAppend(ops, op);
    var all := ops + [op];
    assert all[|all| - 1] == op;
  }

  /** The `next` links of the saved states. */
  ghost predicate Linked(states: State?, stack: seq<State>) {
    if stack == [] then states == null else states == stack[0] && Linked(stack[0].next, stack[1..])
  }

  ghost function StackObjects(stack: seq<State>): set<object> {
    if stack == [] then {} else Objects(stack[0].ops) + StackObjects(stack[1..])
  }

  /** Every saved state is a well-formed list, disjoint from the states below it. */
  ghost predicate Frames(stack: seq<State>)
    reads StackObjects(stack)
  {
    stack == [] ||
    (var s := stack[0];
     && Frame(s.ops, s.head, s.tail, s.len)
     && Objects(s.ops) !! StackObjects(stack[1..])
     && Frames(stack[1..]))
  }

  ghost function EmitAll(stack: seq<State>): seq<seq<byte>>
    reads StackObjects(stack)
  {
    if stack == [] then [] else [Emit(stack[0].ops)] + EmitAll(stack[1..])
  }

  lemma ObjectsConcat(a: seq<Op>, b: seq<Op>)
    ensures Objects(a + b) == Objects(a) + Objects(b) && Bits(a + b) == Bits(a) + Bits(b)
  {
    assert forall o :: o in a + b <==> o in a || o in b;
  }

  lemma ObjectsMembers(ops: seq<Op>)
    ensures forall o :: o in ops ==> o in Objects(ops)
    ensures Bits(ops) <= Objects(ops)
  {
  }

  lemma ObjectsSingle(op: Op)
    ensures Objects([op]) == {op} + BitsOf(op.val)
  {
  }

  lemma AppendedObjects(ops: seq<Op>, tail: Op, op: Op)
    requires tail in ops
    ensures Objects(ops + [op]) == Objects(ops) + {op} + BitsOf(op.val)
    ensures Bits(ops) <= Objects(ops) && Bits(ops + [op]) <= Objects(ops + [op])
    ensures tail in Objects(ops) && (op !in Objects(ops) ==> op !in ops)
  {
    hide Objects, Bits;
    ObjectsConcat(ops, [op]);
    ObjectsSingle(op);
    ObjectsMembers(ops);
    ObjectsMembers(ops + [op]);
  }

  /** The loop of `finish`: every operation behind the sentinel is run, each behind the block of the one before it. */
  method RunAll(first: Op?, buf: array<byte>, ghost ops: seq<Op>, ghost outs: seq<seq<byte>>, ghost blocks: seq<seq<byte>>)
    requires ops != [] && |outs| == |blocks| == |ops| && Linear(ops) && first == if |ops| > 1 then ops[1] else null
    requires Consumed(ops[0], outs[0]) && Flatten(blocks[..1]) == []
    requires forall j :: 0 <= j < |ops| ==> Pending(ops[j], outs[j], blocks[j])
    requires forall j, k :: 0 <= j < |ops| && 0 <= k < |ops| && j != k ==> BitsOf(ops[j].val) !! BitsOf(ops[k].val)
    requires forall j :: 0 <= j < |ops| ==> BitsOf(ops[j].val) <= Bits(ops)
    requires buf.Length == |Flatten(blocks)| && buf[..] == Zeros(buf.Length)
    modifies buf, Bits(ops)
    ensures buf[..] == Flatten(blocks) && forall j :: 0 <= j < |ops| ==> Consumed(ops[j], outs[j])
  {
    hide Base128, InRange, Output, Bits, Written, Pending, Consumed, Flatten, Padded, Linear;
    ghost var values: set<object> := Bits(ops);
    assert buf !in values;
    var node, pos := first, 0;
    ghost var i := 1;
    while node != null
      invariant 1 <= i <= |ops| && node == if i < |ops| then ops[i] else null
      invariant pos == |Flatten(blocks[..i])| <= buf.Length && buf[..] == Flatten(blocks[..i]) + Zeros(buf.Length - pos)
      invariant forall j :: i <= j < |ops| ==> Pending(ops[j], outs[j], blocks[j])
      invariant forall j :: 0 <= j < i ==> Consumed(ops[j], outs[j])
      decreases |ops| - i
    {
      PendingParts(ops[i], outs[i], blocks[i]);
      FlattenStep(blocks, i);
      assert forall j :: 0 <= j < |ops| && j != i ==> BitsOf(ops[j].val) !! BitsOf(ops[i].val);
      label Before:
      node.Proceed(buf, pos);
      ConsumedParts(ops[i], outs[i]);
      WrittenBlock(buf[..], old@Before(buf[..]), Flatten(blocks[..i]), outs[i], blocks[i]);
      pos := pos + node.len;
      LinearAt(ops, i);
      node := node.next;
      i := i + 1;
    }
    assert blocks[..i] == blocks;
  }

  class BinaryWriter {
    var len: nat
    var head: Op
    var tail: Op
    var states: State?
    ghost var ops: seq<Op>
    ghost var stack: seq<State>

    ghost function Repr(): set<object>
      reads this
    {
      Objects(ops) + StackObjects(stack)
    }

    /**
     * `len` is the sum of the lengths reachable from `head`, `tail` is the last operation, and the saved
     * states are disjoint lists of the same kind.
     */
    ghost predicate Valid()
      reads this, Repr()
    {
      && this !in Repr()
      && Frame(ops, head, tail, len)
      && Linked(states, stack)
      && Frames(stack)
      && Objects(ops) !! StackObjects(stack)
    }

    /** What the current list writes: the buffer the next `finish` returns. */
    ghost function Content(): seq<byte>
      reads this, Repr()
    {
      Emit(ops)
    }

    /** What the saved lists write, innermost first. */
    ghost function Saved(): seq<seq<byte>>
      reads this, Repr()
    {
      EmitAll(stack)
    }

    constructor ()
      ensures Valid() && fresh(Repr()) && Content() == [] && Saved() == [] && ops == [head]
    {
      var noop := new Op(Noop, 0);
      head, tail, len, states := noop, noop, 0, null;
      ops, stack := [noop], [];
      new;
      EmitAppend([], noop);
      ObjectsSingle(noop);
      assert [] + [noop] == [noop];
    }

    /** Whatever the writer owns now it owned before or has been allocated since. */
    twostate predicate OwnsOnlyNew()
      reads this
    {
      forall o :: o in Repr() ==> o in old(Repr()) || fresh(o)
    }

    /** The current list has grown by the bytes `w`; nothing saved has changed. */
    twostate predicate Appended(w: seq<byte>)
      reads this, Repr()
    {
      && Valid() && OwnsOnlyNew() && fresh(tail)
      && Content() == old(Content()) + w
      && stack == old(stack) && Saved() == old(Saved())
    }

    /** The last operation is a 64-bit one that holds `v` and has announced the length of its encoding. */
    twostate predicate Pushed64(v: nat)
      reads this, Repr()
    {
      && ops == old(ops) + [tail] && tail.val.Varint64? && tail.len == |Base128(v)|
      && tail.val.bits in Repr() && Held(tail.val.bits) == v
    }

    /** No 64-bit operation of the current list takes more than one byte. */
    ghost predicate SmallValues()
      reads this, Repr()
    {
      AllSmall(ops)
    }

    /** `_push`. */
    method Push(val: OpVal, l: nat)
      requires Valid() && InRange(val) && |Output(val)| == l && BitsOf(val) !! Repr()
      modifies this, tail
      ensures Valid() && fresh(tail) && Repr() == old(Repr()) + {tail} + BitsOf(val)
      ensures Content() == old(Content()) + old(Output(val)) && Saved() == old(Saved())
      ensures stack == old(stack) && ops == old(ops) + [tail] && tail.val == val && tail.len == l
    {
      hide Linked, Output, Block, InRange, Frame, Frames, Spine, Chain, Intact, Emit, EmitAll, Objects, StackObjects,
           Bits, TotalLen;
      FrameParts(ops, head, tail, len);
      assert allocated(StackObjects(stack)) && allocated(Objects(ops)) && allocated(Bits(ops));
      var op := new Op(val, l);
      AppendedObjects(ops, tail, op);
      ghost var ops0, tail0, st := ops, tail, stack;
      assert tail0 !in StackObjects(st);
      tail.next := op;
      assert Frames(st) && Emit(ops0) == old(Content());
      AppendedFrame(ops0, head, tail0, len, op);
      EmitAppend(ops0, op);
      tail := op;
      len := len + l;
      ops := ops + [op];
    }

    method Uint32(value: int)
      requires Valid()
      modifies this, tail
      ensures Appended(Base128(ToUint32(value)))
    {
      hide Linked, Frame, Frames, Emit, EmitAll, Objects, StackObjects, Base128;
      VarintThresholds(ToUint32(value));
      HalfRange(value);
      var v := Shr(value, 0);
      Push(Varint32(v), if v < 128 then 1 else if v < 16384 then 2 else if v < 2097152 then 3 else if v < 268435456 then 4 else 5);
    }

    /** A negative value takes ten bytes, as if it were 64 bits wide. */
    method Int32(value: int)
      requires -0x8000_0000_0000_0000 <= value
      requires Valid()
      modifies this, tail
      ensures Appended(Base128(if value < 0 then value % TWO_64 else ToUint32(value)))
    {
      hide Linked, Frame, Frames, Emit, EmitAll, Objects, StackObjects, Base128, SignedNumeral, Int64FromString,
           IsInteger, U64;
      if value < 0 {
        NegativeLength(value);
        Int64OfNumeral(value);
        var (lo, hi) := Int64FromString(SignedNumeral(value));
        PushVarint64(lo, hi, 10);
      } else {
        Uint32(value);
      }
    }

    /** `_push(writeVarint64, l, { lo, hi })`. */
    method PushVarint64(lo: nat, hi: nat, l: nat)
      requires Valid() && lo < TWO_32 && hi < TWO_32 && l == |Base128(U64(lo, hi))|
      modifies this, tail
      ensures Appended(Base128(U64(lo, hi))) && Pushed64(U64(lo, hi))
    {
      hide Linked, Frame, Frames, Emit, EmitAll, Objects, StackObjects, Base128, U64;
      assert allocated(Objects(ops)) && allocated(StackObjects(stack)) && allocated(Bits(ops));
      var bits := new Int64Bits(lo, hi);
      assert bits !in Repr();
      Push(Varint64(bits), l);
    }

    method Sint32(value: int)
      requires Valid()
      modifies this, tail
      ensures Appended(Base128(ZigZag(ToInt32(value))))
    {
      ZigZag32(value);
      hide Linked, Frame, Frames, Emit, EmitAll, Objects, StackObjects, Base128, BitXor, Shl, Sar, ToUint32, ToInt32;
      Uint32(Shr(BitXor(Shl(value, 1), Sar(value, 31)), 0));
    }

    /** `int64` and `uint64`. */
    method Int64(value: int)
      requires Valid()
      modifies this, tail
      ensures Appended(Base128(value % TWO_64)) && Pushed64(value % TWO_64)
    {
      hide Linked, Frame, Frames, Emit, EmitAll, Objects, StackObjects, Base128, SignedNumeral, Int64FromString,
           IsInteger, U64, Int64Length;
      Int64OfNumeral(value);
      var (lo, hi) := Int64FromString(SignedNumeral(value));
      Int64LengthCorrect(lo, hi);
      PushVarint64(lo, hi, Int64Length(lo, hi));
    }

    method Sint64(value: int)
      requires Valid()
      modifies this, tail
      ensures Appended(Base128(ZigZag(Signed64(value % TWO_64))))
    {
      hide Linked, Frame, Frames, Emit, EmitAll, Objects, StackObjects, Base128, SignedNumeral, Int64FromString,
           IsInteger, U64, I64, Int64Length, ZzEncode;
      Int64OfNumeral(value);
      var (lo0, hi0) := Int64FromString(SignedNumeral(value));
      ZzEncodeCorrect(lo0, hi0);
      I64OfU64(lo0, hi0);
      var (lo, hi) := ZzEncode(lo0, hi0);
      Int64LengthCorrect(lo, hi);
      PushVarint64(lo, hi, Int64Length(lo, hi));
    }

    /** `fixed32` and `sfixed32`. */
    method Fixed32(value: int)
      requires Valid()
      modifies this, tail
      ensures Appended(FixedBytes(ToUint32(value)))
    {
      hide Linked, Frame, Frames, Emit, EmitAll, Objects, StackObjects, Base128, FixedBytes, ToUint32;
      HalfRange(value);
      ToUint32Same(ToUint32(value));
      Push(OpVal.Fixed32(Shr(value, 0)), 4);
    }

    /** `fixed64` and `sfixed64`: the low word, then the high word. */
    method Fixed64(value: int)
      requires Valid()
      modifies this, tail
      ensures Appended(FixedBytes64(value % TWO_64))
    {
      hide Linked, Frame, Frames, Emit, EmitAll, Objects, StackObjects, Base128, FixedBytes, SignedNumeral,
           Int64FromString, IsInteger, U64;
      Int64OfNumeral(value);
      var (lo, hi) := Int64FromString(SignedNumeral(value));
      FixedHalves(value, lo, hi);
      Push(OpVal.Fixed32(lo), 4);
      Push(OpVal.Fixed32(hi), 4);
    }

    method Bool(value: bool)
      requires Valid()
      modifies this, tail
      ensures Appended([if value then 1 else 0])
    {
      hide Linked, Frame, Frames, Emit, EmitAll, Objects, StackObjects, Base128;
      Push(Byte(if value then 1 else 0), 1);
    }

    method Bytes(value: seq<byte>)
      requires Valid() && |value| < TWO_32
      modifies this, tail
      ensures Appended(Base128(|value|) + value)
    {
      hide Linked, Frame, Frames, Emit, EmitAll, Objects, StackObjects, Base128;
      var length := Shr(|value|, 0);
      HalfRange(|value|);
      ToUint32Same(|value|);
      if length == 0 {
        LastByte(0);
        Push(Byte(0), 1);
        assert [0] + value == [0];
      } else {
        Uint32(length);
        Push(Raw(value), length);
      }
    }

    method String(value: seq<unit16>)
      requires Valid()
      modifies this, tail
      ensures Appended(Base128(ToUint32(|Encode(value)|)) + Encode(value))
    {
      hide Linked, Frame, Frames, Emit, EmitAll, Objects, StackObjects, Base128, Encode, ToUint32;
      assert allocated(Objects(ops)) && allocated(StackObjects(stack)) && allocated(Bits(ops));
      var length := Utf8Length(value);
      if length != 0 {
        Uint32(length);
        Push(Text(value), length);
      } else {
        LastByte(0);
        ToUint32Same(0);
        Push(Byte(0), 1);
        assert [0] + Encode(value) == [0];
      }
    }

    method Tag(fieldNo: int, wireType: nat)
      requires Valid() && wireType < 8
      modifies this, tail
      ensures Appended(Base128(ToUint32(8 * fieldNo + wireType)))
    {
      hide Linked, Frame, Frames, Emit, EmitAll, Objects, StackObjects, Base128, BitOr, Shl, ToUint32;
      TagValue(fieldNo, wireType);
      Uint32(Shr(BitOr(Shl(fieldNo, 3), wireType), 0));
    }

    /** Saves the current list and starts an empty one. */
    method Fork()
      requires Valid()
      modifies this
      ensures Valid() && OwnsOnlyNew() && fresh(tail)
      ensures Content() == [] && Saved() == [old(Content())] + old(Saved())
    {
      hide Linked, Frame, Frames, Emit, EmitAll, Objects, StackObjects, Base128;
      assert allocated(Objects(ops)) && allocated(StackObjects(stack)) && allocated(Bits(ops));
      var st := new State(head, tail, len, states, ops);
      states := st;
      stack := [st] + stack;
      var noop := new Op(Noop, 0);
      head, tail := noop, noop;
      len := 0;
      ops := [noop];
      StackPush(st, stack[1..]);
      EmptyFrame(noop);
    }

    /** Drops the current list and goes back to the one saved last, or to an empty one. */
    method Reset()
      requires Valid()
      modifies this
      ensures Valid() && OwnsOnlyNew()
      ensures if old(Saved()) == [] then Content() == [] && Saved() == [] && fresh(tail) && Repr() == {tail}
              else Content() == old(Saved())[0] && Saved() == old(Saved())[1..] && Repr() == old(StackObjects(stack))
    {
      hide Linked, Frame, Frames, Emit, EmitAll, Objects, StackObjects, Base128;
      StackTop(stack, states);
      if states != null {
        ObjectsMembers(states.ops);
        head, tail, len, states := states.head, states.tail, states.len, states.next;
        ops, stack := stack[0].ops, stack[1..];
        assert old(Saved())[1..] == EmitAll(stack);
      } else {
        var noop := new Op(Noop, 0);
        head, tail := noop, noop;
        len := 0;
        ops := [noop];
        EmptyFrame(noop);
      }
    }

    /** The end of `ldelim`: the operations after `first`, up to `last`, join the current list without being copied. */
    method Link(first: Op, last: Op, l: nat, ghost child: seq<Op>)
      requires Valid() && Frame(child, first, last, l) && l != 0
      requires Objects(child) !! Repr() && this !in Objects(child)
      modifies this, tail
      ensures Valid() && Repr() <= old(Repr()) + Objects(child)
      ensures Content() == old(Content()) + old(Emit(child)) && Saved() == old(Saved()) && stack == old(stack)
    {
      hide Linked, Frame, Frames, Emit, EmitAll, Objects, StackObjects, Base128, Bits, Intact, Chain, TotalLen;
      FrameParts(ops, head, tail, len);
      ObjectsMembers(ops);
      ObjectsMembers(child);
      FrameParts(child, first, last, l);
      LongEnough(child, first, last);
      assert tail in Objects(ops) && tail !in StackObjects(stack) && tail !in Objects(child);
      ghost var ops0, tail0 := ops, tail;
      tail.next := first.next;
      assert Frames(stack) && Frame(child, first, last, l);
      JoinedFrame(ops0, head, tail0, len, child, first, last, l);
      tail := last;
      len := len + l;
      ops := ops + child[1..];
      ObjectsMembers(ops);
    }

    /** Appends the current list, prefixed with its length, to the list saved last. */
    method Ldelim()
      requires Valid()
      modifies this, Repr()
      ensures Valid() && OwnsOnlyNew()
      ensures var child, parent := old(Content()), if old(Saved()) == [] then [] else old(Saved())[0];
              Content() == parent + Base128(ToUint32(|child|)) + child
      ensures Saved() == if old(Saved()) == [] then [] else old(Saved())[1..]
    {
      hide Linked, Frame, Frames, Emit, EmitAll, Objects, StackObjects, Base128, Bits, Intact, Chain, TotalLen,
           ToUint32;
      var head, tail, len := this.head, this.tail, this.len;
      ghost var child, st := ops, stack;
      FrameParts(child, head, tail, len);
      EmitLength(child);
      ObjectsMembers(child);
      assert allocated(Objects(child)) && allocated(StackObjects(st)) && allocated(Bits(child));
      Reset();
      FrameParts(ops, this.head, this.tail, this.len);
      ObjectsMembers(ops);
      assert Objects(child) !! Repr();
      assert Frame(child, head, tail, len);
      assert allocated(Repr()) && allocated(Objects(child));
      Uint32(len);
      assert Frame(child, head, tail, len) && Emit(child) == old(Content());
      assert Objects(child) !! Repr();
      if len != 0 {
        Link(head, tail, len, child);
      }
    }

    /**
     * Every call emits exactly the content. Writing a 64-bit value out shifts its object down to the last byte
     * written, so the content changes with the call, unless no 64-bit operation takes more than one byte.
     */
    method Finish() returns (buf: array<byte>)
      requires Valid()
      modifies Bits(ops)
      ensures fresh(buf) && buf[..] == old(Content())
      ensures Valid() && Saved() == old(Saved())
      ensures forall j :: 0 <= j < |ops| && ops[j].val.Varint64? ==> Spent(ops[j].val.bits, old(Output(ops[j].val)))
      ensures SmallValues() && (Content() == old(Content()) <==> old(SmallValues()))
    {
      hide Linked, Frame, Frames, EmitAll, StackObjects, Objects, Base128, InRange, Output, Outputs, Blocks, Emit,
           TotalLen, Bits, Pending, Consumed, Flatten, Block, Chain, Encoded, OneByteEach, AllSmall, Linear;
      assert allocated(Bits(ops)) && allocated(Objects(ops)) && allocated(StackObjects(stack));
      ghost var outs, blocks := Outputs(ops), Blocks(ops);
      FinishStart(ops, head, tail, len, outs, blocks);
      ObjectsMembers(ops);
      LinearAt(ops, 0);
      buf := new byte[len](_ => 0);
      RunAll(head.next, buf, ops, outs, blocks);
      FinishEnd(ops, head, tail, len, outs, blocks);
    }
  }
  /** `int64(128)` is emitted as `80 01` by the first `finish` and as `01 00` by the second. */
  method FinishTwice() returns (first: array<byte>, second: array<byte>)
    ensures first[..] == [0x80, 1] && second[..] == [1, 0]
  {
    hide BinaryWriter.Valid, BinaryWriter.Repr, Bits, Block, Emit, Base128, AllSmall;
    var writer := new BinaryWriter();
    TailOwned(writer);
    writer.Int64(128);
    Bytes128();
    assert [] + Base128(128) == [0x80, 1];
    OwnedBits(writer);
    TwoOps(writer);
    ghost var tail := writer.tail;
    assert tail == writer.ops[1] && Output(tail.val) == [0x80, 1];
    first := writer.Finish();
    TwoOps(writer);
    Emit128(writer.head, writer.tail);
    OwnedBits(writer);
    second := writer.Finish();
  }

  lemma TailOwned(writer: BinaryWriter)
    requires writer.Valid()
    ensures writer.tail in writer.Repr()
  {
  }

  lemma OwnedBits(writer: BinaryWriter)
    ensures Bits(writer.ops) <= writer.Repr()
  {
  }

  lemma TwoOps(writer: BinaryWriter)
    requires writer.Valid() && |writer.ops| == 2
    ensures writer.ops == [writer.head, writer.tail] && writer.head.val.Noop? && writer.head.len == 0
  {
  }

  lemma Emit128(head: Op, tail: Op)
    requires head.val.Noop? && head.len == 0
    requires tail.val.Varint64? && tail.len == 2 && Spent(tail.val.bits, [0x80, 1])
    ensures Emit([head, tail]) == [1, 0]
  {
    assert [head, tail] == [head] + [tail] && [] + [head] == [head];
    EmitAppend([], head);
    EmitAppend([head], tail);
    SecondRun(tail.val.bits, [0x80, 1]);
  }

  lemma Bytes128()
    ensures Base128(128) == [0x80, 1]
  {
  }

  ghost predicate AllSmall(ops: seq<Op>)
    reads Bits(ops)
  {
    forall j :: 0 <= j < |ops| && ops[j].val.Varint64? ==> Held(ops[j].val.bits) < 128
  }

  ghost function Outputs(ops: seq<Op>): (outs: seq<seq<byte>>)
    reads Bits(ops)
    ensures |outs| == |ops|
  {
    if ops == [] then [] else Outputs(ops[..|ops| - 1]) + [Output(ops[|ops| - 1].val)]
  }

  ghost function Blocks(ops: seq<Op>): (blocks: seq<seq<byte>>)
    reads Bits(ops)
    ensures |blocks| == |ops|
  {
    if ops == [] then [] else Blocks(ops[..|ops| - 1]) + [Block(ops[|ops| - 1])]
  }

  lemma {:induction false} OutputsAt(ops: seq<Op>)
    ensures forall i :: 0 <= i < |ops| ==> Outputs(ops)[i] == Output(ops[i].val) && Blocks(ops)[i] == Block(ops[i])
  {
    hide Output, Block;
    if ops != [] {
      OutputsAt(ops[..|ops| - 1]);
    }
  }

  ghost function Flatten(s: seq<seq<byte>>): seq<byte> {
    if s == [] then [] else Flatten(s[..|s| - 1]) + s[|s| - 1]
  }

  /** The operation has not been run in this call. */
  ghost predicate Pending(op: Op, w: seq<byte>, block: seq<byte>)
    reads BitsOf(op.val)
  {
    InRange(op.val) && Output(op.val) == w && |w| <= op.len && block == Padded(w, op.len)
  }

  /** The operation has been run in this call. */
  ghost predicate Consumed(op: Op, w: seq<byte>)
    reads BitsOf(op.val)
  {
    if op.val.Varint64? then Spent(op.val.bits, w) else InRange(op.val) && Output(op.val) == w
  }

  ghost predicate Linear(ops: seq<Op>)
    reads ops
  {
    forall j :: 0 <= j < |ops| ==> ops[j].next == if j + 1 < |ops| then ops[j + 1] else null
  }

  lemma LinearAt(ops: seq<Op>, i: nat)
    requires Linear(ops) && i < |ops|
    ensures ops[i].next == if i + 1 < |ops| then ops[i + 1] else null
  {
  }

  lemma PendingParts(op: Op, w: seq<byte>, block: seq<byte>)
    requires Pending(op, w, block)
    ensures InRange(op.val) && Output(op.val) == w && |w| <= op.len && block == Padded(w, op.len)
  {
  }

  lemma ConsumedParts(op: Op, w: seq<byte>)
    requires if op.val.Varint64? then Spent(op.val.bits, w) else InRange(op.val) && Output(op.val) == w
    ensures Consumed(op, w)
  {
  }

  lemma {:induction false} FlattenBound(s: seq<seq<byte>>, i: nat)
    requires i <= |s|
    ensures |Flatten(s[..i])| <= |Flatten(s)|
  {
    if i == |s| {
      assert s[..i] == s;
    } else {
      assert s[..|s| - 1][..i] == s[..i];
      FlattenBound(s[..|s| - 1], i);
    }
  }

  lemma FlattenStep(s: seq<seq<byte>>, i: nat)
    requires i < |s|
    ensures Flatten(s[..i + 1]) == Flatten(s[..i]) + s[i] && |Flatten(s[..i + 1])| <= |Flatten(s)|
  {
    assert s[..i + 1][..i] == s[..i];
    FlattenBound(s, i + 1);
  }

  lemma {:induction false} EmitIsFlatten(ops: seq<Op>)
    ensures Emit(ops) == Flatten(Blocks(ops))
  {
    hide Block;
    if ops != [] {
      EmitIsFlatten(ops[..|ops| - 1]);
    }
  }

  /** Pieces of the same lengths join to the same bytes only if they are the same. */
  lemma {:induction false} FlattenInjective(a: seq<seq<byte>>, b: seq<seq<byte>>)
    requires |a| == |b| && forall i :: 0 <= i < |a| ==> |a[i]| == |b[i]|
    ensures |Flatten(a)| == |Flatten(b)|
    ensures Flatten(a) == Flatten(b) ==> a == b
  {
    if a != [] {
      var n := |a| - 1;
      var s, t := a[..n], b[..n];
      FlattenInjective(s, t);
      SplitEqual(Flatten(s), a[n], Flatten(t), b[n]);
      assert Flatten(a) == Flatten(s) + a[n] && Flatten(b) == Flatten(t) + b[n];
      assert a == s + [a[n]] && b == t + [b[n]];
    }
  }

  lemma SplitEqual(a: seq<byte>, x: seq<byte>, b: seq<byte>, y: seq<byte>)
    requires |a| == |b|
    ensures a + x == b + y ==> a == b && x == y
  {
    assert (a + x)[..|a|] == a && (a + x)[|a|..] == x;
    assert (b + y)[..|b|] == b && (b + y)[|b|..] == y;
  }

  lemma FinishStart(ops: seq<Op>, head: Op, tail: Op, len: nat, outs: seq<seq<byte>>, blocks: seq<seq<byte>>)
    requires Frame(ops, head, tail, len) && outs == Outputs(ops) && blocks == Blocks(ops)
    ensures Chain(ops, head, tail) && TotalLen(ops) == len && Linear(ops)
    ensures ops != [] && ops[0] == head && Consumed(head, outs[0]) && Flatten(blocks[..1]) == []
    ensures |Flatten(blocks)| == len && Flatten(blocks) == Emit(ops)
    ensures forall j :: 0 <= j < |ops| ==> Pending(ops[j], outs[j], blocks[j]) && outs[j] == Output(ops[j].val)
    ensures forall j, k :: 0 <= j < |ops| && 0 <= k < |ops| && j != k ==> BitsOf(ops[j].val) !! BitsOf(ops[k].val)
    ensures forall j :: 0 <= j < |ops| ==> BitsOf(ops[j].val) <= Bits(ops)
    ensures Encoded(ops, outs, blocks)
    ensures AllSmall(ops) <==> OneByteEach(ops, outs)
  {
    hide Output, InRange, Padded, Encoded, OneByteEach, AllSmall, Emit, Flatten;
    EmitIsFlatten(ops);
    EmitLength(ops);
    OutputsAt(ops);
    EncodedStart(ops, outs, blocks);
    SentinelStart(head, outs[0], blocks);
  }

  /** The sentinel writes nothing. */
  lemma SentinelStart(head: Op, w: seq<byte>, blocks: seq<seq<byte>>)
    requires head.val.Noop? && head.len == 0 && w == Output(head.val) && blocks != [] && blocks[0] == Block(head)
    ensures Consumed(head, w) && Flatten(blocks[..1]) == []
  {
    FlattenStep(blocks, 0);
    assert blocks[..0] == [];
  }

  lemma EncodedStart(ops: seq<Op>, outs: seq<seq<byte>>, blocks: seq<seq<byte>>)
    requires Intact(ops) && outs == Outputs(ops) && blocks == Blocks(ops)
    ensures Encoded(ops, outs, blocks)
    ensures AllSmall(ops) <==> OneByteEach(ops, outs)
  {
    hide Base128, Encode, FixedBytes, Padded, InRange, Outputs, Blocks;
    OutputsAt(ops);
    forall j | 0 <= j < |ops| && ops[j].val.Varint64?
      ensures IsVarint(outs[j]) && (|outs[j]| == 1 <==> Held(ops[j].val.bits) < 128)
    {
      OneByte(Held(ops[j].val.bits));
    }
  }

  ghost predicate IsVarint(w: seq<byte>) { exists v :: w == Base128(v) }

  /** The 64-bit operations wrote varints that fit their announced lengths. */
  ghost predicate Encoded(ops: seq<Op>, outs: seq<seq<byte>>, blocks: seq<seq<byte>>)
    requires |ops| == |outs| == |blocks|
  {
    forall j :: 0 <= j < |ops| ==>
      && |outs[j]| <= ops[j].len && blocks[j] == Padded(outs[j], ops[j].len)
      && (ops[j].val.Varint64? ==> IsVarint(outs[j]))
  }

  ghost predicate OneByteEach(ops: seq<Op>, outs: seq<seq<byte>>)
    requires |ops| == |outs|
  {
    forall j :: 0 <= j < |ops| && ops[j].val.Varint64? ==> |outs[j]| == 1
  }

  lemma OneByte(v: nat)
    ensures |Base128(v)| == 1 <==> v < 128
  {
  }

  /** Replacing a varint by its last byte leaves the block alone exactly when the varint had one byte. */
  lemma LastByteBlock(v: nat, last: byte, len: nat)
    requires |Base128(v)| <= len && last < 128 && last == Base128(v)[|Base128(v)| - 1]
    ensures Padded([last], len) == Padded(Base128(v), len) <==> |Base128(v)| == 1
  {
    var w := Base128(v);
    if |w| == 1 {
      assert w == [last];
    } else {
      assert w[0] >= 128;
      assert Padded([last], len)[0] == last && Padded(w, len)[0] == w[0];
    }
  }

  /** One operation after a call: what it would write next. */
  lemma ConsumedOp(op: Op, w: seq<byte>)
    requires Consumed(op, w) && |w| <= op.len && (op.val.Varint64? ==> IsVarint(w))
    ensures InRange(op.val) && |Output(op.val)| <= op.len
    ensures op.val.Varint64? ==> Held(op.val.bits) < 128
    ensures Block(op) == Padded(w, op.len) <==> !op.val.Varint64? || |w| == 1
  {
    hide Base128, Padded;
    if op.val.Varint64? {
      var v :| w == Base128(v);
      SecondRun(op.val.bits, w);
      LastByteBlock(v, op.val.bits.lo, op.len);
      LowOnly(op.val.bits.lo);
    }
  }

  lemma FinishEnd(ops: seq<Op>, head: Op, tail: Op, len: nat, outs: seq<seq<byte>>, blocks: seq<seq<byte>>)
    requires |ops| == |outs| == |blocks| && Encoded(ops, outs, blocks) && Chain(ops, head, tail) && TotalLen(ops) == len
    requires forall j :: 0 <= j < |ops| ==> Consumed(ops[j], outs[j])
    ensures Frame(ops, head, tail, len) && AllSmall(ops)
    ensures forall j :: 0 <= j < |ops| && ops[j].val.Varint64? ==> Spent(ops[j].val.bits, outs[j])
    ensures Emit(ops) == Flatten(blocks) <==> OneByteEach(ops, outs)
  {
    hide Output, InRange, Block, Padded, Chain, Base128, TotalLen;
    forall j | 0 <= j < |ops|
      ensures InRange(ops[j].val) && |Output(ops[j].val)| <= ops[j].len
      ensures ops[j].val.Varint64? ==> Held(ops[j].val.bits) < 128
      ensures Block(ops[j]) == blocks[j] <==> !ops[j].val.Varint64? || |outs[j]| == 1
      ensures |Block(ops[j])| == |blocks[j]|
    {
      ConsumedOp(ops[j], outs[j]);
      BlockLength(ops[j]);
    }
    OutputsAt(ops);
    EmitIsFlatten(ops);
    FlattenInjective(Blocks(ops), blocks);
    assert Blocks(ops) == blocks <==> forall j :: 0 <= j < |ops| ==> Block(ops[j]) == blocks[j];
  }

  lemma BlockLength(op: Op)
    ensures |Output(op.val)| <= op.len ==> |Block(op)| == op.len
  {
    hide Output;
  }

  /** One block has been written behind the blocks before it, over the zeros of a new buffer. */
  lemma WrittenBlock(b: seq<byte>, b0: seq<byte>, done: seq<byte>, w: seq<byte>, block: seq<byte>)
    requires |done| + |block| <= |b0| && b0 == done + Zeros(|b0| - |done|)
    requires |w| <= |block| && block == Padded(w, |block|) && Written(b, b0, |done|, w)
    ensures |b| == |b0| && b == done + block + Zeros(|b0| - |done| - |block|)
  {
  }

  lemma LongEnough(child: seq<Op>, first: Op, last: Op)
    requires Spine(child, first, last)
    ensures TotalLen(child) != 0 ==> |child| > 1 && first.next == child[1]
  {
    SentinelOnly(child, first, last);
    assert |child| == 1 ==> child == [first];
  }

  /** Linking the operations of `child`, without its sentinel, behind another list. */
  lemma JoinedFrame(ops: seq<Op>, head: Op, tail: Op, len: nat, child: seq<Op>, childHead: Op, childTail: Op, childLen: nat)
    requires Spine(ops, head, tail) && Intact(ops) && TotalLen(ops) == len
    requires Frame(child, childHead, childTail, childLen) && |child| > 1
    requires tail.next == child[1] && Objects(ops) !! Objects(child)
    ensures Frame(ops + child[1..], head, childTail, len + childLen)
    ensures Emit(ops + child[1..]) == Emit(ops) + Emit(child)
    ensures Objects(ops + child[1..]) <= Objects(ops) + Objects(child)
  {
    hide Frames, EmitAll, StackObjects, Base128, Linked, Objects, Bits, Output, InRange, TotalLen, Spine, Emit,
         Intact, Frame, Chain;
    FrameParts(child, childHead, childTail, childLen);
    SentinelOnly(child, childHead, childTail);
    var rest := child[1..];
    EmitConcat(ops, rest);
    JoinedContent(ops, child, childHead);
    JoinedSpine(ops, head, tail, child, childHead, childTail);
    JoinedIntact(ops, child);
    FrameOfParts(ops + rest, head, childTail, len + childLen);
  }

  lemma JoinedContent(ops: seq<Op>, child: seq<Op>, childHead: Op)
    requires child != [] && child == [childHead] + child[1..] && Emit([childHead]) == [] && TotalLen([childHead]) == 0
    ensures Emit(ops + child[1..]) == Emit(ops) + Emit(child) && TotalLen(ops + child[1..]) == TotalLen(ops) + TotalLen(child)
    ensures Objects(ops + child[1..]) <= Objects(ops) + Objects(child)
  {
    hide Emit, TotalLen, Objects, Bits;
    var rest := child[1..];
    EmitConcat([childHead], rest);
    EmitConcat(ops, rest);
    ObjectsConcat(ops, rest);
    ObjectsConcat([childHead], rest);
  }

  lemma FrameOfParts(ops: seq<Op>, head: Op, tail: Op, len: nat)
    requires Spine(ops, head, tail) && Intact(ops) && TotalLen(ops) == len && tail in ops && tail.next == null
    ensures Frame(ops, head, tail, len)
  {
    hide Output, InRange, TotalLen;
  }

  lemma JoinedIntact(ops: seq<Op>, child: seq<Op>)
    requires Intact(ops) && Intact(child) && |child| > 1
    ensures Intact(ops + child[1..])
  {
    hide Output, InRange, Bits;
  }

  lemma SentinelOnly(child: seq<Op>, head: Op, tail: Op)
    requires Spine(child, head, tail)
    ensures child == [head] + child[1..] && Emit([head]) == [] && TotalLen([head]) == 0
    ensures |child| > 1 ==> tail in child[1..]
  {
    EmitAppend([], head);
    assert [] + [head] == [head];
    assert |child| > 1 ==> child[1..][|child| - 2] == tail;
  }

  lemma JoinedSpine(ops: seq<Op>, head: Op, tail: Op, child: seq<Op>, childHead: Op, childTail: Op)
    requires Spine(ops, head, tail) && Spine(child, childHead, childTail) && |child| > 1
    requires tail.next == child[1] && Objects(ops) !! Objects(child)
    ensures Spine(ops + child[1..], head, childTail)
  {
    hide Objects;
    ObjectsMembers(ops);
    ObjectsMembers(child);
    BitsMembers(ops);
    BitsMembers(child);
    var all := ops + child[1..];
    var n := |ops|;
    forall i | 0 <= i < |all| ensures all[i] == if i < n then ops[i] else child[i - n + 1] {
    }
    forall i, j | 0 <= i < j < |all| ensures all[i] != all[j] {
      assert all[i] in ops || all[i] in child;
      assert all[j] in ops || all[j] in child;
    }
  }

  lemma BitsMembers(ops: seq<Op>)
    ensures forall o :: o in ops && o.val.Varint64? ==> o.val.bits in Bits(ops)
  {
  }

  lemma EmptyFrame(noop: Op)
    requires noop.val == Noop && noop.len == 0 && noop.next == null
    ensures Frame([noop], noop, noop, 0) && Emit([noop]) == [] && Objects([noop]) == {noop}
  {
    EmitAppend([], noop);
    assert [] + [noop] == [noop];
    ObjectsSingle(noop);
  }

  lemma StackPush(s: State, rest: seq<State>)
    ensures StackObjects([s] + rest) == Objects(s.ops) + StackObjects(rest)
    ensures EmitAll([s] + rest) == [Emit(s.ops)] + EmitAll(rest)
    ensures Frames([s] + rest) <==>
              Frame(s.ops, s.head, s.tail, s.len) && Objects(s.ops) !! StackObjects(rest) && Frames(rest)
    ensures Linked(s, [s] + rest) <==> Linked(s.next, rest)
  {
    assert ([s] + rest)[1..] == rest;
  }

  /** The saved state on top of the stack, if there is one. */
  lemma StackTop(stack: seq<State>, states: State?)
    requires Linked(states, stack) && Frames(stack)
    ensures states == null <==> stack == []
    ensures |EmitAll(stack)| == |stack|
    ensures stack == [] ==> StackObjects(stack) == {}
    ensures states != null ==>
              && stack == [states] + stack[1..]
              && Frame(states.ops, states.head, states.tail, states.len) && Frames(stack[1..]) && Linked(states.next, stack[1..])
              && Objects(states.ops) !! StackObjects(stack[1..])
              && StackObjects(stack) == Objects(states.ops) + StackObjects(stack[1..])
              && EmitAll(stack) == [Emit(states.ops)] + EmitAll(stack[1..])
  {
    if stack != [] {
      StackTop(stack[1..], stack[0].next) ;
    }
  }

  /** The eight little-endian bytes of a 64-bit word. */
  function FixedBytes64(u: nat): seq<byte>
    requires u < TWO_64
  {
    FixedBytes(u % TWO_32) + FixedBytes(u / TWO_32)
  }

  lemma FixedHalves(value: int, lo: nat, hi: nat)
    requires lo < TWO_32 && hi < TWO_32 && U64(lo, hi) == value % TWO_64
    ensures FixedBytes64(value % TWO_64) == FixedBytes(ToUint32(lo)) + FixedBytes(ToUint32(hi))
  {
    ToUint32Same(lo);
    ToUint32Same(hi);
    SplitWords(lo, hi);
  }

  /** `((fieldNo << 3) | type) >>> 0`. */
  lemma TagValue(fieldNo: int, wireType: nat)
    requires wireType < 8
    ensures ToUint32(Shr(BitOr(Shl(fieldNo, 3), wireType), 0)) == ToUint32(8 * fieldNo + wireType)
  {
    hide Shl, BitOr, Pow2, ToUint32;
    PowTable();
    var u := ToUint32(fieldNo);
    ToUint32Same(wireType);
    ToUint32Same(u);
    ShlSame(fieldNo, 3);
    Concat32(wireType, u, 3);
    BitOrCommutes(Shl(fieldNo, 3), wireType);
    HalfRange(BitOr(wireType, Shl(u, 3)));
    ToUint32Mod(8 * fieldNo + wireType);
    ToUint32Mod(fieldNo);
    ToUint32Mod(Shr(BitOr(Shl(fieldNo, 3), wireType), 0));
    TagArithmetic(fieldNo, wireType);
  }

  lemma TagArithmetic(f: int, t: nat)
    ensures (t + f % TWO_32 * 8) % TWO_32 == (8 * f + t) % TWO_32
  {
    AddWords(t + f % TWO_32 * 8, 8 * (f / TWO_32));
  }

  lemma BitOrCommutes(x: int, y: int)
    ensures BitOr(x, y) == BitOr(y, x)
  {
    OrCommutes(ToUint32(x), ToUint32(y));
  }

  lemma I64OfU64(lo: int, hi: int)
    ensures I64(lo, hi) == Signed64(U64(lo, hi))
  {
  }

  lemma VarintThresholds(v: nat)
    ensures |Base128(v)| <= 1 <==> v < 128
    ensures |Base128(v)| <= 2 <==> v < 16384
    ensures |Base128(v)| <= 3 <==> v < 2097152
    ensures |Base128(v)| <= 4 <==> v < 268435456
    ensures v < TWO_32 ==> |Base128(v)| <= 5
  {
    hide Base128, Pow2;
    PowTable();
    VarintLength(v, 1);
    VarintLength(v, 2);
    VarintLength(v, 3);
    VarintLength(v, 4);
    VarintWidth(v);
  }

  lemma NegativeLength(value: int)
    requires -0x8000_0000_0000_0000 <= value < 0
    ensures |Base128(value % TWO_64)| == 10
  {
    hide Base128, Pow2;
    PowTable();
    assert value % TWO_64 == value + TWO_64;
    VarintLength(value % TWO_64, 9);
    VarintWidth(value % TWO_64);
  }

  /** `((value << 1) ^ (value >> 31)) >>> 0` is the zigzag map on the 32-bit value. */
  lemma ZigZag32(value: int)
    ensures ToUint32(Shr(BitXor(Shl(value, 1), Sar(value, 31)), 0)) == ZigZag(ToInt32(value))
  {
    hide Shl, BitXor, Sar, Pow2;
    ShlWord(value);
    SarSign(value);
    MaskWord(Shl(value, 1), Sar(value, 31));
    DoubleWord(ToUint32(value));
  }

  lemma DoubleWord(u: nat)
    requires u < TWO_32
    ensures (2 * u) % TWO_32 == if u >= TWO_31 then 2 * u - TWO_32 else 2 * u
  {
  }
}
