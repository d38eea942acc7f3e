/** Commitment paths at a root: the request, the verified response, and the provider built from it. */
module MerklePath {
  import opened Wrappers
  import opened NumberTheory
  import opened JsBits
  import opened Varint
  import opened Decimal
  import opened ByteCodec

  const DEPTH: nat := 32
  const MAX_COMMITMENTS: nat := 16

  // ----- values -----

  /** What a JSON field may hold where an integer is expected. */
  datatype Value = Absent | Number(n: int) | BigInt(n: int) | Text(s: string)

  /** `^(0|[1-9][0-9]*)$` */
  predicate CanonicalDecimal(s: string) {
    s != "" && (forall i :: 0 <= i < |s| ==> IsDigit(s[i])) && (s[0] == '0' ==> |s| == 1)
  }

  function Uint64(v: Value): Option<nat> {
    match v
    case Absent => None
    case Number(n) => if 0 <= n <= MAX_SAFE_INTEGER then Some(n) else None
    case BigInt(n) => if 0 <= n < TWO_64 then Some(n) else None
    case Text(s) => if CanonicalDecimal(s) && 0 <= ParseDigits(s) < TWO_64 then Some(ParseDigits(s)) else None
  }

  const MAX_SAFE_INTEGER: nat := 0x1F_FFFF_FFFF_FFFF

  /** `uint64Value`: a number while that is exact, a decimal string beyond. */
  function Shown(n: nat): (v: Value)
    ensures v != Absent
  {
    if n <= MAX_SAFE_INTEGER then Number(n) else Text(Numeral(n))
  }

  /** `String(value)` for a shown integer. */
  function Printed(v: Value): string
    requires v != Absent
  {
    match v
    case Number(n) => SignedNumeral(n)
    case BigInt(n) => SignedNumeral(n)
    case Text(s) => s
  }

  /** Showing an integer loses nothing: it parses back, and two shown integers print alike only if they are equal. */
  lemma ShownIsExact(n: nat, m: nat)
    requires n < TWO_64
    ensures Uint64(Shown(n)) == Some(n)
    ensures Printed(Shown(n)) == Numeral(n)
    ensures Numeral(n) == Numeral(m) ==> n == m
    ensures n <= 0x1F_FFFF_FFFF_FFFF ==> Shown(n) == Number(n)
    ensures n > 0x1F_FFFF_FFFF_FFFF ==> Shown(n) == Text(Numeral(n))
  {
    hide Numeral;
    UnsignedText(n);
    ParseNumeral(n);
    ParseNumeral(m);
    NumeralCanonical(n);
  }

  lemma NumeralCanonical(n: nat)
    ensures CanonicalDecimal(Numeral(n))
  {
  }

  /** The ways to write an unsigned 64-bit integer: a number while that is exact, a bigint, or its decimal numeral. */
  predicate Denotes(v: Value, n: nat) {
    (v == Number(n) && n <= 0x1F_FFFF_FFFF_FFFF) || v == BigInt(n) || v == Text(Numeral(n))
  }

  lemma Uint64Exact(v: Value, n: nat)
    ensures Uint64(v) == Some(n) <==> n < 0x1_0000_0000_0000_0000 && Denotes(v, n)
  {
    hide Numeral, ParseDigits;
    ParseNumeral(n);
    NumeralCanonical(n);
    if v.Text? && CanonicalDecimal(v.s) { NumeralOfParse(v.s); }
  }

  /** The field element a canonical 64-digit lower-case hex string denotes; `q` is the field modulus. */
  function FieldOf(text: string, q: nat): Option<nat> {
    if |text| == 64 && (forall i :: 0 <= i < 64 ==> 0 <= HexValue(text[i])) && 0 <= ParseHex(text) < q then Some(ParseHex(text)) else None
  }

  predicate IsField(text: string, q: nat) { FieldOf(text, q).Some? }

  predicate IsNonZeroField(text: string, q: nat) { IsField(text, q) && FieldOf(text, q).value != 0 }

  /** `fieldHexV1`. */
  function FieldHex(n: nat): string { HexDigits(n, 64) }

  lemma {:induction false} HexDigitsOfParse(s: string)
    requires IsHex(s)
    ensures 0 <= ParseHex(s) < Pow2(4 * |s|) && HexDigits(ParseHex(s), |s|) == s
  {
    hide HexValue, HexChar;
    if s == "" {
    } else {
      hide Pow2, HexDigits;
      var init, ch := s[..|s| - 1], s[|s| - 1];
      HexDigitsOfParse(init);
      PowNibble(|s|);
      HexCharOfValue(ch);
      AppendNibble(ParseHex(init), HexValue(ch), |init|);
      assert s == init + [ch];
    }
  }

  lemma AppendNibble(m: nat, d: nat, width: nat)
    requires d < 16
    ensures HexDigits(16 * m + d, width + 1) == HexDigits(m, width) + [HexChar(d)]
  {
    hide HexChar;
    assert (16 * m + d) / 16 == m && (16 * m + d) % 16 == d;
  }

  lemma HexCharOfValue(ch: char)
    requires 0 <= HexValue(ch)
    ensures HexValue(ch) < 16 && HexChar(HexValue(ch)) == ch
  {
  }

  /** Canonical text and field elements determine each other. */
  lemma FieldText(text: string, n: nat, q: nat)
    requires q <= Pow2(256)
    ensures IsField(text, q) ==> FieldHex(FieldOf(text, q).value) == text
    ensures n < q ==> FieldOf(FieldHex(n), q) == Some(n)
  {
    hide Pow2, HexDigits, ParseHex;
    if IsField(text, q) { HexDigitsOfParse(text); }
    if n < q { ParseHexDigits(n, 64); }
  }

  // ----- request -----

  datatype RawRequest = RawRequest(commitments: seq<string>, root: string, height: Value)

  datatype Request = Request(commitments: seq<string>, root: string, height: Option<nat>)

  predicate Distinct<T(==)>(s: seq<T>) { forall i, j :: 0 <= i < j < |s| ==> s[i] != s[j] }

  predicate GoodHeight(v: Value) { v == Absent || (Uint64(v).Some? && Uint64(v).value < 0x8000_0000_0000_0000) }

  /** The requests `normalizeCommitmentPathsAtRootRequest` accepts. */
  predicate GoodRequest(raw: RawRequest, q: nat) {
    && 1 <= |raw.commitments| <= MAX_COMMITMENTS
    && (forall i :: 0 <= i < |raw.commitments| ==> IsNonZeroField(raw.commitments[i], q))
    && Distinct(raw.commitments)
    && IsField(raw.root, q) && GoodHeight(raw.height)
  }

  function NormalizeRequest(raw: RawRequest, q: nat): Result<Request> {
    if GoodRequest(raw, q) then Ok(Request(raw.commitments, raw.root, if raw.height.Absent? then None else Uint64(raw.height)))
    else Err(InvalidRequest)
  }

  /** The 64-digit lower-case hex texts below the modulus. */
  lemma FieldTexts(text: string, q: nat)
    ensures IsField(text, q) <==>
              && |text| == 64 && (forall i :: 0 <= i < 64 ==> '0' <= text[i] <= '9' || 'a' <= text[i] <= 'f')
              && 0 <= ParseHex(text) < q
    ensures IsNonZeroField(text, q) <==> IsField(text, q) && ParseHex(text) != 0
  {
    hide ParseHex;
  }

  /** The accepted requests, spelled out. */
  lemma RequestMeans(raw: RawRequest, q: nat)
    ensures NormalizeRequest(raw, q).Ok? <==>
              && 1 <= |raw.commitments| <= 16
              && (forall i :: 0 <= i < |raw.commitments| ==> IsField(raw.commitments[i], q) && ParseHex(raw.commitments[i]) > 0)
              && (forall i, j :: 0 <= i < j < |raw.commitments| ==> raw.commitments[i] != raw.commitments[j])
              && IsField(raw.root, q)
              && (raw.height == Absent || exists n: nat :: n < 0x8000_0000_0000_0000 && Denotes(raw.height, n))
    ensures NormalizeRequest(raw, q).Ok? ==>
              var r := NormalizeRequest(raw, q).value;
              && r.commitments == raw.commitments && r.root == raw.root
              && (if r.height.Some? then Denotes(raw.height, r.height.value) else raw.height == Absent)
  {
    hide ParseHex, Denotes, Uint64;
    forall n: nat ensures Uint64(raw.height) == Some(n) <==> n < 0x1_0000_0000_0000_0000 && Denotes(raw.height, n) {
      Uint64Exact(raw.height, n);
    }
    AbsentIsNone();
  }

  lemma AbsentIsNone()
    ensures Uint64(Absent) == None
  {
  }

  // ----- the tree -----

  type NodeHash = (nat, nat, nat) -> nat

  /**
   * The node hash yields field elements. It is never assumed to be injective, which no hash into the field can
   * be: results that rest on collision resistance name the two hashed pairs that would collide.
   */
  ghost predicate FieldNode(node: NodeHash, q: nat) {
    forall l, a, b :: node(l, a, b) < q
  }

  /** `(index >> level) & 1`. */
  function Bit(index: nat, level: nat): nat { Quot(index, level) % 2 }

  /** What the fold computes: the siblings are combined from the leaf upwards, on the side the index bit says. */
  function RootFrom(node: NodeHash, leaf: nat, siblings: seq<nat>, index: nat): nat
    decreases |siblings|, 0
  {
    if siblings == [] then leaf
    else
      var level := |siblings| - 1;
      var (left, right) := TopPair(node, leaf, siblings, index);
      node(level, left, right)
  }

  /** The pair that is hashed at the highest level. */
  function TopPair(node: NodeHash, leaf: nat, siblings: seq<nat>, index: nat): (nat, nat)
    requires siblings != []
    decreases |siblings| - 1, 1
  {
    var level := |siblings| - 1;
    var current := RootFrom(node, leaf, siblings[..level], index);
    if Bit(index, level) == 0 then (current, siblings[level]) else (siblings[level], current)
  }

  /** At some level the two paths hash different pairs to the same node. */
  predicate Collide(node: NodeHash, a: nat, s: seq<nat>, b: nat, t: seq<nat>, index: nat)
    requires |s| == |t|
  {
    s != [] &&
    (var level := |s| - 1;
     || (TopPair(node, a, s, index) != TopPair(node, b, t, index) && RootFrom(node, a, s, index) == RootFrom(node, b, t, index))
     || Collide(node, a, s[..level], b, t[..level], index))
  }

  /** Such a collision is two different pairs with one hash. */
  lemma {:induction false} CollisionIsReal(node: NodeHash, a: nat, s: seq<nat>, b: nat, t: seq<nat>, index: nat)
    requires |s| == |t| && Collide(node, a, s, b, t, index)
    ensures exists l, x, y, u, v :: (x, y) != (u, v) && node(l, x, y) == node(l, u, v)
  {
    hide Bit;
    var l := |s| - 1;
    if TopPair(node, a, s, index) != TopPair(node, b, t, index) && RootFrom(node, a, s, index) == RootFrom(node, b, t, index) {
      var (x, y) := TopPair(node, a, s, index);
      var (u, v) := TopPair(node, b, t, index);
      assert (x, y) != (u, v) && node(l, x, y) == node(l, u, v);
    } else {
      CollisionIsReal(node, a, s[..l], b, t[..l], index);
    }
  }

  /**
   * Equal root and equal index force equal leaf and siblings, unless the two paths exhibit a collision of the node
   * hash.
   */
  lemma {:induction false} RootBinds(node: NodeHash, a: nat, s: seq<nat>, b: nat, t: seq<nat>, index: nat)
    requires |s| == |t| && RootFrom(node, a, s, index) == RootFrom(node, b, t, index)
    ensures (a == b && s == t) || Collide(node, a, s, b, t, index)
  {
    hide Bit;
    if s != [] {
      var k := |s| - 1;
      if TopPair(node, a, s, index) == TopPair(node, b, t, index) {
        RootBinds(node, a, s[..k], b, t[..k], index);
        assert s == s[..k] + [s[k]] && t == t[..k] + [t[k]];
      }
    }
  }

  /** A node of the tree over the given leaves. */
  function TreeNode(node: NodeHash, leaf: nat -> nat, level: nat, i: nat): nat {
    if level == 0 then leaf(i)
    else node(level - 1, TreeNode(node, leaf, level - 1, 2 * i), TreeNode(node, leaf, level - 1, 2 * i + 1))
  }

  /** The other child of the same parent. */
  function Sibling(i: nat): nat { if i % 2 == 0 then i + 1 else i - 1 }

  function TreePath(node: NodeHash, leaf: nat -> nat, index: nat, depth: nat): (s: seq<nat>)
    ensures |s| == depth
  {
    if depth == 0 then []
    else TreePath(node, leaf, index, depth - 1) + [TreeNode(node, leaf, depth - 1, Sibling(Quot(index, depth - 1)))]
  }

  lemma QuotHalf(v: nat, k: nat)
    ensures Quot(v, k + 1) == Quot(v, k) / 2
  {
    DivTwice(v, Pow2(k));
  }

  lemma DivTwice(v: nat, w: int)
    requires 1 <= w
    ensures v / (2 * w) == v / w / 2
  {
    var q, r := v / w, v % w;
    DivisionIdentity(v, w);
    Halves(q / 2, q % 2, w, r);
    DivModUnique(v, q / 2, q % 2 * w + r, 2 * w);
  }

  lemma Halves(a: int, b: int, w: int, r: int)
    requires 0 <= b < 2 && 0 <= r < w
    ensures (2 * a + b) * w + r == a * (2 * w) + (b * w + r) && 0 <= b * w + r < 2 * w
  {
    assert b == 0 || b == 1;
  }

  /** In an honest tree, the path of a leaf leads to the node above it at every level. */
  lemma {:induction false} TreePathLeadsUp(node: NodeHash, leaf: nat -> nat, index: nat, depth: nat)
    ensures RootFrom(node, leaf(index), TreePath(node, leaf, index, depth), index) == TreeNode(node, leaf, depth, Quot(index, depth))
  {
    hide Quot;
    if depth == 0 {
      QuotZero(index);
    } else {
      TreePathLeadsUp(node, leaf, index, depth - 1);
      QuotHalf(index, depth - 1);
      TreeStep(node, leaf, index, depth - 1, Quot(index, depth - 1));
    }
  }

  lemma TreeStep(node: NodeHash, leaf: nat -> nat, index: nat, k: nat, u: nat)
    requires u == Quot(index, k) && RootFrom(node, leaf(index), TreePath(node, leaf, index, k), index) == TreeNode(node, leaf, k, u)
    ensures RootFrom(node, leaf(index), TreePath(node, leaf, index, k + 1), index) == TreeNode(node, leaf, k + 1, u / 2)
  {
    hide Quot, RootFrom, TopPair;
    var path := TreePath(node, leaf, index, k);
    assert TreePath(node, leaf, index, k + 1) == path + [TreeNode(node, leaf, k, Sibling(u))];
    RootFromStep(node, leaf(index), path, TreeNode(node, leaf, k, Sibling(u)), index);
    SiblingPair(u);
  }

  lemma RootFromStep(node: NodeHash, leaf: nat, path: seq<nat>, sibling: nat, index: nat)
    ensures var current, level := RootFrom(node, leaf, path, index), |path|;
            RootFrom(node, leaf, path + [sibling], index)
            == if Bit(index, level) == 0 then node(level, current, sibling) else node(level, sibling, current)
  {
    hide Bit;
    assert (path + [sibling])[..|path|] == path;
  }

  lemma SiblingPair(u: nat)
    ensures u % 2 == 0 ==> u == 2 * (u / 2) && Sibling(u) == 2 * (u / 2) + 1
    ensures u % 2 != 0 ==> u == 2 * (u / 2) + 1 && Sibling(u) == 2 * (u / 2)
  {
  }

  lemma TopOfTree(index: nat)
    requires index < TWO_32
    ensures Quot(index, DEPTH) == 0
  {
    PowTable();
  }

  function TreeRoot(node: NodeHash, leaf: nat -> nat): nat { TreeNode(node, leaf, DEPTH, 0) }

  // ----- response -----

  /** `helpers` holds `Number(value)` of each entry. */
  datatype RawPath = RawPath(commitment: string, leafIndex: Value, path: seq<string>, helpers: seq<int>)

  datatype RawResponse = RawResponse(root: string, height: Value, leafCount: Value, paths: seq<RawPath>)

  datatype Path = Path(commitment: string, leafIndex: Value, path: seq<string>, helpers: seq<int>)

  datatype Snapshot = Snapshot(root: string, height: Value, leafCount: Value, paths: seq<Path>)

  predicate AreFields(texts: seq<string>, q: nat) { forall i :: 0 <= i < |texts| ==> IsField(texts[i], q) }

  function FieldsOf(texts: seq<string>, q: nat): (s: seq<nat>)
    requires AreFields(texts, q)
    ensures |s| == |texts| && forall i :: 0 <= i < |s| ==> s[i] == FieldOf(texts[i], q).value
  {
    seq(|texts|, i requires 0 <= i < |texts| => FieldOf(texts[i], q).value)
  }

  /** A path that reconstructs the root from the requested commitment. */
  predicate GoodPath(p: RawPath, commitment: string, root: string, leafCount: nat, node: NodeHash, q: nat) {
    && p.commitment == commitment && IsNonZeroField(commitment, q)
    && Uint64(p.leafIndex).Some? && Uint64(p.leafIndex).value < leafCount
    && |p.path| == DEPTH && |p.helpers| == DEPTH && AreFields(p.path, q)
    && (forall level :: 0 <= level < DEPTH ==> p.helpers[level] == Bit(Uint64(p.leafIndex).value, level))
    && FieldHex(RootFrom(node, FieldOf(commitment, q).value, FieldsOf(p.path, q), Uint64(p.leafIndex).value)) == root
  }

  /** The responses that are accepted for a request. */
  predicate GoodResponse(raw: RawResponse, rq: Request, node: NodeHash, q: nat) {
    && IsField(raw.root, q) && raw.root == rq.root
    && GoodHeight(raw.height) && !raw.height.Absent? && (rq.height.Some? ==> Uint64(raw.height) == rq.height)
    && Uint64(raw.leafCount).Some? && 0 < Uint64(raw.leafCount).value <= TWO_32
    && |raw.paths| == |rq.commitments|
    && (forall i :: 0 <= i < |raw.paths| ==> GoodPath(raw.paths[i], rq.commitments[i], raw.root, Uint64(raw.leafCount).value, node, q))
  }

  function NormalPath(p: RawPath): Path
    requires Uint64(p.leafIndex).Some?
  {
    Path(p.commitment, Shown(Uint64(p.leafIndex).value), p.path, p.helpers)
  }

  /** The snapshot made of an accepted response: the same paths in request order. */
  function SnapshotOf(raw: RawResponse, rq: Request, node: NodeHash, q: nat): (s: Snapshot)
    requires GoodResponse(raw, rq, node, q)
    ensures |s.paths| == |raw.paths|
  {
    Snapshot(raw.root, Shown(Uint64(raw.height).value), Shown(Uint64(raw.leafCount).value),
             seq(|raw.paths|, i requires 0 <= i < |raw.paths| => NormalPath(raw.paths[i])))
  }

  // ----- the code -----

  /** The helper bits are compared with the bits of the leaf index. */
  method CheckHelpers(helpers: seq<int>, index: nat) returns (ok: bool)
    requires |helpers| == DEPTH
    ensures ok <==> forall level :: 0 <= level < DEPTH ==> helpers[level] == Bit(index, level)
  {
    hide Bit;
    for level := 0 to DEPTH
      invariant forall l :: 0 <= l < level ==> helpers[l] == Bit(index, l)
    {
      if helpers[level] != Bit(index, level) {
        return false;
      }
    }
    return true;
  }

  lemma RootOfLeaf(node: NodeHash, leaf: nat, siblings: seq<nat>, index: nat)
    ensures siblings == [] ==> RootFrom(node, leaf, siblings, index) == leaf
  {
  }

  lemma FieldsStep(texts: seq<string>, level: nat, q: nat)
    requires level < |texts| && AreFields(texts[..level], q) && IsField(texts[level], q)
    ensures AreFields(texts[..level + 1], q)
    ensures FieldsOf(texts[..level + 1], q) == FieldsOf(texts[..level], q) + [FieldOf(texts[level], q).value]
  {
    hide FieldOf;
  }

  /** The `map` over the siblings with its running value. */
  method Fold(leaf: nat, texts: seq<string>, helpers: seq<int>, index: nat, node: NodeHash, q: nat)
    returns (ok: bool, current: nat, path: seq<string>)
    requires |texts| == |helpers| && q <= Pow2(256)
    requires forall l :: 0 <= l < |helpers| ==> helpers[l] == Bit(index, l)
    ensures ok <==> AreFields(texts, q)
    ensures ok ==> current == RootFrom(node, leaf, FieldsOf(texts, q), index) && path == texts
  {
    hide Bit, FieldOf, FieldHex, RootFrom;
    ok, current, path := true, leaf, [];
    RootOfLeaf(node, leaf, FieldsOf(texts[..0], q), index);
    for level := 0 to |texts|
      invariant ok && AreFields(texts[..level], q)
      invariant current == RootFrom(node, leaf, FieldsOf(texts[..level], q), index)
      invariant path == texts[..level]
    {
      var sibling := FieldOf(texts[level], q);
      if sibling.None? {
        assert !IsField(texts[level], q);
        return false, current, path;
      }
      FieldText(texts[level], 0, q);
      FieldsStep(texts, level, q);
      RootFromStep(node, leaf, FieldsOf(texts[..level], q), sibling.value, index);
      current := if helpers[level] == 0 then node(level, current, sibling.value) else node(level, sibling.value, current);
      path := path + [FieldHex(sibling.value)];
    }
    assert texts[..|texts|] == texts;
  }

  method NormalizePath(p: RawPath, commitment: string, root: string, leafCount: nat, node: NodeHash, q: nat)
    returns (r: Result<Path>)
    requires q <= Pow2(256) && IsField(root, q)
    ensures r == if GoodPath(p, commitment, root, leafCount, node, q) then Ok(NormalPath(p)) else Err(InvalidResponse)
  {
    hide Bit, FieldOf, FieldHex, Shown, RootFrom;
    if !IsNonZeroField(p.commitment, q) || p.commitment != commitment {
      return Err(InvalidResponse);
    }
    var leafIndex := Uint64(p.leafIndex);
    if leafIndex.None? || leafIndex.value >= leafCount || |p.path| != DEPTH || |p.helpers| != DEPTH {
      return Err(InvalidResponse);
    }
    var bits := CheckHelpers(p.helpers, leafIndex.value);
    if !bits {
      return Err(InvalidResponse);
    }
    var ok, current, path := Fold(FieldOf(commitment, q).value, p.path, p.helpers, leafIndex.value, node, q);
    if !ok || FieldHex(current) != root {
      return Err(InvalidResponse);
    }
    return Ok(Path(commitment, Shown(leafIndex.value), path, p.helpers));
  }

  /** The paths of a response, in request order. */
  method NormalizePaths(raw: seq<RawPath>, commitments: seq<string>, root: string, leafCount: nat, node: NodeHash, q: nat)
    returns (r: Result<seq<Path>>)
    requires q <= Pow2(256) && IsField(root, q) && |raw| == |commitments|
    ensures r.Ok? <==> forall i :: 0 <= i < |raw| ==> GoodPath(raw[i], commitments[i], root, leafCount, node, q)
    ensures r.Ok? ==> |r.value| == |raw|
    ensures r.Ok? ==> forall i :: 0 <= i < |raw| ==> Uint64(raw[i].leafIndex).Some? && r.value[i] == NormalPath(raw[i])
  {
    hide IsField, GoodPath, NormalPath, Uint64;
    var paths: seq<Path> := [];
    for i := 0 to |raw|
      invariant |paths| == i && forall j :: 0 <= j < i ==> GoodPath(raw[j], commitments[j], root, leafCount, node, q)
      invariant forall j :: 0 <= j < i ==> Uint64(raw[j].leafIndex).Some? && paths[j] == NormalPath(raw[j])
    {
      var path := NormalizePath(raw[i], commitments[i], root, leafCount, node, q);
      if path.Err? {
        return Err(InvalidResponse);
      }
      IndexPresent(raw[i], commitments[i], root, leafCount, node, q);
      paths := paths + [path.value];
    }
    return Ok(paths);
  }

  /** The accepted pairs of a request and a response, with the numbers of the protocol. */
  ghost predicate Acceptable(raw: RawResponse, rq: RawRequest, node: NodeHash, q: nat) {
    var height, leafCount := Uint64(raw.height), Uint64(raw.leafCount);
    && NormalizeRequest(rq, q).Ok? && raw.root == rq.root && |raw.paths| == |rq.commitments|
    && height.Some? && height.value < 0x8000_0000_0000_0000 && (rq.height != Absent ==> Uint64(rq.height) == height)
    && leafCount.Some? && 0 < leafCount.value <= 0x1_0000_0000
    && forall i :: 0 <= i < |raw.paths| ==>
         AcceptablePath(raw.paths[i], rq.commitments[i], raw.root, leafCount.value, node, q)
  }

  ghost predicate AcceptablePath(p: RawPath, commitment: string, root: string, leafCount: nat, node: NodeHash, q: nat) {
    && p.commitment == commitment && Uint64(p.leafIndex).Some? && Uint64(p.leafIndex).value < leafCount
    && |p.path| == |p.helpers| == 32 && AreFields(p.path, q)
    && (forall l :: 0 <= l < 32 ==> p.helpers[l] == Uint64(p.leafIndex).value / Pow2(l) % 2)
    && IsNonZeroField(commitment, q) && IsField(root, q)
    && RootFrom(node, ParseHex(commitment), FieldsOf(p.path, q), Uint64(p.leafIndex).value) == ParseHex(root)
  }

  lemma PathMeans(p: RawPath, commitment: string, root: string, leafCount: nat, node: NodeHash, q: nat)
    requires q <= Pow2(256) && FieldNode(node, q) && IsField(root, q)
    ensures GoodPath(p, commitment, root, leafCount, node, q) <==> AcceptablePath(p, commitment, root, leafCount, node, q)
  {
    hide Uint64, RootFrom, FieldHex, Pow2, ParseHex, AreFields;
    if p.path != [] && IsNonZeroField(commitment, q) && AreFields(p.path, q) && Uint64(p.leafIndex).Some? {
      var current := RootFrom(node, FieldOf(commitment, q).value, FieldsOf(p.path, q), Uint64(p.leafIndex).value);
      RootIsField(node, q, FieldOf(commitment, q).value, FieldsOf(p.path, q), Uint64(p.leafIndex).value);
      FieldText(root, current, q);
    }
  }

  lemma AcceptedMeans(raw: RawResponse, rq: RawRequest, node: NodeHash, q: nat)
    requires q <= Pow2(256) && FieldNode(node, q)
    ensures Acceptable(raw, rq, node, q) <==>
              NormalizeRequest(rq, q).Ok? && GoodResponse(raw, NormalizeRequest(rq, q).value, node, q)
  {
    hide Uint64, RootFrom, FieldHex, Pow2, ParseHex, GoodPath, AcceptablePath, FieldNode;
    AbsentIsNone();
    if IsField(raw.root, q) && Uint64(raw.leafCount).Some? {
      forall i | 0 <= i < |raw.paths| && |raw.paths| == |rq.commitments|
        ensures GoodPath(raw.paths[i], rq.commitments[i], raw.root, Uint64(raw.leafCount).value, node, q)
                <==> AcceptablePath(raw.paths[i], rq.commitments[i], raw.root, Uint64(raw.leafCount).value, node, q)
      {
        PathMeans(raw.paths[i], rq.commitments[i], raw.root, Uint64(raw.leafCount).value, node, q);
      }
    }
  }

  lemma RequestHeight(raw: RawRequest, q: nat)
    requires NormalizeRequest(raw, q).Ok? && NormalizeRequest(raw, q).value.height.Some?
    ensures NormalizeRequest(raw, q).value.height.value < TWO_64
  {
  }

  /** Everything but the paths. */
  method CheckHeader(raw: RawResponse, rq: Request, q: nat) returns (ok: bool)
    requires rq.height.Some? ==> rq.height.value < TWO_64
    ensures ok <==>
              && IsField(raw.root, q) && raw.root == rq.root
              && GoodHeight(raw.height) && !raw.height.Absent? && (rq.height.Some? ==> Uint64(raw.height) == rq.height)
              && Uint64(raw.leafCount).Some? && 0 < Uint64(raw.leafCount).value <= TWO_32
              && |raw.paths| == |rq.commitments|
  {
    hide FieldOf, Shown, CanonicalDecimal, ParseDigits, Printed, Numeral;
    if !IsField(raw.root, q) || raw.height.Absent? || !GoodHeight(raw.height) || Uint64(raw.leafCount).None? {
      return false;
    }
    var height, leafCount := Uint64(raw.height).value, Uint64(raw.leafCount).value;
    ShownIsExact(height, if rq.height.Some? then rq.height.value else 0);
    if rq.height.Some? {
      ShownIsExact(rq.height.value, height);
    }
    if raw.root != rq.root || (rq.height.Some? && Printed(Shown(height)) != Printed(Shown(rq.height.value))) || leafCount == 0 {
      return false;
    }
    return |raw.paths| == |rq.commitments| && leafCount <= TWO_32;
  }

  method NormalizeResponse(raw: RawResponse, rawRequest: RawRequest, node: NodeHash, q: nat)
    returns (r: Result<Snapshot>)
    requires q <= Pow2(256)
    ensures r == match NormalizeRequest(rawRequest, q)
                 case Err(e) => Err(e)
                 case Ok(rq) => if GoodResponse(raw, rq, node, q) then Ok(SnapshotOf(raw, rq, node, q)) else Err(InvalidResponse)
    ensures FieldNode(node, q) ==> (r.Ok? <==> Acceptable(raw, rawRequest, node, q))
  {
    hide FieldOf, Shown, GoodPath, GoodRequest, CanonicalDecimal, ParseDigits, Printed, Numeral, NormalPath,
         Acceptable, FieldNode, Uint64;
    if FieldNode(node, q) { AcceptedMeans(raw, rawRequest, node, q); }
    var request := NormalizeRequest(rawRequest, q);
    if request.Err? {
      return Err(request.error);
    }
    var rq := request.value;
    if rq.height.Some? { RequestHeight(rawRequest, q); }
    var header := CheckHeader(raw, rq, q);
    if !header {
      return Err(InvalidResponse);
    }
    var height, leafCount := Uint64(raw.height).value, Uint64(raw.leafCount).value;
    var paths := NormalizePaths(raw.paths, rq.commitments, raw.root, leafCount, node, q);
    if paths.Err? {
      return Err(InvalidResponse);
    }
    assert paths.value == SnapshotOf(raw, rq, node, q).paths;
    return Ok(Snapshot(raw.root, Shown(height), Shown(leafCount), paths.value));
  }

  lemma IndexPresent(p: RawPath, commitment: string, root: string, leafCount: nat, node: NodeHash, q: nat)
    requires GoodPath(p, commitment, root, leafCount, node, q)
    ensures Uint64(p.leafIndex).Some?
  {
  }

  // ----- what an accepted response means -----

  function LeafIndex(p: RawPath): nat { if Uint64(p.leafIndex).Some? then Uint64(p.leafIndex).value else 0 }

  lemma RootIsField(node: NodeHash, q: nat, leaf: nat, siblings: seq<nat>, index: nat)
    requires FieldNode(node, q) && siblings != []
    ensures RootFrom(node, leaf, siblings, index) < q
  {
  }

  lemma FieldHexInjective(a: nat, b: nat, q: nat)
    requires a < q && b < q && q <= Pow2(256) && FieldHex(a) == FieldHex(b)
    ensures a == b
  {
    hide FieldHex, FieldOf;
    FieldText("", a, q);
    FieldText("", b, q);
  }

  lemma GoodPathFields(p: RawPath, c: string, root: string, n: nat, node: NodeHash, q: nat)
    requires GoodPath(p, c, root, n, node, q)
    ensures p.commitment == c && IsField(p.commitment, q) && AreFields(p.path, q) && |p.path| == DEPTH
  {
  }

  /**
   * Two accepted paths with the same root and the same leaf index are the same path to the same commitment,
   * unless they exhibit a collision of the node hash.
   */
  lemma PathsBind(p: RawPath, c: string, n: nat, p': RawPath, c': string, n': nat, root: string, node: NodeHash, q: nat)
    requires FieldNode(node, q) && q <= Pow2(256)
    requires GoodPath(p, c, root, n, node, q) && GoodPath(p', c', root, n', node, q)
    requires LeafIndex(p) == LeafIndex(p')
    ensures IsField(p.commitment, q) && AreFields(p.path, q) && IsField(p'.commitment, q) && AreFields(p'.path, q)
    ensures |p.path| == |p'.path|
    ensures (c == c' && p.path == p'.path && p.helpers == p'.helpers)
            || Collide(node, FieldOf(c, q).value, FieldsOf(p.path, q), FieldOf(c', q).value, FieldsOf(p'.path, q), LeafIndex(p))
  {
    hide FieldNode, FieldHex, FieldOf, RootFrom, Bit, Collide;
    var a, s := FieldOf(c, q).value, FieldsOf(p.path, q);
    var b, t := FieldOf(c', q).value, FieldsOf(p'.path, q);
    var index := LeafIndex(p);
    RootIsField(node, q, a, s, index);
    RootIsField(node, q, b, t, index);
    FieldHexInjective(RootFrom(node, a, s, index), RootFrom(node, b, t, index), q);
    RootBinds(node, a, s, b, t, index);
    FieldText(c, 0, q);
    FieldText(c', 0, q);
    if s == t {
      SameTexts(p.path, p'.path, q);
    }
  }

  lemma SameTexts(s: seq<string>, t: seq<string>, q: nat)
    requires AreFields(s, q) && AreFields(t, q) && FieldsOf(s, q) == FieldsOf(t, q) && q <= Pow2(256)
    ensures s == t
  {
    hide FieldOf, FieldHex;
    assert |s| == |FieldsOf(s, q)| == |t|;
    forall i | 0 <= i < |s| ensures s[i] == t[i] {
      FieldText(s[i], 0, q);
      FieldText(t[i], 0, q);
      assert FieldsOf(s, q)[i] == FieldsOf(t, q)[i];
    }
  }

  /**
   * The distinct commitments of a request get distinct leaf indices, although no line checks that, unless two
   * of the paths exhibit a collision of the node hash.
   */
  lemma LeavesAreDistinct(rawRequest: RawRequest, raw: RawResponse, node: NodeHash, q: nat, i: nat, j: nat)
    requires FieldNode(node, q) && q <= Pow2(256)
    requires NormalizeRequest(rawRequest, q).Ok? && GoodResponse(raw, NormalizeRequest(rawRequest, q).value, node, q)
    requires i < j < |raw.paths|
    ensures var p, p' := raw.paths[i], raw.paths[j];
            && IsField(p.commitment, q) && AreFields(p.path, q) && IsField(p'.commitment, q) && AreFields(p'.path, q)
            && |p.path| == |p'.path|
            && (LeafIndex(p) != LeafIndex(p') 
                || Collide(node, FieldOf(p.commitment, q).value, FieldsOf(p.path, q),
                           FieldOf(p'.commitment, q).value, FieldsOf(p'.path, q), LeafIndex(p)))
  {
    hide GoodPath, FieldNode, IsField, AreFields, Collide;
    var rq, n := NormalizeRequest(rawRequest, q).value, Uint64(raw.leafCount).value;
    GoodPathFields(raw.paths[i], rq.commitments[i], raw.root, n, node, q);
    GoodPathFields(raw.paths[j], rq.commitments[j], raw.root, n, node, q);
    if LeafIndex(raw.paths[i]) == LeafIndex(raw.paths[j]) {
      PathsBind(raw.paths[i], rq.commitments[i], n, raw.paths[j], rq.commitments[j], n, raw.root, node, q);
    }
  }

  /** Leaves and root of a tree that a server may hold. */
  ghost predicate HonestTree(node: NodeHash, leaf: nat -> nat, q: nat) {
    FieldNode(node, q) && q <= Pow2(256) && forall i :: leaf(i) < q
  }

  function Texts(values: seq<nat>): (t: seq<string>)
    ensures |t| == |values| && forall i :: 0 <= i < |t| ==> t[i] == FieldHex(values[i])
  {
    seq(|values|, i requires 0 <= i < |values| => FieldHex(values[i]))
  }

  /** The path an honest server sends for the leaf at `index`. */
  function HonestPath(node: NodeHash, leaf: nat -> nat, index: nat): RawPath {
    RawPath(FieldHex(leaf(index)), Shown(index), Texts(TreePath(node, leaf, index, DEPTH)), seq(DEPTH, l requires 0 <= l => Bit(index, l)))
  }

  lemma {:induction false} TreePathFields(node: NodeHash, leaf: nat -> nat, index: nat, depth: nat, q: nat)
    requires HonestTree(node, leaf, q)
    ensures forall i :: 0 <= i < depth ==> TreePath(node, leaf, index, depth)[i] < q
  {
    if depth > 0 {
      TreePathFields(node, leaf, index, depth - 1, q);
    }
  }

  lemma TextsAreFields(values: seq<nat>, q: nat)
    requires q <= Pow2(256) && forall i :: 0 <= i < |values| ==> values[i] < q
    ensures AreFields(Texts(values), q) && FieldsOf(Texts(values), q) == values
  {
    hide FieldOf, FieldHex;
    forall i | 0 <= i < |values| ensures FieldOf(Texts(values)[i], q) == Some(values[i]) {
      FieldText("", values[i], q);
    }
  }

  /** Every path of an honest tree is accepted. */
  lemma HonestPathAccepted(node: NodeHash, leaf: nat -> nat, index: nat, leafCount: nat, q: nat)
    requires HonestTree(node, leaf, q) && index < leafCount <= TWO_32 && leaf(index) != 0
    ensures GoodPath(HonestPath(node, leaf, index), FieldHex(leaf(index)), FieldHex(TreeRoot(node, leaf)), leafCount, node, q)
  {
    hide FieldOf, FieldHex, RootFrom, TreeNode, Bit, Shown, Quot, TreePath;
    ShownIsExact(index, 0);
    FieldText("", leaf(index), q);
    TreePathFields(node, leaf, index, DEPTH, q);
    TextsAreFields(TreePath(node, leaf, index, DEPTH), q);
    TreePathLeadsUp(node, leaf, index, DEPTH);
    TopOfTree(index);
  }

  /**
   * Against the root of a tree, an accepted path proves that the commitment is the leaf at its index, unless
   * it exhibits a collision with the tree's own path.
   */
  lemma AcceptedIsMember(p: RawPath, c: string, node: NodeHash, leaf: nat -> nat, leafCount: nat, q: nat)
    requires HonestTree(node, leaf, q) && leafCount <= TWO_32
    requires GoodPath(p, c, FieldHex(TreeRoot(node, leaf)), leafCount, node, q)
    ensures var index := LeafIndex(p);
            var t := TreePath(node, leaf, index, DEPTH);
            || (FieldOf(c, q) == Some(leaf(index)) && p.path == Texts(t))
            || Collide(node, FieldOf(c, q).value, FieldsOf(p.path, q), leaf(index), t, index)
  {
    hide FieldOf, FieldHex, RootFrom, TreeNode, Bit, Quot, FieldNode, Collide;
    var index, a, s := LeafIndex(p), FieldOf(c, q).value, FieldsOf(p.path, q);
    var t := TreePath(node, leaf, index, DEPTH);
    TreePathFields(node, leaf, index, DEPTH, q);
    TreePathLeadsUp(node, leaf, index, DEPTH);
    TopOfTree(index);
    RootIsField(node, q, a, s, index);
    RootIsField(node, q, leaf(index), t, index);
    FieldHexInjective(RootFrom(node, a, s, index), TreeRoot(node, leaf), q);
    RootBinds(node, a, s, leaf(index), t, index);
    TextsAreFields(t, q);
    if s == t {
      SameTexts(p.path, Texts(t), q);
    }
  }

  function HonestResponse(root: string, height: nat, leafCount: nat, node: NodeHash, leaf: nat -> nat, indices: seq<nat>): (r: RawResponse)
    ensures |r.paths| == |indices| && forall i :: 0 <= i < |indices| ==> r.paths[i] == HonestPath(node, leaf, indices[i])
  {
    RawResponse(root, Shown(height), Shown(leafCount),
                seq(|indices|, i requires 0 <= i < |indices| => HonestPath(node, leaf, indices[i])))
  }

  /** A whole honest response is accepted, for any request of leaves of the tree. */
  lemma HonestResponseAccepted(rq: Request, node: NodeHash, leaf: nat -> nat, indices: seq<nat>, height: nat, leafCount: nat, q: nat)
    requires HonestTree(node, leaf, q) && leafCount <= TWO_32 && height < 0x8000_0000_0000_0000
    requires rq.height.Some? ==> rq.height.value == height
    requires |indices| == |rq.commitments| != 0
    requires forall i :: 0 <= i < |indices| ==>
               indices[i] < leafCount && leaf(indices[i]) != 0 && rq.commitments[i] == FieldHex(leaf(indices[i]))
    requires rq.root == FieldHex(TreeRoot(node, leaf))
    ensures GoodResponse(HonestResponse(rq.root, height, leafCount, node, leaf, indices), rq, node, q)
  {
    hide GoodPath, FieldOf, FieldHex, TreeRoot, HonestPath, Shown, Uint64, HonestTree;
    ShownIsExact(height, 0);
    ShownIsExact(leafCount, 0);
    ShownPresent(height);
    RootText(node, leaf, q);
    assert indices[0] < leafCount;
    forall i | 0 <= i < |indices|
      ensures GoodPath(HonestPath(node, leaf, indices[i]), rq.commitments[i], rq.root, leafCount, node, q)
    {
      HonestPathAccepted(node, leaf, indices[i], leafCount, q);
    }
  }

  lemma RootText(node: NodeHash, leaf: nat -> nat, q: nat)
    requires HonestTree(node, leaf, q)
    ensures IsField(FieldHex(TreeRoot(node, leaf)), q)
  {
    hide FieldOf, FieldHex, TreeNode;
    NodeIsField(node, leaf, DEPTH, 0, q);
    FieldText("", TreeRoot(node, leaf), q);
  }

  lemma NodeIsField(node: NodeHash, leaf: nat -> nat, level: nat, i: nat, q: nat)
    requires HonestTree(node, leaf, q)
    ensures TreeNode(node, leaf, level, i) < q
  {
  }

  lemma ShownPresent(n: nat)
    ensures Shown(n) != Absent
  {
  }

  // ----- from the raw request to the verdict, with the numbers of the protocol -----

  /** The 64 lower-case hex digits of a field element. */
  function ElementText(n: nat): string { HexFromBytes(ToBE(n, 32)) }

  lemma ElementTextIs(n: nat, q: nat)
    requires n < q <= Pow2(256)
    ensures ElementText(n) == FieldHex(n) && FieldOf(ElementText(n), q) == Some(n)
  {
    hide HexFromBytes, ToBE, Pow2, HexDigits, FieldOf;
    ToBERoundTrip(n, 32);
    BytesToHexDigits(ToBE(n, 32));
    FieldText("", n, q);
  }

  /** A request for the leaves at `indices` of a tree of 32 levels, as a client may write it. */
  ghost predicate LeafRequest(raw: RawRequest, node: NodeHash, leaf: nat -> nat, indices: seq<nat>, height: nat) {
    && 1 <= |raw.commitments| <= 16 && |indices| == |raw.commitments|
    && (forall i, j :: 0 <= i < j < |raw.commitments| ==> raw.commitments[i] != raw.commitments[j])
    && (forall i :: 0 <= i < |indices| ==> leaf(indices[i]) != 0 && raw.commitments[i] == ElementText(leaf(indices[i])))
    && raw.root == ElementText(TreeNode(node, leaf, 32, 0))
    && (raw.height == Absent || Denotes(raw.height, height))
  }

  /** What a server that holds the tree answers: 32 siblings and the 32 bits of the index for each leaf. */
  ghost predicate LeafResponse(raw: RawResponse, rq: RawRequest, node: NodeHash, leaf: nat -> nat, indices: seq<nat>,
                               height: nat, leafCount: nat) {
    && raw.root == rq.root && Denotes(raw.height, height) && Denotes(raw.leafCount, leafCount)
    && |raw.paths| == |indices| == |rq.commitments|
    && forall i :: 0 <= i < |indices| ==>
         LeafPath(raw.paths[i], rq.commitments[i], node, leaf, indices[i]) && indices[i] < leafCount
  }

  ghost predicate LeafPath(p: RawPath, commitment: string, node: NodeHash, leaf: nat -> nat, index: nat) {
    && p.commitment == commitment && Denotes(p.leafIndex, index) && |p.path| == |p.helpers| == 32
    && (forall l :: 0 <= l < 32 ==>
          var u := index / Pow2(l);
          && p.helpers[l] == u % 2
          && p.path[l] == ElementText(TreeNode(node, leaf, l, if u % 2 == 0 then u + 1 else u - 1)))
  }

  lemma {:induction false} TreePathAt(node: NodeHash, leaf: nat -> nat, index: nat, depth: nat, l: nat)
    requires l < depth
    ensures TreePath(node, leaf, index, depth)[l] == TreeNode(node, leaf, l, Sibling(Quot(index, l)))
  {
    hide Quot, TreeNode;
    if l < depth - 1 {
      TreePathAt(node, leaf, index, depth - 1, l);
    }
  }

  /** Such a path is accepted. */
  lemma LeafPathAccepted(p: RawPath, commitment: string, node: NodeHash, leaf: nat -> nat, index: nat, leafCount: nat, q: nat)
    requires HonestTree(node, leaf, q) && index < leafCount <= 0x1_0000_0000 && leaf(index) != 0
    requires commitment == ElementText(leaf(index)) && LeafPath(p, commitment, node, leaf, index)
    ensures GoodPath(p, commitment, ElementText(TreeNode(node, leaf, 32, 0)), leafCount, node, q)
  {
    hide FieldOf, FieldHex, RootFrom, TreeNode, TreePath, Bit, Shown, ElementText, Uint64, Denotes;
    var honest := HonestPath(node, leaf, index);
    ElementTextIs(leaf(index), q);
    NodeIsField(node, leaf, 32, 0, q);
    ElementTextIs(TreeNode(node, leaf, 32, 0), q);
    ShownIsExact(index, 0);
    Uint64Exact(p.leafIndex, index);
    HonestPathAccepted(node, leaf, index, leafCount, q);
    forall l | 0 <= l < 32 ensures p.helpers[l] == honest.helpers[l] && p.path[l] == honest.path[l] {
      LeafPathAt(p, commitment, node, leaf, index, l, q);
    }
    assert p.helpers == honest.helpers && p.path == honest.path;
  }

  lemma LeafPathAt(p: RawPath, commitment: string, node: NodeHash, leaf: nat -> nat, index: nat, l: nat, q: nat)
    requires HonestTree(node, leaf, q) && LeafPath(p, commitment, node, leaf, index) && l < 32
    ensures p.helpers[l] == HonestPath(node, leaf, index).helpers[l] && p.path[l] == HonestPath(node, leaf, index).path[l]
  {
    hide FieldHex, TreeNode, TreePath, Shown, ElementText, Denotes, Pow2, FieldOf;
    TreePathAt(node, leaf, index, 32, l);
    var sibling := Sibling(Quot(index, l));
    NodeIsField(node, leaf, l, sibling, q);
    ElementTextIs(TreeNode(node, leaf, l, sibling), q);
  }

  lemma LeafRequestIsGood(rq: RawRequest, node: NodeHash, leaf: nat -> nat, indices: seq<nat>, height: nat, q: nat)
    requires HonestTree(node, leaf, q) && height < 0x8000_0000_0000_0000 && LeafRequest(rq, node, leaf, indices, height)
    ensures GoodRequest(rq, q) && (rq.height != Absent ==> Uint64(rq.height) == Some(height))
  {
    hide FieldOf, TreeNode, ElementText, Uint64, Denotes, FieldHex;
    Uint64Exact(rq.height, height);
    NodeIsField(node, leaf, 32, 0, q);
    ElementTextIs(TreeNode(node, leaf, 32, 0), q);
    forall i | 0 <= i < |rq.commitments| ensures IsNonZeroField(rq.commitments[i], q) {
      ElementTextIs(leaf(indices[i]), q);
    }
  }

  lemma LeafResponseIsGood(raw: RawResponse, rq: RawRequest, node: NodeHash, leaf: nat -> nat, indices: seq<nat>,
                           height: nat, leafCount: nat, q: nat)
    requires HonestTree(node, leaf, q) && height < 0x8000_0000_0000_0000 && leafCount <= 0x1_0000_0000
    requires LeafRequest(rq, node, leaf, indices, height)
    requires LeafResponse(raw, rq, node, leaf, indices, height, leafCount)
    ensures NormalizeRequest(rq, q).Ok? && GoodResponse(raw, NormalizeRequest(rq, q).value, node, q)
    ensures Uint64(raw.height) == Some(height) && Uint64(raw.leafCount) == Some(leafCount)
  {
    hide FieldOf, TreeNode, ElementText, Uint64, Denotes, FieldHex, GoodPath, LeafPath, GoodRequest;
    LeafRequestIsGood(rq, node, leaf, indices, height, q);
    Uint64Exact(raw.height, height);
    Uint64Exact(raw.leafCount, leafCount);
    NodeIsField(node, leaf, 32, 0, q);
    ElementTextIs(TreeNode(node, leaf, 32, 0), q);
    NotAbsent(raw.height, height);
    assert indices[0] < leafCount;
    forall i | 0 <= i < |indices| ensures GoodPath(raw.paths[i], rq.commitments[i], raw.root, leafCount, node, q) {
      LeafPathAccepted(raw.paths[i], rq.commitments[i], node, leaf, indices[i], leafCount, q);
    }
  }

  lemma NotAbsent(v: Value, n: nat)
    requires Denotes(v, n)
    ensures v != Absent
  {
  }

  /**
   * Every well-formed request for leaves of a tree is answered, and every truthful response to it accepted: the
   * snapshot lists the requested leaves in order, each with its index, its 32 siblings and its 32 bits.
   */
  method TruthIsAccepted(raw: RawResponse, rq: RawRequest, node: NodeHash, leaf: nat -> nat, indices: seq<nat>,
                         height: nat, leafCount: nat, q: nat)
    returns (r: Result<Snapshot>)
    requires HonestTree(node, leaf, q) && height < 0x8000_0000_0000_0000 && leafCount <= 0x1_0000_0000
    requires LeafRequest(rq, node, leaf, indices, height)
    requires LeafResponse(raw, rq, node, leaf, indices, height, leafCount)
    ensures r.Ok? && r.value.root == rq.root && |r.value.paths| == |indices|
    ensures r.value.leafCount == Number(leafCount)
    ensures r.value.height == if height <= 0x1F_FFFF_FFFF_FFFF then Number(height) else Text(Numeral(height))
    ensures forall i :: 0 <= i < |indices| ==>
              var p := r.value.paths[i];
              && p.commitment == ElementText(leaf(indices[i])) && p.leafIndex == Number(indices[i])
              && p.path == raw.paths[i].path && p.helpers == raw.paths[i].helpers
  {
    hide FieldOf, TreeNode, ElementText, Uint64, Denotes, FieldHex, GoodPath, LeafPath, GoodRequest, Shown,
         NormalizeRequest, GoodResponse, Acceptable;
    LeafResponseIsGood(raw, rq, node, leaf, indices, height, leafCount, q);
    ShownIsExact(height, 0);
    ShownIsExact(leafCount, 0);
    forall i | 0 <= i < |indices|
      ensures raw.paths[i].commitment == rq.commitments[i] && Uint64(raw.paths[i].leafIndex) == Some(indices[i])
      ensures Shown(indices[i]) == Number(indices[i])
    {
      LeafIndexDenoted(raw.paths[i], rq.commitments[i], node, leaf, indices[i], leafCount);
      ShownIsExact(indices[i], 0);
    }
    r := NormalizeResponse(raw, rq, node, q);
  }

  lemma LeafIndexDenoted(p: RawPath, commitment: string, node: NodeHash, leaf: nat -> nat, index: nat, leafCount: nat)
    requires LeafPath(p, commitment, node, leaf, index) && index < leafCount <= 0x1_0000_0000
    ensures Uint64(p.leafIndex) == Some(index) && index < TWO_64 && p.commitment == commitment
  {
    hide Uint64, Denotes, TreeNode, ElementText;
    Uint64Exact(p.leafIndex, index);
  }

  // ----- provider -----

  datatype Lookup = Lookup(root: string, path: seq<string>, helpers: seq<int>, leafIndex: Value, height: Value)

  function LowerCase(s: string): (r: string)
    ensures |r| == |s|
  {
    seq(|s|, i requires 0 <= i < |s| => if 'A' <= s[i] <= 'Z' then s[i] - 'A' + 'a' else s[i])
  }

  /** The letters A to Z are lowered, everything else is kept. */
  lemma LowerCaseIs(s: string, i: nat)
    requires i < |s|
    ensures LowerCase(s)[i] as int == s[i] as int + if 65 <= s[i] as int <= 90 then 32 else 0
  {
  }

  /** `new Map(paths.map(...))`: a later entry with the same key replaces an earlier one. */
  function PathMap(paths: seq<Path>): map<string, Path> {
    if paths == [] then map[]
    else
      var last := paths[|paths| - 1];
      PathMap(paths[..|paths| - 1])[LowerCase(last.commitment) := last]
  }

  /** The key a path is stored under. */
  function Key(p: Path): string { LowerCase(p.commitment) }

  /** What the provider tells about the path at `i`. */
  function LookupOf(s: Snapshot, i: nat): Lookup
    requires i < |s.paths|
  {
    Lookup(LowerCase(s.root), s.paths[i].path, s.paths[i].helpers, s.paths[i].leafIndex, s.height)
  }

  class PathProvider {
    const paths: map<string, Path>
    const root: string
    const height: Value
    ghost const snapshot: Snapshot

    ghost predicate Valid() {
      paths == PathMap(snapshot.paths) && root == LowerCase(snapshot.root) && height == snapshot.height
    }

    constructor (s: Snapshot)
      requires s.paths != []
      ensures Valid() && snapshot == s
    {
      paths := PathMap(s.paths);
      root := LowerCase(s.root);
      height := s.height;
      snapshot := s;
    }

    /** The last path of the snapshot stored under the commitment, an error if there is none. */
    method LookupMerklePath(commitment: string, q: nat) returns (r: Result<Lookup>)
      requires Valid()
      ensures r == Err(NonCanonical) <==> !IsNonZeroField(commitment, q)
      ensures r == Err(UnknownCommitment) <==>
                IsNonZeroField(commitment, q) && forall i :: 0 <= i < |snapshot.paths| ==> Key(snapshot.paths[i]) != commitment
      ensures r.Ok? ==>
                exists i :: 0 <= i < |snapshot.paths| && Key(snapshot.paths[i]) == commitment && r.value == LookupOf(snapshot, i)
                            && forall j :: i < j < |snapshot.paths| ==> Key(snapshot.paths[j]) != commitment
      ensures r.Err? ==> r.error in {NonCanonical, UnknownCommitment}
    {
      hide IsNonZeroField, LowerCase, PathMap;
      if !IsNonZeroField(commitment, q) {
        return Err(NonCanonical);
      }
      ghost var i := PathMapFinds(snapshot.paths, commitment);
      if commitment !in paths {
        return Err(UnknownCommitment);
      }
      var path := paths[commitment];
      return Ok(Lookup(root, path.path, path.helpers, path.leafIndex, height));
    }
  }

  /** The map holds the last path stored under each key. */
  lemma {:induction false} PathMapFinds(paths: seq<Path>, key: string) returns (i: nat)
    ensures key in PathMap(paths) <==> exists k :: 0 <= k < |paths| && Key(paths[k]) == key
    ensures key in PathMap(paths) ==>
              && i < |paths| && Key(paths[i]) == key && PathMap(paths)[key] == paths[i]
              && forall j :: i < j < |paths| ==> Key(paths[j]) != key
  {
    hide LowerCase;
    i := 0;
    if paths != [] {
      var n := |paths| - 1;
      i := PathMapFinds(paths[..n], key);
      if Key(paths[n]) == key {
        i := n;
      } else {
        assert forall k :: 0 <= k < n ==> paths[..n][k] == paths[k];
      }
    }
  }

  lemma FieldIsLowerCase(text: string, q: nat)
    requires IsField(text, q)
    ensures LowerCase(text) == text
  {
    hide ParseHex;
  }

  /** The paths of a verified snapshot stand under the requested commitments, each under its own. */
  lemma SnapshotKeys(rawRequest: RawRequest, raw: RawResponse, node: NodeHash, q: nat)
    requires NormalizeRequest(rawRequest, q).Ok? && GoodResponse(raw, NormalizeRequest(rawRequest, q).value, node, q)
    ensures var s := SnapshotOf(raw, NormalizeRequest(rawRequest, q).value, node, q);
            && |s.paths| == |rawRequest.commitments| == |raw.paths| && Distinct(rawRequest.commitments)
            && s.height == Shown(Uint64(raw.height).value)
            && forall i :: 0 <= i < |s.paths| ==>
                 && Key(s.paths[i]) == rawRequest.commitments[i] && IsNonZeroField(rawRequest.commitments[i], q)
                 && LookupOf(s, i) == Lookup(rawRequest.root, raw.paths[i].path, raw.paths[i].helpers,
                                             Shown(LeafIndex(raw.paths[i])), s.height)
  {
    hide FieldOf, Shown, LowerCase, RootFrom, Bit;
    var s := SnapshotOf(raw, NormalizeRequest(rawRequest, q).value, node, q);
    FieldIsLowerCase(s.root, q);
    forall i | 0 <= i < |s.paths|
      ensures Key(s.paths[i]) == rawRequest.commitments[i] && IsNonZeroField(rawRequest.commitments[i], q)
    {
      assert GoodPath(raw.paths[i], rawRequest.commitments[i], raw.root, Uint64(raw.leafCount).value, node, q);
      FieldIsLowerCase(rawRequest.commitments[i], q);
    }
  }

  /**
   * A provider made of a verified response returns the verified path of each requested commitment, and nothing
   * for any other text.
   */
  method VerifyThenLookup(raw: RawResponse, rawRequest: RawRequest, node: NodeHash, q: nat, text: string)
    returns (r: Result<Lookup>)
    requires q <= Pow2(256)
    requires NormalizeRequest(rawRequest, q).Ok? && GoodResponse(raw, NormalizeRequest(rawRequest, q).value, node, q)
    ensures forall i :: 0 <= i < |raw.paths| && rawRequest.commitments[i] == text ==>
              r == Ok(Lookup(rawRequest.root, raw.paths[i].path, raw.paths[i].helpers, Shown(LeafIndex(raw.paths[i])),
                             Shown(Uint64(raw.height).value)))
    ensures IsNonZeroField(text, q) && text !in rawRequest.commitments ==> r == Err(UnknownCommitment)
    ensures !IsNonZeroField(text, q) ==> r == Err(NonCanonical)
  {
    hide IsNonZeroField, GoodPath, Shown, LowerCase, GoodRequest, IsField, CanonicalDecimal, FieldOf, Acceptable, FieldNode,
         Uint64, GoodResponse, SnapshotOf, LookupOf;
    SnapshotKeys(rawRequest, raw, node, q);
    NonEmptyRequest(rawRequest, q);
    var verified := NormalizeResponse(raw, rawRequest, node, q);
    var provider := new PathProvider(verified.value);
    r := provider.LookupMerklePath(text, q);
  }

  lemma NonEmptyRequest(rawRequest: RawRequest, q: nat)
    requires NormalizeRequest(rawRequest, q).Ok?
    ensures rawRequest.commitments != []
  {
  }
}
