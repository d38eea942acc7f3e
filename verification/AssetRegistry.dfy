/** The verified asset registry and its cache. */
module AssetRegistry {
  import opened Wrappers
  import opened NumberTheory
  import opened JsBits
  import opened ByteCodec

  const VERSION := "privacy-asset-registry-v1"

  /** `computeAssetIdV1`; `q` below is the field modulus. */
  type AssetHash = string -> nat

  // ----- names -----

  predicate IsLetter(c: char) { 'a' <= c <= 'z' || 'A' <= c <= 'Z' }

  /** `^[a-zA-Z][a-zA-Z0-9/:._-]{2,127}$` */
  predicate CanonicalDenom(s: string) {
    3 <= |s| <= 128 && IsLetter(s[0])
    && forall i :: 1 <= i < |s| ==> IsLetter(s[i]) || '0' <= s[i] <= '9' || s[i] in "/:._-"
  }

  /** Three to 128 characters, the first of them a letter. */
  lemma DenomTexts(s: string)
    ensures CanonicalDenom(s) <==>
              && 3 <= |s| <= 128 && ('a' <= s[0] <= 'z' || 'A' <= s[0] <= 'Z')
              && forall i :: 0 <= i < |s| ==>
                   || 'a' <= s[i] <= 'z' || 'A' <= s[i] <= 'Z' || '0' <= s[i] <= '9'
                   || s[i] == '/' || s[i] == ':' || s[i] == '.' || s[i] == '_' || s[i] == '-'
  {
  }

  function LowerHexDigit(c: char): char { if 'A' <= c <= 'F' then c - 'A' + 'a' else c }

  function LowerHex(s: string): (r: string)
    ensures |r| == |s| && forall i :: 0 <= i < |s| ==> r[i] == LowerHexDigit(s[i])
  {
    seq(|s|, i requires 0 <= i < |s| => LowerHexDigit(s[i]))
  }

  /** `canonicalAssetIDHexV1`: 64 hex digits of either case denoting a non-zero field element. */
  function CanonicalID(text: string, q: nat): Option<string> {
    var s := LowerHex(text);
    if |s| == 64 && (forall i :: 0 <= i < |s| ==> 0 <= HexValue(s[i])) && 0 < ParseHex(s) < q then Some(s) else None
  }

  /** The texts that are taken as an ID, and the ID they stand for: the same digits in lower case. */
  lemma IDTexts(text: string, q: nat)
    ensures CanonicalID(text, q).Some? <==>
              && |text| == 64 && 0 < ParseHex(LowerHex(text)) < q
              && forall i :: 0 <= i < |text| ==> '0' <= text[i] <= '9' || 'a' <= text[i] <= 'f' || 'A' <= text[i] <= 'F'
    ensures CanonicalID(text, q).Some? ==>
              var id := CanonicalID(text, q).value;
              |id| == 64 && forall i :: 0 <= i < 64 ==> id[i] == if 'A' <= text[i] <= 'F' then text[i] + 32 as char else text[i]
  {
    hide ParseHex;
    forall c: char
      ensures 0 <= HexValue(LowerHexDigit(c)) <==> '0' <= c <= '9' || 'a' <= c <= 'f' || 'A' <= c <= 'F'
    {
    }
    forall i | 0 <= i < |text|
      ensures 0 <= HexValue(LowerHex(text)[i]) <==> '0' <= text[i] <= '9' || 'a' <= text[i] <= 'f' || 'A' <= text[i] <= 'F'
    {
    }
  }

  /** The text of an ID, in either case, stands for that ID. */
  lemma OwnIDText(text: string, n: nat, q: nat)
    requires 0 < n < q <= Pow2(256) && LowerHex(text) == HexFromBytes(ToBE(n, 32))
    ensures CanonicalID(text, q) == Some(HexFromBytes(ToBE(n, 32)))
  {
    hide HexFromBytes, ToBE, Pow2, ParseHex, HexDigits;
    HexOfWord(n);
    ToBERoundTrip(n, 32);
    BytesToHexDigits(ToBE(n, 32));
  }

  // ----- validation -----

  /** A registry entry: the denom and the 32 bytes of its ID. */
  datatype Mapping = Mapping(denom: string, id: seq<byte>)

  /** A response; `id` is the decoded asset ID, if its text decodes. */
  datatype RawResponse = RawResponse(version: string, denom: Option<string>, id: Option<seq<byte>>)

  /** `normalizeAssetRegistryQueryResponseV1` with the denom or the ID that was asked for. */
  function Validate(raw: RawResponse, wantDenom: Option<string>, wantID: Option<string>, hash: AssetHash, q: nat): Option<Mapping> {
    if raw.version != VERSION || raw.denom.None? || raw.id.None? then None
    else
      var denom, id := raw.denom.value, raw.id.value;
      if !CanonicalDenom(denom) || |id| != 32 then None
      else if FromBE(id) == 0 || FromBE(id) >= q || FromBE(id) != hash(denom) then None
      else if wantDenom.Some? && denom != wantDenom.value then None
      else if wantID.Some? && HexFromBytes(id) != wantID.value then None
      else Some(Mapping(denom, id))
  }

  /** The only mapping a denom can have. */
  function MappingOf(denom: string, hash: AssetHash): Mapping { Mapping(denom, ToBE(hash(denom), 32)) }

  /** A validated mapping is determined by its denom, whatever the server answered. */
  lemma ValidatedIsDetermined(raw: RawResponse, wantDenom: Option<string>, wantID: Option<string>, hash: AssetHash, q: nat)
    requires Validate(raw, wantDenom, wantID, hash, q).Some?
    ensures var m := Validate(raw, wantDenom, wantID, hash, q).value;
            && m == MappingOf(m.denom, hash) && CanonicalDenom(m.denom) && 0 < hash(m.denom) < q
            && (wantDenom.Some? ==> m == MappingOf(wantDenom.value, hash))
            && (wantID.Some? ==> IDHex(m.denom, hash) == wantID.value)
  {
    FromBERoundTrip(raw.id.value);
  }

  /** The responses that are accepted, spelled out. */
  lemma ValidateMeans(raw: RawResponse, wantDenom: Option<string>, wantID: Option<string>, hash: AssetHash, q: nat)
    requires q <= Pow2(256)
    ensures Validate(raw, wantDenom, wantID, hash, q).Some? <==>
              && raw.version == "privacy-asset-registry-v1" && raw.denom.Some? && raw.id.Some?
              && CanonicalDenom(raw.denom.value) && 0 < hash(raw.denom.value) < q
              && raw.id.value == ToBE(hash(raw.denom.value), 32)
              && (wantDenom.Some? ==> wantDenom.value == raw.denom.value)
              && (wantID.Some? ==> wantID.value == HexFromBytes(raw.id.value))
    ensures Validate(raw, wantDenom, wantID, hash, q).Some? ==>
              Validate(raw, wantDenom, wantID, hash, q).value == Mapping(raw.denom.value, raw.id.value)
  {
    hide FromBE, ToBE, HexFromBytes, CanonicalDenom, Pow2;
    if raw.denom.Some? && raw.id.Some? {
      var id, n := raw.id.value, hash(raw.denom.value);
      if |id| == 32 { FromBERoundTrip(id); }
      if n < q { ToBERoundTrip(n, 32); }
    }
  }

  /** The ID of a denom as lower-case hex. */
  function IDHex(denom: string, hash: AssetHash): string { HexFromBytes(ToBE(hash(denom), 32)) }

  /** Two denoms with the same ID are a collision of the hash behind `computeAssetIdV1`. */
  lemma IDHexInjective(d: string, e: string, hash: AssetHash, q: nat)
    requires q <= Pow2(256) && hash(d) < q && hash(e) < q && IDHex(d, hash) == IDHex(e, hash)
    ensures hash(d) == hash(e)
  {
    hide HexFromBytes, ToBE, Pow2, HexDigits, ParseHex;
    HexOfWord(hash(d));
    HexOfWord(hash(e));
  }

  lemma HexOfWord(n: nat)
    requires n < Pow2(256)
    ensures ParseHex(HexFromBytes(ToBE(n, 32))) == n
  {
    hide HexFromBytes, ToBE, Pow2, HexDigits, ParseHex;
    ToBERoundTrip(n, 32);
    BytesToHexDigits(ToBE(n, 32));
    ParseHexDigits(n, 64);
  }

  // ----- objects -----

  /** A frozen result object; its byte array is mutable. */
  class Asset {
    const denom: string
    const bytes: array<byte>
    const hex: string
    const field: nat

    constructor (d: string, b: array<byte>, h: string, f: nat)
      ensures denom == d && bytes == b && hex == h && field == f
    {
      denom, bytes, hex, field := d, b, h, f;
    }

    ghost predicate Represents(m: Mapping)
      reads bytes
    {
      denom == m.denom && bytes[..] == m.id && hex == HexFromBytes(m.id) && field == FromBE(m.id)
    }

    /** The entry is the mapping of its denom. */
    ghost predicate Verified(hash: AssetHash, q: nat)
      reads bytes
    {
      Represents(MappingOf(denom, hash)) && CanonicalDenom(denom) && 0 < hash(denom) < q
    }
  }

  /** `normalizedResponse`: a copy with its own byte array. */
  method CopyAsset(a: Asset, ghost m: Mapping) returns (r: Asset)
    requires a.Represents(m)
    ensures fresh(r) && fresh(r.bytes) && r.Represents(m)
  {
    hide HexFromBytes, FromBE;
    var bytes := new byte[a.bytes.Length];
    forall i | 0 <= i < a.bytes.Length {
      bytes[i] := a.bytes[i];
    }
    assert bytes[..] == a.bytes[..];
    r := new Asset(a.denom, bytes, a.hex, a.field);
  }

  method NormalizeResponse(raw: RawResponse, wantDenom: Option<string>, wantID: Option<string>, hash: AssetHash, q: nat)
    returns (r: Result<Asset>)
    ensures r.Ok? <==> Validate(raw, wantDenom, wantID, hash, q).Some?
    ensures r.Ok? ==> fresh(r.value) && fresh(r.value.bytes) && r.value.Represents(Validate(raw, wantDenom, wantID, hash, q).value)
    ensures q <= Pow2(256) ==>
              (r.Ok? <==>
               && raw.version == "privacy-asset-registry-v1" && raw.denom.Some? && raw.id.Some?
               && CanonicalDenom(raw.denom.value) && 0 < hash(raw.denom.value) < q
               && raw.id.value == ToBE(hash(raw.denom.value), 32)
               && (wantDenom.Some? ==> wantDenom.value == raw.denom.value)
               && (wantID.Some? ==> wantID.value == HexFromBytes(raw.id.value)))
    ensures r.Ok? ==>
              && raw.denom.Some? && raw.id.Some? && r.value.denom == raw.denom.value && r.value.bytes[..] == raw.id.value
              && r.value.hex == HexFromBytes(raw.id.value) && r.value.field == FromBE(raw.id.value)
  {
    hide HexFromBytes, FromBE, ToBE, CanonicalDenom, Pow2;
    if q <= Pow2(256) { ValidateMeans(raw, wantDenom, wantID, hash, q); }
    if raw.version != VERSION || raw.denom.None? || raw.id.None? {
      return Err(InvalidResponse);
    }
    var denom, id := raw.denom.value, raw.id.value;
    if !CanonicalDenom(denom) || |id| != 32 {
      return Err(InvalidResponse);
    }
    var field := FromBE(id);
    if field == 0 || field >= q || field != hash(denom) {
      return Err(InvalidResponse);
    }
    if (wantDenom.Some? && denom != wantDenom.value) || (wantID.Some? && HexFromBytes(id) != wantID.value) {
      return Err(InvalidResponse);
    }
    var bytes := new byte[32](i requires 0 <= i < 32 => id[i]);
    assert bytes[..] == id;
    var asset := new Asset(denom, bytes, HexFromBytes(id), field);
    return Ok(asset);
  }

  lemma CopyVerified(a: Asset, m: Mapping, hash: AssetHash, q: nat)
    requires a.Represents(m) && m == MappingOf(m.denom, hash) && CanonicalDenom(m.denom) && 0 < hash(m.denom) < q
    ensures a.Verified(hash, q) && a.denom == m.denom && a.hex == HexFromBytes(m.id)
  {
    hide HexFromBytes, FromBE, CanonicalDenom;
  }

  /** A query between its first step and its answer. */
  datatype Pending = Rejected | Cached(asset: Asset) | FetchDenom(denom: string) | FetchID(id: string)

  /** Both maps hold stored entries under their own key, and each entry's other key is in the other map. */
  ghost predicate Paired(byDenom: map<string, Asset>, byID: map<string, Asset>, stored: set<Asset>) {
    && (forall k :: k in byDenom ==> byDenom[k] in stored && byDenom[k].denom == k && byDenom[k].hex in byID)
    && (forall id :: id in byID ==> byID[id] in stored && byID[id].hex == id && byID[id].denom in byDenom)
  }

  lemma PairedAdd(byDenom: map<string, Asset>, byID: map<string, Asset>, stored: set<Asset>, a: Asset)
    requires Paired(byDenom, byID, stored)
    ensures Paired(byDenom[a.denom := a], byID[a.hex := a], stored + {a})
  {
  }

  /** What the cache knows: the denoms of one map, and for each ID of the other the denom it stands for. */
  datatype Known = Known(denoms: set<string>, ids: map<string, string>)

  function KnownAfter(known: Known, m: Mapping): Known {
    Known(known.denoms + {m.denom}, known.ids[HexFromBytes(m.id) := m.denom])
  }

  ghost function KnownOf(byDenom: map<string, Asset>, byID: map<string, Asset>): Known {
    Known(byDenom.Keys, map id | id in byID :: byID[id].denom)
  }

  lemma KnownAdd(byDenom: map<string, Asset>, byID: map<string, Asset>, a: Asset)
    ensures var known := KnownOf(byDenom, byID);
            KnownOf(byDenom[a.denom := a], byID[a.hex := a]) == Known(known.denoms + {a.denom}, known.ids[a.hex := a.denom])
  {
    assert byDenom[a.denom := a].Keys == byDenom.Keys + {a.denom};
  }

  /** One atomic step per stretch of code between two awaits. */
  class Resolver {
    const hash: AssetHash
    const q: nat
    const cache: bool
    var byDenom: map<string, Asset>
    var byID: map<string, Asset>
    ghost var stored: set<Asset>

    /** The byte arrays of everything that was ever put into the cache. */
    ghost function Arrays(): set<object>
      reads this
    {
      set a | a in stored :: a.bytes
    }

    ghost predicate Valid()
      reads this, Arrays()
    {
      (forall a :: a in stored ==> a.Verified(hash, q)) && Paired(byDenom, byID, stored)
    }

    ghost function View(): Known
      reads this
    {
      KnownOf(byDenom, byID)
    }

    twostate predicate OwnsOnlyNew()
      reads this
    {
      forall o :: o in Arrays() ==> o in old(Arrays()) || fresh(o)
    }

    constructor (h: AssetHash, modulus: nat, useCache: bool)
      ensures Valid() && hash == h && q == modulus && cache == useCache && byDenom == map[] && byID == map[] && stored == {}
    {
      hash, q, cache, byDenom, byID, stored := h, modulus, useCache, map[], map[], {};
    }

    method Clear()
      requires Valid()
      modifies this
      ensures Valid() && View() == Known({}, map[]) && stored == old(stored)
    {
      byDenom, byID := map[], map[];
    }

    /** Up to the first await of `queryAssetByDenom`. */
    method StartByDenom(denom: string) returns (p: Pending)
      requires Valid()
      ensures p.Rejected? <==> !CanonicalDenom(denom)
      ensures p.Cached? <==> !p.Rejected? && denom in View().denoms
      ensures p.Cached? ==> p.asset in stored && p.asset.Verified(hash, q) && p.asset.denom == denom
      ensures !p.FetchID? && (p.FetchDenom? ==> p.denom == denom)
    {
      hide CanonicalDenom, Asset.Verified;
      if !CanonicalDenom(denom) {
        return Rejected;
      }
      if denom in byDenom {
        return Cached(byDenom[denom]);
      }
      return FetchDenom(denom);
    }

    method StartByID(text: string) returns (p: Pending)
      requires Valid()
      ensures p.Rejected? <==> CanonicalID(text, q).None?
      ensures p.Cached? <==> CanonicalID(text, q).Some? && CanonicalID(text, q).value in View().ids
      ensures p.Cached? ==>
                var id := CanonicalID(text, q).value;
                p.asset in stored && p.asset.Verified(hash, q) && p.asset.hex == id && p.asset.denom == View().ids[id]
      ensures !p.FetchDenom? && (p.FetchID? ==> CanonicalID(text, q) == Some(p.id))
    {
      hide CanonicalID, Asset.Verified;
      var id := CanonicalID(text, q);
      if id.None? {
        return Rejected;
      }
      if id.value in byID {
        return Cached(byID[id.value]);
      }
      return FetchID(id.value);
    }

    /** `normalizedResponse(await cached)`, however long after the hit. */
    method FinishCached(asset: Asset) returns (r: Asset)
      requires Valid() && asset in stored
      ensures fresh(r) && fresh(r.bytes) && r.Represents(MappingOf(asset.denom, hash))
    {
      r := CopyAsset(asset, MappingOf(asset.denom, hash));
    }

    /** Everything after the response: validation, `#remember`, and the copy for the caller. */
    method Finish(raw: RawResponse, wantDenom: Option<string>, wantID: Option<string>) returns (r: Result<Asset>)
      requires Valid()
      modifies this
      ensures Valid() && old(stored) <= stored && OwnsOnlyNew()
      ensures r.Ok? <==> Validate(raw, wantDenom, wantID, hash, q).Some?
      ensures r.Ok? ==>
                var m := Validate(raw, wantDenom, wantID, hash, q).value;
                && fresh(r.value) && fresh(r.value.bytes) && r.value.bytes !in Arrays() && r.value.Represents(m)
                && (cache ==> View() == KnownAfter(old(View()), m))
      ensures r.Err? || !cache ==> View() == old(View())
    {
      hide Validate, HexFromBytes, FromBE, MappingOf, CanonicalDenom, Valid, Asset.Represents, KnownOf, KnownAfter;
      assert allocated(Arrays());
      var result := NormalizeResponse(raw, wantDenom, wantID, hash, q);
      if result.Err? {
        return Err(result.error);
      }
      ghost var m := Validate(raw, wantDenom, wantID, hash, q).value;
      ValidatedIsDetermined(raw, wantDenom, wantID, hash, q);
      if cache {
        Remember(result.value, m);
      }
      var copy := CopyAsset(result.value, m);
      return Ok(copy);
    }

    /** `#remember`: one stored copy under both keys. */
    method Remember(result: Asset, ghost m: Mapping)
      requires Valid() && result.Represents(m) && m == MappingOf(m.denom, hash) && CanonicalDenom(m.denom) && 0 < hash(m.denom) < q
      modifies this
      ensures Valid() && old(stored) <= stored && OwnsOnlyNew()
      ensures View() == KnownAfter(old(View()), m)
    {
      hide HexFromBytes, FromBE, MappingOf, CanonicalDenom, Asset.Represents, Asset.Verified, Paired, KnownOf;
      assert allocated(Arrays());
      var copy := CopyAsset(result, m);
      CopyVerified(copy, m, hash, q);
      CopyVerified(result, m, hash, q);
      PairedAdd(byDenom, byID, stored, copy);
      KnownAdd(byDenom, byID, copy);
      byDenom := byDenom[result.denom := copy];
      byID := byID[result.hex := copy];
      stored := stored + {copy};
    }
  }

  // ----- every interleaving -----

  datatype Query = ByDenom(denom: string) | ByID(id: string)

  /** What a query delivered, at the moment it delivered it. */
  datatype Outcome = Outcome(query: Query, mapping: Mapping)

  /**
   * The outcome of a by-denom query is the one a fresh validated query gives; a by-ID outcome carries the ID asked
   * for.
   */
  ghost predicate Right(o: Outcome, hash: AssetHash, q: nat) {
    && o.mapping == MappingOf(o.mapping.denom, hash) && CanonicalDenom(o.mapping.denom) && 0 < hash(o.mapping.denom) < q
    && match o.query
       case ByDenom(denom) => o.mapping.denom == denom
       case ByID(id) => IDHex(o.mapping.denom, hash) == id
  }

  /** Two right outcomes of the same query agree; by ID, unless their denoms exhibit a collision of the hash. */
  lemma RightIsUnique(o: Outcome, o': Outcome, hash: AssetHash, q: nat)
    requires Right(o, hash, q) && Right(o', hash, q) && o.query == o'.query && q <= Pow2(256)
    ensures o == o' || (o.query.ByID? && o.mapping.denom != o'.mapping.denom && hash(o.mapping.denom) == hash(o'.mapping.denom))
  {
    hide CanonicalDenom, IDHex, MappingOf, Pow2;
    if o.query.ByID? {
      IDHexInjective(o.mapping.denom, o'.mapping.denom, hash, q);
    }
  }

  /** What a fresh query delivers, for any response that is accepted. */
  lemma FreshIsRight(raw: RawResponse, query: Query, hash: AssetHash, q: nat)
    requires Validate(raw, WantDenom(query), WantID(query), hash, q).Some?
    ensures Right(Outcome(query, Validate(raw, WantDenom(query), WantID(query), hash, q).value), hash, q)
  {
    hide CanonicalDenom, HexFromBytes, FromBE, ToBE;
    ValidatedIsDetermined(raw, WantDenom(query), WantID(query), hash, q);
  }

  function WantDenom(query: Query): Option<string> { if query.ByDenom? then Some(query.denom) else None }

  function WantID(query: Query): Option<string> { if query.ByID? then Some(query.id) else None }

  /**
   * What the environment may do next: callers ask, responses arrive, hits are delivered, someone clears the cache or
   * writes into a returned array.
   */
  datatype Step =
    | AskDenom(text: string)
    | AskID(text: string)
    | Answer(flight: nat, raw: RawResponse)
    | Deliver(flight: nat)
    | ClearCache
    | CallerWrites(result: nat, index: nat, b: byte)

  // ----- the cache as a state machine -----

  /** A query waits for its response, or has hit the entry of a denom and waits for its copy, or is over. */
  datatype Phase = Waiting | Hit(denom: string) | Over

  datatype Flight = Flight(query: Query, phase: Phase)

  datatype World = World(known: Known, flights: seq<Flight>)

  /** The fixed parameters: hash, modulus, and whether the cache is on. */
  datatype Setting = Setting(hash: AssetHash, q: nat, cache: bool)

  function Ask(w: World, query: Query, hit: Option<string>): World {
    w.(flights := w.flights + [Flight(query, if hit.Some? then Hit(hit.value) else Waiting)])
  }

  function EndFlight(w: World, i: nat): World
    requires i < |w.flights|
  {
    w.(flights := w.flights[i := w.flights[i].(phase := Over)])
  }

  /** The response to a waiting query, validated against what the query asked for. */
  function Accepted(query: Query, raw: RawResponse, s: Setting): Option<Mapping> {
    Validate(raw, WantDenom(query), WantID(query), s.hash, s.q)
  }

  /** The next state, and what the step delivers to a caller. */
  function Next(w: World, step: Step, s: Setting): (World, Option<Outcome>) {
    match step
    case AskDenom(text) =>
      (if !CanonicalDenom(text) then w else Ask(w, ByDenom(text), if text in w.known.denoms then Some(text) else None), None)
    case AskID(text) =>
      (match CanonicalID(text, s.q)
       case None => (w, None)
       case Some(id) => (Ask(w, ByID(id), if id in w.known.ids then Some(w.known.ids[id]) else None), None))
    case Answer(i, raw) =>
      if !(i < |w.flights| && w.flights[i].phase.Waiting?) then (w, None)
      else
        (match Accepted(w.flights[i].query, raw, s)
         case None => (EndFlight(w, i), None)
         case Some(m) =>
           (EndFlight(if s.cache then w.(known := KnownAfter(w.known, m)) else w, i), Some(Outcome(w.flights[i].query, m))))
    case Deliver(i) =>
      if !(i < |w.flights| && w.flights[i].phase.Hit?) then (w, None)
      else (EndFlight(w, i), Some(Outcome(w.flights[i].query, MappingOf(w.flights[i].phase.denom, s.hash))))
    case ClearCache => (w.(known := Known({}, map[])), None)
    case CallerWrites(_, _, _) => (w, None)
  }

  /** The state after a run, and what each of its steps delivered. */
  function After(w: World, steps: seq<Step>, s: Setting): World {
    if steps == [] then w else Next(After(w, steps[..|steps| - 1], s), steps[|steps| - 1], s).0
  }

  function Log(w: World, steps: seq<Step>, s: Setting): (log: seq<Option<Outcome>>)
    ensures |log| == |steps|
  {
    if steps == [] then []
    else Log(w, steps[..|steps| - 1], s) + [Next(After(w, steps[..|steps| - 1], s), steps[|steps| - 1], s).1]
  }

  /** A denom that can be in the cache. */
  predicate Registered(denom: string, s: Setting) { CanonicalDenom(denom) && 0 < s.hash(denom) < s.q }

  predicate Fits(query: Query, denom: string, s: Setting) {
    match query case ByDenom(d) => d == denom case ByID(id) => IDHex(denom, s.hash) == id
  }

  /** Every entry stands under its own ID, and every hit is the entry its query asked for. */
  ghost predicate Sound(w: World, s: Setting) {
    && (forall d :: d in w.known.denoms ==> Registered(d, s))
    && (forall id :: id in w.known.ids ==> Registered(w.known.ids[id], s) && IDHex(w.known.ids[id], s.hash) == id)
    && (forall i :: 0 <= i < |w.flights| && w.flights[i].phase.Hit? ==>
          Registered(w.flights[i].phase.denom, s) && Fits(w.flights[i].query, w.flights[i].phase.denom, s))
  }

  lemma NextIsSound(w: World, step: Step, s: Setting)
    requires Sound(w, s)
    ensures Sound(Next(w, step, s).0, s)
    ensures Next(w, step, s).1.Some? ==> Right(Next(w, step, s).1.value, s.hash, s.q)
  {
    hide CanonicalDenom, CanonicalID, Validate, HexFromBytes, MappingOf, IDHex;
    match step
    case Answer(i, raw) =>
      if i < |w.flights| && w.flights[i].phase.Waiting? && Accepted(w.flights[i].query, raw, s).Some? {
        FreshIsRight(raw, w.flights[i].query, s.hash, s.q);
        MappingHex(Accepted(w.flights[i].query, raw, s).value, s.hash);
      }
    case Deliver(i) =>
      if i < |w.flights| && w.flights[i].phase.Hit? {
        MappingDenom(w.flights[i].phase.denom, s.hash);
      }
    case _ =>
  }

  lemma MappingHex(m: Mapping, hash: AssetHash)
    ensures m == MappingOf(m.denom, hash) ==> HexFromBytes(m.id) == IDHex(m.denom, hash)
  {
  }

  lemma MappingDenom(denom: string, hash: AssetHash)
    ensures MappingOf(denom, hash).denom == denom
  {
  }

  /** Whatever the interleaving, everything that is ever delivered is right. */
  lemma {:induction false} RunIsRight(w: World, steps: seq<Step>, s: Setting)
    requires Sound(w, s)
    ensures Sound(After(w, steps, s), s)
    ensures forall n :: 0 <= n < |steps| && Log(w, steps, s)[n].Some? ==> Right(Log(w, steps, s)[n].value, s.hash, s.q)
  {
    hide Sound, Next, Right;
    if steps != [] {
      var init := steps[..|steps| - 1];
      RunIsRight(w, init, s);
      NextIsSound(After(w, init, s), steps[|steps| - 1], s);
    }
  }

  /** A step delivers exactly when it hands over a hit, or an acceptable response to a query that waits for one. */
  predicate Delivers(w: World, step: Step, s: Setting) {
    match step
    case Answer(i, raw) => i < |w.flights| && w.flights[i].phase.Waiting? && Accepted(w.flights[i].query, raw, s).Some?
    case Deliver(i) => i < |w.flights| && w.flights[i].phase.Hit?
    case _ => false
  }

  /** The honest answer for a denom delivers its mapping to every query that waits for it, by denom or by ID. */
  lemma HonestAnswerDelivers(w: World, i: nat, denom: string, s: Setting)
    requires s.q <= Pow2(256) && CanonicalDenom(denom) && 0 < s.hash(denom) < s.q
    requires i < |w.flights| && w.flights[i].phase == Waiting
    requires w.flights[i].query in {ByDenom(denom), ByID(HexFromBytes(ToBE(s.hash(denom), 32)))}
    ensures var id := ToBE(s.hash(denom), 32);
            Next(w, Answer(i, RawResponse("privacy-asset-registry-v1", Some(denom), Some(id))), s).1
            == Some(Outcome(w.flights[i].query, Mapping(denom, id)))
  {
    hide CanonicalDenom, ToBE, HexFromBytes, Pow2, Validate;
    var query, id := w.flights[i].query, ToBE(s.hash(denom), 32);
    ValidateMeans(RawResponse("privacy-asset-registry-v1", Some(denom), Some(id)), WantDenom(query), WantID(query), s.hash, s.q);
  }

  /** Nothing else is delivered from a response. */
  lemma OnlyHonestAnswersDeliver(w: World, i: nat, raw: RawResponse, s: Setting)
    requires s.q <= Pow2(256) && Next(w, Answer(i, raw), s).1.Some?
    ensures i < |w.flights| && w.flights[i].phase == Waiting && raw.denom.Some?
    ensures var denom, id := raw.denom.value, ToBE(s.hash(raw.denom.value), 32);
            && raw == RawResponse("privacy-asset-registry-v1", Some(denom), Some(id))
            && CanonicalDenom(denom) && 0 < s.hash(denom) < s.q
            && w.flights[i].query in {ByDenom(denom), ByID(HexFromBytes(id))}
            && Next(w, Answer(i, raw), s).1 == Some(Outcome(w.flights[i].query, Mapping(denom, id)))
  {
    hide CanonicalDenom, ToBE, HexFromBytes, Pow2, Validate;
    var query := w.flights[i].query;
    ValidateMeans(raw, WantDenom(query), WantID(query), s.hash, s.q);
  }

  lemma {:induction false} DeliveredExactly(w: World, steps: seq<Step>, s: Setting, n: nat)
    requires n < |steps|
    ensures var before := After(w, steps[..n], s);
            && (Log(w, steps, s)[n].Some? <==> Delivers(before, steps[n], s))
            && (Log(w, steps, s)[n].Some? ==>
                  Log(w, steps, s)[n].value.query
                  == before.flights[steps[n].flight].query)
  {
    hide Accepted, CanonicalDenom, CanonicalID;
    var init := steps[..|steps| - 1];
    if n < |init| {
      assert init[..n] == steps[..n];
      DeliveredExactly(w, init, s, n);
    }
  }

  // ----- the resolver runs that machine -----

  /** A query under way, with the stored object of a hit. */
  datatype Running = Running(query: Query, hit: Option<Asset>, over: bool)

  ghost function FlightOf(r: Running): Flight {
    Flight(r.query, if r.over then Over else if r.hit.Some? then Hit(r.hit.value.denom) else Waiting)
  }

  ghost function FlightsOf(running: seq<Running>): (f: seq<Flight>)
    ensures |f| == |running| && forall i :: 0 <= i < |f| ==> f[i] == FlightOf(running[i])
  {
    seq(|running|, i requires 0 <= i < |running| => FlightOf(running[i]))
  }

  lemma FlightsChange(running: seq<Running>, r: Running, i: nat)
    ensures FlightsOf(running + [r]) == FlightsOf(running) + [FlightOf(r)]
    ensures i < |running| ==> FlightsOf(running[i := r]) == FlightsOf(running)[i := FlightOf(r)]
  {
  }

  ghost function WorldOf(resolver: Resolver, running: seq<Running>): World
    reads resolver
  {
    World(resolver.View(), FlightsOf(running))
  }

  function SettingOf(resolver: Resolver): Setting { Setting(resolver.hash, resolver.q, resolver.cache) }

  ghost predicate HitsStored(running: seq<Running>, stored: set<Asset>) {
    forall i :: 0 <= i < |running| && running[i].hit.Some? ==> running[i].hit.value in stored
  }

  /** What callers hold shares no array with the cache. */
  ghost predicate Separate(results: seq<Asset>, resolver: Resolver)
    reads resolver
  {
    forall i :: 0 <= i < |results| ==> results[i].bytes !in resolver.Arrays()
  }

  method TakeStep(resolver: Resolver, step: Step, running0: seq<Running>, results0: seq<Asset>)
    returns (running: seq<Running>, results: seq<Asset>, out: Option<Outcome>)
    requires resolver.Valid() && HitsStored(running0, resolver.stored) && Separate(results0, resolver)
    modifies resolver, set a | a in results0 :: a.bytes
    ensures resolver.Valid() && HitsStored(running, resolver.stored) && Separate(results, resolver)
    ensures forall i :: 0 <= i < |results| ==> results[i] in results0 || fresh(results[i].bytes)
    ensures (WorldOf(resolver, running), out) == Next(old(WorldOf(resolver, running0)), step, SettingOf(resolver))
  {
    hide Resolver.Valid, Asset.Represents, Asset.Verified, CanonicalDenom, CanonicalID, Validate, KnownOf,
         KnownAfter, MappingOf, FlightsOf;
    assert allocated(resolver.Arrays());
    running, results, out := running0, results0, None;
    match step
    case AskDenom(text) =>
      var p := resolver.StartByDenom(text);
      if p.Cached? {
        var entry := Running(ByDenom(text), Some(p.asset), false);
        FlightsChange(running, entry, 0);
        running := running + [entry];
      } else if p.FetchDenom? {
        var entry := Running(ByDenom(text), None, false);
        FlightsChange(running, entry, 0);
        running := running + [entry];
      }
    case AskID(text) =>
      var p := resolver.StartByID(text);
      if p.Cached? {
        var entry := Running(ByID(CanonicalID(text, resolver.q).value), Some(p.asset), false);
        FlightsChange(running, entry, 0);
        running := running + [entry];
      } else if p.FetchID? {
        var entry := Running(ByID(p.id), None, false);
        FlightsChange(running, entry, 0);
        running := running + [entry];
      }
    case Answer(i, raw) =>
      if i < |running| && running[i].hit.None? && !running[i].over {
        var query := running[i].query;
        var r := resolver.Finish(raw, WantDenom(query), WantID(query));
        FlightsChange(running, running[i].(over := true), i);
        running := running[i := running[i].(over := true)];
        if r.Ok? {
          out := Some(Outcome(query, Delivered(r.value, Validate(raw, WantDenom(query), WantID(query), resolver.hash, resolver.q).value)));
          results := results + [r.value];
        }
      }
    case Deliver(i) =>
      if i < |running| && running[i].hit.Some? && !running[i].over {
        var asset := running[i].hit.value;
        var r := resolver.FinishCached(asset);
        out := Some(Outcome(running[i].query, Delivered(r, MappingOf(asset.denom, resolver.hash))));
        FlightsChange(running, running[i].(over := true), i);
        running := running[i := running[i].(over := true)];
        results := results + [r];
      }
    case ClearCache =>
      resolver.Clear();
    case CallerWrites(j, k, b) =>
      if j < |results| && k < results[j].bytes.Length {
        results[j].bytes[k] := b;
      }
  }

  /** For every sequence of steps, the resolver delivers exactly what the state machine does. */
  method Drive(resolver: Resolver, steps: seq<Step>) returns (log: seq<Option<Outcome>>)
    requires resolver.Valid()
    modifies resolver
    ensures resolver.Valid()
    ensures log == Log(World(old(resolver.View()), []), steps, SettingOf(resolver))
    ensures forall n :: 0 <= n < |log| && log[n].Some? ==> Right(log[n].value, resolver.hash, resolver.q)
  {
    hide Resolver.Valid, Right, Next, Sound, KnownOf;
    ghost var w, s := World(resolver.View(), []), SettingOf(resolver);
    ValidIsSound(resolver);
    RunIsRight(w, steps, s);
    log := [];
    var running: seq<Running> := [];
    var results: seq<Asset> := [];
    for n := 0 to |steps|
      invariant resolver.Valid() && HitsStored(running, resolver.stored) && Separate(results, resolver)
      invariant forall i :: 0 <= i < |results| ==> fresh(results[i].bytes)
      invariant WorldOf(resolver, running) == After(w, steps[..n], s) && log == Log(w, steps[..n], s)
    {
      var out: Option<Outcome>;
      running, results, out := TakeStep(resolver, steps[n], running, results);
      assert steps[..n + 1][..n] == steps[..n];
      log := log + [out];
    }
    assert steps[..|steps|] == steps;
  }

  lemma ValidIsSound(resolver: Resolver)
    requires resolver.Valid()
    ensures Sound(World(resolver.View(), []), SettingOf(resolver))
  {
    hide CanonicalDenom, HexFromBytes, FromBE, ToBE;
    forall id | id in resolver.byID ensures IDHex(resolver.byID[id].denom, resolver.hash) == id && resolver.byID[id].Verified(resolver.hash, resolver.q) {
    }
    forall d | d in resolver.byDenom ensures resolver.byDenom[d].Verified(resolver.hash, resolver.q) && resolver.byDenom[d].denom == d {
    }
  }

  /** Reads a delivered object. */
  function Delivered(a: Asset, ghost m: Mapping): (r: Mapping)
    requires a.Represents(m)
    reads a.bytes
    ensures r == m
  {
    Mapping(a.denom, a.bytes[..])
  }

  /** The two maps are inverse to each other, up to a collision of the hash. */
  lemma MapsAgree(resolver: Resolver, denom: string)
    requires resolver.Valid() && resolver.q <= Pow2(256) && denom in resolver.byDenom
    ensures var id := resolver.byDenom[denom].hex;
            && id in resolver.byID && id == IDHex(denom, resolver.hash)
            && resolver.hash(resolver.byID[id].denom) == resolver.hash(denom)
  {
    hide CanonicalDenom, HexFromBytes, FromBE, ToBE, Pow2;
    var a := resolver.byDenom[denom];
    var b := resolver.byID[a.hex];
    assert a.Verified(resolver.hash, resolver.q) && b.Verified(resolver.hash, resolver.q);
    IDHexInjective(a.denom, b.denom, resolver.hash, resolver.q);
  }
}
