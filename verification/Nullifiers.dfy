/** `checkNullifiers`: statuses from several responses are folded into one verdict per nullifier. */
module Nullifiers {
  import opened Wrappers

  // ----- what a server sends -----

  /** A property that may be absent, boolean, or anything else. */
  datatype Property = Missing | Bool(b: bool) | Other

  datatype Usage = Boolean(b: bool) | Record(used: Property, alias: Property) | NoUsage

  /** `parseNullifierUsage`; None stands for `null`. */
  function ParseUsage(value: Usage): Option<bool> {
    match value
    case Boolean(b) => Some(b)
    case NoUsage => None
    case Record(used, alias) =>
      if used.Missing? && alias.Missing? then None
      else if used.Other? || alias.Other? then None
      else if used.Bool? && alias.Bool? && used.b != alias.b then None
      else Some(if used.Bool? then used.b else alias.b)
  }

  /** A list entry with the spellings `nullifier` and `Nullifier` of its key. */
  datatype Entry = Entry(canonical: Option<string>, alias: Option<string>, usage: Usage)

  /** A response with its two spellings of the list. */
  datatype Response = Response(statuses: seq<Entry>, aliasStatuses: seq<Entry>)

  /** `norm` is `String(value).trim().toLowerCase()`. */
  type Norm = string -> string

  datatype Observation = Observation(key: string, used: Option<bool>)

  /** The key of an entry whose spellings do not disagree. */
  function KeyOf(e: Entry, norm: Norm): string {
    if e.canonical.Some? then norm(e.canonical.value) else if e.alias.Some? then norm(e.alias.value) else ""
  }

  /** What one entry says: a verdict for one key, or that two keys are unusable because its spellings disagree. */
  function Observed(e: Entry, norm: Norm): seq<Observation> {
    if e.canonical.Some? && e.alias.Some? && norm(e.canonical.value) != norm(e.alias.value)
    then [Observation(norm(e.canonical.value), None), Observation(norm(e.alias.value), None)]
    else [Observation(KeyOf(e, norm), ParseUsage(e.usage))]
  }

  function ObservedAll(entries: seq<Entry>, norm: Norm): seq<Observation> {
    if entries == [] then [] else ObservedAll(entries[..|entries| - 1], norm) + Observed(entries[|entries| - 1], norm)
  }

  // ----- what the fold computes -----

  /** No observation of `key` says anything but `b`. */
  predicate Consistent(obs: seq<Observation>, key: string, b: bool) {
    forall i :: 0 <= i < |obs| && obs[i].key == key ==> obs[i].used == Some(b)
  }

  predicate Seen(obs: seq<Observation>, key: string) { exists i :: 0 <= i < |obs| && obs[i].key == key }

  /** At least one observation of `key` was made, and all of them say `b`. */
  predicate Unanimous(obs: seq<Observation>, key: string, b: bool) { Seen(obs, key) && Consistent(obs, key, b) }

  /** `result` maps exactly the unanimous keys to what was said of them. */
  ghost predicate Verdict(obs: seq<Observation>, result: map<string, bool>) {
    forall key, b :: Says(result, key, b) <==> (key != "" && Unanimous(obs, key, b))
  }

  predicate Says(result: map<string, bool>, key: string, b: bool) { key in result && result[key] == b }

  class StatusFold {
    var usedByNullifier: map<string, bool>
    var invalidNullifiers: set<string>

    constructor ()
      ensures usedByNullifier == map[] && Holds([])
    {
      usedByNullifier, invalidNullifiers := map[], {};
    }

    /** The map holds the unanimous keys, the set those with an unusable or contradicted observation. */
    ghost predicate Holds(obs: seq<Observation>)
      reads this
    {
      && (forall key :: key in usedByNullifier ==> key != "" && key !in invalidNullifiers && Unanimous(obs, key, usedByNullifier[key]))
      && (forall key :: key in invalidNullifiers ==> !Consistent(obs, key, true) && !Consistent(obs, key, false))
      && (forall key :: Seen(obs, key) ==> key == "" || key in usedByNullifier || key in invalidNullifiers)
    }

    /** `addStatus`. */
    method AddStatus(key: string, used: Option<bool>, ghost obs: seq<Observation>)
      requires Holds(obs)
      modifies this
      ensures Holds(obs + [Observation(key, used)])
    {
      ghost var o := Observation(key, used);
      Extended(obs, o);
      if key == "" || key in invalidNullifiers {
        return;
      }
      if used.None? || (key in usedByNullifier && usedByNullifier[key] != used.value) {
        usedByNullifier := usedByNullifier - {key};
        invalidNullifiers := invalidNullifiers + {key};
        return;
      }
      usedByNullifier := usedByNullifier[key := used.value];
    }

    method AddEntries(entries: seq<Entry>, norm: Norm, ghost obs: seq<Observation>)
      requires Holds(obs)
      modifies this
      ensures Holds(obs + ObservedAll(entries, norm))
    {
      hide Holds, Observed;
      assert obs + [] == obs;
      for i := 0 to |entries|
        invariant Holds(obs + ObservedAll(entries[..i], norm))
      {
        ghost var done := obs + ObservedAll(entries[..i], norm);
        assert entries[..i + 1][..i] == entries[..i];
        assert obs + ObservedAll(entries[..i + 1], norm) == done + Observed(entries[i], norm);
        AddEntry(entries[i], norm, done);
      }
      assert entries[..|entries|] == entries;
    }

    method AddEntry(e: Entry, norm: Norm, ghost obs: seq<Observation>)
      requires Holds(obs)
      modifies this
      ensures Holds(obs + Observed(e, norm))
    {
      hide Holds, ParseUsage;
      if e.canonical.Some? && e.alias.Some? && norm(e.canonical.value) != norm(e.alias.value) {
        AddStatus(norm(e.canonical.value), None, obs);
        AddStatus(norm(e.alias.value), None, obs + [Observation(norm(e.canonical.value), None)]);
        assert obs + Observed(e, norm) == obs + [Observation(norm(e.canonical.value), None)] + [Observation(norm(e.alias.value), None)];
      } else {
        AddStatus(KeyOf(e, norm), ParseUsage(e.usage), obs);
      }
    }
  }

  /** What one more observation changes. */
  lemma Extended(obs: seq<Observation>, o: Observation)
    ensures forall key, b :: Consistent(obs + [o], key, b) <==> Consistent(obs, key, b) && (key == o.key ==> o.used == Some(b))
    ensures forall key :: Seen(obs + [o], key) <==> Seen(obs, key) || key == o.key
  {
    var all := obs + [o];
    assert all[|obs|] == o;
    assert forall i :: 0 <= i < |obs| ==> all[i] == obs[i];
  }

  /** The fold has computed the verdict. */
  lemma FoldedVerdict(fold: StatusFold, obs: seq<Observation>)
    requires fold.Holds(obs)
    ensures Verdict(obs, fold.usedByNullifier)
  {
    forall key, b ensures Says(fold.usedByNullifier, key, b) <==> (key != "" && Unanimous(obs, key, b)) {
      if key in fold.usedByNullifier && Unanimous(obs, key, b) {
        OneVerdict(obs, key, b, fold.usedByNullifier[key]);
      }
    }
  }

  lemma OneVerdict(obs: seq<Observation>, key: string, b: bool, c: bool)
    requires Unanimous(obs, key, b) && Unanimous(obs, key, c)
    ensures b == c
  {
  }

  // ----- the batched loop -----

  const BATCH: nat := 1000

  /** `[...new Set(values.map(norm).filter(Boolean))]` */
  function Normalized(values: seq<string>, norm: Norm): seq<string> {
    if values == [] then []
    else
      var rest, key := Normalized(values[..|values| - 1], norm), norm(values[|values| - 1]);
      if key == "" || key in rest then rest else rest + [key]
  }

  function Slice(requested: seq<string>, start: nat): (r: seq<string>)
    requires start <= |requested|
    ensures |r| <= BATCH
  {
    requested[start..if start + BATCH <= |requested| then start + BATCH else |requested|]
  }

  /** What the server answers to the request for the batch at a position, with this body. */
  type Server = (nat, seq<string>) -> Response

  /** The bodies of the requests sent from position `start` on. */
  function Requests(requested: seq<string>, start: nat): seq<seq<string>>
    decreases |requested| - start
  {
    if start >= |requested| then [] else [Slice(requested, start)] + Requests(requested, start + BATCH)
  }

  /** The entries of the answers to the bodies sent, in order. */
  function Received(server: Server, sent: seq<seq<string>>): seq<Entry> {
    if sent == [] then []
    else
      var n := |sent| - 1;
      var response := server(BATCH * n, sent[n]);
      Received(server, sent[..n]) + (response.statuses + response.aliasStatuses)
  }

  /** The key in one of the two spellings of the entry. */
  predicate Spells(e: Entry, norm: Norm, key: string) {
    (e.canonical.Some? && norm(e.canonical.value) == key) || (e.alias.Some? && norm(e.alias.value) == key)
  }

  /**
   * Some entry spells the key, and every entry that does spells no other and says `b`: as a boolean, or in one or
   * both properties of a record.
   */
  ghost predicate Affirmed(entries: seq<Entry>, norm: Norm, key: string, b: bool) {
    && (exists e :: e in entries && Spells(e, norm, key))
    && forall e :: e in entries && Spells(e, norm, key) ==>
         && (e.canonical.Some? ==> norm(e.canonical.value) == key)
         && (e.alias.Some? ==> norm(e.alias.value) == key)
         && e.usage in {Boolean(b), Record(Bool(b), Bool(b)), Record(Bool(b), Missing), Record(Missing, Bool(b))}
  }

  /**
   * The bodies sent cover the list of keys, the entries are the answers to exactly those, and a key is mapped to `b`
   * exactly if the entries affirm that.
   */
  method CheckNullifiers(nullifiers: seq<string>, norm: Norm, server: Server)
    returns (r: map<string, bool>, ghost sent: seq<seq<string>>, ghost entries: seq<Entry>)
    ensures sent == Requests(Normalized(nullifiers, norm), 0) && entries == Received(server, sent)
    ensures Verdict(ObservedAll(entries, norm), r)
    ensures forall key, b :: Says(r, key, b) <==> key != "" && Affirmed(entries, norm, key, b)
  {
    hide ObservedAll, Verdict, StatusFold.Holds, Affirmed, Slice, Says;
    var requested := Normalized(nullifiers, norm);
    sent, entries := [], [];
    NothingObserved(norm);
    if |requested| == 0 {
      VerdictOnEntries([], norm, map[]);
      return map[], sent, entries;
    }
    var fold := new StatusFold();
    var start := 0;
    while start < |requested|
      invariant sent + Requests(requested, start) == Requests(requested, 0)
      invariant start == BATCH * |sent| && entries == Received(server, sent)
      invariant fresh(fold) && fold.Holds(ObservedAll(entries, norm))
      decreases |requested| - start
    {
      var response := server(start, Slice(requested, start));
      var batch := response.statuses + response.aliasStatuses;
      ObservedConcat(entries, batch, norm);
      fold.AddEntries(batch, norm, ObservedAll(entries, norm));
      NextAnswer(server, sent, Slice(requested, start));
      NextRequest(requested, start, sent);
      sent, entries := sent + [Slice(requested, start)], entries + batch;
      start := start + BATCH;
    }
    assert Requests(requested, start) == [] && sent + [] == sent;
    FoldedVerdict(fold, ObservedAll(entries, norm));
    VerdictOnEntries(entries, norm, fold.usedByNullifier);
    r := fold.usedByNullifier;
  }

  lemma NextRequest(requested: seq<string>, start: nat, sent: seq<seq<string>>)
    requires start < |requested|
    ensures sent + [Slice(requested, start)] + Requests(requested, start + BATCH) == sent + Requests(requested, start)
  {
    var rest := Requests(requested, start + BATCH);
    assert sent + ([Slice(requested, start)] + rest) == sent + [Slice(requested, start)] + rest;
  }

  lemma NextAnswer(server: Server, sent: seq<seq<string>>, body: seq<string>)
    ensures Received(server, sent + [body])
            == Received(server, sent) + (server(BATCH * |sent|, body).statuses + server(BATCH * |sent|, body).aliasStatuses)
  {
    assert (sent + [body])[..|sent|] == sent;
  }

  predicate Mentions(obs: seq<Observation>, key: string) { exists o :: o in obs && o.key == key }

  predicate AllSay(obs: seq<Observation>, key: string, b: bool) {
    forall o :: o in obs && o.key == key ==> o.used == Some(b)
  }

  /** What one entry says about a key it spells, or does not. */
  lemma EntrySays(e: Entry, norm: Norm, key: string, b: bool)
    requires key != ""
    ensures Spells(e, norm, key) <==> Mentions(Observed(e, norm), key)
    ensures Spells(e, norm, key) ==> (AllSay(Observed(e, norm), key, b) <==> Affirmed([e], norm, key, b))
  {
    hide Mentions, AllSay;
    AffirmedOne(e, norm, key, b);
    hide Affirmed;
    UsageSays(e.usage, b);
    hide ParseUsage;
    var obs := Observed(e, norm);
    if e.canonical.Some? && e.alias.Some? && norm(e.canonical.value) != norm(e.alias.value) {
      TwoObservations(obs[0], obs[1], key, b);
      assert obs == [obs[0], obs[1]];
    } else {
      OneObservation(obs[0], key, b);
      assert obs == [obs[0]];
    }
  }

  lemma AffirmedOne(e: Entry, norm: Norm, key: string, b: bool)
    ensures Affirmed([e], norm, key, b) <==>
              && Spells(e, norm, key)
              && (e.canonical.Some? ==> norm(e.canonical.value) == key)
              && (e.alias.Some? ==> norm(e.alias.value) == key)
              && e.usage in {Boolean(b), Record(Bool(b), Bool(b)), Record(Bool(b), Missing), Record(Missing, Bool(b))}
  {
    assert e in [e];
  }

  lemma OneObservation(o: Observation, key: string, b: bool)
    ensures Mentions([o], key) <==> o.key == key
    ensures AllSay([o], key, b) <==> (o.key == key ==> o.used == Some(b))
  {
    assert o in [o];
  }

  lemma TwoObservations(o: Observation, o': Observation, key: string, b: bool)
    ensures Mentions([o, o'], key) <==> o.key == key || o'.key == key
    ensures AllSay([o, o'], key, b) <==> (o.key == key ==> o.used == Some(b)) && (o'.key == key ==> o'.used == Some(b))
  {
    assert o in [o, o'] && o' in [o, o'];
  }

  lemma UsageSays(usage: Usage, b: bool)
    ensures ParseUsage(usage) == Some(b) <==>
              usage in {Boolean(b), Record(Bool(b), Bool(b)), Record(Bool(b), Missing), Record(Missing, Bool(b))}
  {
  }

  lemma AllEntriesSay(entries: seq<Entry>, norm: Norm, key: string, b: bool)
    requires key != ""
    ensures Mentions(ObservedAll(entries, norm), key) && AllSay(ObservedAll(entries, norm), key, b)
            <==> Affirmed(entries, norm, key, b)
  {
    hide Observed, ObservedAll;
    forall o ensures o in ObservedAll(entries, norm) <==> exists e :: e in entries && o in Observed(e, norm) {
      ObservedFrom(entries, norm, o);
    }
    forall e | e in entries
      ensures Spells(e, norm, key) <==> Mentions(Observed(e, norm), key)
      ensures Spells(e, norm, key) ==> (AllSay(Observed(e, norm), key, b) <==> Affirmed([e], norm, key, b))
    {
      EntrySays(e, norm, key, b);
      assert e in [e];
    }
  }

  lemma VerdictOnEntries(entries: seq<Entry>, norm: Norm, r: map<string, bool>)
    requires Verdict(ObservedAll(entries, norm), r)
    ensures forall key, b :: Says(r, key, b) <==> key != "" && Affirmed(entries, norm, key, b)
  {
    hide Observed, ObservedAll, Unanimous, Affirmed, Says;
    forall key, b ensures Says(r, key, b) <==> key != "" && Affirmed(entries, norm, key, b) {
      if key != "" {
        MembersDecide(ObservedAll(entries, norm), key, b);
        AllEntriesSay(entries, norm, key, b);
      }
    }
  }

  /** One entry that says `b` of one key decides that key, and no other. */
  lemma SingleStatus(k: string, b: bool, norm: Norm, r: map<string, bool>)
    requires norm(k) != "" && Verdict(ObservedAll([Entry(Some(k), None, Record(Bool(b), Missing))], norm), r)
    ensures r == map[norm(k) := b]
  {
    hide Observed, ObservedAll, Verdict;
    var e := Entry(Some(k), None, Record(Bool(b), Missing));
    VerdictOnEntries([e], norm, r);
    assert e in [e];
    assert Says(r, norm(k), b);
    forall key | key in r ensures key == norm(k) {
      assert Says(r, key, r[key]);
    }
  }

  lemma NothingObserved(norm: Norm)
    ensures ObservedAll([], norm) == [] && Verdict([], map[])
  {
  }

  lemma {:induction false} ObservedConcat(a: seq<Entry>, b: seq<Entry>, norm: Norm)
    ensures ObservedAll(a + b, norm) == ObservedAll(a, norm) + ObservedAll(b, norm)
  {
    hide Observed;
    if b == [] {
      assert a + b == a;
    } else {
      assert (a + b)[..|a| + |b| - 1] == a + b[..|b| - 1];
      ObservedConcat(a, b[..|b| - 1], norm);
    }
  }

  // ----- order, batches and conflicts -----

  lemma {:induction false} ObservedFrom(entries: seq<Entry>, norm: Norm, o: Observation)
    ensures o in ObservedAll(entries, norm) <==> exists e :: e in entries && o in Observed(e, norm)
  {
    hide Observed;
    if entries != [] {
      var init, last := entries[..|entries| - 1], entries[|entries| - 1];
      ObservedFrom(init, norm, o);
      assert entries == init + [last];
    }
  }

  lemma SameUnanimity(a: seq<Observation>, b: seq<Observation>, key: string, v: bool)
    requires forall o :: o in a <==> o in b
    ensures Unanimous(a, key, v) <==> Unanimous(b, key, v)
  {
    MembersDecide(a, key, v);
    MembersDecide(b, key, v);
  }

  lemma MembersDecide(a: seq<Observation>, key: string, v: bool)
    ensures Unanimous(a, key, v) <==> (exists o :: o in a && o.key == key) && forall o :: o in a && o.key == key ==> o.used == Some(v)
  {
    if exists o :: o in a && o.key == key {
      var o :| o in a && o.key == key;
      var i :| 0 <= i < |a| && a[i] == o;
    }
  }

  /**
   * The result depends only on which statuses arrived, as a multiset: not on their order, nor on how they were
   * batched.
   */
  lemma OrderIsIrrelevant(a: seq<Entry>, b: seq<Entry>, norm: Norm, r: map<string, bool>, s: map<string, bool>)
    requires multiset(a) == multiset(b)
    requires Verdict(ObservedAll(a, norm), r) && Verdict(ObservedAll(b, norm), s)
    ensures r == s
  {
    hide Observed, ObservedAll;
    forall e ensures e in a <==> e in b {
      assert e in multiset(a) <==> e in multiset(b);
    }
    forall o ensures o in ObservedAll(a, norm) <==> o in ObservedAll(b, norm) {
      ObservedFrom(a, norm, o);
      ObservedFrom(b, norm, o);
    }
    SameVerdicts(ObservedAll(a, norm), ObservedAll(b, norm), r, s);
  }

  lemma SameVerdicts(a: seq<Observation>, b: seq<Observation>, r: map<string, bool>, s: map<string, bool>)
    requires (forall o :: o in a <==> o in b) && Verdict(a, r) && Verdict(b, s)
    ensures r == s
  {
    hide Unanimous;
    forall key, v ensures Says(r, key, v) <==> Says(s, key, v) {
      SameUnanimity(a, b, key, v);
    }
    SaysAll(r, s);
    SaysAll(s, r);
  }

  lemma SaysAll(r: map<string, bool>, s: map<string, bool>)
    requires forall key, v :: Says(r, key, v) ==> Says(s, key, v)
    ensures forall key :: key in r ==> key in s && s[key] == r[key]
  {
    forall key | key in r ensures key in s && s[key] == r[key] {
      assert Says(r, key, r[key]);
    }
  }

  /** Once a key has an unusable status or two different ones, it stays out of the result, whatever arrives later. */
  lemma ConflictIsFinal(obs: seq<Observation>, more: seq<Observation>, key: string, r: map<string, bool>)
    requires !Consistent(obs, key, true) && !Consistent(obs, key, false) && Verdict(obs + more, r)
    ensures key !in r
  {
    ConsistentPrefix(obs, more, key, true);
    ConsistentPrefix(obs, more, key, false);
    assert !Says(r, key, true) && !Says(r, key, false);
  }

  lemma ConsistentPrefix(obs: seq<Observation>, more: seq<Observation>, key: string, b: bool)
    ensures Consistent(obs + more, key, b) ==> Consistent(obs, key, b)
  {
    assert forall i :: 0 <= i < |obs| ==> (obs + more)[i] == obs[i];
  }

  function Joined(batches: seq<seq<string>>): seq<string> {
    if batches == [] then [] else batches[0] + Joined(batches[1..])
  }

  /** Every key is sent, in order, in batches of 1000, the last of which may be shorter but not empty. */
  lemma {:induction false} RequestsCover(requested: seq<string>, start: nat)
    requires start <= |requested|
    ensures Joined(Requests(requested, start)) == requested[start..]
    ensures forall i :: 0 <= i < |Requests(requested, start)| ==> 1 <= |Requests(requested, start)[i]| <= 1000
    ensures forall i :: 0 <= i < |Requests(requested, start)| - 1 ==> |Requests(requested, start)[i]| == 1000
    decreases |requested| - start
  {
    if start + BATCH <= |requested| && start < |requested| {
      RequestsCover(requested, start + BATCH);
      assert requested[start..start + BATCH] + requested[start + BATCH..] == requested[start..];
    } else if start < |requested| {
      assert Requests(requested, start + BATCH) == [];
      assert Slice(requested, start) + [] == requested[start..];
    }
  }

  /** Each key is requested once. */
  lemma {:induction false} NormalizedIsDistinct(values: seq<string>, norm: Norm)
    ensures forall i, j :: 0 <= i < j < |Normalized(values, norm)| ==> Normalized(values, norm)[i] != Normalized(values, norm)[j]
    ensures forall key :: key in Normalized(values, norm) <==> key != "" && exists i :: 0 <= i < |values| && norm(values[i]) == key
  {
    if values != [] {
      var init := values[..|values| - 1];
      NormalizedIsDistinct(init, norm);
      assert forall i :: 0 <= i < |init| ==> init[i] == values[i];
    }
  }
}
