/** Batched inserts on the two vaults: the JSON vault's one snapshot, stored as a
    whole or not at all, and the memory vault's one insert after another
    (crates/plugin-api/src/traits.rs, crates/vault-json/src/vault.rs). */
module BatchRelation {
  import opened Common
  import opened Placeholder
  import opened Vault
  import opened JsonState
  import opened MemoryVaults
  import opened VaultRuns
  import opened VaultRelation
  import opened RoundTrip

  // ---- One item --------------------------------------------------------------

  /** The snapshot and the memory say the same. */
  ghost predicate Alike(s: State, m: Memory, ttl: Ttl, now: nat) {
    && Sound(s) && AllMinted(s.mappings)
    && SameLive(s.mappings, m, ttl, now) && SameCounters(s.counters, m)
  }

  /** Inserting on both sides gives the same result, draws the same, and on success
      leaves both alike. */
  lemma {:induction false} ItemAgrees(s: State, m: Memory, key: Key, ttl: Ttl, now: nat, entropy: Entropy, drawn: nat)
    requires Alike(s, m, ttl, now) && SameFind(s.mappings, m, key, ttl, now)
    requires MemoryInsert(m, key.scope, key.kind, key.original, ttl, now, entropy, drawn).result != Err(CounterOverflow)
    ensures var o := MemoryInsert(m, key.scope, key.kind, key.original, ttl, now, entropy, drawn);
            var p := Insert(s, key.scope, key.kind, key.original, Some(now), entropy, drawn);
            && o.result == p.result && o.drawn == p.drawn
            && (o.result.Ok? ==> Alike(p.state, o.memory, ttl, now))
  {
    if FindKey(s.mappings, key.scope, key.kind, key.original).None? {
      if !IsName(key.kind) {
        InvalidPutAgrees(s, s, m, key, ttl, now, entropy, drawn);
      } else if entropy(drawn).Some? {
        NewPutAgrees(s, m, key, ttl, now, entropy, drawn);
        NewPutSound(s, key, now, entropy, drawn);
      } else {
        FailedPut(s, m, key, ttl, now, entropy, drawn);
      }
    }
  }

  lemma {:induction false} FindPushed(ms: seq<Record>, r: Record, key: Key)
    ensures FindKey(ms + [r], key.scope, key.kind, key.original)
            == var at := FindKey(ms, key.scope, key.kind, key.original);
               if at.Some? then at else if KeyOf(r) == key then Some(|ms|) else None
  {
    assert (ms + [r])[..|ms|] == ms;
  }

  /** It changes the search for its own key only, which finds the mapping unless the
      lifetime is zero. */
  lemma {:induction false} ItemFound(s: State, m: Memory, key: Key, other: Key, ttl: Ttl, now: nat, entropy: Entropy,
                                     drawn: nat)
    requires SameFind(s.mappings, m, key, ttl, now) && SameFind(s.mappings, m, other, ttl, now)
    requires other == key ==> ttl != Some(0)
    requires var o := MemoryInsert(m, key.scope, key.kind, key.original, ttl, now, entropy, drawn);
             o.result.Ok? && o.result == Insert(s, key.scope, key.kind, key.original, Some(now), entropy, drawn).result
    ensures SameFind(Insert(s, key.scope, key.kind, key.original, Some(now), entropy, drawn).state.mappings,
                     MemoryInsert(m, key.scope, key.kind, key.original, ttl, now, entropy, drawn).memory, other, ttl,
                     now)
  {
    var o := MemoryInsert(m, key.scope, key.kind, key.original, ttl, now, entropy, drawn);
    if FindKey(s.mappings, key.scope, key.kind, key.original).None? {
      var r := Record(key.scope, o.result.value, Some(now));
      MintGivesToken(key.kind, CounterOf(s.counters, key.scope, key.kind) + 1, entropy, drawn);
      NewItem(s, m, key, ttl, now, entropy, drawn);
      FoundPushed(s.mappings, m, r, key, o.memory.counters, other, ttl, now);
    }
  }

  /** What a new mapping changes on either side. */
  lemma {:induction false} NewItem(s: State, m: Memory, key: Key, ttl: Ttl, now: nat, entropy: Entropy, drawn: nat)
    requires FindKey(s.mappings, key.scope, key.kind, key.original).None?
    requires !(key in m.mappings && Live(m.mappings[key], ttl, now))
    requires var o := MemoryInsert(m, key.scope, key.kind, key.original, ttl, now, entropy, drawn);
             o.result.Ok? && o.result == Insert(s, key.scope, key.kind, key.original, Some(now), entropy, drawn).result
    ensures var o := MemoryInsert(m, key.scope, key.kind, key.original, ttl, now, entropy, drawn);
            var r := Record(key.scope, o.result.value, Some(now));
            && KeyOf(r) == key
               && r.mapping.token == Token(key.kind, MemoryCounter(m, key.scope, key.kind) + 1, entropy(drawn).value)
            && Insert(s, key.scope, key.kind, key.original, Some(now), entropy, drawn).state.mappings
               == s.mappings + [r]
            && o.memory.mappings == (m.mappings - {key})[key := Stored(r.mapping, now)]
  {
  }

  lemma {:induction false} FoundPushed(ms: seq<Record>, m: Memory, r: Record, key: Key,
                                       counters: map<(Text, Text), nat>, other: Key, ttl: Ttl, now: nat)
    requires SameFind(ms, m, other, ttl, now) && KeyOf(r) == key && IsMinted(r.mapping.token)
    requires FindKey(ms, key.scope, key.kind, key.original).None? && (other == key ==> ttl != Some(0))
    ensures SameFind(ms + [r], Memory((m.mappings - {key})[key := Stored(r.mapping, now)], counters), other, ttl, now)
  {
    FindPushed(ms, r, other);
  }

  // ---- The batch ---------------------------------------------------------------

  /** No item occurs twice. */
  ghost predicate NoRepeats(items: seq<(Text, Text)>) {
    forall i, j :: 0 <= i < j < |items| ==> items[i] != items[j]
  }

  predicate Asks(scope: Text, items: seq<(Text, Text)>, key: Key) {
    key.scope == scope && (key.kind, key.original) in items
  }

  /** The searches agree, after these items, for every key that may still be asked. */
  ghost predicate AllFound(ms: seq<Record>, m: Memory, scope: Text, items: seq<(Text, Text)>, ttl: Ttl, now: nat) {
    forall key :: ttl != Some(0) || !Asks(scope, items, key) ==> SameFind(ms, m, key, ttl, now)
  }

  /** Unless a batch repeats an item under a lifetime of zero, both vaults return the
      same for it and draw the same; on success they are alike. */
  lemma {:induction false} ItemsAgree(s: State, m: Memory, scope: Text, items: seq<(Text, Text)>, ttl: Ttl, now: nat,
                                      entropy: Entropy, drawn: nat)
    requires Alike(s, m, ttl, now) && forall key :: SameFind(s.mappings, m, key, ttl, now)
    requires ttl == Some(0) ==> NoRepeats(items)
    requires MemoryInsertMany(m, scope, items, ttl, now, entropy, drawn).result != Err(CounterOverflow)
    ensures var o := MemoryInsertMany(m, scope, items, ttl, now, entropy, drawn);
            var p := InsertMany(s, scope, items, Some(now), entropy, drawn);
            && o.result == p.result && o.drawn == p.drawn
            && (o.result.Ok? ==> Alike(p.state, o.memory, ttl, now)
                                 && AllFound(p.state.mappings, o.memory, scope, items, ttl, now))
  {
    if items != [] {
      var n := |items| - 1;
      var key := Key(scope, items[n].0, items[n].1);
      ItemsAgree(s, m, scope, items[..n], ttl, now, entropy, drawn);
      var o := MemoryInsertMany(m, scope, items[..n], ttl, now, entropy, drawn);
      var p := InsertMany(s, scope, items[..n], Some(now), entropy, drawn);
      if o.result.Ok? {
        assert ttl == Some(0) ==> !Asks(scope, items[..n], key);
        ItemAgrees(p.state, o.memory, key, ttl, now, entropy, o.drawn);
        if MemoryInsert(o.memory, scope, key.kind, key.original, ttl, now, entropy, o.drawn).result.Ok? {
          ItemKeepsFound(p.state, o.memory, scope, items, ttl, now, entropy, o.drawn);
        }
      }
    }
  }

  lemma {:induction false} ItemKeepsFound(s: State, m: Memory, scope: Text, items: seq<(Text, Text)>, ttl: Ttl,
                                          now: nat, entropy: Entropy, drawn: nat)
    requires items != [] && AllFound(s.mappings, m, scope, items[..|items| - 1], ttl, now)
    requires ttl == Some(0) ==> NoRepeats(items)
    requires var last := items[|items| - 1];
             var o := MemoryInsert(m, scope, last.0, last.1, ttl, now, entropy, drawn);
             o.result.Ok? && o.result == Insert(s, scope, last.0, last.1, Some(now), entropy, drawn).result
    ensures var last := items[|items| - 1];
            AllFound(Insert(s, scope, last.0, last.1, Some(now), entropy, drawn).state.mappings,
                     MemoryInsert(m, scope, last.0, last.1, ttl, now, entropy, drawn).memory, scope, items, ttl, now)
  {
    var n := |items| - 1;
    var key := Key(scope, items[n].0, items[n].1);
    assert !Asks(scope, items[..n], key) || ttl != Some(0);
    forall other | ttl != Some(0) || !Asks(scope, items, other)
      ensures SameFind(Insert(s, scope, key.kind, key.original, Some(now), entropy, drawn).state.mappings,
                       MemoryInsert(m, scope, key.kind, key.original, ttl, now, entropy, drawn).memory, other, ttl, now)
    {
      assert items[n] in items && (Asks(scope, items[..n], other) ==> Asks(scope, items, other));
      ItemFound(s, m, key, other, ttl, now, entropy, drawn);
    }
  }

  // ---- What a batch draws and counts ---------------------------------------------

  /** Every draw of a memory batch is counted; without one nothing changes, but for
      the counter of an invalid kind that ended it. */
  lemma {:induction false} DrawsAreCounted(m: Memory, scope: Text, items: seq<(Text, Text)>, ttl: Ttl, now: nat,
                                           entropy: Entropy, drawn: nat)
    ensures var o := MemoryInsertMany(m, scope, items, ttl, now, entropy, drawn);
            && drawn <= o.drawn
            && (forall kind :: MemoryCounter(m, scope, kind) <= MemoryCounter(o.memory, scope, kind))
            && (o.drawn > drawn ==> CountedMore(m, o.memory, scope))
            && (o.drawn == drawn && o.result.Ok? ==> o.memory == m)
  {
    if items != [] {
      var front := MemoryInsertMany(m, scope, items[..|items| - 1], ttl, now, entropy, drawn);
      DrawsAreCounted(m, scope, items[..|items| - 1], ttl, now, entropy, drawn);
      var last := items[|items| - 1];
      var o := MemoryInsert(front.memory, scope, last.0, last.1, ttl, now, entropy, front.drawn);
      if front.result.Ok? && o.drawn > front.drawn {
        assert MemoryCounter(m, scope, last.0) < MemoryCounter(o.memory, scope, last.0);
      } else if front.drawn > drawn {
        var kind :| IsName(kind) && MemoryCounter(m, scope, kind) < MemoryCounter(front.memory, scope, kind);
        assert front.result.Ok? ==> MemoryCounter(m, scope, kind) < MemoryCounter(o.memory, scope, kind);
      }
    }
  }

  /** Some valid kind's counter has grown. */
  ghost predicate CountedMore(m: Memory, after: Memory, scope: Text) {
    exists kind :: IsName(kind) && MemoryCounter(m, scope, kind) < MemoryCounter(after, scope, kind)
  }

  /** The item that ended a batch without a draw. */
  lemma {:induction false} FailedUndrawn(m: Memory, scope: Text, items: seq<(Text, Text)>, ttl: Ttl, now: nat,
                                         entropy: Entropy, drawn: nat) returns (i: nat)
    requires var o := MemoryInsertMany(m, scope, items, ttl, now, entropy, drawn);
             o.result.Err? && o.drawn == drawn && o.result != Err(CounterOverflow)
    ensures i < |items|
    ensures var o := MemoryInsertMany(m, scope, items, ttl, now, entropy, drawn);
            var q := MemoryInsert(m, scope, items[i].0, items[i].1, ttl, now, entropy, drawn);
            o.memory == q.memory && q.result == Err(InvalidKind)
  {
    i := |items| - 1;
    var front := MemoryInsertMany(m, scope, items[..i], ttl, now, entropy, drawn);
    DrawsAreCounted(m, scope, items[..i], ttl, now, entropy, drawn);
    if front.result.Err? {
      i := FailedUndrawn(m, scope, items[..i], ttl, now, entropy, drawn);
    }
  }

  // ---- The exact condition ---------------------------------------------------------

  /** What a batch leaves in the JSON vault's file. */
  function BatchSide(j: JsonSide, scope: Text, items: seq<(Text, Text)>, ttl: Ttl, now: nat,
                     entropy: Entropy): JsonSide {
    var p := InsertMany(Reap(j.state, ttl, Some(now)), scope, items, Some(now), entropy, j.drawn);
    JsonSide(if p.result.Ok? then p.state else j.state, p.drawn)
  }

  /** The reaped file a batch works on, alike to the memory vault. */
  lemma {:induction false} BatchStart(j: JsonSide, m: MemorySide, ttl: Ttl, now: nat)
    requires Related(j, m, ttl, now)
    ensures var s := Reap(j.state, ttl, Some(now));
            Alike(s, m.memory, ttl, now) && forall key :: SameFind(s.mappings, m.memory, key, ttl, now)
  {
    var s := ReapedSide(j, m, ttl, now);
    forall key { SameSearch(s, m.memory, key, ttl, now); }
  }

  /** A batch that failed without a draw: the file is as it was, and the memory vault
      has counted an invalid kind at most. */
  lemma {:induction false} UndrawnIsRelated(j: JsonSide, m: MemorySide, scope: Text, items: seq<(Text, Text)>, ttl: Ttl,
                                            now: nat, entropy: Entropy)
    requires Related(j, m, ttl, now)
    requires var o := MemoryInsertMany(m.memory, scope, items, ttl, now, entropy, m.drawn);
             o.result.Err? && o.drawn == m.drawn && o.result != Err(CounterOverflow)
    ensures Related(j, MemorySide(MemoryInsertMany(m.memory, scope, items, ttl, now, entropy, m.drawn).memory, m.drawn),
                    ttl, now)
  {
    var i := FailedUndrawn(m.memory, scope, items, ttl, now, entropy, m.drawn);
    InvalidIsRelated(j, m, Key(scope, items[i].0, items[i].1), ttl, now, entropy);
  }

  lemma {:induction false} InvalidIsRelated(j: JsonSide, m: MemorySide, key: Key, ttl: Ttl, now: nat, entropy: Entropy)
    requires Related(j, m, ttl, now)
    requires MemoryInsert(m.memory, key.scope, key.kind, key.original, ttl, now, entropy, m.drawn).result
             == Err(InvalidKind)
    ensures Related(j, MemorySide(MemoryInsert(m.memory, key.scope, key.kind, key.original, ttl, now, entropy,
                                               m.drawn).memory, m.drawn), ttl, now)
  {
    var s := ReapedSide(j, m, ttl, now);
    SameSearch(s, m.memory, key, ttl, now);
    InvalidPutAgrees(j.state, s, m.memory, key, ttl, now, entropy, m.drawn);
  }

  /** A batch that failed after a draw: the memory vault has counted it. */
  lemma {:induction false} DrawnIsParted(j: JsonSide, m: MemorySide, scope: Text, items: seq<(Text, Text)>, ttl: Ttl,
                                         now: nat, entropy: Entropy)
    requires SameCounters(j.state.counters, m.memory)
    requires MemoryInsertMany(m.memory, scope, items, ttl, now, entropy, m.drawn).drawn != m.drawn
    ensures !SameCounters(j.state.counters, MemoryInsertMany(m.memory, scope, items, ttl, now, entropy, m.drawn).memory)
  {
    var o := MemoryInsertMany(m.memory, scope, items, ttl, now, entropy, m.drawn);
    DrawsAreCounted(m.memory, scope, items, ttl, now, entropy, m.drawn);
    var kind :| IsName(kind) && MemoryCounter(m.memory, scope, kind) < MemoryCounter(o.memory, scope, kind);
    assert CounterOf(j.state.counters, scope, kind) == MemoryCounter(m.memory, scope, kind);
  }

  /** Related vaults reply alike to a batch, and stay related if and only if it
      succeeds or draws nothing: a batch that fails after a draw leaves counters and
      mappings in the memory vault and nothing in the file. */
  lemma {:induction false} BatchAgrees(j: JsonSide, m: MemorySide, scope: Text, items: seq<(Text, Text)>, ttl: Ttl,
                                       now: nat, entropy: Entropy)
    requires Related(j, m, ttl, now) && (ttl == Some(0) ==> NoRepeats(items))
    requires MemoryInsertMany(m.memory, scope, items, ttl, now, entropy, m.drawn).result != Err(CounterOverflow)
    ensures var o := MemoryInsertMany(m.memory, scope, items, ttl, now, entropy, m.drawn);
            var p := InsertMany(Reap(j.state, ttl, Some(now)), scope, items, Some(now), entropy, j.drawn);
            && o.result == p.result && o.drawn == p.drawn
            && (Related(BatchSide(j, scope, items, ttl, now, entropy), MemorySide(o.memory, o.drawn), ttl, now)
                <==> o.result.Ok? || o.drawn == m.drawn)
  {
    var s := Reap(j.state, ttl, Some(now));
    BatchStart(j, m, ttl, now);
    ItemsAgree(s, m.memory, scope, items, ttl, now, entropy, m.drawn);
    var o := MemoryInsertMany(m.memory, scope, items, ttl, now, entropy, m.drawn);
    if o.result.Err? && o.drawn == m.drawn {
      UndrawnIsRelated(j, m, scope, items, ttl, now, entropy);
    } else if o.result.Err? {
      DrawnIsParted(j, m, scope, items, ttl, now, entropy);
    }
  }

  // ---- A lifetime of zero -----------------------------------------------------------

  /** Each mapping of a list carries a counter its kind has reached, and later ones
      of a kind carry greater counters. */
  ghost predicate Rising(ms: seq<Mapping>, m: Memory, scope: Text) {
    && (forall i :: 0 <= i < |ms| ==>
          IsMinted(ms[i].token) && Parse(ms[i].token).counter <= MemoryCounter(m, scope, ms[i].kind))
    && forall i, j :: 0 <= i < j < |ms| && ms[i].kind == ms[j].kind ==>
         Parse(ms[i].token).counter < Parse(ms[j].token).counter
  }

  lemma {:induction false} ZeroMints(m: Memory, scope: Text, item: (Text, Text), now: nat, entropy: Entropy, drawn: nat)
    requires MemoryInsert(m, scope, item.0, item.1, Some(0), now, entropy, drawn).result.Ok?
    ensures var o := MemoryInsert(m, scope, item.0, item.1, Some(0), now, entropy, drawn);
            && o.result.value.kind == item.0
            && MintedFor(o.result.value.token, item.0, MemoryCounter(m, scope, item.0) + 1)
            && MemoryCounter(o.memory, scope, item.0) == MemoryCounter(m, scope, item.0) + 1
            && forall kind :: MemoryCounter(m, scope, kind) <= MemoryCounter(o.memory, scope, kind)
  {
    MintGivesToken(item.0, MemoryCounter(m, scope, item.0) + 1, entropy, drawn);
  }

  lemma {:induction false} RisingNext(ms: seq<Mapping>, m: Memory, after: Memory, scope: Text, next: Mapping)
    requires Rising(ms, m, scope) && MintedFor(next.token, next.kind, MemoryCounter(m, scope, next.kind) + 1)
    requires MemoryCounter(after, scope, next.kind) == MemoryCounter(m, scope, next.kind) + 1
    requires forall kind :: MemoryCounter(m, scope, kind) <= MemoryCounter(after, scope, kind)
    ensures Rising(ms + [next], after, scope)
  {
    var all := ms + [next];
    forall i, j | 0 <= i < j < |all| && all[i].kind == all[j].kind
      ensures Parse(all[i].token).counter < Parse(all[j].token).counter
    {
      assert all[i] == ms[i] && Parse(ms[i].token).counter <= MemoryCounter(m, scope, ms[i].kind);
    }
  }

  ghost predicate SameKinds(ms: seq<Mapping>, items: seq<(Text, Text)>) {
    |ms| == |items| && forall i :: 0 <= i < |items| ==> ms[i].kind == items[i].0
  }

  lemma {:induction false} KindsNext(ms: seq<Mapping>, items: seq<(Text, Text)>, next: Mapping)
    requires items != [] && SameKinds(ms, items[..|items| - 1]) && next.kind == items[|items| - 1].0
    ensures SameKinds(ms + [next], items)
  {
    forall i | 0 <= i < |ms| ensures ms[i].kind == items[i].0 { assert items[..|items| - 1][i] == items[i]; }
  }

  /** Under a lifetime of zero the memory vault mints for every item. */
  lemma {:induction false} ZeroRises(m: Memory, scope: Text, items: seq<(Text, Text)>, now: nat, entropy: Entropy,
                                     drawn: nat)
    requires MemoryInsertMany(m, scope, items, Some(0), now, entropy, drawn).result.Ok?
    ensures var o := MemoryInsertMany(m, scope, items, Some(0), now, entropy, drawn);
            Rising(o.result.value, o.memory, scope) && SameKinds(o.result.value, items)
  {
    if items != [] {
      var front := MemoryInsertMany(m, scope, items[..|items| - 1], Some(0), now, entropy, drawn);
      ZeroRises(m, scope, items[..|items| - 1], now, entropy, drawn);
      var last := items[|items| - 1];
      var o := MemoryInsert(front.memory, scope, last.0, last.1, Some(0), now, entropy, front.drawn);
      ZeroMints(front.memory, scope, last, now, entropy, front.drawn);
      RisingNext(front.result.value, front.memory, o.memory, scope, o.result.value);
      KindsNext(front.result.value, items, o.result.value);
    }
  }

  /** The JSON vault's one snapshot gives a repeated item its first mapping. */
  lemma {:induction false} RepeatsReuse(s: State, scope: Text, items: seq<(Text, Text)>, now: Clock, entropy: Entropy,
                                        drawn: nat, i: nat, j: nat)
    requires Sound(s) && InsertMany(s, scope, items, now, entropy, drawn).result.Ok?
    requires i < j < |items| && items[i] == items[j]
    ensures var ms := InsertMany(s, scope, items, now, entropy, drawn).result.value;
            |ms| == |items| && ms[i] == ms[j]
  {
    var o := InsertMany(s, scope, items, now, entropy, drawn);
    BatchHolds(s, scope, items, now, entropy, drawn);
    BatchGives(s, scope, items, now, entropy, drawn);
    var ms, all := o.result.value, o.state.mappings;
    assert HasRecord(all, scope, ms[i]) && HasRecord(all, scope, ms[j]);
    var a :| 0 <= a < |all| && all[a].scope == scope && all[a].mapping == ms[i];
    var b :| 0 <= b < |all| && all[b].scope == scope && all[b].mapping == ms[j];
    assert Gives(ms[i], items[i]) && Gives(ms[j], items[j]);
    OneRecord(all, scope, items[i].0, items[i].1, a, b);
  }

  /** Under a lifetime of zero, related vaults reply alike to a batch the memory vault
      accepts if and only if it repeats no item. */
  lemma {:induction false} ZeroLifetimeBatch(j: JsonSide, m: MemorySide, scope: Text, items: seq<(Text, Text)>,
                                             now: nat, entropy: Entropy)
    requires Related(j, m, Some(0), now)
    requires MemoryInsertMany(m.memory, scope, items, Some(0), now, entropy, m.drawn).result.Ok?
    ensures InsertMany(Reap(j.state, Some(0), Some(now)), scope, items, Some(now), entropy, j.drawn).result
            == MemoryInsertMany(m.memory, scope, items, Some(0), now, entropy, m.drawn).result
            <==> NoRepeats(items)
  {
    if NoRepeats(items) {
      BatchAgrees(j, m, scope, items, Some(0), now, entropy);
    } else {
      var i, k :| 0 <= i < k < |items| && items[i] == items[k];
      var s := ReapedSide(j, m, Some(0), now);
      ZeroRises(m.memory, scope, items, now, entropy, m.drawn);
      if InsertMany(s, scope, items, Some(now), entropy, j.drawn).result.Ok? {
        RepeatsReuse(s, scope, items, Some(now), entropy, j.drawn, i, k);
      }
    }
  }
}
