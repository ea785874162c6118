/** The batch forms of the JSON vault as folds of the one-at-a-time forms
    (crates/vault-json/src/vault.rs). */
module VaultBatches {
  import opened Common
  import opened Placeholder
  import opened Vault
  import opened JsonState
  import opened VaultRuns

  /** Every record is dated and live, so a reap has nothing to do. */
  ghost predicate Reaped(ms: seq<Record>, ttl: Ttl, now: Clock) {
    ttl.Some? && now.Some? ==>
      forall i :: 0 <= i < |ms| ==> ms[i].createdAt.Some? && !Expired(ms[i], ttl, now)
  }

  lemma {:induction false} ReapReaps(s: State, ttl: Ttl, now: Clock)
    ensures Reaped(Reap(s, ttl, now).mappings, ttl, now)
  {
    if ttl.Some? && now.Some? {
      var stamped := StampAll(s.mappings, now.value);
      forall i | 0 <= i < |Reap(s, ttl, now).mappings|
        ensures var r := Reap(s, ttl, now).mappings[i]; r.createdAt.Some? && !Expired(r, ttl, now)
      {
        assert Reap(s, ttl, now).mappings[i] in stamped;
      }
    }
  }

  lemma {:induction false} ReapOfReaped(s: State, ttl: Ttl, now: Clock)
    requires Reaped(s.mappings, ttl, now)
    ensures Reap(s, ttl, now) == s
  {
    if ttl.Some? && now.Some? {
      assert StampAll(s.mappings, now.value) == s.mappings;
      RetainAll(s.mappings, Unexpired(ttl, now));
    }
  }

  /** One item after the other, each as its own locked operation. */
  function Fold(s: State, scope: Text, items: seq<(Text, Text)>, ttl: Ttl, now: Clock, entropy: Entropy,
                drawn: nat): Outcome<seq<Mapping>> {
    if items == [] then Outcome(s, drawn, Ok([]))
    else
      var front := Fold(s, scope, items[..|items| - 1], ttl, now, entropy, drawn);
      if front.result.Err? then front
      else
        var last := items[|items| - 1];
        var o := Insert(Reap(front.state, ttl, now), scope, last.0, last.1, now, entropy, front.drawn);
        if o.result.Err? then Outcome(front.state, o.drawn, Err(o.result.error))
        else Outcome(o.state, o.drawn, Ok(front.result.value + [o.result.value]))
  }

  lemma {:induction false} InsertStaysReaped(s: State, scope: Text, kind: Text, original: Text, ttl: Ttl, now: Clock,
                                             entropy: Entropy, drawn: nat)
    requires Reaped(s.mappings, ttl, now) && (ttl.None? || ttl.value >= 1 || now.None?)
    ensures Reaped(Insert(s, scope, kind, original, now, entropy, drawn).state.mappings, ttl, now)
  {
  }

  /** Batch refines sequence. With no lifetime, one of at least a second, or no clock, a
      batch returns what inserting the items one by one returns, draws the same
      entropy, and on success leaves the same file; for an empty batch the file
      differs by one reap. */
  lemma {:induction false} BatchIsFold(s: State, scope: Text, items: seq<(Text, Text)>, ttl: Ttl, now: Clock,
                                       entropy: Entropy, drawn: nat)
    requires ttl.None? || ttl.value >= 1 || now.None?
    ensures var batch := InsertMany(Reap(s, ttl, now), scope, items, now, entropy, drawn);
            var fold := Fold(s, scope, items, ttl, now, entropy, drawn);
            && batch.result == fold.result && batch.drawn == fold.drawn
            && (batch.result.Ok?
                ==> batch.state == Reap(fold.state, ttl, now) && Reaped(batch.state.mappings, ttl, now))
            && (batch.result.Ok? && items != [] ==> batch.state == fold.state)
  {
    ReapReaps(s, ttl, now);
    if items != [] {
      var front := items[..|items| - 1];
      BatchIsFold(s, scope, front, ttl, now, entropy, drawn);
      var batch := InsertMany(Reap(s, ttl, now), scope, front, now, entropy, drawn);
      if batch.result.Ok? {
        var last := items[|items| - 1];
        InsertStaysReaped(batch.state, scope, last.0, last.1, ttl, now, entropy, batch.drawn);
        ReapOfReaped(Insert(batch.state, scope, last.0, last.1, now, entropy, batch.drawn).state, ttl, now);
      }
    }
  }

  /** With a lifetime of zero seconds the two differ: a batch reuses the token of
      a repeated item, one-by-one inserts purge it and mint another. */
  lemma {:induction false} ZeroTtlBatchDiffers(scope: Text, kind: Text, x: Text, now: nat, entropy: Entropy)
    requires IsName(kind) && entropy(0).Some? && entropy(1).Some?
    ensures var items := [(kind, x), (kind, x)];
            var batch := InsertMany(Reap(EMPTY, Some(0), Some(now)), scope, items, Some(now), entropy, 0);
            var fold := Fold(EMPTY, scope, items, Some(0), Some(now), entropy, 0);
            && batch.result.Ok? && fold.result.Ok? && |batch.result.value| == |fold.result.value| == 2
            && batch.result.value[0] == batch.result.value[1]
            && fold.result.value[0] != fold.result.value[1]
  {
    var items := [(kind, x), (kind, x)];
    assert items[..1] == [(kind, x)];
    assert Reap(EMPTY, Some(0), Some(now)) == EMPTY;
    FirstInsert(scope, kind, x, now, entropy);
    InsertedAgain(scope, kind, x, now, entropy);
    PurgedAndInserted(scope, kind, x, now, entropy);
    OneItem(EMPTY, scope, (kind, x), Some(0), Some(now), entropy, 0);
    CountersTellApart(kind, 1, entropy(0).value, 2, entropy(1).value);
  }

  /** The state after one insert into an empty file. */
  function OneStored(scope: Text, kind: Text, x: Text, now: nat, e: U64): State {
    State([Record(scope, Mapping(kind, x, Token(kind, 1, e)), Some(now))], [Counter(scope, kind, 1)])
  }

  lemma {:induction false} FirstInsert(scope: Text, kind: Text, x: Text, now: nat, entropy: Entropy)
    requires IsName(kind) && entropy(0).Some?
    ensures var m := Mapping(kind, x, Token(kind, 1, entropy(0).value));
            Insert(EMPTY, scope, kind, x, Some(now), entropy, 0)
            == Outcome(OneStored(scope, kind, x, now, entropy(0).value), 1, Ok(m))
  {
    InsertFresh(EMPTY, scope, kind, x, Some(now), entropy, 0);
    var s := OneStored(scope, kind, x, now, entropy(0).value);
    assert [] + s.mappings == s.mappings && [] + s.counters == s.counters;
  }

  lemma {:induction false} InsertedAgain(scope: Text, kind: Text, x: Text, now: nat, entropy: Entropy)
    requires IsName(kind) && entropy(0).Some?
    ensures var s := OneStored(scope, kind, x, now, entropy(0).value);
            Insert(s, scope, kind, x, Some(now), entropy, 1) == Outcome(s, 1, Ok(s.mappings[0].mapping))
  {
    var s := OneStored(scope, kind, x, now, entropy(0).value);
    SingleSearch(s.mappings[0], s.counters[0], scope, kind, x);
    MintParsesBack(kind, 1, entropy(0).value);
  }

  lemma {:induction false} PurgedAndInserted(scope: Text, kind: Text, x: Text, now: nat, entropy: Entropy)
    requires IsName(kind) && entropy(0).Some? && entropy(1).Some?
    ensures var s := OneStored(scope, kind, x, now, entropy(0).value);
            Insert(Reap(s, Some(0), Some(now)), scope, kind, x, Some(now), entropy, 1).result
            == Ok(Mapping(kind, x, Token(kind, 2, entropy(1).value)))
  {
    var s := OneStored(scope, kind, x, now, entropy(0).value);
    PurgeSingle(s.mappings[0], s.counters[0], now);
    SingleSearch(s.mappings[0], s.counters[0], scope, kind, x);
  }

  lemma PurgeSingle(r: Record, c: Counter, now: nat)
    requires r.createdAt == Some(now)
    ensures Reap(State([r], [c]), Some(0), Some(now)) == State([], [c])
  {
    assert StampAll([r], now) == [r] && [r][..0] == [];
  }

  /** A batch of one item, both ways, on a file that needs no reaping. */
  lemma OneItem(s: State, scope: Text, item: (Text, Text), ttl: Ttl, now: Clock, entropy: Entropy, drawn: nat)
    requires Reap(s, ttl, now) == s && Insert(s, scope, item.0, item.1, now, entropy, drawn).result.Ok?
    ensures var o := Insert(s, scope, item.0, item.1, now, entropy, drawn);
            && InsertMany(s, scope, [item], now, entropy, drawn) == Outcome(o.state, o.drawn, Ok([o.result.value]))
            && Fold(s, scope, [item], ttl, now, entropy, drawn) == Outcome(o.state, o.drawn, Ok([o.result.value]))
  {
    var o := Insert(s, scope, item.0, item.1, now, entropy, drawn);
    assert [] + [o.result.value] == [o.result.value];
    assert [item][..0] == [];
    assert InsertMany(s, scope, [], now, entropy, drawn) == Outcome(s, drawn, Ok([]));
    assert Fold(s, scope, [], ttl, now, entropy, drawn) == Outcome(s, drawn, Ok([]));
  }
}
