/** The in-memory vault: maps keyed by scope, kind and original, with lazy
    expiry (crates/vault-memory/src/lib.rs). */
module MemoryVaults {
  import opened Common
  import opened Placeholder
  import opened Vault
  import opened JsonState

  datatype Key = Key(scope: Text, kind: Text, original: Text)

  datatype Stored = Stored(mapping: Mapping, createdAt: nat)

  datatype Memory = Memory(mappings: map<Key, Stored>, counters: map<(Text, Text), nat>)

  /** `MemoryVault::live`. */
  predicate Live(e: Stored, ttl: Ttl, now: nat) {
    ttl.None? || Age(now, e.createdAt) < ttl.value
  }

  function MemoryCounter(m: Memory, scope: Text, kind: Text): nat {
    if (scope, kind) in m.counters then m.counters[(scope, kind)] else 0
  }

  datatype MemoryOutcome = MemoryOutcome(memory: Memory, drawn: nat, result: Result<Mapping, VaultError>)

  /** `get_or_insert` on values. The stale entry goes and the counter moves
      before the token is minted, so a failed mint leaves both changed. */
  function MemoryInsert(m: Memory, scope: Text, kind: Text, original: Text, ttl: Ttl, now: nat, entropy: Entropy,
                        drawn: nat): MemoryOutcome {
    var key := Key(scope, kind, original);
    if key in m.mappings && Live(m.mappings[key], ttl, now) then
      MemoryOutcome(m, drawn, Ok(m.mappings[key].mapping))
    else
      var removed := m.(mappings := m.mappings - {key});
      if MemoryCounter(m, scope, kind) >= U64_MAX then MemoryOutcome(removed, drawn, Err(CounterOverflow))
      else
        var next := MemoryCounter(m, scope, kind) + 1;
        var counted := removed.(counters := m.counters[(scope, kind) := next]);
        var minted := Mint(kind, next, entropy, drawn);
        match minted.result
        case Err(e) => MemoryOutcome(counted, minted.drawn, Err(e))
        case Ok(token) =>
          var mapping := Mapping(kind, original, token);
          MemoryOutcome(counted.(mappings := counted.mappings[key := Stored(mapping, now)]), minted.drawn, Ok(mapping))
  }

  datatype MemoryBatch = MemoryBatch(memory: Memory, drawn: nat, result: Result<seq<Mapping>, VaultError>)

  /** The trait's `get_or_insert_many`: one insert after another. A failing item ends
      the batch, and what the items before it stored stays. */
  function MemoryInsertMany(m: Memory, scope: Text, items: seq<(Text, Text)>, ttl: Ttl, now: nat, entropy: Entropy,
                            drawn: nat): MemoryBatch {
    if items == [] then MemoryBatch(m, drawn, Ok([]))
    else
      var front := MemoryInsertMany(m, scope, items[..|items| - 1], ttl, now, entropy, drawn);
      if front.result.Err? then front
      else
        var last := items[|items| - 1];
        var o := MemoryInsert(front.memory, scope, last.0, last.1, ttl, now, entropy, front.drawn);
        MemoryBatch(o.memory, o.drawn,
                    if o.result.Err? then Err(o.result.error) else Ok(front.result.value + [o.result.value]))
  }

  /** After a failing item the batch no longer changes. */
  lemma {:induction false} MemoryBatchStops(m: Memory, scope: Text, items: seq<(Text, Text)>, n: nat, ttl: Ttl,
                                            now: nat, entropy: Entropy, drawn: nat)
    requires n <= |items| && MemoryInsertMany(m, scope, items[..n], ttl, now, entropy, drawn).result.Err?
    ensures MemoryInsertMany(m, scope, items, ttl, now, entropy, drawn)
            == MemoryInsertMany(m, scope, items[..n], ttl, now, entropy, drawn)
  {
    if n < |items| {
      assert items[..|items| - 1][..n] == items[..n];
      MemoryBatchStops(m, scope, items[..|items| - 1], n, ttl, now, entropy, drawn);
    } else {
      assert items[..n] == items;
    }
  }

  /** The entry at `key` answers a lookup of `token` in `scope`. */
  predicate EntryAnswers(m: Memory, key: Key, scope: Text, token: Text, ttl: Ttl, now: nat) {
    && key in m.mappings && key.scope == scope
    && m.mappings[key].mapping.token == token && IsMinted(token)
    && Live(m.mappings[key], ttl, now)
  }

  /** A lookup may return any answering entry, as the map's iteration order
      decides; it misses exactly when none answers. */
  ghost predicate MayResolve(m: Memory, scope: Text, token: Text, ttl: Ttl, now: nat, r: Option<Mapping>) {
    match r
    case None => forall key :: key in m.mappings ==> !EntryAnswers(m, key, scope, token, ttl, now)
    case Some(mapping) =>
      exists key :: EntryAnswers(m, key, scope, token, ttl, now) && m.mappings[key].mapping == mapping
  }

  function ForgetScope(m: Memory, scope: Text): Memory {
    Memory(map key | key in m.mappings && key.scope != scope :: m.mappings[key],
           map at | at in m.counters && at.0 != scope :: m.counters[at])
  }

  function PurgeMemory(m: Memory, ttl: Ttl, now: nat): Memory {
    m.(mappings := map key | key in m.mappings && Live(m.mappings[key], ttl, now) :: m.mappings[key])
  }

  class MemoryVault {
    var mappings: map<Key, Stored>
    var counters: map<(Text, Text), nat>
    const ttl: Ttl

    constructor (ttl: Ttl)
      ensures this.ttl == ttl && Value() == Memory(map[], map[])
    {
      this.mappings, this.counters, this.ttl := map[], map[], ttl;
    }

    ghost function Value(): Memory
      reads this
    {
      Memory(mappings, counters)
    }

    method GetOrInsert(scope: Text, kind: Text, original: Text, now: nat, entropy: Entropy, drawn: nat)
      returns (r: Result<Mapping, VaultError>, drawn': nat)
      modifies this
      ensures MemoryOutcome(Value(), drawn', r)
              == MemoryInsert(old(Value()), scope, kind, original, ttl, now, entropy, drawn)
    {
      var key := Key(scope, kind, original);
      if key in mappings {
        if Live(mappings[key], ttl, now) {
          return Ok(mappings[key].mapping), drawn;
        }
      }
      mappings := mappings - {key};
      var next := 1;
      if (scope, kind) in counters {
        if counters[(scope, kind)] >= U64_MAX {
          return Err(CounterOverflow), drawn;
        }
        next := counters[(scope, kind)] + 1;
      }
      counters := counters[(scope, kind) := next];
      var minted := Mint(kind, next, entropy, drawn);
      if minted.result.Err? {
        return Err(minted.result.error), minted.drawn;
      }
      var mapping := Mapping(kind, original, minted.result.value);
      mappings := mappings[key := Stored(mapping, now)];
      return Ok(mapping), minted.drawn;
    }

    method GetOrInsertMany(scope: Text, items: seq<(Text, Text)>, now: nat, entropy: Entropy, drawn: nat)
      returns (r: Result<seq<Mapping>, VaultError>, drawn': nat)
      modifies this
      ensures MemoryBatch(Value(), drawn', r)
              == MemoryInsertMany(old(Value()), scope, items, ttl, now, entropy, drawn)
    {
      ghost var start := Value();
      var mappings := [];
      drawn' := drawn;
      for i := 0 to |items|
        invariant MemoryInsertMany(start, scope, items[..i], ttl, now, entropy, drawn)
                  == MemoryBatch(Value(), drawn', Ok(mappings))
      {
        assert items[..i + 1][..i] == items[..i];
        var one;
        one, drawn' := GetOrInsert(scope, items[i].0, items[i].1, now, entropy, drawn');
        if one.Err? {
          MemoryBatchStops(start, scope, items, i + 1, ttl, now, entropy, drawn);
          return Err(one.error), drawn';
        }
        mappings := mappings + [one.value];
      }
      assert items[..|items|] == items;
      r := Ok(mappings);
    }

    method Resolve(scope: Text, token: Text, now: nat) returns (r: Option<Mapping>)
      ensures MayResolve(Value(), scope, token, ttl, now, r)
      ensures r.Some? && ttl.Some? ==>
                exists key :: key in mappings && key.scope == scope && mappings[key].mapping == r.value
                              && ttl.value > 0 && now < mappings[key].createdAt + ttl.value
    {
      if key :| key in mappings && EntryAnswers(Memory(mappings, counters), key, scope, token, ttl, now) {
        r := Some(mappings[key].mapping);
      } else {
        r := None;
      }
    }

    /** One scan over the entries, in any order, fills the table of answers. */
    method ResolveMany(scope: Text, tokens: seq<Text>, now: nat) returns (r: seq<Option<Mapping>>)
      ensures |r| == |tokens| && forall i, j :: 0 <= i < j < |tokens| && tokens[i] == tokens[j] ==> r[i] == r[j]
      ensures forall i :: 0 <= i < |tokens| ==> MayResolve(Value(), scope, tokens[i], ttl, now, r[i])
    {
      var m := Memory(mappings, counters);
      var wanted := set t | t in tokens;
      var found: map<Text, Mapping> := map[];
      var left := mappings.Keys;
      while left != {}
        invariant left <= mappings.Keys
        invariant forall t :: t in found ==>
                    exists key :: EntryAnswers(m, key, scope, t, ttl, now) && m.mappings[key].mapping == found[t]
        invariant forall t, key :: t in wanted && t !in found && key in mappings && key !in left ==>
                    !EntryAnswers(m, key, scope, t, ttl, now)
        decreases left
      {
        var key :| key in left;
        left := left - {key};
        var token := mappings[key].mapping.token;
        if token in wanted && token !in found && EntryAnswers(m, key, scope, token, ttl, now) {
          found := found[token := mappings[key].mapping];
        }
      }
      r := seq(|tokens|, i requires 0 <= i < |tokens| => if tokens[i] in found then Some(found[tokens[i]]) else None);
    }

    method DeleteScope(scope: Text)
      modifies this
      ensures Value() == ForgetScope(old(Value()), scope)
    {
      mappings := map key | key in mappings && key.scope != scope :: mappings[key];
      counters := map at | at in counters && at.0 != scope :: counters[at];
    }

    method Expire(now: nat)
      modifies this
      ensures Value() == PurgeMemory(old(Value()), ttl, now)
    {
      mappings := map key | key in mappings && Live(mappings[key], ttl, now) :: mappings[key];
    }
  }
}
