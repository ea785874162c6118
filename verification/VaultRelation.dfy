/** What it means for a JSON vault's file and a memory vault to say the same, and
    what single inserts, lookups and removals do to that
    (crates/vault-json/src/vault.rs, crates/vault-memory/src/lib.rs). */
module VaultRelation {
  import opened Common
  import opened Placeholder
  import opened Vault
  import opened JsonState
  import opened MemoryVaults
  import opened VaultRuns

  datatype JsonSide = JsonSide(state: State, drawn: nat)

  datatype MemorySide = MemorySide(memory: Memory, drawn: nat)

  function KeyOf(r: Record): Key { Key(r.scope, r.mapping.kind, r.mapping.original) }

  /** The record and the entry say the same. */
  predicate SameEntry(r: Record, key: Key, e: Stored) {
    KeyOf(r) == key && r.mapping == e.mapping && r.createdAt == Some(e.createdAt)
  }

  ghost predicate RecordFor(ms: seq<Record>, key: Key, e: Stored) {
    exists r :: r in ms && SameEntry(r, key, e)
  }

  ghost predicate InMemory(m: Memory, r: Record) {
    KeyOf(r) in m.mappings && SameEntry(r, KeyOf(r), m.mappings[KeyOf(r)])
  }

  /** Live entries and live records are the same. */
  ghost predicate SameLive(ms: seq<Record>, m: Memory, ttl: Ttl, now: nat) {
    && (forall r :: r in ms ==> r.createdAt.Some?)
    && (forall key :: key in m.mappings && Live(m.mappings[key], ttl, now) ==> RecordFor(ms, key, m.mappings[key]))
    && (forall r :: r in ms && !Expired(r, ttl, Some(now)) ==> InMemory(m, r))
  }

  /** The counters of every kind that can be minted agree; the JSON vault never
      stores one for a kind that cannot. */
  ghost predicate SameCounters(cs: seq<Counter>, m: Memory) {
    forall scope, kind :: CounterOf(cs, scope, kind) == if IsName(kind) then MemoryCounter(m, scope, kind) else 0
  }

  /** No tokens from before entropy suffixes: the memory vault never holds any. */
  ghost predicate AllMinted(ms: seq<Record>) {
    forall r :: r in ms ==> IsMinted(r.mapping.token)
  }

  ghost predicate Related(j: JsonSide, m: MemorySide, ttl: Ttl, now: nat) {
    && Sound(j.state) && AllMinted(j.state.mappings)
    && j.drawn == m.drawn
    && SameLive(j.state.mappings, m.memory, ttl, now)
    && SameCounters(j.state.counters, m.memory)
  }

  lemma {:induction false} ReapMembers(s: State, ttl: Ttl, now: nat)
    requires forall r :: r in s.mappings ==> r.createdAt.Some?
    ensures forall r :: r in Reap(s, ttl, Some(now)).mappings <==> r in s.mappings && !Expired(r, ttl, Some(now))
  {
    if ttl.Some? {
      assert StampAll(s.mappings, now) == s.mappings;
    }
  }

  lemma {:induction false} ReapKeepsSameLive(s: State, m: Memory, ttl: Ttl, now: nat)
    requires SameLive(s.mappings, m, ttl, now)
    ensures SameLive(Reap(s, ttl, Some(now)).mappings, m, ttl, now)
    ensures forall r :: r in Reap(s, ttl, Some(now)).mappings ==> InMemory(m, r) && Live(m.mappings[KeyOf(r)], ttl, now)
  {
    ReapMembers(s, ttl, now);
    var ms := Reap(s, ttl, Some(now)).mappings;
    forall key | key in m.mappings && Live(m.mappings[key], ttl, now) ensures RecordFor(ms, key, m.mappings[key]) {
      var r :| r in s.mappings && SameEntry(r, key, m.mappings[key]);
      assert r in ms;
    }
  }

  // ---- Put ------------------------------------------------------------------

  /** The two searches for a key find the same live mapping or nothing. */
  ghost predicate SameFind(ms: seq<Record>, m: Memory, key: Key, ttl: Ttl, now: nat) {
    var at := FindKey(ms, key.scope, key.kind, key.original);
    && (at.Some? <==> key in m.mappings && Live(m.mappings[key], ttl, now))
    && (at.Some? ==> ms[at.value].mapping == m.mappings[key].mapping && IsMinted(ms[at.value].mapping.token))
  }

  /** On a reaped file the two searches find the same live mapping or nothing. */
  lemma {:induction false} SameSearch(s: State, m: Memory, key: Key, ttl: Ttl, now: nat)
    requires AllMinted(s.mappings) && SameLive(s.mappings, m, ttl, now)
    requires forall r :: r in s.mappings ==> InMemory(m, r) && Live(m.mappings[KeyOf(r)], ttl, now)
    ensures SameFind(s.mappings, m, key, ttl, now)
  {
    var at := FindKey(s.mappings, key.scope, key.kind, key.original);
    if at.Some? {
      var r := s.mappings[at.value];
      assert r in s.mappings && KeyOf(r) == key;
    } else {
      NoRecordFor(s.mappings, key);
    }
  }

  /** Storing one new mapping on both sides keeps them alike. */
  lemma {:induction false} PushKeepsSameLive(ms: seq<Record>, m: Memory, key: Key, mapping: Mapping, ttl: Ttl, now: nat)
    requires SameLive(ms, m, ttl, now) && mapping.kind == key.kind && mapping.original == key.original
    requires forall r :: r in ms ==> KeyOf(r) != key
    ensures SameLive(ms + [Record(key.scope, mapping, Some(now))],
                     Memory((m.mappings - {key})[key := Stored(mapping, now)], m.counters), ttl, now)
  {
    var added := Record(key.scope, mapping, Some(now));
    var ms', mm := ms + [added], (m.mappings - {key})[key := Stored(mapping, now)];
    assert forall r :: r in ms' <==> r in ms || r == added;
    assert KeyOf(added) == key;
    forall k | k in mm && Live(mm[k], ttl, now) ensures RecordFor(ms', k, mm[k]) {
      if k == key {
        assert added in ms' && SameEntry(added, k, mm[k]);
      } else {
        var r :| r in ms && SameEntry(r, k, m.mappings[k]);
        assert r in ms';
      }
    }
  }

  /** Counting one mint of a valid kind on both sides keeps the counters alike. */
  lemma {:induction false} MintKeepsSameCounters(cs: seq<Counter>, m: Memory, scope: Text, kind: Text,
                                                 mappings: map<Key, Stored>)
    requires SameCounters(cs, m) && IsName(kind)
    ensures SameCounters(Bump(cs, scope, kind),
                         Memory(mappings, m.counters[(scope, kind) := MemoryCounter(m, scope, kind) + 1]))
  {
    forall a, b { BumpCounts(cs, scope, kind, a, b); }
  }

  /** A put of a valid kind without a live mapping, on a reaped file. */
  lemma {:induction false} NewPutAgrees(s: State, m: Memory, key: Key, ttl: Ttl, now: nat, entropy: Entropy, drawn: nat)
    requires SameLive(s.mappings, m, ttl, now) && SameCounters(s.counters, m)
    requires FindKey(s.mappings, key.scope, key.kind, key.original).None?
    requires !(key in m.mappings && Live(m.mappings[key], ttl, now))
    requires IsName(key.kind) && entropy(drawn).Some? && MemoryCounter(m, key.scope, key.kind) < U64_MAX
    ensures var o := MemoryInsert(m, key.scope, key.kind, key.original, ttl, now, entropy, drawn);
            var p := Insert(s, key.scope, key.kind, key.original, Some(now), entropy, drawn);
            && o.result == p.result && o.drawn == p.drawn && p.result.Ok?
            && SameLive(p.state.mappings, o.memory, ttl, now) && SameCounters(p.state.counters, o.memory)
  {
    assert CounterOf(s.counters, key.scope, key.kind) == MemoryCounter(m, key.scope, key.kind);
    var o := MemoryInsert(m, key.scope, key.kind, key.original, ttl, now, entropy, drawn);
    MintKeepsSameCounters(s.counters, m, key.scope, key.kind, o.memory.mappings);
    NoRecordFor(s.mappings, key);
    PushKeepsSameLive(s.mappings, m, key, o.result.value, ttl, now);
    OtherCounters(s.mappings + [Record(key.scope, o.result.value, Some(now))],
                  Memory(o.memory.mappings, m.counters), o.memory.counters, ttl, now);
  }

  lemma {:induction false} NewPutSound(s: State, key: Key, now: nat, entropy: Entropy, drawn: nat)
    requires Sound(s) && AllMinted(s.mappings) && FindKey(s.mappings, key.scope, key.kind, key.original).None?
    requires Insert(s, key.scope, key.kind, key.original, Some(now), entropy, drawn).result.Ok?
    ensures var p := Insert(s, key.scope, key.kind, key.original, Some(now), entropy, drawn);
            Sound(p.state) && AllMinted(p.state.mappings)
  {
    InsertKeepsSound(s, key.scope, key.kind, key.original, Some(now), entropy, drawn);
    MintGivesToken(key.kind, CounterOf(s.counters, key.scope, key.kind) + 1, entropy, drawn);
  }

  lemma {:induction false} OtherCounters(ms: seq<Record>, m: Memory, counters: map<(Text, Text), nat>, ttl: Ttl,
                                         now: nat)
    requires SameLive(ms, m, ttl, now)
    ensures SameLive(ms, Memory(m.mappings, counters), ttl, now)
  {
    forall r | r in ms && !Expired(r, ttl, Some(now)) ensures InMemory(Memory(m.mappings, counters), r) {
      assert InMemory(m, r);
    }
  }

  lemma {:induction false} NoRecordFor(ms: seq<Record>, key: Key)
    requires FindKey(ms, key.scope, key.kind, key.original).None?
    ensures forall r :: r in ms ==> KeyOf(r) != key
  {
    forall r | r in ms ensures KeyOf(r) != key {
      var i :| 0 <= i < |ms| && ms[i] == r;
      assert !HasKey(ms[i], key.scope, key.kind, key.original);
    }
  }

  /** The file after the reap that every locked operation starts with. */
  lemma {:induction false} ReapedSide(j: JsonSide, m: MemorySide, ttl: Ttl, now: nat) returns (s: State)
    requires Related(j, m, ttl, now)
    ensures s == Reap(j.state, ttl, Some(now)) && s.counters == j.state.counters
    ensures Sound(s) && AllMinted(s.mappings) && SameLive(s.mappings, m.memory, ttl, now)
    ensures forall r :: r in s.mappings ==> InMemory(m.memory, r) && Live(m.memory.mappings[KeyOf(r)], ttl, now)
  {
    s := Reap(j.state, ttl, Some(now));
    ReapIsSound(j.state, ttl, Some(now));
    ReapKeepsSameLive(j.state, m.memory, ttl, now);
    ReapMembers(j.state, ttl, now);
  }

  /** A failed draw for a new mapping: the memory vault alone keeps the counter. */
  lemma {:induction false} FailedPut(s: State, m: Memory, key: Key, ttl: Ttl, now: nat, entropy: Entropy, drawn: nat)
    requires SameCounters(s.counters, m) && FindKey(s.mappings, key.scope, key.kind, key.original).None?
    requires !(key in m.mappings && Live(m.mappings[key], ttl, now))
    requires IsName(key.kind) && entropy(drawn).None? && MemoryCounter(m, key.scope, key.kind) < U64_MAX
    ensures var o := MemoryInsert(m, key.scope, key.kind, key.original, ttl, now, entropy, drawn);
            var p := Insert(s, key.scope, key.kind, key.original, Some(now), entropy, drawn);
            && o.result == p.result == Err(NoEntropy) && o.drawn == p.drawn == drawn + 1
            && o.memory
               == Memory(m.mappings - {key},
                         m.counters[(key.scope, key.kind) := MemoryCounter(m, key.scope, key.kind) + 1])
            && MemoryCounter(o.memory, key.scope, key.kind) == CounterOf(s.counters, key.scope, key.kind) + 1
  {
    assert CounterOf(s.counters, key.scope, key.kind) == MemoryCounter(m, key.scope, key.kind);
  }

  lemma {:induction false} InvalidPutAgrees(s0: State, s: State, m: Memory, key: Key, ttl: Ttl, now: nat,
                                            entropy: Entropy, drawn: nat)
    requires SameLive(s0.mappings, m, ttl, now) && SameCounters(s.counters, m) && s0.counters == s.counters
    requires FindKey(s.mappings, key.scope, key.kind, key.original).None?
    requires !(key in m.mappings && Live(m.mappings[key], ttl, now))
    requires !IsName(key.kind) && MemoryCounter(m, key.scope, key.kind) < U64_MAX
    ensures var o := MemoryInsert(m, key.scope, key.kind, key.original, ttl, now, entropy, drawn);
            && o.result == Err(InvalidKind)
               == Insert(s, key.scope, key.kind, key.original, Some(now), entropy, drawn).result
            && o.drawn == drawn == Insert(s, key.scope, key.kind, key.original, Some(now), entropy, drawn).drawn
            && SameLive(s0.mappings, o.memory, ttl, now) && SameCounters(s0.counters, o.memory)
  {
    assert CounterOf(s.counters, key.scope, key.kind) == 0;
  }

  // ---- Get ------------------------------------------------------------------

  lemma {:induction false} GetAgrees(s: State, m: Memory, scope: Text, token: Text, ttl: Ttl, now: nat,
                                     reply: Option<Mapping>)
    requires Sound(s) && SameLive(s.mappings, m, ttl, now)
    requires CaseDistinct(ScopeKinds(s.mappings, scope))
    requires MayResolve(m, scope, token, ttl, now, reply)
    ensures reply == Lookup(s.mappings, scope, token, ttl, Some(now))
  {
    var found := Lookup(s.mappings, scope, token, ttl, Some(now));
    if found.Some? {
      var i :| 0 <= i < |s.mappings| && Answers(s.mappings[i], scope, token, ttl, Some(now))
        && found.value == s.mappings[i].mapping;
      assert s.mappings[i] in s.mappings;
      assert EntryAnswers(m, KeyOf(s.mappings[i]), scope, token, ttl, now);
    }
    if reply.Some? {
      var key :| EntryAnswers(m, key, scope, token, ttl, now) && m.mappings[key].mapping == reply.value;
      var r :| r in s.mappings && SameEntry(r, key, m.mappings[key]);
      assert r.mapping.kind in ScopeKinds(s.mappings, scope);
      AnswerUnique(s, scope, token, ttl, Some(now), r);
    }
  }

  // ---- Forget and purge -----------------------------------------------------

  lemma {:induction false} ForgetKeepsSameLive(s: State, m: Memory, scope: Text, ttl: Ttl, now: nat)
    requires SameLive(s.mappings, m, ttl, now)
    ensures SameLive(DropScope(s, scope).mappings, ForgetScope(m, scope), ttl, now)
  {
    var s', m' := DropScope(s, scope), ForgetScope(m, scope);
    forall key | key in m'.mappings && Live(m'.mappings[key], ttl, now)
      ensures RecordFor(s'.mappings, key, m'.mappings[key]) {
      var x :| x in s.mappings && SameEntry(x, key, m.mappings[key]);
      assert x in s'.mappings;
    }
  }

  lemma {:induction false} ForgetKeepsSameCounters(s: State, m: Memory, scope: Text)
    requires SameCounters(s.counters, m)
    ensures SameCounters(DropScope(s, scope).counters, ForgetScope(m, scope))
  {
    forall a, b ensures CounterOf(DropScope(s, scope).counters, a, b)
                        == if IsName(b) then MemoryCounter(ForgetScope(m, scope), a, b) else 0 {
      DroppedCounter(s.counters, scope, a, b);
    }
  }

  lemma {:induction false} PurgeKeepsSameLive(ms: seq<Record>, m: Memory, ttl: Ttl, now: nat)
    requires SameLive(ms, m, ttl, now)
    ensures SameLive(ms, PurgeMemory(m, ttl, now), ttl, now)
  {
  }

  lemma {:induction false} ForgetRelated(j: JsonSide, m: MemorySide, scope: Text, ttl: Ttl, now: nat)
    requires Related(j, m, ttl, now)
    ensures Related(JsonSide(DropScope(Reap(j.state, ttl, Some(now)), scope), j.drawn),
                    MemorySide(ForgetScope(m.memory, scope), m.drawn), ttl, now)
  {
    var s := ReapedSide(j, m, ttl, now);
    DropScopeKeepsSound(s, scope);
    ForgetKeepsSameLive(s, m.memory, scope, ttl, now);
    ForgetKeepsSameCounters(s, m.memory, scope);
  }

  lemma {:induction false} PurgeRelated(j: JsonSide, m: MemorySide, ttl: Ttl, now: nat)
    requires Related(j, m, ttl, now)
    ensures Related(JsonSide(Reap(j.state, ttl, Some(now)), j.drawn),
                    MemorySide(PurgeMemory(m.memory, ttl, now), m.drawn), ttl, now)
  {
    var s := ReapedSide(j, m, ttl, now);
    PurgeKeepsSameLive(s.mappings, m.memory, ttl, now);
  }
}
