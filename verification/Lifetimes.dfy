/** Lifetimes in plain arithmetic: what each vault still returns, keeps or reuses of a
    mapping stamped `c` under a lifetime `t` at a reading `n`
    (crates/vault-json/src/vault.rs, crates/vault-memory/src/lib.rs). */
module Lifetimes {
  import opened Common
  import opened Placeholder
  import opened Vault
  import opened JsonState
  import opened MemoryVaults
  import opened VaultRuns

  // ---- The JSON vault --------------------------------------------------------------

  /** With a lifetime `t` and a reading `n`, a lookup returns a mapping of the scope
      under this minted token whose record is undated or stamped `c` with `n < c + t`
      and `t > 0`, and misses only when there is none. */
  lemma {:induction false} LookupInTime(ms: seq<Record>, scope: Text, token: Text, t: nat, n: nat)
    requires IsMinted(token)
    ensures var found := Lookup(ms, scope, token, Some(t), Some(n));
            && (found.Some? ==>
                  exists r :: r in ms && r.scope == scope && r.mapping == found.value && r.mapping.token == token
                              && (r.createdAt.Some? ==> t > 0 && n < r.createdAt.value + t))
            && (found.None? ==>
                  forall r :: r in ms && r.scope == scope && r.mapping.token == token ==>
                    r.createdAt.Some? && (t == 0 || n >= r.createdAt.value + t))
  {
    var found := Lookup(ms, scope, token, Some(t), Some(n));
    if found.Some? {
      var i :| 0 <= i < |ms| && Answers(ms[i], scope, token, Some(t), Some(n)) && found.value == ms[i].mapping;
      assert ms[i] in ms;
    } else {
      forall r | r in ms && r.scope == scope && r.mapping.token == token
        ensures r.createdAt.Some? && (t == 0 || n >= r.createdAt.value + t)
      {
        var i :| 0 <= i < |ms| && ms[i] == r;
        assert !Answers(ms[i], scope, token, Some(t), Some(n));
      }
    }
  }

  /** A reap keeps exactly the records stamped `c` with `n < c + t` and `t > 0`, and
      gives undated ones the stamp `n`, kept when `t > 0`. */
  lemma {:induction false} ReapInTime(s: State, t: nat, n: nat, r: Record)
    ensures r in Reap(s, Some(t), Some(n)).mappings <==>
            && r.createdAt.Some? && t > 0 && n < r.createdAt.value + t
            && (r in s.mappings || (r.createdAt == Some(n) && r.(createdAt := None) in s.mappings))
  {
    var stamped := StampAll(s.mappings, n);
    if r in stamped { StampedFrom(s.mappings, n, r); }
    if r in s.mappings && r.createdAt.Some? { StampedMember(s.mappings, n, r); }
    if r.(createdAt := None) in s.mappings { StampedMember(s.mappings, n, r.(createdAt := None)); }
  }

  lemma {:induction false} StampedMember(ms: seq<Record>, n: nat, r: Record)
    requires r in ms
    ensures Stamped(r, n) in StampAll(ms, n)
  {
    var i :| 0 <= i < |ms| && ms[i] == r;
    assert StampAll(ms, n)[i] == Stamped(r, n);
  }

  /** Without a lifetime or a reading nothing expires. */
  lemma {:induction false} NothingExpires(s: State, ttl: Ttl, now: Clock, scope: Text, token: Text, r: Record)
    requires ttl.None? || now.None?
    ensures Reap(s, ttl, now) == s
    ensures r in s.mappings && r.scope == scope && r.mapping.token == token && IsMinted(token) ==>
              Lookup(s.mappings, scope, token, ttl, now).Some?
  {
    if r in s.mappings && r.scope == scope && r.mapping.token == token && IsMinted(token) {
      var i :| 0 <= i < |s.mappings| && s.mappings[i] == r;
      assert Answers(s.mappings[i], scope, token, ttl, now);
    }
  }

  /** An insert reuses the stored mapping of its key if and only if its record is
      undated and `t > 0`, or stamped `c` with `n < c + t` and `t > 0`. */
  lemma {:induction false} ReusedInTime(s: State, q: Record, t: nat, n: nat, entropy: Entropy, drawn: nat)
    requires Sound(s) && q in s.mappings && IsMinted(q.mapping.token)
    ensures Insert(Reap(s, Some(t), Some(n)), q.scope, q.mapping.kind, q.mapping.original, Some(n), entropy,
                   drawn).result
            == Ok(q.mapping)
            <==> t > 0 && (q.createdAt.Some? ==> n < q.createdAt.value + t)
  {
    var reaped := Reap(s, Some(t), Some(n));
    ReapIsSound(s, Some(t), Some(n));
    StampedMember(s.mappings, n, q);
    if t > 0 && (q.createdAt.Some? ==> n < q.createdAt.value + t) {
      ReapInTime(s, t, n, Stamped(q, n));
      FoundAgain(reaped, Stamped(q, n), Some(n), entropy, drawn);
    } else {
      forall r | r in reaped.mappings ensures !HasKey(r, q.scope, q.mapping.kind, q.mapping.original) {
        ReapInTime(s, t, n, r);
        OnlyRecord(s.mappings, q, r);
      }
      NotFoundAgain(s, reaped, q, Some(n), entropy, drawn);
    }
  }

  lemma {:induction false} FoundAgain(s: State, q: Record, now: Clock, entropy: Entropy, drawn: nat)
    requires KeysUnique(s.mappings) && q in s.mappings && IsMinted(q.mapping.token)
    ensures Insert(s, q.scope, q.mapping.kind, q.mapping.original, now, entropy, drawn)
            == Outcome(s, drawn, Ok(q.mapping))
  {
    var k :| 0 <= k < |s.mappings| && s.mappings[k] == q;
    var at := FindKey(s.mappings, q.scope, q.mapping.kind, q.mapping.original);
    assert HasKey(s.mappings[k], q.scope, q.mapping.kind, q.mapping.original);
    OneRecord(s.mappings, q.scope, q.mapping.kind, q.mapping.original, at.value, k);
  }

  /** Any record of that key is the stored one, stamped or not. */
  lemma {:induction false} OnlyRecord(ms: seq<Record>, q: Record, r: Record)
    requires KeysUnique(ms) && q in ms
    ensures HasKey(r, q.scope, q.mapping.kind, q.mapping.original) && r in ms ==> r == q
    ensures HasKey(r, q.scope, q.mapping.kind, q.mapping.original) && r.(createdAt := None) in ms ==>
              r.(createdAt := None) == q
  {
    forall x | x in ms && HasKey(x, q.scope, q.mapping.kind, q.mapping.original) ensures x == q {
      var a :| 0 <= a < |ms| && ms[a] == x;
      var b :| 0 <= b < |ms| && ms[b] == q;
      OneRecord(ms, q.scope, q.mapping.kind, q.mapping.original, a, b);
    }
  }

  /** A purged mapping is never handed out again: its counter is used up. */
  lemma {:induction false} NotFoundAgain(s: State, reaped: State, q: Record, now: Clock, entropy: Entropy, drawn: nat)
    requires Sound(s) && q in s.mappings && IsMinted(q.mapping.token) && reaped.counters == s.counters
    requires forall r :: r in reaped.mappings ==> !HasKey(r, q.scope, q.mapping.kind, q.mapping.original)
    ensures Insert(reaped, q.scope, q.mapping.kind, q.mapping.original, now, entropy, drawn).result != Ok(q.mapping)
  {
    KeyMissing(reaped.mappings, q);
    assert Issued(s.counters, Entry(q.scope, q.mapping)) by { assert Entry(q.scope, q.mapping) in Entries(s.mappings); }
    NewCounter(reaped, q, now, entropy, drawn);
  }

  lemma {:induction false} KeyMissing(ms: seq<Record>, q: Record)
    requires forall r :: r in ms ==> !HasKey(r, q.scope, q.mapping.kind, q.mapping.original)
    ensures FindKey(ms, q.scope, q.mapping.kind, q.mapping.original).None?
  {
    assert forall i :: 0 <= i < |ms| ==> ms[i] in ms;
  }

  lemma {:induction false} NewCounter(s: State, q: Record, now: Clock, entropy: Entropy, drawn: nat)
    requires FindKey(s.mappings, q.scope, q.mapping.kind, q.mapping.original).None?
    requires Issued(s.counters, Entry(q.scope, q.mapping))
    ensures Insert(s, q.scope, q.mapping.kind, q.mapping.original, now, entropy, drawn).result != Ok(q.mapping)
  {
    if Insert(s, q.scope, q.mapping.kind, q.mapping.original, now, entropy, drawn).result.Ok? {
      MintGivesToken(q.mapping.kind, CounterOf(s.counters, q.scope, q.mapping.kind) + 1, entropy, drawn);
    }
  }

  // ---- The memory vault --------------------------------------------------------------

  /** The same for a lookup of the memory vault. */
  lemma {:induction false} MemoryLookupInTime(m: Memory, scope: Text, token: Text, t: nat, n: nat,
                                              reply: Option<Mapping>)
    requires IsMinted(token) && MayResolve(m, scope, token, Some(t), n, reply)
    ensures reply.Some? ==>
              exists key :: key in m.mappings && key.scope == scope && m.mappings[key].mapping == reply.value
                            && reply.value.token == token && t > 0 && n < m.mappings[key].createdAt + t
    ensures reply.None? ==>
              forall key :: key in m.mappings && key.scope == scope && m.mappings[key].mapping.token == token ==>
                t == 0 || n >= m.mappings[key].createdAt + t
  {
    if reply.Some? {
      var key :| EntryAnswers(m, key, scope, token, Some(t), n) && m.mappings[key].mapping == reply.value;
      assert key in m.mappings && n < m.mappings[key].createdAt + t;
    } else {
      forall key | key in m.mappings && key.scope == scope && m.mappings[key].mapping.token == token
        ensures t == 0 || n >= m.mappings[key].createdAt + t
      {
        assert !EntryAnswers(m, key, scope, token, Some(t), n);
      }
    }
  }

  /** For the bulk purge. */
  lemma {:induction false} PurgeInTime(m: Memory, t: nat, n: nat, key: Key)
    ensures key in PurgeMemory(m, Some(t), n).mappings
            <==> key in m.mappings && t > 0 && n < m.mappings[key].createdAt + t
    ensures key in PurgeMemory(m, Some(t), n).mappings ==>
              PurgeMemory(m, Some(t), n).mappings[key] == m.mappings[key]
  {
  }

  /** And for an insert, which draws nothing and changes nothing if and only if the
      stored mapping is in time. */
  lemma {:induction false} MemoryReusedInTime(m: Memory, key: Key, t: nat, n: nat, entropy: Entropy, drawn: nat)
    requires key in m.mappings && IsMinted(m.mappings[key].mapping.token)
    requires Parse(m.mappings[key].mapping.token).counter <= MemoryCounter(m, key.scope, key.kind)
    ensures MemoryInsert(m, key.scope, key.kind, key.original, Some(t), n, entropy, drawn).result
            == Ok(m.mappings[key].mapping)
            <==> t > 0 && n < m.mappings[key].createdAt + t
  {
    var o := MemoryInsert(m, key.scope, key.kind, key.original, Some(t), n, entropy, drawn);
    if !(t > 0 && n < m.mappings[key].createdAt + t) && o.result.Ok? {
      MintGivesToken(key.kind, MemoryCounter(m, key.scope, key.kind) + 1, entropy, drawn);
    }
  }

  /** Without a lifetime the memory vault forgets nothing by itself. */
  lemma {:induction false} MemoryKeepsAll(m: Memory, key: Key, n: nat, entropy: Entropy, drawn: nat)
    requires key in m.mappings
    ensures key in PurgeMemory(m, None, n).mappings
    ensures MemoryInsert(m, key.scope, key.kind, key.original, None, n, entropy, drawn).result
            == Ok(m.mappings[key].mapping)
    ensures IsMinted(m.mappings[key].mapping.token) ==>
              !MayResolve(m, key.scope, m.mappings[key].mapping.token, None, n, None)
  {
    if IsMinted(m.mappings[key].mapping.token) {
      assert EntryAnswers(m, key, key.scope, m.mappings[key].mapping.token, None, n);
    }
  }
}
