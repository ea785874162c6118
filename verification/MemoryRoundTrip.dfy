/** The sanitize-restore law on the memory vault (crates/vault-memory/src/lib.rs,
    crates/plugin-api/src/traits.rs, crates/privacy-core/src/lib.rs). */
module MemoryRoundTrip {
  import opened Common
  import opened Placeholder
  import opened Weaving
  import opened Vault
  import opened JsonState
  import opened MemoryVaults
  import opened VaultRelation
  import opened BatchRelation
  import opened VaultEquivalence
  import opened Transform
  import opened Pipeline
  import opened RoundTrip

  // ---- What every memory vault holds --------------------------------------------

  /** The entry is filed under its own key, under a minted token of its kind and of a
      counter already handed out. */
  predicate EntryIssued(m: Memory, key: Key) {
    && key in m.mappings
    && var v := m.mappings[key].mapping;
    && v.kind == key.kind && v.original == key.original
    && IsMinted(v.token) && Parse(v.token).kind == UpperKind(key.kind)
    && Parse(v.token).counter <= MemoryCounter(m, key.scope, key.kind)
  }

  predicate SameCounterEntry(m: Memory, a: Key, b: Key) {
    && EntryIssued(m, a) && EntryIssued(m, b) && a.scope == b.scope && a.kind == b.kind
    && Parse(m.mappings[a].mapping.token).counter == Parse(m.mappings[b].mapping.token).counter
  }

  ghost predicate MemorySound(m: Memory) {
    && (forall key :: key in m.mappings ==> EntryIssued(m, key))
    && forall a, b :: SameCounterEntry(m, a, b) ==> a == b
  }

  /** An insert leaves every other entry alone, and its own when it is live. */
  lemma {:induction false} InsertKeepsEntry(m: Memory, key: Key, other: Key, ttl: Ttl, now: nat, entropy: Entropy,
                                            drawn: nat)
    requires other in m.mappings && (other == key ==> Live(m.mappings[key], ttl, now))
    ensures var after := MemoryInsert(m, key.scope, key.kind, key.original, ttl, now, entropy, drawn).memory;
            other in after.mappings && after.mappings[other] == m.mappings[other]
  {
  }

  /** Nothing but its own entry is added, and counters only grow. */
  lemma {:induction false} InsertAdds(m: Memory, key: Key, ttl: Ttl, now: nat, entropy: Entropy, drawn: nat)
    ensures var after := MemoryInsert(m, key.scope, key.kind, key.original, ttl, now, entropy, drawn).memory;
            && (forall k :: k in after.mappings && k != key ==> k in m.mappings && after.mappings[k] == m.mappings[k])
            && forall a, b :: MemoryCounter(m, a, b) <= MemoryCounter(after, a, b)
  {
  }

  /** A new mapping is issued under the next counter. */
  lemma {:induction false} NewEntry(m: Memory, key: Key, ttl: Ttl, now: nat, entropy: Entropy, drawn: nat)
    requires !(key in m.mappings && Live(m.mappings[key], ttl, now))
    ensures var o := MemoryInsert(m, key.scope, key.kind, key.original, ttl, now, entropy, drawn);
            && (o.result.Ok? <==> key in o.memory.mappings)
            && (o.result.Ok? ==>
                  && o.memory.mappings[key] == Stored(o.result.value, now) && EntryIssued(o.memory, key)
                  && Parse(o.result.value.token).counter == MemoryCounter(m, key.scope, key.kind) + 1)
  {
    if MemoryInsert(m, key.scope, key.kind, key.original, ttl, now, entropy, drawn).result.Ok? {
      MintGivesToken(key.kind, MemoryCounter(m, key.scope, key.kind) + 1, entropy, drawn);
    }
  }

  lemma {:induction false} InsertSound(m: Memory, key: Key, ttl: Ttl, now: nat, entropy: Entropy, drawn: nat)
    requires MemorySound(m)
    ensures MemorySound(MemoryInsert(m, key.scope, key.kind, key.original, ttl, now, entropy, drawn).memory)
  {
    if !(key in m.mappings && Live(m.mappings[key], ttl, now)) {
      var after := MemoryInsert(m, key.scope, key.kind, key.original, ttl, now, entropy, drawn).memory;
      InsertAdds(m, key, ttl, now, entropy, drawn);
      NewEntry(m, key, ttl, now, entropy, drawn);
      AddedIsSound(m, after, key);
    }
  }

  lemma {:induction false} AddedIsSound(m: Memory, after: Memory, key: Key)
    requires MemorySound(m) && forall a, b :: MemoryCounter(m, a, b) <= MemoryCounter(after, a, b)
    requires forall k :: k in after.mappings && k != key ==> k in m.mappings && after.mappings[k] == m.mappings[k]
    requires key in after.mappings ==>
               && EntryIssued(after, key)
               && Parse(after.mappings[key].mapping.token).counter == MemoryCounter(m, key.scope, key.kind) + 1
    ensures MemorySound(after)
  {
    forall k | k in after.mappings && k != key ensures EntryIssued(m, k) && EntryIssued(after, k) {
      assert EntryIssued(m, k);
    }
    forall a, b | SameCounterEntry(after, a, b) ensures a == b {
      if a != key && b != key { assert SameCounterEntry(m, a, b); }
    }
  }

  lemma {:induction false} BatchSound(m: Memory, scope: Text, items: seq<(Text, Text)>, ttl: Ttl, now: nat,
                                      entropy: Entropy, drawn: nat)
    requires MemorySound(m)
    ensures MemorySound(MemoryInsertMany(m, scope, items, ttl, now, entropy, drawn).memory)
  {
    if items != [] {
      var last, front := items[|items| - 1], MemoryInsertMany(m, scope, items[..|items| - 1], ttl, now, entropy, drawn);
      BatchSound(m, scope, items[..|items| - 1], ttl, now, entropy, drawn);
      InsertSound(front.memory, Key(scope, last.0, last.1), ttl, now, entropy, front.drawn);
    }
  }

  lemma {:induction false} ForgetSound(m: Memory, scope: Text)
    requires MemorySound(m)
    ensures MemorySound(ForgetScope(m, scope))
  {
    var after := ForgetScope(m, scope);
    forall k | k in after.mappings ensures EntryIssued(after, k) { assert EntryIssued(m, k); }
    forall a, b | SameCounterEntry(after, a, b) ensures a == b { assert SameCounterEntry(m, a, b); }
  }

  lemma {:induction false} PurgeSound(m: Memory, ttl: Ttl, now: nat)
    requires MemorySound(m)
    ensures MemorySound(PurgeMemory(m, ttl, now))
  {
    var after := PurgeMemory(m, ttl, now);
    forall k | k in after.mappings ensures EntryIssued(after, k) { assert EntryIssued(m, k); }
    forall a, b | SameCounterEntry(after, a, b) ensures a == b { assert SameCounterEntry(m, a, b); }
  }

  /** Every request, failed ones included, keeps the memory sound. */
  lemma {:induction false} StepSound(m: MemorySide, r: Request, ttl: Ttl, entropy: Entropy, m': MemorySide,
                                     reply: Reply)
    requires MemorySound(m.memory) && MemoryStep(m, r, ttl, entropy, m', reply)
    ensures MemorySound(m'.memory)
  {
    match r.op
    case Put(scope, kind, original) => InsertSound(m.memory, Key(scope, kind, original), ttl, r.now, entropy, m.drawn);
    case PutMany(scope, items) => BatchSound(m.memory, scope, items, ttl, r.now, entropy, m.drawn);
    case Get(_, _) =>
    case GetMany(_, _) =>
    case Forget(scope) => ForgetSound(m.memory, scope);
    case Purge => PurgeSound(m.memory, ttl, r.now);
  }

  // ---- Lookups -------------------------------------------------------------------

  function KeyFor(scope: Text, v: Mapping): Key { Key(scope, v.kind, v.original) }

  /** The scope holds the mapping, stored at `since` or later. */
  predicate MemoryHeld(m: Memory, scope: Text, v: Mapping, since: nat) {
    var key := KeyFor(scope, v);
    key in m.mappings && m.mappings[key].mapping == v && m.mappings[key].createdAt >= since
  }

  function MemoryKinds(m: Memory, scope: Text): set<Text> {
    set key | key in m.mappings && key.scope == scope :: key.kind
  }

  /** Whatever order the map is scanned in, a lookup finds a held mapping whose kind
      no other kind of the scope equals ignoring case. */
  lemma {:induction false} HeldIsFound(m: Memory, scope: Text, v: Mapping, since: nat, ttl: Ttl, now: nat,
                                       reply: Option<Mapping>)
    requires MemorySound(m) && MemoryHeld(m, scope, v, since) && InLife(ttl, Some(now), since)
    requires Alone(v.kind, MemoryKinds(m, scope)) && MayResolve(m, scope, v.token, ttl, now, reply)
    ensures reply == Some(v)
  {
    var key := KeyFor(scope, v);
    assert EntryIssued(m, key);
    assert EntryAnswers(m, key, scope, v.token, ttl, now);
    if reply.Some? {
      var other :| EntryAnswers(m, other, scope, v.token, ttl, now) && m.mappings[other].mapping == reply.value;
      assert EntryIssued(m, other) && other.kind in MemoryKinds(m, scope);
      assert SameCounterEntry(m, key, other);
    }
  }

  // ---- Mappings stay held -----------------------------------------------------------

  lemma {:induction false} BatchKeepsEntry(m: Memory, scope: Text, items: seq<(Text, Text)>, other: Key, ttl: Ttl,
                                           now: nat, entropy: Entropy, drawn: nat)
    requires other in m.mappings && Live(m.mappings[other], ttl, now)
    ensures var after := MemoryInsertMany(m, scope, items, ttl, now, entropy, drawn).memory;
            other in after.mappings && after.mappings[other] == m.mappings[other]
  {
    if items != [] {
      var last, front := items[|items| - 1], MemoryInsertMany(m, scope, items[..|items| - 1], ttl, now, entropy, drawn);
      BatchKeepsEntry(m, scope, items[..|items| - 1], other, ttl, now, entropy, drawn);
      InsertKeepsEntry(front.memory, Key(scope, last.0, last.1), other, ttl, now, entropy, front.drawn);
    }
  }

  /** A request that does not forget the scope and comes within the lifetime of the
      stamps keeps the mapping. */
  lemma {:induction false} StepKeepsHeld(m: MemorySide, r: Request, ttl: Ttl, entropy: Entropy, m': MemorySide,
                                         reply: Reply, scope: Text, v: Mapping, since: nat)
    requires MemoryStep(m, r, ttl, entropy, m', reply) && MemoryHeld(m.memory, scope, v, since)
    requires r.op != Forget(scope) && InLife(ttl, Some(r.now), since)
    ensures MemoryHeld(m'.memory, scope, v, since)
  {
    var key := KeyFor(scope, v);
    match r.op
    case Put(sc, kind, original) =>
      InsertKeepsEntry(m.memory, Key(sc, kind, original), key, ttl, r.now, entropy, m.drawn);
    case PutMany(sc, items) => BatchKeepsEntry(m.memory, sc, items, key, ttl, r.now, entropy, m.drawn);
    case Get(_, _) =>
    case GetMany(_, _) =>
    case Forget(_) =>
    case Purge =>
  }

  /** A run of a memory vault from any state. */
  ghost predicate Trail(requests: seq<Request>, ttl: Ttl, entropy: Entropy, states: seq<MemorySide>,
                        replies: seq<Reply>) {
    && |states| == |requests| + 1 && |replies| == |requests|
    && forall i :: 0 <= i < |requests| ==> StepAt(requests, ttl, entropy, states, replies, i)
  }

  /** No request forgets the scope or comes past the lifetime of the stamps. */
  predicate SparesAll(requests: seq<Request>, ttl: Ttl, scope: Text, since: nat) {
    forall i :: 0 <= i < |requests| ==> requests[i].op != Forget(scope) && InLife(ttl, Some(requests[i].now), since)
  }

  lemma {:induction false} TrailStep(requests: seq<Request>, ttl: Ttl, entropy: Entropy, states: seq<MemorySide>,
                                     replies: seq<Reply>, scope: Text, v: Mapping, since: nat, i: nat)
    requires i < |requests| == |replies| < |states| && StepAt(requests, ttl, entropy, states, replies, i)
    requires requests[i].op != Forget(scope) && InLife(ttl, Some(requests[i].now), since)
    requires MemorySound(states[i].memory) && MemoryHeld(states[i].memory, scope, v, since)
    ensures MemorySound(states[i + 1].memory) && MemoryHeld(states[i + 1].memory, scope, v, since)
  {
    StepSound(states[i], requests[i], ttl, entropy, states[i + 1], replies[i]);
    StepKeepsHeld(states[i], requests[i], ttl, entropy, states[i + 1], replies[i], scope, v, since);
  }

  lemma {:induction false} TrailKeeps(requests: seq<Request>, ttl: Ttl, entropy: Entropy, states: seq<MemorySide>,
                                      replies: seq<Reply>, scope: Text, v: Mapping, since: nat)
    requires Trail(requests, ttl, entropy, states, replies) && SparesAll(requests, ttl, scope, since)
    requires MemorySound(states[0].memory) && MemoryHeld(states[0].memory, scope, v, since)
    ensures MemorySound(states[|requests|].memory) && MemoryHeld(states[|requests|].memory, scope, v, since)
  {
    for n := 0 to |requests|
      invariant MemorySound(states[n].memory) && MemoryHeld(states[n].memory, scope, v, since)
    {
      TrailStep(requests, ttl, entropy, states, replies, scope, v, since, n);
    }
  }

  // ---- What a batch hands out ---------------------------------------------------------

  /** Live entries for the items were stored at `since` or later. */
  ghost predicate AskedSinceIn(m: Memory, scope: Text, items: seq<(Text, Text)>, ttl: Ttl, now: nat, since: nat) {
    forall key :: key in m.mappings && Asks(scope, items, key) && Live(m.mappings[key], ttl, now) ==>
      m.mappings[key].createdAt >= since
  }

  /** Held, and live at `now`. */
  predicate HeldNow(m: Memory, scope: Text, v: Mapping, since: nat, ttl: Ttl, now: nat) {
    MemoryHeld(m, scope, v, since) && Live(m.mappings[KeyFor(scope, v)], ttl, now)
  }

  ghost predicate AllHeldNow(m: Memory, scope: Text, given: seq<Mapping>, since: nat, ttl: Ttl, now: nat) {
    forall i :: 0 <= i < |given| ==> HeldNow(m, scope, given[i], since, ttl, now)
  }

  lemma {:induction false} ItemHeld(m: Memory, scope: Text, items: seq<(Text, Text)>, item: (Text, Text), ttl: Ttl,
                                    now: nat, entropy: Entropy, drawn: nat, since: nat)
    requires MemorySound(m) && AskedSinceIn(m, scope, items, ttl, now, since) && item in items && since <= now
    requires ttl.Some? ==> ttl.value >= 1
    requires MemoryInsert(m, scope, item.0, item.1, ttl, now, entropy, drawn).result.Ok?
    ensures var o := MemoryInsert(m, scope, item.0, item.1, ttl, now, entropy, drawn);
            && Gives(o.result.value, item) && HeldNow(o.memory, scope, o.result.value, since, ttl, now)
            && AskedSinceIn(o.memory, scope, items, ttl, now, since)
  {
    var key := Key(scope, item.0, item.1);
    if key in m.mappings && Live(m.mappings[key], ttl, now) {
      assert EntryIssued(m, key);
    } else {
      InsertAdds(m, key, ttl, now, entropy, drawn);
      NewEntry(m, key, ttl, now, entropy, drawn);
    }
  }

  lemma {:induction false} GivenStaysHeld(m: Memory, scope: Text, given: seq<Mapping>, key: Key, ttl: Ttl, now: nat,
                                          entropy: Entropy, drawn: nat, since: nat)
    requires AllHeldNow(m, scope, given, since, ttl, now)
    ensures AllHeldNow(MemoryInsert(m, key.scope, key.kind, key.original, ttl, now, entropy, drawn).memory, scope,
                       given, since, ttl, now)
  {
    forall i | 0 <= i < |given|
      ensures HeldNow(MemoryInsert(m, key.scope, key.kind, key.original, ttl, now, entropy, drawn).memory, scope,
                      given[i], since, ttl, now)
    {
      assert HeldNow(m, scope, given[i], since, ttl, now);
      InsertKeepsEntry(m, key, KeyFor(scope, given[i]), ttl, now, entropy, drawn);
    }
  }

  /** A batch has handed out `given` for its first `n` items and holds all of it. */
  ghost predicate HandedOut(m: Memory, scope: Text, items: seq<(Text, Text)>, n: nat, given: seq<Mapping>, since: nat,
                            ttl: Ttl, now: nat) {
    && n <= |items| && MemorySound(m) && AskedSinceIn(m, scope, items, ttl, now, since)
    && GivesAll(given, items[..n]) && AllHeldNow(m, scope, given, since, ttl, now)
  }

  lemma {:induction false} HandNext(m: Memory, scope: Text, items: seq<(Text, Text)>, n: nat, given: seq<Mapping>,
                                    since: nat, ttl: Ttl, now: nat, entropy: Entropy, drawn: nat)
    requires n < |items| && HandedOut(m, scope, items, n, given, since, ttl, now) && since <= now
    requires ttl.Some? ==> ttl.value >= 1
    requires MemoryInsert(m, scope, items[n].0, items[n].1, ttl, now, entropy, drawn).result.Ok?
    ensures var o := MemoryInsert(m, scope, items[n].0, items[n].1, ttl, now, entropy, drawn);
            HandedOut(o.memory, scope, items, n + 1, given + [o.result.value], since, ttl, now)
  {
    var key := Key(scope, items[n].0, items[n].1);
    var o := MemoryInsert(m, key.scope, key.kind, key.original, ttl, now, entropy, drawn);
    InsertSound(m, key, ttl, now, entropy, drawn);
    ItemHeld(m, scope, items, items[n], ttl, now, entropy, drawn, since);
    GivenStaysHeld(m, scope, given, key, ttl, now, entropy, drawn, since);
    HandAdded(o.memory, scope, items, n, given, o.result.value, since, ttl, now);
  }

  lemma {:induction false} HandAdded(m: Memory, scope: Text, items: seq<(Text, Text)>, n: nat, given: seq<Mapping>,
                                     v: Mapping, since: nat, ttl: Ttl, now: nat)
    requires n < |items| && MemorySound(m) && AskedSinceIn(m, scope, items, ttl, now, since)
    requires GivesAll(given, items[..n]) && AllHeldNow(m, scope, given, since, ttl, now)
    requires Gives(v, items[n]) && HeldNow(m, scope, v, since, ttl, now)
    ensures HandedOut(m, scope, items, n + 1, given + [v], since, ttl, now)
  {
    assert items[..n + 1][..n] == items[..n];
    GivesNext(given, items[..n + 1], v);
    HeldNext(m, scope, given, v, since, ttl, now);
  }

  lemma {:induction false} HeldNext(m: Memory, scope: Text, given: seq<Mapping>, v: Mapping, since: nat, ttl: Ttl,
                                    now: nat)
    requires AllHeldNow(m, scope, given, since, ttl, now) && HeldNow(m, scope, v, since, ttl, now)
    ensures AllHeldNow(m, scope, given + [v], since, ttl, now)
  {
    forall i | 0 <= i < |given| + 1 ensures HeldNow(m, scope, (given + [v])[i], since, ttl, now) {
      if i < |given| { assert HeldNow(m, scope, given[i], since, ttl, now); }
    }
  }

  /** A batch that succeeds hands out mappings of its items and holds them all. */
  lemma {:induction false} BatchHeld(m: Memory, scope: Text, items: seq<(Text, Text)>, n: nat, ttl: Ttl, now: nat,
                                     entropy: Entropy, drawn: nat, since: nat)
    requires MemorySound(m) && AskedSinceIn(m, scope, items, ttl, now, since) && since <= now && n <= |items|
    requires ttl.Some? ==> ttl.value >= 1
    requires MemoryInsertMany(m, scope, items[..n], ttl, now, entropy, drawn).result.Ok?
    ensures var o := MemoryInsertMany(m, scope, items[..n], ttl, now, entropy, drawn);
            HandedOut(o.memory, scope, items, n, o.result.value, since, ttl, now)
  {
    if n > 0 {
      var front := MemoryInsertMany(m, scope, items[..n - 1], ttl, now, entropy, drawn);
      assert items[..n][..n - 1] == items[..n - 1];
      BatchHeld(m, scope, items, n - 1, ttl, now, entropy, drawn, since);
      HandNext(front.memory, scope, items, n - 1, front.result.value, since, ttl, now, entropy, front.drawn);
    }
  }

  // ---- The law ---------------------------------------------------------------------

  /** The originals of one vault's answers. */
  function AnsweredBy(answer: Text -> Option<Mapping>): Text -> Option<Text> {
    (token: Text) => if answer(token).Some? then Some(answer(token).value.original) else None
  }

  /** What a memory vault may answer to each token at one time. */
  ghost predicate MayAnswer(m: Memory, scope: Text, ttl: Ttl, now: nat, answer: Text -> Option<Mapping>) {
    forall token :: MayResolve(m, scope, token, ttl, now, answer(token))
  }

  lemma {:induction false} MarkerUnanswered(m: Memory, scope: Text, ttl: Ttl, now: nat, answer: Text -> Option<Mapping>)
    requires MayAnswer(m, scope, ttl, now, answer)
    ensures AnsweredBy(answer)(REDACTED).None?
  {
    RedactedIsUnminted();
    assert MayResolve(m, scope, REDACTED, ttl, now, answer(REDACTED));
  }

  /** The law over whole runs of a memory vault. Start from any sound memory, sanitize,
      then let anything happen except forgetting the scope, failed puts and batches
      included; no request, up to and including the restore, comes past the lifetime
      of the stamps. While no other kind of the scope equals a pseudonymized one
      ignoring case, restore gives back the masked input, in whatever order the vault
      scans its map. */
  lemma {:induction false} MemoryRestoreAfterRun(start: Memory, input: Text, plan: Plan, scope: Text, ttl: Ttl,
                                                 now: nat, entropy: Entropy, drawn: nat, since: nat,
                                                 requests: seq<Request>, states: seq<MemorySide>, replies: seq<Reply>,
                                                 restoreTime: nat, answer: Text -> Option<Mapping>, out: Text)
    requires GoodPlan(input, plan) && !HasBlock(plan) && Fits(input, 0, plan) && !Contains(input, PREFIX)
    requires MemorySound(start) && AskedSinceIn(start, scope, Items(plan), ttl, now, since) && since <= now
    requires MemoryInsertMany(start, scope, Items(plan), ttl, now, entropy, drawn).result.Ok?
    requires Trail(requests, ttl, entropy, states, replies) && SparesAll(requests, ttl, scope, since)
    requires states[0].memory == MemoryInsertMany(start, scope, Items(plan), ttl, now, entropy, drawn).memory
    requires InLife(ttl, Some(restoreTime), since)
    requires AllAlone(Items(plan), MemoryKinds(states[|requests|].memory, scope))
    requires MayAnswer(states[|requests|].memory, scope, ttl, restoreTime, answer)
    requires var tokens := TokensOf(MemoryInsertMany(start, scope, Items(plan), ttl, now, entropy, drawn).result.value);
             && |tokens| == |Items(plan)|
             && Restores(Splice(input, 0, plan, Replacements(plan, tokens)), AnsweredBy(answer), out)
    ensures out == Splice(input, 0, plan, Masked(plan))
    ensures (forall i :: 0 <= i < |plan| ==> !plan[i].action.Redact?) ==> out == input
  {
    var o := MemoryInsertMany(start, scope, Items(plan), ttl, now, entropy, drawn);
    var items, given, later := Items(plan), o.result.value, states[|requests|].memory;
    assert items[..|items|] == items;
    BatchHeld(start, scope, items, |items|, ttl, now, entropy, drawn, since);
    forall i | 0 <= i < |given|
      ensures IsPlaceholder(TokensOf(given)[i]) && AnsweredBy(answer)(TokensOf(given)[i]) == Some(Values(plan)[i])
    {
      assert Gives(given[i], items[i]) && HeldNow(o.memory, scope, given[i], since, ttl, now);
      TrailKeeps(requests, ttl, entropy, states, replies, scope, given[i], since);
      assert Alone(items[i].0, MemoryKinds(later, scope));
      assert MayResolve(later, scope, given[i].token, ttl, restoreTime, answer(given[i].token));
      HeldIsFound(later, scope, given[i], since, ttl, restoreTime, answer(given[i].token));
    }
    MarkerUnanswered(later, scope, ttl, restoreTime, answer);
    RoundTripFor(input, plan, TokensOf(given), AnsweredBy(answer), out);
    WholeWithoutRedaction(input, plan);
  }
}
