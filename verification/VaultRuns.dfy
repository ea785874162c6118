/** Runs of JSON-vault operations by any number of instances on one file: token
    uniqueness, no reissue, and the batch forms as folds. */
module VaultRuns {
  import opened Common
  import opened Placeholder
  import opened Vault
  import opened JsonState
  import opened JsonVaults

  /** A mapping a scope holds or was handed. */
  datatype Entry = Entry(scope: Text, mapping: Mapping)

  /** The entries a file holds, apart from mappings that still carry a token from
      before entropy suffixes: those never resolve and are rotated on first use. */
  function Entries(ms: seq<Record>): set<Entry> {
    set r | r in ms && IsMinted(r.mapping.token) :: Entry(r.scope, r.mapping)
  }

  ghost predicate KeysUnique(ms: seq<Record>) {
    forall i, j :: 0 <= i < j < |ms| ==> !HasKey(ms[i], ms[j].scope, ms[j].mapping.kind, ms[j].mapping.original)
  }

  /** The token parses back to its kind and to a counter already handed out. */
  predicate Issued(cs: seq<Counter>, e: Entry) {
    && IsName(e.mapping.kind)
    && IsMinted(e.mapping.token)
    && Parse(e.mapping.token).kind == UpperKind(e.mapping.kind)
    && 1 <= Parse(e.mapping.token).counter <= CounterOf(cs, e.scope, e.mapping.kind)
  }

  predicate SameCounter(a: Entry, b: Entry) {
    && IsMinted(a.mapping.token) && IsMinted(b.mapping.token)
    && a.scope == b.scope && a.mapping.kind == b.mapping.kind
    && Parse(a.mapping.token).counter == Parse(b.mapping.token).counter
  }

  ghost predicate AllIssued(cs: seq<Counter>, es: set<Entry>) {
    forall e :: e in es ==> Issued(cs, e)
  }

  /** A scope, kind and counter name one entry. */
  ghost predicate OnePerCounter(es: set<Entry>) {
    forall a, b :: a in es && b in es && SameCounter(a, b) ==> a == b
  }

  ghost predicate Coherent(cs: seq<Counter>, es: set<Entry>) {
    AllIssued(cs, es) && OnePerCounter(es)
  }

  ghost predicate Sound(s: State) {
    KeysUnique(s.mappings) && Coherent(s.counters, Entries(s.mappings))
  }

  /** A key has one record. */
  lemma {:induction false} OneRecord(ms: seq<Record>, scope: Text, kind: Text, original: Text, a: nat, b: nat)
    requires KeysUnique(ms) && a < |ms| && b < |ms|
    requires HasKey(ms[a], scope, kind, original) && HasKey(ms[b], scope, kind, original)
    ensures a == b
  {
  }

  // ---- One operation -------------------------------------------------------

  lemma {:induction false} BumpCounts(cs: seq<Counter>, scope: Text, kind: Text, a: Text, b: Text)
    ensures CounterOf(Bump(cs, scope, kind), a, b)
            == CounterOf(cs, a, b) + if a == scope && b == kind then 1 else 0
  {
    var cs' := Bump(cs, scope, kind);
    var was, now := FindCounter(cs, a, b), FindCounter(cs', a, b);
    if was.Some? {
      assert cs'[was.value].scope == a && cs'[was.value].kind == b;
      assert now == was;
    } else if a == scope && b == kind {
      assert cs'[|cs|] == Counter(scope, kind, 1);
    } else {
      assert forall i :: 0 <= i < |cs'| ==> !(cs'[i].scope == a && cs'[i].kind == b);
    }
  }

  lemma {:induction false} ReapKeepsKeys(s: State, ttl: Ttl, now: Clock)
    requires KeysUnique(s.mappings)
    ensures KeysUnique(Reap(s, ttl, now).mappings)
    ensures Entries(Reap(s, ttl, now).mappings) <= Entries(s.mappings)
  {
    if ttl.Some? && now.Some? {
      RetainedKeys(s.mappings, Unexpired(ttl, now), now.value);
      var ms := Reap(s, ttl, now).mappings;
      forall r | r in ms ensures exists q :: q in s.mappings && q.scope == r.scope && q.mapping == r.mapping {
        StampedFrom(s.mappings, now.value, r);
      }
    }
  }

  lemma {:induction false} RetainedKeys(ms: seq<Record>, keep: Record -> bool, now: nat)
    requires KeysUnique(ms)
    ensures KeysUnique(Retain(StampAll(ms, now), keep))
  {
    var left := Retain(StampAll(ms, now), keep);
    forall i, j | 0 <= i < j < |left|
      ensures !HasKey(left[i], left[j].scope, left[j].mapping.kind, left[j].mapping.original) {
      var a, b := RetainedPair(StampAll(ms, now), keep, i, j);
      assert !HasKey(ms[a], ms[b].scope, ms[b].mapping.kind, ms[b].mapping.original);
    }
  }

  lemma {:induction false} StampedFrom(ms: seq<Record>, now: nat, r: Record)
    requires r in StampAll(ms, now)
    ensures exists q :: q in ms && q.scope == r.scope && q.mapping == r.mapping && r == Stamped(q, now)
  {
    var a :| 0 <= a < |ms| && StampAll(ms, now)[a] == r;
    assert ms[a] in ms && r == Stamped(ms[a], now);
  }

  lemma {:induction false} CoherentSubset(cs: seq<Counter>, small: set<Entry>, large: set<Entry>)
    requires Coherent(cs, large) && small <= large
    ensures Coherent(cs, small)
  {
  }

  /** An insert into a coherent history returns an entry that keeps it coherent:
      either one already known, or one under a counter never used before. */
  lemma {:induction false} InsertCoherent(s: State, es: set<Entry>, scope: Text, kind: Text, original: Text,
                                          now: Clock, entropy: Entropy, drawn: nat)
    requires KeysUnique(s.mappings) && Coherent(s.counters, es) && Entries(s.mappings) <= es
    ensures var o := Insert(s, scope, kind, original, now, entropy, drawn);
            o.result.Ok? ==>
              && KeysUnique(o.state.mappings)
              && o.result.value.kind == kind && o.result.value.original == original
              && Entries(o.state.mappings) <= es + {Entry(scope, o.result.value)}
              && Coherent(o.state.counters, es + {Entry(scope, o.result.value)})
  {
    var at := FindKey(s.mappings, scope, kind, original);
    var o := Insert(s, scope, kind, original, now, entropy, drawn);
    if at.Some? && IsMinted(s.mappings[at.value].mapping.token) {
      KnownEntry(s.mappings, at.value, es);
    } else if o.result.Ok? {
      MintGivesToken(kind, CounterOf(s.counters, scope, kind) + 1, entropy, drawn);
      FreshIsCoherent(s.counters, es, Entry(scope, o.result.value));
      if at.Some? {
        RotateRecord(s.mappings, at.value, o.result.value);
      } else {
        PushRecord(s.mappings, Record(scope, o.result.value, now));
      }
    }
  }

  lemma {:induction false} KnownEntry(ms: seq<Record>, i: nat, es: set<Entry>)
    requires i < |ms| && IsMinted(ms[i].mapping.token) && Entries(ms) <= es
    ensures Entry(ms[i].scope, ms[i].mapping) in Entries(ms) && es + {Entry(ms[i].scope, ms[i].mapping)} == es
  {
    assert ms[i] in ms;
  }

  lemma {:induction false} PushRecord(ms: seq<Record>, r: Record)
    requires KeysUnique(ms)
    requires forall i :: 0 <= i < |ms| ==> !HasKey(ms[i], r.scope, r.mapping.kind, r.mapping.original)
    ensures KeysUnique(ms + [r])
    ensures Entries(ms + [r]) <= Entries(ms) + {Entry(r.scope, r.mapping)}
  {
    assert forall x :: x in ms + [r] <==> x in ms || x == r;
  }

  /** A new token in place. */
  lemma {:induction false} RotateRecord(ms: seq<Record>, i: nat, m: Mapping)
    requires KeysUnique(ms) && i < |ms| && m.kind == ms[i].mapping.kind && m.original == ms[i].mapping.original
    ensures KeysUnique(ms[i := ms[i].(mapping := m)])
    ensures Entries(ms[i := ms[i].(mapping := m)]) <= Entries(ms) + {Entry(ms[i].scope, m)}
  {
    var after := ms[i := ms[i].(mapping := m)];
    forall a, b | 0 <= a < b < |after|
      ensures !HasKey(after[a], after[b].scope, after[b].mapping.kind, after[b].mapping.original) {
      assert !HasKey(ms[a], ms[b].scope, ms[b].mapping.kind, ms[b].mapping.original);
    }
    forall r | r in after ensures r in ms || r == ms[i].(mapping := m) {
      var k :| 0 <= k < |after| && after[k] == r;
    }
  }

  lemma {:induction false} FreshIsCoherent(cs: seq<Counter>, es: set<Entry>, e: Entry)
    requires Coherent(cs, es)
    requires MintedFor(e.mapping.token, e.mapping.kind, CounterOf(cs, e.scope, e.mapping.kind) + 1)
    ensures Coherent(Bump(cs, e.scope, e.mapping.kind), es + {e})
  {
    FreshIsIssued(cs, e);
    forall x | x in es
      ensures Issued(Bump(cs, e.scope, e.mapping.kind), x) && !SameCounter(x, e) && !SameCounter(e, x) {
      EarlierDiffers(cs, x, e);
    }
    AddedIsCoherent(es, e);
  }

  lemma {:induction false} FreshIsIssued(cs: seq<Counter>, e: Entry)
    requires MintedFor(e.mapping.token, e.mapping.kind, CounterOf(cs, e.scope, e.mapping.kind) + 1)
    ensures Issued(Bump(cs, e.scope, e.mapping.kind), e)
  {
    BumpCounts(cs, e.scope, e.mapping.kind, e.scope, e.mapping.kind);
  }

  lemma {:induction false} AddedIsCoherent(es: set<Entry>, e: Entry)
    requires OnePerCounter(es) && forall x :: x in es ==> !SameCounter(x, e) && !SameCounter(e, x)
    ensures OnePerCounter(es + {e})
  {
  }

  lemma {:induction false} EarlierDiffers(cs: seq<Counter>, x: Entry, e: Entry)
    requires Issued(cs, x)
    requires MintedFor(e.mapping.token, e.mapping.kind, CounterOf(cs, e.scope, e.mapping.kind) + 1)
    ensures Issued(Bump(cs, e.scope, e.mapping.kind), x) && !SameCounter(x, e)
  {
    BumpCounts(cs, e.scope, e.mapping.kind, x.scope, x.mapping.kind);
  }

  lemma {:induction false} InsertKeepsSound(s: State, scope: Text, kind: Text, original: Text, now: Clock,
                                            entropy: Entropy, drawn: nat)
    requires Sound(s) && Insert(s, scope, kind, original, now, entropy, drawn).result.Ok?
    ensures Sound(Insert(s, scope, kind, original, now, entropy, drawn).state)
  {
    InsertCoherent(s, Entries(s.mappings), scope, kind, original, now, entropy, drawn);
    var o := Insert(s, scope, kind, original, now, entropy, drawn);
    CoherentSubset(o.state.counters, Entries(o.state.mappings), Entries(s.mappings) + {Entry(scope, o.result.value)});
  }

  lemma {:induction false} ReapIsSound(s: State, ttl: Ttl, now: Clock)
    requires Sound(s)
    ensures Sound(Reap(s, ttl, now))
  {
    ReapKeepsKeys(s, ttl, now);
    CoherentSubset(s.counters, Entries(Reap(s, ttl, now).mappings), Entries(s.mappings));
  }

  lemma {:induction false} InsertManyCoherent(s: State, es: set<Entry>, scope: Text, items: seq<(Text, Text)>,
                                              now: Clock, entropy: Entropy, drawn: nat)
    requires KeysUnique(s.mappings) && Coherent(s.counters, es) && Entries(s.mappings) <= es
    ensures var o := InsertMany(s, scope, items, now, entropy, drawn);
            o.result.Ok? ==>
              && KeysUnique(o.state.mappings)
              && Entries(o.state.mappings) <= es + Handed(scope, o.result.value)
              && Coherent(o.state.counters, es + Handed(scope, o.result.value))
  {
    if items == [] {
      assert es + Handed(scope, []) == es;
    } else {
      var last := items[|items| - 1];
      var front := InsertMany(s, scope, items[..|items| - 1], now, entropy, drawn);
      InsertManyCoherent(s, es, scope, items[..|items| - 1], now, entropy, drawn);
      if front.result.Ok? {
        var es' := es + Handed(scope, front.result.value);
        InsertCoherent(front.state, es', scope, last.0, last.1, now, entropy, front.drawn);
        var o := Insert(front.state, scope, last.0, last.1, now, entropy, front.drawn);
        if o.result.Ok? {
          HandedNext(es, scope, front.result.value, o.result.value);
        }
      }
    }
  }

  lemma {:induction false} HandedNext(es: set<Entry>, scope: Text, ms: seq<Mapping>, m: Mapping)
    ensures es + Handed(scope, ms) + {Entry(scope, m)} == es + Handed(scope, ms + [m])
  {
    assert forall x :: x in ms + [m] <==> x in ms || x == m;
  }

  /** The entries a scope was handed. */
  function Handed(scope: Text, ms: seq<Mapping>): set<Entry> { set m | m in ms :: Entry(scope, m) }

  lemma {:induction false} DroppedCounter(cs: seq<Counter>, scope: Text, a: Text, b: Text)
    ensures CounterOf(Retain(cs, CounterOutside(scope)), a, b) == if a == scope then 0 else CounterOf(cs, a, b)
    ensures FindCounter(Retain(cs, CounterOutside(scope)), a, b).Some? <==> a != scope && FindCounter(cs, a, b).Some?
  {
    if cs != [] {
      DroppedCounter(cs[..|cs| - 1], scope, a, b);
      var kept := Retain(cs, CounterOutside(scope));
      if cs[|cs| - 1].scope != scope {
        assert kept[..|kept| - 1] == Retain(cs[..|cs| - 1], CounterOutside(scope));
      }
    }
  }

  lemma {:induction false} DropScopeKeepsSound(s: State, scope: Text)
    requires Sound(s)
    ensures Sound(DropScope(s, scope))
  {
    var s' := DropScope(s, scope);
    forall i, j | 0 <= i < j < |s'.mappings|
      ensures !HasKey(s'.mappings[i], s'.mappings[j].scope, s'.mappings[j].mapping.kind,
                      s'.mappings[j].mapping.original)
    {
      var a, b := RetainedPair(s.mappings, OutsideScope(scope), i, j);
    }
    forall e | e in Entries(s'.mappings) ensures Issued(s'.counters, e) && e in Entries(s.mappings) {
      assert Issued(s.counters, e);
      DroppedCounter(s.counters, scope, e.scope, e.mapping.kind);
    }
  }

  /** A mapping from before entropy-bearing tokens is rotated on first use: its
      record stays in place with its date, gets a minted token under the next
      counter, and the old token never resolves. */
  lemma {:induction false} LegacyIsRotated(s: State, i: nat, now: Clock, entropy: Entropy, drawn: nat, ttl: Ttl,
                                           later: Clock)
    requires KeysUnique(s.mappings) && i < |s.mappings| && !IsMinted(s.mappings[i].mapping.token)
    requires var r := s.mappings[i];
             Insert(s, r.scope, r.mapping.kind, r.mapping.original, now, entropy, drawn).result.Ok?
    ensures var r := s.mappings[i];
            var o := Insert(s, r.scope, r.mapping.kind, r.mapping.original, now, entropy, drawn);
            && MintedFor(o.result.value.token, r.mapping.kind, CounterOf(s.counters, r.scope, r.mapping.kind) + 1)
            && o.state.mappings == s.mappings[i := r.(mapping := o.result.value)]
            && Lookup(o.state.mappings, r.scope, r.mapping.token, ttl, later).None?
  {
    var r := s.mappings[i];
    var at := FindKey(s.mappings, r.scope, r.mapping.kind, r.mapping.original);
    assert HasKey(s.mappings[i], r.scope, r.mapping.kind, r.mapping.original);
    assert HasKey(s.mappings[at.value], r.scope, r.mapping.kind, r.mapping.original);
    MintGivesToken(r.mapping.kind, CounterOf(s.counters, r.scope, r.mapping.kind) + 1, entropy, drawn);
  }

  // ---- Purging is invisible to lookups -------------------------------------

  lemma {:induction false} StampNext(ms: seq<Record>, now: nat)
    requires ms != []
    ensures StampAll(ms, now) == StampAll(ms[..|ms| - 1], now) + [Stamped(ms[|ms| - 1], now)]
  {
  }

  /** One more record, stamped and kept unless expired. */
  lemma {:induction false} PurgeStep(purged: seq<Record>, kept: seq<Record>, ms: seq<Record>, scope: Text, token: Text,
                                     ttl: Ttl, now: nat)
    requires ttl.Some? && ttl.value >= 1 && ms != []
    requires Lookup(kept, scope, token, ttl, Some(now)) == Lookup(ms[..|ms| - 1], scope, token, ttl, Some(now))
    requires var last := Stamped(ms[|ms| - 1], now);
             purged == if Unexpired(ttl, Some(now))(last) then kept + [last] else kept
    ensures Lookup(purged, scope, token, ttl, Some(now)) == Lookup(ms, scope, token, ttl, Some(now))
  {
    var front, r := ms[..|ms| - 1], ms[|ms| - 1];
    assert ms == front + [r];
    LookupSnoc(kept, Stamped(r, now), scope, token, ttl, Some(now));
    LookupSnoc(front, r, scope, token, ttl, Some(now));
  }

  /** The lookups of a purged list are those of the list itself. */
  lemma {:induction false} PurgeInvisible(ms: seq<Record>, purged: seq<Record>, scope: Text, token: Text, ttl: Ttl,
                                          now: nat)
    requires ttl.Some? && ttl.value >= 1 && purged == Retain(StampAll(ms, now), Unexpired(ttl, Some(now)))
    ensures Lookup(purged, scope, token, ttl, Some(now)) == Lookup(ms, scope, token, ttl, Some(now))
    decreases |ms|
  {
    if ms != [] {
      var kept := Retain(StampAll(ms[..|ms| - 1], now), Unexpired(ttl, Some(now)));
      PurgeInvisible(ms[..|ms| - 1], kept, scope, token, ttl, now);
      PurgedNext(ms, ttl, now);
      PurgeStep(purged, kept, ms, scope, token, ttl, now);
    }
  }

  lemma {:induction false} PurgedNext(ms: seq<Record>, ttl: Ttl, now: nat)
    requires ms != []
    ensures var front, last := ms[..|ms| - 1], Stamped(ms[|ms| - 1], now);
            var purged := Retain(StampAll(front, now), Unexpired(ttl, Some(now)));
            Retain(StampAll(ms, now), Unexpired(ttl, Some(now)))
            == if Unexpired(ttl, Some(now))(last) then purged + [last] else purged
  {
    StampNext(ms, now);
    RetainSnoc(StampAll(ms[..|ms| - 1], now), Stamped(ms[|ms| - 1], now), Unexpired(ttl, Some(now)));
  }

  lemma {:induction false} RetainSnoc(ms: seq<Record>, x: Record, keep: Record -> bool)
    ensures Retain(ms + [x], keep) == if keep(x) then Retain(ms, keep) + [x] else Retain(ms, keep)
  {
    assert (ms + [x])[..|ms|] == ms;
  }

  lemma {:induction false} LookupSnoc(ms: seq<Record>, x: Record, scope: Text, token: Text, ttl: Ttl, now: Clock)
    ensures Lookup(ms + [x], scope, token, ttl, now)
            == if Lookup(ms, scope, token, ttl, now).Some? then Lookup(ms, scope, token, ttl, now)
               else if Answers(x, scope, token, ttl, now) then Some(x.mapping) else None
  {
    assert (ms + [x])[..|ms|] == ms;
  }

  /** Unless the lifetime is zero, stamping and purging change no answer: writes
      delete only what reads at that time already hide, and an undated record
      resolves before its stamp and after it. */
  lemma {:induction false} ReapIsInvisible(s: State, scope: Text, token: Text, ttl: Ttl, now: Clock)
    requires ttl.None? || ttl.value >= 1 || now.None?
    ensures Lookup(Reap(s, ttl, now).mappings, scope, token, ttl, now) == Lookup(s.mappings, scope, token, ttl, now)
    ensures Reap(s, ttl, now).counters == s.counters
  {
    if ttl.Some? && now.Some? { PurgeInvisible(s.mappings, Reap(s, ttl, now).mappings, scope, token, ttl, now.value); }
  }

  // ---- Runs ---------------------------------------------------------------

  datatype Op =
    | GetOrInsert(scope: Text, kind: Text, original: Text)
    | GetOrInsertMany(scope: Text, items: seq<(Text, Text)>)
    | Resolve(scope: Text, token: Text)
    | ResolveMany(scope: Text, tokens: seq<Text>)
    | DeleteScope(scope: Text)
    | Expire

  /** One locked operation of some instance: its lifetime setting, the clock it
      read, and whether its write reached the file. */
  datatype Call = Call(op: Op, ttl: Ttl, now: Clock, writes: bool)

  /** What a call leaves in the file, and the entries it handed out. */
  datatype Effect = Effect(state: State, drawn: nat, handed: set<Entry>)

  function Perform(s: State, c: Call, entropy: Entropy, drawn: nat): Effect {
    var reaped := Reap(s, c.ttl, c.now);
    match c.op
    case GetOrInsert(scope, kind, original) =>
      var o := Insert(reaped, scope, kind, original, c.now, entropy, drawn);
      if o.result.Ok? && c.writes then Effect(o.state, o.drawn, {Entry(scope, o.result.value)})
      else Effect(s, o.drawn, {})
    case GetOrInsertMany(scope, items) =>
      var o := InsertMany(reaped, scope, items, c.now, entropy, drawn);
      if o.result.Ok? && c.writes then Effect(o.state, o.drawn, Handed(scope, o.result.value))
      else Effect(s, o.drawn, {})
    case Resolve(_, _) => Effect(s, drawn, {})
    case ResolveMany(_, _) => Effect(s, drawn, {})
    case DeleteScope(scope) => Effect(if c.writes then DropScope(reaped, scope) else s, drawn, {})
    case Expire => Effect(if c.writes then reaped else s, drawn, {})
  }

  /** A call on a vault instance: the file then holds what `Perform` says, whether
      or not the file system lets a write through. */
  method RunCall(vault: JsonVault, op: Op, now: Clock, entropy: Entropy, drawn: nat)
    returns (drawn': nat, handed: set<Entry>)
    requires Load(vault.file.contents).Ok?
    modifies vault, vault.file`contents, vault.file`temporary
    ensures var e := Perform(Load(old(vault.file.contents)).value, Call(op, vault.ttl, now, vault.file.accepts),
                             entropy, drawn);
            Load(vault.file.contents) == Ok(e.state) && drawn' == e.drawn && handed == e.handed
  {
    drawn', handed := drawn, {};
    match op
    case GetOrInsert(scope, kind, original) =>
      var r;
      r, drawn' := vault.GetOrInsert(scope, kind, original, now, entropy, drawn);
      if r.Ok? { handed := {Entry(scope, r.value)}; }
    case GetOrInsertMany(scope, items) =>
      var r;
      r, drawn' := vault.GetOrInsertMany(scope, items, now, entropy, drawn);
      if r.Ok? { handed := Handed(scope, r.value); }
    case Resolve(scope, token) =>
      var _ := vault.Resolve(scope, token, now);
    case ResolveMany(scope, tokens) =>
      var _ := vault.ResolveMany(scope, tokens, now);
    case DeleteScope(scope) =>
      var _ := vault.DeleteScope(scope, now);
    case Expire =>
      var _ := vault.Expire(now);
  }

  /** The file after a run of calls, with everything handed out. */
  function Run(s: State, calls: seq<Call>, entropy: Entropy, drawn: nat): Effect {
    if calls == [] then Effect(s, drawn, {})
    else
      var before := Run(s, calls[..|calls| - 1], entropy, drawn);
      var after := Perform(before.state, calls[|calls| - 1], entropy, before.drawn);
      Effect(after.state, after.drawn, before.handed + after.handed)
  }

  /** A coherent history stays coherent across any call that deletes no scope. */
  lemma {:induction false} PerformCoherent(s: State, es: set<Entry>, c: Call, entropy: Entropy, drawn: nat)
    requires KeysUnique(s.mappings) && Coherent(s.counters, es) && Entries(s.mappings) <= es
    requires !c.op.DeleteScope?
    ensures var e := Perform(s, c, entropy, drawn);
            && KeysUnique(e.state.mappings)
            && Entries(e.state.mappings) <= es + e.handed
            && Coherent(e.state.counters, es + e.handed)
  {
    ReapKeepsKeys(s, c.ttl, c.now);
    var reaped, e := Reap(s, c.ttl, c.now), Perform(s, c, entropy, drawn);
    if e.handed == {} { assert es + e.handed == es; }
    match c.op
    case GetOrInsert(scope, kind, original) =>
      InsertCoherent(reaped, es, scope, kind, original, c.now, entropy, drawn);
    case GetOrInsertMany(scope, items) =>
      InsertManyCoherent(reaped, es, scope, items, c.now, entropy, drawn);
    case Resolve(_, _) =>
    case ResolveMany(_, _) =>
    case Expire =>
  }

  lemma {:induction false} PerformSound(s: State, c: Call, entropy: Entropy, drawn: nat)
    requires Sound(s)
    ensures Sound(Perform(s, c, entropy, drawn).state)
  {
    var e := Perform(s, c, entropy, drawn);
    if c.op.DeleteScope? {
      ReapKeepsKeys(s, c.ttl, c.now);
      var reaped := Reap(s, c.ttl, c.now);
      CoherentSubset(s.counters, Entries(reaped.mappings), Entries(s.mappings));
      DropScopeKeepsSound(reaped, c.op.scope);
    } else {
      PerformCoherent(s, Entries(s.mappings), c, entropy, drawn);
      CoherentSubset(e.state.counters, Entries(e.state.mappings), Entries(s.mappings) + e.handed);
    }
  }

  lemma EmptyIsSound()
    ensures Sound(EMPTY)
  {
  }

  /** Every file that any interleaving of instances can reach from a sound one,
      such as the empty one, has unique keys, and each minted token carries its
      kind and a counter that was handed out to no other record of its scope and
      kind. */
  lemma {:induction false} ReachableIsSound(s: State, calls: seq<Call>, entropy: Entropy, drawn: nat)
    requires Sound(s)
    ensures Sound(Run(s, calls, entropy, drawn).state)
  {
    if calls != [] {
      ReachableIsSound(s, calls[..|calls| - 1], entropy, drawn);
      var before := Run(s, calls[..|calls| - 1], entropy, drawn);
      PerformSound(before.state, calls[|calls| - 1], entropy, before.drawn);
    }
  }

  /** The kinds a scope's records have. */
  function ScopeKinds(ms: seq<Record>, scope: Text): set<Text> {
    set r | r in ms && r.scope == scope :: r.mapping.kind
  }

  lemma {:induction false} IssuedAt(s: State, i: nat)
    requires Sound(s) && i < |s.mappings| && IsMinted(s.mappings[i].mapping.token)
    ensures Entry(s.mappings[i].scope, s.mappings[i].mapping) in Entries(s.mappings)
    ensures Issued(s.counters, Entry(s.mappings[i].scope, s.mappings[i].mapping))
    ensures s.mappings[i].mapping.kind in ScopeKinds(s.mappings, s.mappings[i].scope)
  {
    assert s.mappings[i] in s.mappings;
  }

  /** A record whose kind no other kind of its scope equals ignoring case shares its
      minted token with no other record of the scope. */
  lemma {:induction false} TokensDistinct(s: State, i: nat, j: nat)
    requires i < j < |s.mappings| && s.mappings[i].scope == s.mappings[j].scope && IsMinted(s.mappings[i].mapping.token)
    requires Sound(s)
    requires var kinds := ScopeKinds(s.mappings, s.mappings[i].scope);
             Alone(s.mappings[i].mapping.kind, kinds) || Alone(s.mappings[j].mapping.kind, kinds)
    ensures s.mappings[i].mapping.token != s.mappings[j].mapping.token
  {
    if s.mappings[i].mapping.token == s.mappings[j].mapping.token {
      IssuedAt(s, i);
      IssuedAt(s, j);
      assert SameCounter(Entry(s.mappings[i].scope, s.mappings[i].mapping),
                         Entry(s.mappings[j].scope, s.mappings[j].mapping));
      assert HasKey(s.mappings[i], s.mappings[j].scope, s.mappings[j].mapping.kind, s.mappings[j].mapping.original);
    }
  }

  /** So a lookup of its token finds that record. */
  lemma {:induction false} AnswerUnique(s: State, scope: Text, token: Text, ttl: Ttl, now: Clock, r: Record)
    requires Sound(s) && Alone(r.mapping.kind, ScopeKinds(s.mappings, scope))
    requires r in s.mappings && Answers(r, scope, token, ttl, now)
    ensures Lookup(s.mappings, scope, token, ttl, now) == Some(r.mapping)
  {
    var k :| 0 <= k < |s.mappings| && s.mappings[k] == r;
    var found := Lookup(s.mappings, scope, token, ttl, now);
    var i :| 0 <= i < |s.mappings| && Answers(s.mappings[i], scope, token, ttl, now)
      && found.value == s.mappings[i].mapping;
    if i < k { TokensDistinct(s, i, k); }
    if k < i { TokensDistinct(s, k, i); }
  }

  lemma {:induction false} HistoryCoherent(s: State, calls: seq<Call>, entropy: Entropy, drawn: nat)
    requires Sound(s) && forall i :: 0 <= i < |calls| ==> !calls[i].op.DeleteScope?
    ensures var e, all := Run(s, calls, entropy, drawn), Entries(s.mappings) + Run(s, calls, entropy, drawn).handed;
            KeysUnique(e.state.mappings) && Coherent(e.state.counters, all) && Entries(e.state.mappings) <= all
  {
    if calls == [] {
      assert Entries(s.mappings) + {} == Entries(s.mappings);
    } else {
      var before := Run(s, calls[..|calls| - 1], entropy, drawn);
      var all := Entries(s.mappings) + before.handed;
      HistoryCoherent(s, calls[..|calls| - 1], entropy, drawn);
      PerformCoherent(before.state, all, calls[|calls| - 1], entropy, before.drawn);
      var after := Perform(before.state, calls[|calls| - 1], entropy, before.drawn);
      assert all + after.handed == Entries(s.mappings) + (before.handed + after.handed);
    }
  }

  /** No reissue: without a scope deletion, two mappings held at the start or ever
      returned for the same scope and kind under the same counter are the same
      mapping, even after the record expired in between. */
  lemma {:induction false} NoReissue(s: State, calls: seq<Call>, entropy: Entropy, drawn: nat, a: Entry, b: Entry)
    requires Sound(s) && forall i :: 0 <= i < |calls| ==> !calls[i].op.DeleteScope?
    requires a in Entries(s.mappings) + Run(s, calls, entropy, drawn).handed
    requires b in Entries(s.mappings) + Run(s, calls, entropy, drawn).handed
    ensures IsMinted(a.mapping.token) && IsMinted(b.mapping.token)
    ensures SameCounter(a, b) ==> a == b
    ensures Parse(a.mapping.token).kind == UpperKind(a.mapping.kind)
  {
    HistoryCoherent(s, calls, entropy, drawn);
    var e := Run(s, calls, entropy, drawn);
    assert Issued(e.state.counters, a) && Issued(e.state.counters, b);
  }

  /** The condition on kinds is needed: any two kinds that differ only in case
      (such as "a" and "A") get one token when their draws coincide, and a
      lookup then returns the first original for both. */
  lemma CaseCollision(scope: Text, a: Text, b: Text, x: Text, y: Text, now: nat, entropy: Entropy)
    requires IsName(a) && IsName(b) && a != b && UpperKind(a) == UpperKind(b)
    requires entropy(0).Some? && entropy(0) == entropy(1)
    ensures var first := Insert(EMPTY, scope, a, x, Some(now), entropy, 0);
            var second := Insert(first.state, scope, b, y, Some(now), entropy, first.drawn);
            && first.result.Ok? && second.result.Ok?
            && first.result.value.token == second.result.value.token
            && Lookup(second.state.mappings, scope, second.result.value.token, None, Some(now))
               == Some(first.result.value)
  {
    TwoInserts(scope, a, b, x, y, now, entropy);
    var token := Token(a, 1, entropy(0).value);
    assert IsMinted(token) by { MintParsesBack(a, 1, entropy(0).value); }
    HeadAnswers([Record(scope, Mapping(a, x, token), Some(now)), Record(scope, Mapping(b, y, token), Some(now))],
                 scope, token, None, Some(now));
  }

  lemma TwoInserts(scope: Text, a: Text, b: Text, x: Text, y: Text, now: nat, entropy: Entropy)
    requires IsName(a) && IsName(b) && a != b && UpperKind(a) == UpperKind(b)
    requires entropy(0).Some? && entropy(0) == entropy(1)
    ensures var token := Token(a, 1, entropy(0).value);
            var r := Record(scope, Mapping(a, x, token), Some(now));
            var s1 := State([r], [Counter(scope, a, 1)]);
            && Insert(EMPTY, scope, a, x, Some(now), entropy, 0) == Outcome(s1, 1, Ok(r.mapping))
            && Insert(s1, scope, b, y, Some(now), entropy, 1)
               == Outcome(State([r, Record(scope, Mapping(b, y, token), Some(now))],
                                s1.counters + [Counter(scope, b, 1)]), 2,
                          Ok(Mapping(b, y, token)))
  {
    var token := Token(a, 1, entropy(0).value);
    assert token == Token(b, 1, entropy(1).value);
    var r, c := Record(scope, Mapping(a, x, token), Some(now)), Counter(scope, a, 1);
    InsertFresh(EMPTY, scope, a, x, Some(now), entropy, 0);
    assert [] + [r] == [r] && [] + [c] == [c];
    SingleSearch(r, c, scope, b, y);
    InsertFresh(State([r], [c]), scope, b, y, Some(now), entropy, 1);
  }

  /** An insert of a new key under a kind without a counter yet. */
  lemma InsertFresh(s: State, scope: Text, kind: Text, original: Text, now: Clock, entropy: Entropy, drawn: nat)
    requires FindKey(s.mappings, scope, kind, original).None? && FindCounter(s.counters, scope, kind).None?
    requires IsName(kind) && entropy(drawn).Some?
    ensures var m := Mapping(kind, original, Token(kind, 1, entropy(drawn).value));
            Insert(s, scope, kind, original, now, entropy, drawn)
            == Outcome(State(s.mappings + [Record(scope, m, now)], s.counters + [Counter(scope, kind, 1)]), drawn + 1,
                       Ok(m))
  {
  }

  lemma SingleSearch(r: Record, c: Counter, scope: Text, kind: Text, original: Text)
    ensures FindKey([r], scope, kind, original) == if HasKey(r, scope, kind, original) then Some(0) else None
    ensures FindCounter([c], scope, kind) == if c.scope == scope && c.kind == kind then Some(0) else None
  {
    assert [r][..0] == [] && [c][..0] == [];
  }

  lemma HeadAnswers(ms: seq<Record>, scope: Text, token: Text, ttl: Ttl, now: Clock)
    requires ms != [] && Answers(ms[0], scope, token, ttl, now)
    ensures Lookup(ms, scope, token, ttl, now) == Some(ms[0].mapping)
  {
    assert ms[..1] == [ms[0]] && ms[..1][..0] == [];
    LookupPrefix(ms, 1, scope, token, ttl, now);
  }
}
