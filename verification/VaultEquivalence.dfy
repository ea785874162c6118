/** The two vaults are one store: from empty, both answer every run of calls
    alike, although one purges eagerly and the other hides lazily. */
module VaultEquivalence {
  import opened Common
  import opened Placeholder
  import opened Vault
  import opened JsonState
  import opened JsonVaults
  import opened MemoryVaults
  import opened VaultRuns
  import opened VaultRelation
  import opened BatchRelation

  datatype Request = Request(op: StoreOp, now: nat)

  datatype StoreOp =
    | Put(scope: Text, kind: Text, original: Text)
    | PutMany(scope: Text, items: seq<(Text, Text)>)
    | Get(scope: Text, token: Text)
    | GetMany(scope: Text, tokens: seq<Text>)
    | Forget(scope: Text)
    | Purge

  datatype Reply =
    | Mapped(result: Result<Mapping, VaultError>)
    | MappedMany(batch: Result<seq<Mapping>, VaultError>)
    | Found(mapping: Option<Mapping>)
    | FoundMany(mappings: seq<Option<Mapping>>)
    | Done

  /** The call on a JSON vault; its write reaches the file. */
  function CallFor(r: Request, ttl: Ttl): Call {
    var op := match r.op
      case Put(scope, kind, original) => Op.GetOrInsert(scope, kind, original)
      case PutMany(scope, items) => Op.GetOrInsertMany(scope, items)
      case Get(scope, token) => Op.Resolve(scope, token)
      case GetMany(scope, tokens) => Op.ResolveMany(scope, tokens)
      case Forget(scope) => Op.DeleteScope(scope)
      case Purge => Op.Expire;
    Call(op, ttl, Some(r.now), true)
  }

  /** One JSON-vault operation: what the call leaves behind, and the reply. */
  function JsonStep(j: JsonSide, r: Request, ttl: Ttl, entropy: Entropy): (JsonSide, Reply) {
    var e := Perform(j.state, CallFor(r, ttl), entropy, j.drawn);
    var reply := match r.op
      case Put(scope, kind, original) =>
        Mapped(Insert(Reap(j.state, ttl, Some(r.now)), scope, kind, original, Some(r.now), entropy, j.drawn).result)
      case PutMany(scope, items) =>
        MappedMany(InsertMany(Reap(j.state, ttl, Some(r.now)), scope, items, Some(r.now), entropy, j.drawn).result)
      case Get(scope, token) => Found(Lookup(j.state.mappings, scope, token, ttl, Some(r.now)))
      case GetMany(scope, tokens) =>
        FoundMany(seq(|tokens|, i requires 0 <= i < |tokens| =>
                                  Lookup(j.state.mappings, scope, tokens[i], ttl, Some(r.now))))
      case _ => Done;
    (JsonSide(e.state, e.drawn), reply)
  }

  /** One memory-vault operation, with the reply its map order may give. */
  ghost predicate MemoryStep(m: MemorySide, r: Request, ttl: Ttl, entropy: Entropy, m': MemorySide, reply: Reply) {
    match r.op
    case Put(scope, kind, original) =>
      var o := MemoryInsert(m.memory, scope, kind, original, ttl, r.now, entropy, m.drawn);
      m' == MemorySide(o.memory, o.drawn) && reply == Mapped(o.result)
    case PutMany(scope, items) =>
      var o := MemoryInsertMany(m.memory, scope, items, ttl, r.now, entropy, m.drawn);
      m' == MemorySide(o.memory, o.drawn) && reply == MappedMany(o.result)
    case Get(scope, token) =>
      m' == m && reply.Found? && MayResolve(m.memory, scope, token, ttl, r.now, reply.mapping)
    case GetMany(scope, tokens) =>
      && m' == m && reply.FoundMany? && |reply.mappings| == |tokens|
      && forall i :: 0 <= i < |tokens| ==> MayResolve(m.memory, scope, tokens[i], ttl, r.now, reply.mappings[i])
    case Forget(scope) => m' == MemorySide(ForgetScope(m.memory, scope), m.drawn) && reply == Done
    case Purge => m' == MemorySide(PurgeMemory(m.memory, ttl, r.now), m.drawn) && reply == Done
  }

  /** The kinds in use in each scope. */
  type ScopedKinds = Text -> set<Text>

  /** In no scope do two kinds differ only in letter case. */
  ghost predicate Distinct(kinds: ScopedKinds) {
    forall scope :: CaseDistinct(kinds(scope))
  }

  /** A request asks only for kinds in use. */
  predicate AsksKind(r: Request, kinds: ScopedKinds) {
    match r.op
    case Put(scope, kind, _) => IsName(kind) ==> kind in kinds(scope)
    case PutMany(scope, items) => AsksKinds(scope, items, kinds)
    case _ => true
  }

  predicate AsksKinds(scope: Text, items: seq<(Text, Text)>, kinds: ScopedKinds) {
    forall i :: 0 <= i < |items| && IsName(items[i].0) ==> items[i].0 in kinds(scope)
  }

  /** All stored kinds are in use. */
  ghost predicate KindsIn(ms: seq<Record>, kinds: ScopedKinds) {
    forall r :: r in ms ==> r.mapping.kind in kinds(r.scope)
  }

  /** A put or a batch failed after drawing entropy. */
  predicate Wasted(m: MemorySide, m': MemorySide, reply: Reply) {
    && ((reply.Mapped? && reply.result.Err?) || (reply.MappedMany? && reply.batch.Err?))
    && m'.drawn != m.drawn
  }

  predicate Overflows(reply: Reply) {
    reply == Mapped(Err(CounterOverflow)) || reply == MappedMany(Err(CounterOverflow))
  }

  /** A batch under a lifetime of zero repeats no item. */
  ghost predicate OneSnapshot(r: Request, ttl: Ttl) {
    r.op.PutMany? && ttl == Some(0) ==> NoRepeats(r.op.items)
  }

  /** Putting replies alike on both sides and keeps them alike unless it failed after
      a draw. */
  lemma {:induction false} PutAgrees(j: JsonSide, m: MemorySide, r: Request, ttl: Ttl, entropy: Entropy)
    requires Related(j, m, ttl, r.now) && r.op.Put?
    requires MemoryInsert(m.memory, r.op.scope, r.op.kind, r.op.original, ttl, r.now, entropy, m.drawn).result
             != Err(CounterOverflow)
    ensures var o := MemoryInsert(m.memory, r.op.scope, r.op.kind, r.op.original, ttl, r.now, entropy, m.drawn);
            && JsonStep(j, r, ttl, entropy).1 == Mapped(o.result)
            && JsonStep(j, r, ttl, entropy).0.drawn == o.drawn
            && (Related(JsonStep(j, r, ttl, entropy).0, MemorySide(o.memory, o.drawn), ttl, r.now)
                <==> o.result.Ok? || o.drawn == m.drawn)
  {
    var key := Key(r.op.scope, r.op.kind, r.op.original);
    var o := MemoryInsert(m.memory, r.op.scope, r.op.kind, r.op.original, ttl, r.now, entropy, m.drawn);
    var s := ReapedSide(j, m, ttl, r.now);
    SameSearch(s, m.memory, key, ttl, r.now);
    PutStep(j, r, ttl, entropy);
    ItemAgrees(s, m.memory, key, ttl, r.now, entropy, m.drawn);
    if o.result.Err? && o.drawn == m.drawn {
      InvalidIsRelated(j, m, key, ttl, r.now, entropy);
    } else if o.result.Err? {
      FailedPut(s, m.memory, key, ttl, r.now, entropy, m.drawn);
      assert CounterOf(j.state.counters, key.scope, key.kind) != MemoryCounter(o.memory, key.scope, key.kind);
    }
  }

  /** So does putting many. */
  lemma {:induction false} PutManyAgrees(j: JsonSide, m: MemorySide, r: Request, ttl: Ttl, entropy: Entropy)
    requires Related(j, m, ttl, r.now) && r.op.PutMany? && OneSnapshot(r, ttl)
    requires MemoryInsertMany(m.memory, r.op.scope, r.op.items, ttl, r.now, entropy, m.drawn).result
             != Err(CounterOverflow)
    ensures var o := MemoryInsertMany(m.memory, r.op.scope, r.op.items, ttl, r.now, entropy, m.drawn);
            && JsonStep(j, r, ttl, entropy).1 == MappedMany(o.result)
            && (Related(JsonStep(j, r, ttl, entropy).0, MemorySide(o.memory, o.drawn), ttl, r.now)
                <==> o.result.Ok? || o.drawn == m.drawn)
  {
    BatchAgrees(j, m, r.op.scope, r.op.items, ttl, r.now, entropy);
    assert JsonStep(j, r, ttl, entropy).0 == BatchSide(j, r.op.scope, r.op.items, ttl, r.now, entropy);
  }

  /** What a put leaves in the file. */
  lemma {:induction false} PutStep(j: JsonSide, r: Request, ttl: Ttl, entropy: Entropy)
    requires r.op.Put?
    ensures var o := Insert(Reap(j.state, ttl, Some(r.now)), r.op.scope, r.op.kind, r.op.original, Some(r.now),
                            entropy, j.drawn);
            JsonStep(j, r, ttl, entropy)
              == (JsonSide(if o.result.Ok? then o.state else j.state, o.drawn), Mapped(o.result))
  {
  }

  // ---- Forget and purge -----------------------------------------------------

  lemma {:induction false} ForgetAgrees(j: JsonSide, m: MemorySide, r: Request, ttl: Ttl, entropy: Entropy)
    requires Related(j, m, ttl, r.now) && r.op.Forget?
    ensures Related(JsonStep(j, r, ttl, entropy).0, MemorySide(ForgetScope(m.memory, r.op.scope), m.drawn), ttl, r.now)
  {
    ForgetRelated(j, m, r.op.scope, ttl, r.now);
    ForgetStep(j, r, ttl, entropy);
  }

  lemma {:induction false} PurgeAgrees(j: JsonSide, m: MemorySide, r: Request, ttl: Ttl, entropy: Entropy)
    requires Related(j, m, ttl, r.now) && r.op.Purge?
    ensures Related(JsonStep(j, r, ttl, entropy).0, MemorySide(PurgeMemory(m.memory, ttl, r.now), m.drawn), ttl, r.now)
  {
    PurgeRelated(j, m, ttl, r.now);
    PurgeStep(j, r, ttl, entropy);
  }

  /** What a removal leaves in the file. */
  lemma {:induction false} ForgetStep(j: JsonSide, r: Request, ttl: Ttl, entropy: Entropy)
    requires r.op.Forget?
    ensures JsonStep(j, r, ttl, entropy)
            == (JsonSide(DropScope(Reap(j.state, ttl, Some(r.now)), r.op.scope), j.drawn), Done)
  {
  }

  lemma {:induction false} PurgeStep(j: JsonSide, r: Request, ttl: Ttl, entropy: Entropy)
    requires r.op.Purge?
    ensures JsonStep(j, r, ttl, entropy) == (JsonSide(Reap(j.state, ttl, Some(r.now)), j.drawn), Done)
  {
  }

  // ---- Runs -----------------------------------------------------------------

  lemma {:induction false} StepAgrees(j: JsonSide, m: MemorySide, r: Request, ttl: Ttl, entropy: Entropy,
                                      kinds: ScopedKinds, m': MemorySide, reply: Reply)
    requires Related(j, m, ttl, r.now) && MemoryStep(m, r, ttl, entropy, m', reply)
    requires Distinct(kinds) && KindsIn(j.state.mappings, kinds) && AsksKind(r, kinds) && OneSnapshot(r, ttl)
    requires !Overflows(reply)
    ensures JsonStep(j, r, ttl, entropy).1 == reply
    ensures Related(JsonStep(j, r, ttl, entropy).0, m', ttl, r.now) <==> !Wasted(m, m', reply)
    ensures KindsIn(JsonStep(j, r, ttl, entropy).0.state.mappings, kinds)
  {
    KindsKept(j, r, ttl, entropy, kinds);
    match r.op
    case Put(_, _, _) => PutAgrees(j, m, r, ttl, entropy);
    case PutMany(_, _) => PutManyAgrees(j, m, r, ttl, entropy);
    case Get(scope, token) =>
      KindsOfScope(j.state.mappings, kinds, scope);
      GetAgrees(j.state, m.memory, scope, token, ttl, r.now, reply.mapping);
    case GetMany(scope, tokens) =>
      KindsOfScope(j.state.mappings, kinds, scope);
      GetManyAgrees(j.state, m.memory, scope, tokens, ttl, r.now, reply.mappings);
    case Forget(_) => ForgetAgrees(j, m, r, ttl, entropy);
    case Purge => PurgeAgrees(j, m, r, ttl, entropy);
  }

  lemma {:induction false} GetManyAgrees(s: State, m: Memory, scope: Text, tokens: seq<Text>, ttl: Ttl, now: nat,
                                         replies: seq<Option<Mapping>>)
    requires Sound(s) && SameLive(s.mappings, m, ttl, now) && CaseDistinct(ScopeKinds(s.mappings, scope))
    requires |replies| == |tokens|
    requires forall i :: 0 <= i < |tokens| ==> MayResolve(m, scope, tokens[i], ttl, now, replies[i])
    ensures replies
            == seq(|tokens|, i requires 0 <= i < |tokens| => Lookup(s.mappings, scope, tokens[i], ttl, Some(now)))
  {
    forall i | 0 <= i < |tokens| ensures replies[i] == Lookup(s.mappings, scope, tokens[i], ttl, Some(now)) {
      GetAgrees(s, m, scope, tokens[i], ttl, now, replies[i]);
    }
  }

  lemma {:induction false} KindsOfScope(ms: seq<Record>, kinds: ScopedKinds, scope: Text)
    requires Distinct(kinds) && KindsIn(ms, kinds)
    ensures CaseDistinct(ScopeKinds(ms, scope))
  {
    assert CaseDistinct(kinds(scope)) && ScopeKinds(ms, scope) <= kinds(scope);
  }

  lemma {:induction false} KindsKept(j: JsonSide, r: Request, ttl: Ttl, entropy: Entropy, kinds: ScopedKinds)
    requires (forall x :: x in j.state.mappings ==> x.createdAt.Some?) && KindsIn(j.state.mappings, kinds)
             && AsksKind(r, kinds)
    ensures KindsIn(JsonStep(j, r, ttl, entropy).0.state.mappings, kinds)
  {
    ReapMembers(j.state, ttl, r.now);
    var s := Reap(j.state, ttl, Some(r.now));
    if r.op.Put? {
      InsertedKinds(s, r.op.scope, r.op.kind, r.op.original, Some(r.now), entropy, j.drawn, kinds);
    } else if r.op.PutMany? {
      BatchKinds(s, r.op.scope, r.op.items, Some(r.now), entropy, j.drawn, kinds);
    }
  }

  lemma {:induction false} BatchKinds(s: State, scope: Text, items: seq<(Text, Text)>, now: Clock, entropy: Entropy,
                                      drawn: nat, kinds: ScopedKinds)
    requires KindsIn(s.mappings, kinds) && AsksKinds(scope, items, kinds)
    ensures InsertMany(s, scope, items, now, entropy, drawn).result.Ok? ==>
              KindsIn(InsertMany(s, scope, items, now, entropy, drawn).state.mappings, kinds)
  {
    if items != [] {
      var last, front := items[|items| - 1], InsertMany(s, scope, items[..|items| - 1], now, entropy, drawn);
      BatchKinds(s, scope, items[..|items| - 1], now, entropy, drawn, kinds);
      if front.result.Ok? {
        InsertedKinds(front.state, scope, last.0, last.1, now, entropy, front.drawn, kinds);
      }
    }
  }

  lemma {:induction false} InsertedKinds(s: State, scope: Text, kind: Text, original: Text, now: Clock,
                                         entropy: Entropy, drawn: nat, kinds: ScopedKinds)
    requires KindsIn(s.mappings, kinds) && (IsName(kind) ==> kind in kinds(scope))
    ensures Insert(s, scope, kind, original, now, entropy, drawn).result.Ok? ==>
              KindsIn(Insert(s, scope, kind, original, now, entropy, drawn).state.mappings, kinds)
  {
  }

  /** The JSON side of a run from empty, and its replies. */
  function JsonRun(requests: seq<Request>, ttl: Ttl, entropy: Entropy): (JsonSide, seq<Reply>) {
    if requests == [] then (JsonSide(EMPTY, 0), [])
    else
      var before := JsonRun(requests[..|requests| - 1], ttl, entropy);
      var after := JsonStep(before.0, requests[|requests| - 1], ttl, entropy);
      (after.0, before.1 + [after.1])
  }

  /** A memory-vault run from empty: states in between and replies given. */
  ghost predicate MemoryRun(requests: seq<Request>, ttl: Ttl, entropy: Entropy, states: seq<MemorySide>,
                            replies: seq<Reply>) {
    && |states| == |requests| + 1 && |replies| == |requests|
    && states[0] == MemorySide(Memory(map[], map[]), 0)
    && forall i :: 0 <= i < |requests| ==> StepAt(requests, ttl, entropy, states, replies, i)
  }

  ghost predicate StepAt(requests: seq<Request>, ttl: Ttl, entropy: Entropy, states: seq<MemorySide>,
                         replies: seq<Reply>, i: nat)
    requires i < |requests| == |replies| < |states|
  {
    MemoryStep(states[i], requests[i], ttl, entropy, states[i + 1], replies[i])
  }

  /** Step `i` failed after a draw. */
  predicate WastedAt(states: seq<MemorySide>, replies: seq<Reply>, i: nat)
    requires i < |replies| < |states|
  {
    Wasted(states[i], states[i + 1], replies[i])
  }

  ghost predicate Monotone(requests: seq<Request>) {
    forall i, j :: 0 <= i < j < |requests| ==> requests[i].now <= requests[j].now
  }

  lemma {:induction false} StillRelated(j: JsonSide, m: MemorySide, ttl: Ttl, before: nat, now: nat)
    requires Related(j, m, ttl, before) && before <= now
    ensures Related(j, m, ttl, now)
  {
  }

  /** Request `i` asks for kinds in use, is one snapshot, and does not overflow. */
  ghost predicate FairAt(requests: seq<Request>, ttl: Ttl, kinds: ScopedKinds, replies: seq<Reply>, i: nat)
    requires i < |requests| == |replies|
  {
    AsksKind(requests[i], kinds) && OneSnapshot(requests[i], ttl) && !Overflows(replies[i])
  }

  ghost predicate Fair(requests: seq<Request>, ttl: Ttl, kinds: ScopedKinds, replies: seq<Reply>) {
    && |requests| == |replies| && Distinct(kinds) && Monotone(requests)
    && forall i :: 0 <= i < |requests| ==> FairAt(requests, ttl, kinds, replies, i)
  }

  /** No step before `n` failed after a draw. */
  ghost predicate UnwastedBelow(states: seq<MemorySide>, replies: seq<Reply>, n: nat) {
    n <= |replies| < |states| && forall i :: 0 <= i < n ==> !WastedAt(states, replies, i)
  }

  /** A run without its last request. */
  lemma {:induction false} RunFront(requests: seq<Request>, ttl: Ttl, entropy: Entropy, states: seq<MemorySide>,
                                    replies: seq<Reply>)
    requires MemoryRun(requests, ttl, entropy, states, replies) && requests != []
    ensures var n := |requests| - 1;
            MemoryRun(requests[..n], ttl, entropy, states[..n + 1], replies[..n])
              && replies == replies[..n] + [replies[n]]
  {
    var n := |requests| - 1;
    var rs, ms, ys := requests[..n], states[..n + 1], replies[..n];
    forall i | 0 <= i < n ensures StepAt(rs, ttl, entropy, ms, ys, i) {
      assert StepAt(requests, ttl, entropy, states, replies, i);
    }
  }

  lemma {:induction false} FairFront(requests: seq<Request>, ttl: Ttl, kinds: ScopedKinds, replies: seq<Reply>, n: nat)
    requires Fair(requests, ttl, kinds, replies) && n <= |requests|
    ensures Fair(requests[..n], ttl, kinds, replies[..n])
  {
    var rs, ys := requests[..n], replies[..n];
    forall i | 0 <= i < n ensures FairAt(rs, ttl, kinds, ys, i) {
      assert FairAt(requests, ttl, kinds, replies, i);
    }
  }

  lemma {:induction false} UnwastedFront(states: seq<MemorySide>, replies: seq<Reply>, n: nat)
    requires UnwastedBelow(states, replies, n)
    ensures UnwastedBelow(states[..n + 1], replies[..n], n)
  {
    var ms, ys := states[..n + 1], replies[..n];
    forall i | 0 <= i < n ensures !WastedAt(ms, ys, i) {
      assert !WastedAt(states, replies, i);
    }
  }

  /** States related after the front of a run still are when the last request comes. */
  lemma {:induction false} FrontRelated(requests: seq<Request>, ttl: Ttl, entropy: Entropy, states: seq<MemorySide>,
                                        replies: seq<Reply>)
    requires MemoryRun(requests, ttl, entropy, states, replies) && Monotone(requests) && requests != []
    requires var n := |requests| - 1;
             n > 0 ==> Related(JsonRun(requests[..n], ttl, entropy).0, states[n], ttl, requests[n - 1].now)
    ensures var n := |requests| - 1;
            Related(JsonRun(requests[..n], ttl, entropy).0, states[n], ttl, requests[n].now)
  {
    var n := |requests| - 1;
    if n > 0 {
      StillRelated(JsonRun(requests[..n], ttl, entropy).0, states[n], ttl, requests[n - 1].now, requests[n].now);
    } else {
      EmptyRelated(ttl, requests[n].now);
    }
  }

  lemma {:induction false} EmptyRelated(ttl: Ttl, now: nat)
    ensures Related(JsonSide(EMPTY, 0), MemorySide(Memory(map[], map[]), 0), ttl, now)
  {
  }

  /** Two stores, one behaviour. Under one clock that never goes back, one
      lifetime in whole seconds, one entropy stream and, in each scope, kinds
      distinct ignoring case, both vaults give the same reply at every step, single
      or batched, up to and including the first put or batch that fails after a
      draw, whatever order the memory vault's maps iterate in, and are related
      exactly until then; invalid kinds included. A counter of 2^64 - 1 makes the
      memory vault overflow, and a lifetime of zero a repeating batch differ. */
  lemma {:induction false} StoresAgree(requests: seq<Request>, ttl: Ttl, entropy: Entropy, kinds: ScopedKinds,
                                       states: seq<MemorySide>, replies: seq<Reply>)
    requires MemoryRun(requests, ttl, entropy, states, replies) && Fair(requests, ttl, kinds, replies)
    requires requests != [] ==> UnwastedBelow(states, replies, |requests| - 1)
    ensures JsonRun(requests, ttl, entropy).1 == replies
    ensures requests != [] ==>
              var n := |requests| - 1;
              Related(JsonRun(requests, ttl, entropy).0, states[n + 1], ttl, requests[n].now)
              <==> !WastedAt(states, replies, n)
    ensures KindsIn(JsonRun(requests, ttl, entropy).0.state.mappings, kinds)
  {
    if requests != [] {
      var n := |requests| - 1;
      RunFront(requests, ttl, entropy, states, replies);
      FairFront(requests, ttl, kinds, replies, n);
      UnwastedFront(states, replies, n);
      StoresAgree(requests[..n], ttl, entropy, kinds, states[..n + 1], replies[..n]);
      if n > 0 {
        assert !WastedAt(states[..n + 1], replies[..n], n - 1);
        assert requests[..n][n - 1] == requests[n - 1];
      }
      FrontRelated(requests, ttl, entropy, states, replies);
      assert StepAt(requests, ttl, entropy, states, replies, n) && FairAt(requests, ttl, kinds, replies, n);
      StepAgrees(JsonRun(requests[..n], ttl, entropy).0, states[n], requests[n], ttl, entropy, kinds, states[n + 1],
                 replies[n]);
    }
  }

  /** The stores part exactly at a failed draw: for related states, a put of a
      valid kind without a live mapping and with a counter below 2^64 - 1 gives
      equal replies, and leaves the stores related if and only if its draw is
      available. */
  lemma {:induction false} RelatedIffDrawn(j: JsonSide, m: MemorySide, r: Request, ttl: Ttl, entropy: Entropy)
    requires Related(j, m, ttl, r.now) && r.op.Put? && IsName(r.op.kind)
    requires var key := Key(r.op.scope, r.op.kind, r.op.original);
             !(key in m.memory.mappings && Live(m.memory.mappings[key], ttl, r.now))
    requires MemoryCounter(m.memory, r.op.scope, r.op.kind) < U64_MAX
    ensures var o := MemoryInsert(m.memory, r.op.scope, r.op.kind, r.op.original, ttl, r.now, entropy, m.drawn);
            && JsonStep(j, r, ttl, entropy).1 == Mapped(o.result)
            && (Related(JsonStep(j, r, ttl, entropy).0, MemorySide(o.memory, o.drawn), ttl, r.now)
                <==> entropy(m.drawn).Some?)
  {
    PutAgrees(j, m, r, ttl, entropy);
    if entropy(m.drawn).None? {
      var key := Key(r.op.scope, r.op.kind, r.op.original);
      var s := ReapedSide(j, m, ttl, r.now);
      SameSearch(s, m.memory, key, ttl, r.now);
      FailedPut(s, m.memory, key, ttl, r.now, entropy, m.drawn);
    }
  }

  /** And parted stores show it: the file is as it was, so repeating the put once
      a draw is available gives tokens under different counters. */
  lemma {:induction false} FailedDrawDiffers(j: JsonSide, m: MemorySide, r: Request, ttl: Ttl, entropy: Entropy)
    requires Related(j, m, ttl, r.now) && r.op.Put? && IsName(r.op.kind)
    requires var key := Key(r.op.scope, r.op.kind, r.op.original);
             !(key in m.memory.mappings && Live(m.memory.mappings[key], ttl, r.now))
    requires MemoryCounter(m.memory, r.op.scope, r.op.kind) + 1 < U64_MAX
    requires entropy(m.drawn).None? && entropy(m.drawn + 1).Some?
    ensures JsonStep(j, r, ttl, entropy).0 == JsonSide(j.state, m.drawn + 1)
    ensures var o := MemoryInsert(m.memory, r.op.scope, r.op.kind, r.op.original, ttl, r.now, entropy, m.drawn);
            JsonStep(JsonSide(j.state, m.drawn + 1), r, ttl, entropy).1
            != Mapped(MemoryInsert(o.memory, r.op.scope, r.op.kind, r.op.original, ttl, r.now, entropy, o.drawn).result)
  {
    var key := Key(r.op.scope, r.op.kind, r.op.original);
    var s := ReapedSide(j, m, ttl, r.now);
    assert FindKey(s.mappings, key.scope, key.kind, key.original).None? by { SameSearch(s, m.memory, key, ttl, r.now); }
    FailedPut(s, m.memory, key, ttl, r.now, entropy, m.drawn);
    assert JsonStep(j, r, ttl, entropy).0 == JsonSide(j.state, m.drawn + 1) by { PutStep(j, r, ttl, entropy); }
    var o := MemoryInsert(m.memory, r.op.scope, r.op.kind, r.op.original, ttl, r.now, entropy, m.drawn);
    RetriesDiffer(s, o.memory, key, ttl, r.now, entropy, m.drawn + 1);
    PutStep(JsonSide(j.state, m.drawn + 1), r, ttl, entropy);
  }

  lemma {:induction false} RetriesDiffer(s: State, m: Memory, key: Key, ttl: Ttl, now: nat, entropy: Entropy,
                                         drawn: nat)
    requires FindKey(s.mappings, key.scope, key.kind, key.original).None?
    requires !(key in m.mappings && Live(m.mappings[key], ttl, now))
    requires IsName(key.kind) && entropy(drawn).Some?
    requires MemoryCounter(m, key.scope, key.kind) == CounterOf(s.counters, key.scope, key.kind) + 1 < U64_MAX
    ensures Insert(s, key.scope, key.kind, key.original, Some(now), entropy, drawn).result
            != MemoryInsert(m, key.scope, key.kind, key.original, ttl, now, entropy, drawn).result
  {
    var c, e := CounterOf(s.counters, key.scope, key.kind), entropy(drawn).value;
    CountersTellApart(key.kind, c + 1, e, c + 2, e);
  }

  /** The stores part exactly at a full counter: for related states and a valid
      kind without a live mapping, a put gives equal replies if and only if the
      counter is below 2^64 - 1. */
  lemma {:induction false} FullCounterDiffers(j: JsonSide, m: MemorySide, r: Request, ttl: Ttl, entropy: Entropy)
    requires Related(j, m, ttl, r.now) && r.op.Put? && IsName(r.op.kind)
    requires var key := Key(r.op.scope, r.op.kind, r.op.original);
             !(key in m.memory.mappings && Live(m.memory.mappings[key], ttl, r.now))
    ensures JsonStep(j, r, ttl, entropy).1
            == Mapped(MemoryInsert(m.memory, r.op.scope, r.op.kind, r.op.original, ttl, r.now, entropy, m.drawn).result)
            <==> MemoryCounter(m.memory, r.op.scope, r.op.kind) < U64_MAX
  {
    var key := Key(r.op.scope, r.op.kind, r.op.original);
    if MemoryCounter(m.memory, key.scope, key.kind) < U64_MAX {
      PutAgrees(j, m, r, ttl, entropy);
    } else {
      var s := ReapedSide(j, m, ttl, r.now);
      SameSearch(s, m.memory, key, ttl, r.now);
      assert CounterOf(s.counters, key.scope, key.kind) >= U64_MAX;
    }
  }

  // ---- The two objects ---------------------------------------------------------

  /** What a request to a JSON vault does: its file and reply are those of
      `JsonStep`, unless the write failed; then the file is as it was. */
  predicate Asked(before: State, after: State, r: Request, ttl: Ttl, entropy: Entropy, drawn: nat, drawn': nat,
                  reply: Reply, saved: bool) {
    var step := JsonStep(JsonSide(before, drawn), r, ttl, entropy);
    if saved then (JsonSide(after, drawn'), reply) == step else after == before && drawn' == step.0.drawn
  }

  method AskJson(vault: JsonVault, r: Request, entropy: Entropy, drawn: nat)
    returns (reply: Reply, drawn': nat, saved: bool)
    requires Load(vault.file.contents).Ok?
    modifies vault, vault.file`contents, vault.file`temporary
    ensures Load(vault.file.contents).Ok?
    ensures Asked(Load(old(vault.file.contents)).value, Load(vault.file.contents).value, r, vault.ttl, entropy, drawn,
                  drawn', reply, saved)
    ensures vault.file.accepts ==> saved
  {
    if r.op.Put? || r.op.PutMany? {
      reply, drawn', saved := AskPut(vault, r, entropy, drawn);
      return;
    }
    drawn', saved, reply := drawn, true, Done;
    match r.op
    case Get(scope, token) =>
      var result := vault.Resolve(scope, token, Some(r.now));
      reply := Found(result.value);
    case GetMany(scope, tokens) =>
      var result := vault.ResolveMany(scope, tokens, Some(r.now));
      reply := FoundMany(result.value);
      assert reply == JsonStep(JsonSide(Load(vault.file.contents).value, drawn), r, vault.ttl, entropy).1;
    case Forget(scope) =>
      var result := vault.DeleteScope(scope, Some(r.now));
      saved := result.Ok?;
    case Purge =>
      var result := vault.Expire(Some(r.now));
      saved := result.Ok?;
  }

  method AskPut(vault: JsonVault, r: Request, entropy: Entropy, drawn: nat)
    returns (reply: Reply, drawn': nat, saved: bool)
    requires Load(vault.file.contents).Ok? && (r.op.Put? || r.op.PutMany?)
    modifies vault, vault.file`contents, vault.file`temporary
    ensures Load(vault.file.contents).Ok?
    ensures Asked(Load(old(vault.file.contents)).value, Load(vault.file.contents).value, r, vault.ttl, entropy, drawn,
                  drawn', reply, saved)
    ensures vault.file.accepts ==> saved
  {
    if r.op.Put? {
      var result;
      result, drawn' := vault.GetOrInsert(r.op.scope, r.op.kind, r.op.original, Some(r.now), entropy, drawn);
      reply, saved := Mapped(result), vault.file.accepts || result != Err(WriteFailed);
    } else {
      var result;
      result, drawn' := vault.GetOrInsertMany(r.op.scope, r.op.items, Some(r.now), entropy, drawn);
      reply, saved := MappedMany(result), vault.file.accepts || result != Err(WriteFailed);
    }
  }

  /** A request to a memory vault is a step of it. */
  method AskMemory(vault: MemoryVault, r: Request, entropy: Entropy, drawn: nat) returns (reply: Reply, drawn': nat)
    modifies vault
    ensures MemoryStep(MemorySide(old(vault.Value()), drawn), r, vault.ttl, entropy, MemorySide(vault.Value(), drawn'),
                       reply)
  {
    drawn', reply := drawn, Done;
    match r.op
    case Put(scope, kind, original) =>
      var result;
      result, drawn' := vault.GetOrInsert(scope, kind, original, r.now, entropy, drawn);
      reply := Mapped(result);
    case PutMany(scope, items) =>
      var result;
      result, drawn' := vault.GetOrInsertMany(scope, items, r.now, entropy, drawn);
      reply := MappedMany(result);
    case Get(scope, token) =>
      var found := vault.Resolve(scope, token, r.now);
      reply := Found(found);
    case GetMany(scope, tokens) =>
      var found := vault.ResolveMany(scope, tokens, r.now);
      reply := FoundMany(found);
    case Forget(scope) => vault.DeleteScope(scope);
    case Purge => vault.Expire(r.now);
  }
}
