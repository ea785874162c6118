/** The file-backed vault: every operation reloads the shared file under its
    lock, works on the copy, and persists through a temporary file and a rename
    (crates/vault-json/src/lib.rs, crates/vault-json/src/vault.rs). The lock
    makes each operation one step, so a method call is one step of a run. */
module JsonVaults {
  import opened Common
  import opened Placeholder
  import opened Vault
  import opened JsonState

  /** What a path holds; `Corrupt` covers damaged files and the other format. */
  datatype Disk = Missing | Holds(state: State) | Corrupt

  /** The vault path and its temporary sibling, shared by every vault instance
      opened on it. `accepts` is the file system's: whether it lets the next write
      through. No operation changes it. */
  class VaultFile {
    var contents: Disk
    var temporary: Disk
    var accepts: bool

    constructor (accepts: bool)
      ensures contents == Missing && this.accepts == accepts
    {
      contents, temporary, this.accepts := Missing, Missing, accepts;
    }
  }

  function Load(d: Disk): Result<State, VaultError> {
    match d
    case Missing => Ok(EMPTY)
    case Holds(s) => Ok(s)
    case Corrupt => Err(Unreadable)
  }

  method StampUndated(ms: seq<Record>, now: nat) returns (stamped: seq<Record>, changed: bool)
    ensures stamped == StampAll(ms, now)
    ensures changed <==> stamped != ms
  {
    stamped, changed := [], false;
    for i := 0 to |ms|
      invariant |stamped| == i && forall j :: 0 <= j < i ==> stamped[j] == StampAll(ms, now)[j]
      invariant !changed ==> forall j :: 0 <= j < i ==> stamped[j] == ms[j]
      invariant changed ==> exists j :: 0 <= j < i && stamped[j] != ms[j]
    {
      if ms[i].createdAt.None? {
        stamped := stamped + [ms[i].(createdAt := Some(now))];
        changed := true;
      } else {
        stamped := stamped + [ms[i]];
      }
    }
  }

  method PurgeExpired(ms: seq<Record>, ttl: Ttl, now: Clock) returns (kept: seq<Record>)
    ensures kept == Retain(ms, Unexpired(ttl, now))
    ensures |kept| == |ms| ==> kept == ms
  {
    kept := [];
    for i := 0 to |ms|
      invariant kept == Retain(ms[..i], Unexpired(ttl, now))
    {
      RetainNext(ms, Unexpired(ttl, now), i);
      if !Expired(ms[i], ttl, now) {
        kept := kept + [ms[i]];
      }
    }
    assert ms[..|ms|] == ms;
    RetainAll(ms, Unexpired(ttl, now));
  }

  /** The table of first answers for the wanted tokens, filled in one pass. */
  method FirstAnswers(ms: seq<Record>, scope: Text, wanted: set<Text>, ttl: Ttl, now: Clock)
    returns (found: map<Text, Mapping>)
    ensures forall t :: t in wanted ==> Lookup(ms, scope, t, ttl, now) == if t in found then Some(found[t]) else None
  {
    found := map[];
    for i := 0 to |ms|
      invariant forall t :: t in wanted ==>
                  Lookup(ms[..i], scope, t, ttl, now) == if t in found then Some(found[t]) else None
    {
      var token := ms[i].mapping.token;
      assert ms[..i + 1][..i] == ms[..i];
      if token in wanted && Answers(ms[i], scope, token, ttl, now) && token !in found {
        found := found[token := ms[i].mapping];
      }
    }
    assert ms[..|ms|] == ms;
  }

  class JsonVault {
    const file: VaultFile
    const ttl: Ttl
    var state: State

    constructor (file: VaultFile, ttl: Ttl)
      ensures this.file == file && this.ttl == ttl
    {
      this.file, this.ttl, this.state := file, ttl, EMPTY;
    }

    method ReloadLocked() returns (r: Result<(), VaultError>)
      modifies this
      ensures Load(file.contents).Ok? ==> r.Ok? && state == Load(file.contents).value
      ensures Load(file.contents).Err? ==> r == Err(Unreadable)
    {
      match file.contents
      case Missing => state := EMPTY; r := Ok(());
      case Holds(s) => state := s; r := Ok(());
      case Corrupt => r := Err(Unreadable);
    }

    /** A write that is not let through may fail half-way or at the rename; only a
        complete temporary file is renamed. */
    method PersistLocked() returns (r: Result<(), VaultError>)
      modifies file`contents, file`temporary
      ensures r == if file.accepts then Ok(()) else Err(WriteFailed)
      ensures file.contents == if file.accepts then Holds(state) else old(file.contents)
    {
      var torn := *;
      if !file.accepts && torn {
        file.temporary := Corrupt;
        return Err(WriteFailed);
      }
      file.temporary := Holds(state);
      if !file.accepts {
        return Err(WriteFailed);
      }
      file.contents := file.temporary;
      file.temporary := Missing;
      r := Ok(());
    }

    method ReapLocked(now: Clock) returns (changed: bool)
      modifies this
      ensures state == Reap(old(state), ttl, now)
      ensures changed <==> state != old(state)
    {
      if ttl.None? || now.None? {
        return false;
      }
      var stamped, dated := StampUndated(state.mappings, now.value);
      var kept := PurgeExpired(stamped, ttl, now);
      changed := dated || |kept| != |stamped|;
      state := state.(mappings := kept);
    }

    method NextCounter(scope: Text, kind: Text) returns (r: Result<nat, VaultError>)
      modifies this
      ensures CounterOf(old(state).counters, scope, kind) >= U64_MAX ==>
                r == Err(CounterExhausted) && state == old(state)
      ensures CounterOf(old(state).counters, scope, kind) < U64_MAX ==>
                && r == Ok(CounterOf(old(state).counters, scope, kind) + 1)
                && state == old(state).(counters := Bump(old(state).counters, scope, kind))
    {
      var at := FindCounter(state.counters, scope, kind);
      if at.Some? {
        var counter := state.counters[at.value];
        if counter.value >= U64_MAX {
          return Err(CounterExhausted);
        }
        state := state.(counters := state.counters[at.value := counter.(value := counter.value + 1)]);
        return Ok(counter.value + 1);
      }
      state := state.(counters := state.counters + [Counter(scope, kind, 1)]);
      return Ok(1);
    }

    method InsertLocked(scope: Text, kind: Text, original: Text, now: Clock, entropy: Entropy, drawn: nat)
      returns (r: Result<Mapping, VaultError>, drawn': nat)
      modifies this
      ensures Outcome(state, drawn', r) == Insert(old(state), scope, kind, original, now, entropy, drawn)
    {
      var at := FindKey(state.mappings, scope, kind, original);
      if at.Some? && IsMinted(state.mappings[at.value].mapping.token) {
        return Ok(state.mappings[at.value].mapping), drawn;
      }
      var next := NextCounter(scope, kind);
      if next.Err? {
        return Err(next.error), drawn;
      }
      var minted := Mint(kind, next.value, entropy, drawn);
      if minted.result.Err? {
        return Err(minted.result.error), minted.drawn;
      }
      var mapping := Mapping(kind, original, minted.result.value);
      if at.Some? {
        var rotated := state.mappings[at.value].(mapping := mapping);
        state := state.(mappings := state.mappings[at.value := rotated]);
      } else {
        state := state.(mappings := state.mappings + [Record(scope, mapping, now)]);
      }
      return Ok(mapping), minted.drawn;
    }

    method GetOrInsert(scope: Text, kind: Text, original: Text, now: Clock, entropy: Entropy, drawn: nat)
      returns (r: Result<Mapping, VaultError>, drawn': nat)
      modifies this, file`contents, file`temporary
      ensures Load(old(file.contents)).Err? ==>
                r == Err(Unreadable) && drawn' == drawn && file.contents == old(file.contents)
      ensures Load(old(file.contents)).Ok? ==>
                var o := Insert(Reap(Load(old(file.contents)).value, ttl, now), scope, kind, original, now, entropy,
                                drawn);
                && drawn' == o.drawn
                && r == (if o.result.Ok? && !file.accepts then Err(WriteFailed) else o.result)
                && file.contents == if r.Ok? then Holds(o.state) else old(file.contents)
    {
      var loaded := ReloadLocked();
      if loaded.Err? {
        return Err(loaded.error), drawn;
      }
      var _ := ReapLocked(now);
      r, drawn' := InsertLocked(scope, kind, original, now, entropy, drawn);
      if r.Ok? {
        var saved := PersistLocked();
        if saved.Err? {
          r := Err(saved.error);
        }
      }
    }

    method GetOrInsertMany(scope: Text, items: seq<(Text, Text)>, now: Clock, entropy: Entropy, drawn: nat)
      returns (r: Result<seq<Mapping>, VaultError>, drawn': nat)
      modifies this, file`contents, file`temporary
      ensures Load(old(file.contents)).Err? ==>
                r == Err(Unreadable) && drawn' == drawn && file.contents == old(file.contents)
      ensures Load(old(file.contents)).Ok? ==>
                var o := InsertMany(Reap(Load(old(file.contents)).value, ttl, now), scope, items, now, entropy, drawn);
                && drawn' == o.drawn
                && r == (if o.result.Ok? && !file.accepts then Err(WriteFailed) else o.result)
                && file.contents == if r.Ok? then Holds(o.state) else old(file.contents)
    {
      var loaded := ReloadLocked();
      if loaded.Err? {
        return Err(loaded.error), drawn;
      }
      var _ := ReapLocked(now);
      ghost var start := state;
      var mappings := [];
      drawn' := drawn;
      for i := 0 to |items|
        invariant file.contents == old(file.contents)
        invariant InsertMany(start, scope, items[..i], now, entropy, drawn) == Outcome(state, drawn', Ok(mappings))
      {
        var one;
        InsertManyNext(start, scope, items, i, now, entropy, drawn);
        one, drawn' := InsertLocked(scope, items[i].0, items[i].1, now, entropy, drawn');
        if one.Err? {
          InsertManyStops(start, scope, items, i + 1, now, entropy, drawn);
          return Err(one.error), drawn';
        }
        mappings := mappings + [one.value];
      }
      assert items[..|items|] == items;
      var saved := PersistLocked();
      r := if saved.Err? then Err(saved.error) else Ok(mappings);
    }

    method Resolve(scope: Text, token: Text, now: Clock) returns (r: Result<Option<Mapping>, VaultError>)
      ensures Load(file.contents).Err? ==> r == Err(Unreadable)
      ensures Load(file.contents).Ok? ==> r == Ok(Lookup(Load(file.contents).value.mappings, scope, token, ttl, now))
      ensures r.Ok? && r.value.Some? && ttl.Some? && now.Some? ==>
                exists q :: q in Load(file.contents).value.mappings && q.scope == scope && q.mapping == r.value.value
                            && (q.createdAt.Some? ==> ttl.value > 0 && now.value < q.createdAt.value + ttl.value)
    {
      var loaded := Load(file.contents);
      if loaded.Err? {
        return Err(loaded.error);
      }
      var ms := loaded.value.mappings;
      for i := 0 to |ms|
        invariant Lookup(ms[..i], scope, token, ttl, now).None?
      {
        assert ms[..i + 1][..i] == ms[..i];
        if Answers(ms[i], scope, token, ttl, now) {
          LookupPrefix(ms, i + 1, scope, token, ttl, now);
          return Ok(Some(ms[i].mapping));
        }
      }
      assert ms[..|ms|] == ms;
      return Ok(None);
    }

    /** One pass over the records fills a table of first answers; repeats and
        misses come out exactly as one lookup per token would give them. */
    method ResolveMany(scope: Text, tokens: seq<Text>, now: Clock) returns (r: Result<seq<Option<Mapping>>, VaultError>)
      ensures Load(file.contents).Err? ==> r == Err(Unreadable)
      ensures Load(file.contents).Ok? ==>
                && r.Ok? && |r.value| == |tokens|
                && forall i :: 0 <= i < |tokens| ==>
                     r.value[i] == Lookup(Load(file.contents).value.mappings, scope, tokens[i], ttl, now)
    {
      var loaded := Load(file.contents);
      if loaded.Err? {
        return Err(loaded.error);
      }
      var found := FirstAnswers(loaded.value.mappings, scope, (set t | t in tokens), ttl, now);
      r := Ok(seq(|tokens|,
                  i requires 0 <= i < |tokens| => if tokens[i] in found then Some(found[tokens[i]]) else None));
    }

    method DeleteScope(scope: Text, now: Clock) returns (r: Result<(), VaultError>)
      modifies this, file`contents, file`temporary
      ensures Load(old(file.contents)).Err? ==> r == Err(Unreadable) && file.contents == old(file.contents)
      ensures Load(old(file.contents)).Ok? ==>
                && r == (if file.accepts then Ok(()) else Err(WriteFailed))
                && file.contents
                   == if r.Ok? then Holds(DropScope(Reap(Load(old(file.contents)).value, ttl, now), scope))
                      else old(file.contents)
    {
      r := ReloadLocked();
      if r.Err? {
        return;
      }
      var _ := ReapLocked(now);
      state := DropScope(state, scope);
      r := PersistLocked();
    }

    /** Purging; a file that needs no change is not rewritten. */
    method Expire(now: Clock) returns (r: Result<(), VaultError>)
      modifies this, file`contents, file`temporary
      ensures Load(old(file.contents)).Ok? && r.Ok? ==>
                && Load(file.contents) == Ok(Reap(Load(old(file.contents)).value, ttl, now))
      ensures r.Err? ==> file.contents == old(file.contents)
      ensures ttl.None? ==> r.Ok? && unchanged(file)
      ensures Load(old(file.contents)).Ok?
              && Reap(Load(old(file.contents)).value, ttl, now) == Load(old(file.contents)).value ==>
                r.Ok? && unchanged(file)
      ensures Load(old(file.contents)).Err? && ttl.Some? ==> r == Err(Unreadable)
      ensures Load(old(file.contents)).Ok? ==>
                && (r.Ok? <==> file.accepts
                               || Reap(Load(old(file.contents)).value, ttl, now) == Load(old(file.contents)).value)
                && (r.Err? ==> r.error == WriteFailed)
    {
      if ttl.None? {
        return Ok(());
      }
      r := ReloadLocked();
      if r.Err? {
        return;
      }
      var changed := ReapLocked(now);
      if changed {
        r := PersistLocked();
      }
    }
  }

  /** One more item of a batch. */
  lemma {:induction false} InsertManyNext(s: State, scope: Text, items: seq<(Text, Text)>, n: nat, now: Clock,
                                          entropy: Entropy, drawn: nat)
    requires n < |items| && InsertMany(s, scope, items[..n], now, entropy, drawn).result.Ok?
    ensures var front := InsertMany(s, scope, items[..n], now, entropy, drawn);
            var o := Insert(front.state, scope, items[n].0, items[n].1, now, entropy, front.drawn);
            InsertMany(s, scope, items[..n + 1], now, entropy, drawn)
            == Outcome(o.state, o.drawn,
                       if o.result.Err? then Err(o.result.error) else Ok(front.result.value + [o.result.value]))
  {
    assert items[..n + 1][..n] == items[..n];
  }

  /** After a failing item the batch result no longer changes. */
  lemma {:induction false} InsertManyStops(s: State, scope: Text, items: seq<(Text, Text)>, n: nat, now: Clock,
                                           entropy: Entropy, drawn: nat)
    requires n <= |items| && InsertMany(s, scope, items[..n], now, entropy, drawn).result.Err?
    ensures InsertMany(s, scope, items, now, entropy, drawn) == InsertMany(s, scope, items[..n], now, entropy, drawn)
  {
    if n < |items| {
      assert items[..|items| - 1][..n] == items[..n];
      InsertManyStops(s, scope, items[..|items| - 1], n, now, entropy, drawn);
    } else {
      assert items[..n] == items;
    }
  }
}
