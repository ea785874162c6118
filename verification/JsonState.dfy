/** The JSON vault's stored state and the functions its operations are proved
    against (crates/vault-json/src/lib.rs, crates/vault-json/src/vault.rs). */
module JsonState {
  import opened Common
  import opened Placeholder
  import opened Vault

  datatype Record = Record(scope: Text, mapping: Mapping, createdAt: Option<nat>)

  datatype Counter = Counter(scope: Text, kind: Text, value: nat)

  datatype State = State(mappings: seq<Record>, counters: seq<Counter>)

  const EMPTY := State([], [])

  /** Lifetime in whole seconds, when one is configured. */
  type Ttl = Option<nat>

  /** A clock reading, absent when the clock reads before the epoch. */
  type Clock = Option<nat>

  predicate Expired(r: Record, ttl: Ttl, now: Clock) {
    ttl.Some? && r.createdAt.Some? && now.Some? && Age(now.value, r.createdAt.value) >= ttl.value
  }

  function Unexpired(ttl: Ttl, now: Clock): Record -> bool {
    (r: Record) => !Expired(r, ttl, now)
  }

  function Stamped(r: Record, now: nat): Record {
    if r.createdAt.None? then r.(createdAt := Some(now)) else r
  }

  function StampAll(ms: seq<Record>, now: nat): (r: seq<Record>)
    ensures |r| == |ms|
    ensures forall i :: 0 <= i < |ms| ==> r[i] == Stamped(ms[i], now)
  {
    seq(|ms|, i requires 0 <= i < |ms| => Stamped(ms[i], now))
  }

  /** Stamping of undated records, then the purge of expired ones. */
  function Reap(s: State, ttl: Ttl, now: Clock): State {
    if ttl.None? || now.None? then s
    else s.(mappings := Retain(StampAll(s.mappings, now.value), Unexpired(ttl, now)))
  }

  predicate HasKey(r: Record, scope: Text, kind: Text, original: Text) {
    r.scope == scope && r.mapping.kind == kind && r.mapping.original == original
  }

  /** Position of the first record with this key. */
  function FindKey(ms: seq<Record>, scope: Text, kind: Text, original: Text): (r: Option<nat>)
    ensures r.Some? ==> r.value < |ms| && HasKey(ms[r.value], scope, kind, original)
    ensures r.None? ==> forall i :: 0 <= i < |ms| ==> !HasKey(ms[i], scope, kind, original)
    ensures r.Some? ==> forall i :: 0 <= i < r.value ==> !HasKey(ms[i], scope, kind, original)
  {
    if ms == [] then None
    else
      var r := FindKey(ms[..|ms| - 1], scope, kind, original);
      if r.Some? then r
      else if HasKey(ms[|ms| - 1], scope, kind, original) then Some(|ms| - 1)
      else None
  }

  /** Position of the first counter for this scope and kind. */
  function FindCounter(cs: seq<Counter>, scope: Text, kind: Text): (r: Option<nat>)
    ensures r.Some? ==> r.value < |cs| && cs[r.value].scope == scope && cs[r.value].kind == kind
    ensures r.None? ==> forall i :: 0 <= i < |cs| ==> !(cs[i].scope == scope && cs[i].kind == kind)
    ensures r.Some? ==> forall i :: 0 <= i < r.value ==> !(cs[i].scope == scope && cs[i].kind == kind)
  {
    if cs == [] then None
    else
      var r := FindCounter(cs[..|cs| - 1], scope, kind);
      if r.Some? then r
      else if cs[|cs| - 1].scope == scope && cs[|cs| - 1].kind == kind then Some(|cs| - 1)
      else None
  }

  /** The last counter handed out for this scope and kind, 0 when none was. */
  function CounterOf(cs: seq<Counter>, scope: Text, kind: Text): nat {
    var at := FindCounter(cs, scope, kind);
    if at.Some? then cs[at.value].value else 0
  }

  /** The counters after handing out the next one. */
  function Bump(cs: seq<Counter>, scope: Text, kind: Text): seq<Counter> {
    var at := FindCounter(cs, scope, kind);
    if at.Some? then cs[at.value := cs[at.value].(value := cs[at.value].value + 1)]
    else cs + [Counter(scope, kind, 1)]
  }

  /** What an attempt leaves in memory, how much entropy it has drawn, and what
      it returns. */
  datatype Outcome<T> = Outcome(state: State, drawn: nat, result: Result<T, VaultError>)

  /** `insert_locked`: reuse a live entropy-bearing token, rotate a legacy one,
      or mint a token under the next counter. */
  function Insert(s: State, scope: Text, kind: Text, original: Text, now: Clock, entropy: Entropy,
                  drawn: nat): Outcome<Mapping> {
    var at := FindKey(s.mappings, scope, kind, original);
    if at.Some? && IsMinted(s.mappings[at.value].mapping.token) then
      Outcome(s, drawn, Ok(s.mappings[at.value].mapping))
    else if CounterOf(s.counters, scope, kind) >= U64_MAX then
      Outcome(s, drawn, Err(CounterExhausted))
    else
      var next := CounterOf(s.counters, scope, kind) + 1;
      var counted := s.(counters := Bump(s.counters, scope, kind));
      var minted := Mint(kind, next, entropy, drawn);
      match minted.result
      case Err(e) => Outcome(counted, minted.drawn, Err(e))
      case Ok(token) =>
        var mapping := Mapping(kind, original, token);
        var records :=
          if at.Some? then s.mappings[at.value := s.mappings[at.value].(mapping := mapping)]
          else s.mappings + [Record(scope, mapping, now)];
        Outcome(counted.(mappings := records), minted.drawn, Ok(mapping))
  }

  /** The batched loop: one insert after another, stopping at the first error. */
  function InsertMany(s: State, scope: Text, items: seq<(Text, Text)>, now: Clock, entropy: Entropy,
                      drawn: nat): Outcome<seq<Mapping>> {
    if items == [] then Outcome(s, drawn, Ok([]))
    else
      var front := InsertMany(s, scope, items[..|items| - 1], now, entropy, drawn);
      if front.result.Err? then front
      else
        var last := items[|items| - 1];
        var o := Insert(front.state, scope, last.0, last.1, now, entropy, front.drawn);
        if o.result.Err? then Outcome(o.state, o.drawn, Err(o.result.error))
        else Outcome(o.state, o.drawn, Ok(front.result.value + [o.result.value]))
  }

  /** `r` answers a lookup of `token` in `scope`. */
  predicate Answers(r: Record, scope: Text, token: Text, ttl: Ttl, now: Clock) {
    r.scope == scope && r.mapping.token == token && IsMinted(token) && !Expired(r, ttl, now)
  }

  /** The mapping of the first record that answers. */
  function Lookup(ms: seq<Record>, scope: Text, token: Text, ttl: Ttl, now: Clock): (r: Option<Mapping>)
    ensures r.Some? ==> exists i :: 0 <= i < |ms| && Answers(ms[i], scope, token, ttl, now) && r.value == ms[i].mapping
    ensures r.None? ==> forall i :: 0 <= i < |ms| ==> !Answers(ms[i], scope, token, ttl, now)
  {
    if ms == [] then None
    else
      var r := Lookup(ms[..|ms| - 1], scope, token, ttl, now);
      if r.Some? then r
      else if Answers(ms[|ms| - 1], scope, token, ttl, now) then
        assert ms[|ms| - 1].mapping == ms[|ms| - 1].mapping;
        Some(ms[|ms| - 1].mapping)
      else None
  }

  lemma {:induction false} LookupPrefix(ms: seq<Record>, n: nat, scope: Text, token: Text, ttl: Ttl, now: Clock)
    requires n <= |ms| && Lookup(ms[..n], scope, token, ttl, now).Some?
    ensures Lookup(ms, scope, token, ttl, now) == Lookup(ms[..n], scope, token, ttl, now)
  {
    if n < |ms| {
      assert ms[..|ms| - 1][..n] == ms[..n];
      LookupPrefix(ms[..|ms| - 1], n, scope, token, ttl, now);
    } else {
      assert ms[..n] == ms;
    }
  }

  function OutsideScope(scope: Text): Record -> bool { (r: Record) => r.scope != scope }

  function CounterOutside(scope: Text): Counter -> bool { (c: Counter) => c.scope != scope }

  function DropScope(s: State, scope: Text): State {
    State(Retain(s.mappings, OutsideScope(scope)), Retain(s.counters, CounterOutside(scope)))
  }
}
