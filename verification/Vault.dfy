/** What both vaults share: mappings, errors, the entropy source and token
    minting (crates/plugin-api/src/lib.rs, crates/plugin-api/src/placeholder.rs). */
module Vault {
  import opened Common
  import opened Placeholder

  type U64 = n: nat | n <= U64_MAX

  datatype Mapping = Mapping(kind: Text, original: Text, token: Text)

  datatype VaultError =
    | InvalidKind
    | NoEntropy
    | CounterExhausted
    | CounterOverflow
    | Unreadable
    | WriteFailed

  /** The entropy source as a stream of draws; a draw may be unavailable. */
  type Entropy = nat -> Option<U64>

  datatype Minted = Minted(result: Result<Text, VaultError>, drawn: nat)

  /** `mint_placeholder`, with the number of draws made so far threaded through. */
  function Mint(kind: Text, counter: nat, entropy: Entropy, drawn: nat): Minted {
    if !IsName(kind) then Minted(Err(InvalidKind), drawn)
    else
      match entropy(drawn)
      case None => Minted(Err(NoEntropy), drawn + 1)
      case Some(e) => Minted(Ok(Token(kind, counter, e)), drawn + 1)
  }

  /** A token that `Mint` could have produced for this kind and counter. */
  predicate MintedFor(token: Text, kind: Text, counter: nat) {
    && IsName(kind)
    && IsMinted(token)
    && Parse(token).kind == UpperKind(kind)
    && Parse(token).counter == counter
  }

  lemma MintGivesToken(kind: Text, counter: nat, entropy: Entropy, drawn: nat)
    requires Mint(kind, counter, entropy, drawn).result.Ok?
    ensures MintedFor(Mint(kind, counter, entropy, drawn).result.value, kind, counter)
  {
    MintParsesBack(kind, counter, entropy(drawn).value);
  }

  /** Tokens under different counters differ, whatever was drawn. */
  lemma {:induction false} CountersTellApart(kind: Text, m: nat, d: U64, n: nat, e: U64)
    requires IsName(kind) && m != n
    ensures Token(kind, m, d) != Token(kind, n, e)
  {
    MintParsesBack(kind, m, d);
    MintParsesBack(kind, n, e);
  }

  /** Saturating age of a reading against a stamp, both in Unix seconds. */
  function Age(now: nat, stamp: nat): nat { if now >= stamp then now - stamp else 0 }

  /** No kind of the set differs from this one in letter case only. */
  ghost predicate Alone(kind: Text, kinds: set<Text>) {
    forall k :: k in kinds && UpperKind(k) == UpperKind(kind) ==> k == kind
  }

  /** No two kinds differ only in letter case. */
  ghost predicate CaseDistinct(kinds: set<Text>) {
    forall a, b :: a in kinds && b in kinds && UpperKind(a) == UpperKind(b) ==> a == b
  }

  /** `Vec::retain`. */
  function Retain<T(!new)>(s: seq<T>, keep: T -> bool): (r: seq<T>)
    ensures forall x :: x in r <==> x in s && keep(x)
    ensures |r| <= |s|
  {
    if s == [] then []
    else
      var front := Retain(s[..|s| - 1], keep);
      if keep(s[|s| - 1]) then front + [s[|s| - 1]] else front
  }

  /** Retained elements keep their order: any two of them come from two
      positions of the original list. */
  lemma {:induction false} RetainedPair<T(!new)>(s: seq<T>, keep: T -> bool, i: nat, j: nat) returns (a: nat, b: nat)
    requires i < j < |Retain(s, keep)|
    ensures a < b < |s| && Retain(s, keep)[i] == s[a] && Retain(s, keep)[j] == s[b]
  {
    var front := s[..|s| - 1];
    if j < |Retain(front, keep)| {
      a, b := RetainedPair(front, keep, i, j);
    } else {
      b := |s| - 1;
      assert Retain(front, keep)[i] in front;
      a :| 0 <= a < |front| && front[a] == Retain(front, keep)[i];
    }
  }

  lemma {:induction false} RetainNext<T(!new)>(s: seq<T>, keep: T -> bool, n: nat)
    requires n < |s|
    ensures Retain(s[..n + 1], keep) == if keep(s[n]) then Retain(s[..n], keep) + [s[n]] else Retain(s[..n], keep)
  {
    assert s[..n + 1][..n] == s[..n];
  }

  /** Retaining as many elements as there are retains them all. */
  lemma {:induction false} RetainAll<T(!new)>(s: seq<T>, keep: T -> bool)
    ensures (forall i :: 0 <= i < |s| ==> keep(s[i])) <==> Retain(s, keep) == s
    ensures |Retain(s, keep)| == |s| ==> Retain(s, keep) == s
  {
    if s != [] {
      RetainAll(s[..|s| - 1], keep);
    }
  }
}
