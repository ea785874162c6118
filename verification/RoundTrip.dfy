/** Restore undoes sanitize (crates/privacy-core/src/lib.rs,
    crates/transformer-pseudonymize/src/lib.rs). */
module RoundTrip {
  import opened Common
  import opened Placeholder
  import opened Scanner
  import opened Weaving
  import opened Spans
  import opened Vault
  import opened JsonState
  import opened JsonVaults
  import opened VaultRuns
  import opened Transform
  import opened Pipeline

  /** The sanitized text in pieces: kept spans melt into the literals. */
  function Pieces(input: Text, start: nat, plan: Plan, tokens: seq<Text>): Woven
    requires |tokens| == |Items(plan)| && start <= |input|
    requires forall i :: 0 <= i < |plan| ==> start <= plan[i].entity.start <= plan[i].entity.end <= |input|
    requires forall i, j :: 0 <= i < j < |plan| ==> plan[i].entity.end <= plan[j].entity.start
    decreases |plan|
  {
    if plan == [] then Last(input[start..])
    else if plan[0].action.Keep? then Pieces(input, start, plan[1..], tokens)
    else
      var put := Replacement(plan[0], tokens);
      Piece(input[start..plan[0].entity.start], if plan[0].action.Pseudonymize? then put.0 else REDACTED,
            Pieces(input, plan[0].entity.end, plan[1..], put.1))
  }

  /** A good plan whose spans all start at or after `start`. */
  ghost predicate GoodFrom(input: Text, start: nat, plan: Plan) {
    && GoodPlan(input, plan) && start <= |input|
    && forall i :: 0 <= i < |plan| ==> start <= plan[i].entity.start <= plan[i].entity.end <= |input|
  }

  lemma {:induction false} GoodFromTail(input: Text, start: nat, plan: Plan)
    requires GoodFrom(input, start, plan) && plan != []
    ensures GoodFrom(input, start, plan[1..]) && GoodFrom(input, plan[0].entity.end, plan[1..])
    ensures GoodSpan(input, plan[0].entity) && start <= plan[0].entity.start < plan[0].entity.end <= |input|
    ensures HasBlock(plan[1..]) ==> HasBlock(plan)
  {
    GoodTail(input, plan);
    BlockHeadTail(plan);
  }

  /** Text from `start` on that begins with a kept span: it joins the literal. */
  lemma {:induction false} KeptJoins(input: Text, start: nat, cursor: nat, e: Entity, rest: Text)
    requires GoodSpan(input, e) && start <= cursor <= e.start && e.end <= |input|
    ensures input[start..e.end] + rest == input[start..cursor] + input[cursor..e.start] + e.value + rest
  {
    SplitSlice(input, start, cursor, e.start);
    SplitSlice(input, start, e.start, e.end);
  }

  /** A kept span first: the weave of what follows, with a longer first literal. */
  lemma {:induction false} KeptIsWoven(input: Text, start: nat, cursor: nat, plan: Plan, tokens: seq<Text>)
    requires GoodFrom(input, cursor, plan) && start <= cursor && Fits(input, cursor, plan)
    requires |tokens| == |Items(plan)| && plan != [] && plan[0].action.Keep?
    ensures input[start..plan[0].entity.end]
            + Splice(input, plan[0].entity.end, plan[1..], Replacements(plan[1..], tokens))
            == input[start..cursor] + Splice(input, cursor, plan, Replacements(plan, tokens))
  {
    var e := plan[0].entity;
    GoodFromTail(input, cursor, plan);
    WalkStep(input, input[start..cursor], cursor, plan, tokens);
    KeptJoins(input, start, cursor, e, Splice(input, e.end, plan[1..], Replacements(plan[1..], tokens)));
  }

  /** Another span first: its literal, its replacement, and the weave of the rest. */
  lemma {:induction false} PutIsWoven(input: Text, start: nat, cursor: nat, plan: Plan, tokens: seq<Text>)
    requires GoodFrom(input, cursor, plan) && start <= cursor && Fits(input, cursor, plan)
    requires |tokens| == |Items(plan)| && plan != []
    ensures input[start..plan[0].entity.start] + Replacement(plan[0], tokens).0
            + Splice(input, plan[0].entity.end, plan[1..], Replacements(plan[1..], Replacement(plan[0], tokens).1))
            == input[start..cursor] + Splice(input, cursor, plan, Replacements(plan, tokens))
  {
    WalkStep(input, input[start..cursor], cursor, plan, tokens);
    SplitSlice(input, start, cursor, plan[0].entity.start);
  }

  lemma {:induction false} PutWeaves(input: Text, start: nat, plan: Plan, tokens: seq<Text>, rest: Text)
    requires GoodFrom(input, start, plan) && |tokens| == |Items(plan)|
    requires plan != [] && (plan[0].action.Pseudonymize? || plan[0].action.Redact?)
    requires |Replacement(plan[0], tokens).1| == |Items(plan[1..])| && GoodFrom(input, plan[0].entity.end, plan[1..])
    requires Weave(Pieces(input, plan[0].entity.end, plan[1..], Replacement(plan[0], tokens).1)) == "" + rest
    ensures Weave(Pieces(input, start, plan, tokens))
            == input[start..plan[0].entity.start] + Replacement(plan[0], tokens).0 + rest
  {
    assert "" + rest == rest;
  }

  /** The transformer's output is the weave of the pieces. */
  lemma {:induction false} SpliceIsWoven(input: Text, start: nat, cursor: nat, plan: Plan, tokens: seq<Text>)
    requires GoodFrom(input, start, plan) && GoodFrom(input, cursor, plan) && start <= cursor && !HasBlock(plan)
    requires |tokens| == |Items(plan)| && Fits(input, cursor, plan)
    ensures Weave(Pieces(input, start, plan, tokens))
            == input[start..cursor] + Splice(input, cursor, plan, Replacements(plan, tokens))
    decreases |plan|
  {
    if plan == [] {
      SplitSlice(input, start, cursor, |input|);
    } else {
      GoodFromTail(input, start, plan);
      GoodFromTail(input, cursor, plan);
      var e := plan[0].entity;
      var put := Replacement(plan[0], tokens);
      ReplacementsHead(plan, tokens);
      if plan[0].action.Keep? {
        SpliceIsWoven(input, start, e.end, plan[1..], tokens);
        KeptIsWoven(input, start, cursor, plan, tokens);
      } else {
        assert plan[0].action.Block? ==> HasBlock(plan);
        SpliceIsWoven(input, e.end, e.end, plan[1..], put.1);
        PutIsWoven(input, start, cursor, plan, tokens);
        assert input[e.end..e.end] == "";
        PutWeaves(input, start, plan, tokens, Splice(input, e.end, plan[1..], Replacements(plan[1..], put.1)));
      }
    }
  }

  lemma SliceOfSlice(s: Text, from: nat, to: nat, i: nat, j: nat)
    requires from <= to <= |s| && i <= j <= to - from
    ensures s[from..to][i..j] == s[from + i..from + j]
  {
    assert forall k :: 0 <= k < j - i ==> s[from..to][i..j][k] == s[from + i..from + j][k];
  }

  lemma {:induction false} OccursInWhole(input: Text, from: nat, to: nat, i: int)
    requires from <= to <= |input| && OccursAt(input[from..to], PREFIX, i)
    ensures OccursAt(input, PREFIX, from + i)
  {
    SliceOfSlice(input, from, to, i, i + 13);
  }

  lemma {:induction false} SliceOfClean(input: Text, from: nat, to: nat)
    requires from <= to <= |input| && !Contains(input, PREFIX)
    ensures !Contains(input[from..to], PREFIX)
  {
    forall i ensures !OccursAt(input[from..to], PREFIX, i) {
      if OccursAt(input[from..to], PREFIX, i) {
        OccursInWhole(input, from, to, i);
      }
    }
  }

  lemma {:induction false} PiecesAreWell(input: Text, start: nat, plan: Plan, tokens: seq<Text>)
    requires GoodFrom(input, start, plan) && |tokens| == |Items(plan)|
    requires !Contains(input, PREFIX)
    requires forall i :: 0 <= i < |tokens| ==> IsPlaceholder(tokens[i])
    ensures WellWoven(Pieces(input, start, plan, tokens))
    decreases |plan|
  {
    if plan == [] {
      SliceOfClean(input, start, |input|);
      assert input[start..] == input[start..|input|];
    } else {
      GoodFromTail(input, start, plan);
      if plan[0].action.Keep? {
        PiecesAreWell(input, start, plan[1..], tokens);
      } else {
        SliceOfClean(input, start, plan[0].entity.start);
        RedactedIsUnminted();
        PiecesAreWell(input, plan[0].entity.end, plan[1..], Replacement(plan[0], tokens).1);
      }
    }
  }

  /** The original values of the pseudonymized spans, in order. */
  function Values(plan: Plan): (r: seq<Text>)
    ensures |r| == |Items(plan)|
    ensures forall i :: 0 <= i < |r| ==> r[i] == Items(plan)[i].1
  {
    seq(|Items(plan)|, i requires 0 <= i < |Items(plan)| => Items(plan)[i].1)
  }

  /** Token `i` resolves to `values[i]`; the redaction marker does not resolve. */
  ghost predicate ResolvesTo(tokens: seq<Text>, values: seq<Text>, resolve: Text -> Option<Text>) {
    && resolve(REDACTED).None? && |tokens| == |values|
    && forall i :: 0 <= i < |tokens| ==> resolve(tokens[i]) == Some(values[i])
  }

  /** Swapping each token of the pieces for its resolution gives the pieces with
      the resolutions. */
  lemma {:induction false} AppliedPieces(input: Text, start: nat, plan: Plan, tokens: seq<Text>, values: seq<Text>,
                                         resolve: Text -> Option<Text>)
    requires GoodFrom(input, start, plan) && |tokens| == |Items(plan)| && ResolvesTo(tokens, values, resolve)
    ensures Applied(Pieces(input, start, plan, tokens), resolve) == Pieces(input, start, plan, values)
    decreases |plan|
  {
    if plan != [] {
      GoodFromTail(input, start, plan);
      if plan[0].action.Keep? {
        AppliedPieces(input, start, plan[1..], tokens, values, resolve);
      } else if plan[0].action.Pseudonymize? {
        ResolvesTail(tokens, values, resolve);
        AppliedPieces(input, plan[0].entity.end, plan[1..], tokens[1..], values[1..], resolve);
      } else {
        AppliedPieces(input, plan[0].entity.end, plan[1..], tokens, values, resolve);
      }
    }
  }

  lemma {:induction false} ResolvesTail(tokens: seq<Text>, values: seq<Text>, resolve: Text -> Option<Text>)
    requires ResolvesTo(tokens, values, resolve) && tokens != []
    ensures ResolvesTo(tokens[1..], values[1..], resolve)
  {
    assert forall i :: 0 <= i < |tokens[1..]| ==> tokens[1..][i] == tokens[i + 1] && values[1..][i] == values[i + 1];
  }

  /** What restore is to give back: redactions stay, everything else returns. */
  function Masked(plan: Plan): (r: seq<Text>)
    ensures |r| == |plan|
  {
    seq(|plan|, i requires 0 <= i < |plan| => if plan[i].action.Redact? then REDACTED else plan[i].entity.value)
  }

  lemma {:induction false} ReplacementsOfValues(plan: Plan)
    requires !HasBlock(plan)
    ensures Replacements(plan, Values(plan)) == Masked(plan)
    decreases |plan|
  {
    if plan != [] {
      BlockHeadTail(plan);
      ReplacementsOfValues(plan[1..]);
      assert plan[0].action.Block? ==> HasBlock(plan);
      if plan[0].action.Pseudonymize? {
        assert Values(plan)[1..] == Values(plan[1..]);
      } else {
        assert Values(plan) == Values(plan[1..]);
      }
      assert Masked(plan)[1..] == Masked(plan[1..]);
    }
  }

  /** Restoring a sanitized text, whatever the tokens resolve to: the result is
      the splice with the resolutions. */
  lemma {:induction false} RestoreSplices(input: Text, plan: Plan, tokens: seq<Text>, values: seq<Text>,
                                          resolve: Text -> Option<Text>, out: Text)
    requires GoodPlan(input, plan) && !HasBlock(plan) && Fits(input, 0, plan) && !Contains(input, PREFIX)
    requires |tokens| == |Items(plan)| && forall i :: 0 <= i < |tokens| ==> IsPlaceholder(tokens[i])
    requires ResolvesTo(tokens, values, resolve)
    requires Restores(Splice(input, 0, plan, Replacements(plan, tokens)), resolve, out)
    ensures out == Splice(input, 0, plan, Replacements(plan, values))
  {
    forall i | 0 <= i < |plan| ensures plan[i].entity.start <= plan[i].entity.end <= |input| {
      assert GoodSpan(input, plan[i].entity);
    }
    WovenSplice(input, plan, tokens);
    WovenSplice(input, plan, values);
    PiecesAreWell(input, 0, plan, tokens);
    RestoreWoven(Pieces(input, 0, plan, tokens), resolve, out);
    AppliedPieces(input, 0, plan, tokens, values, resolve);
  }

  lemma {:induction false} WovenSplice(input: Text, plan: Plan, tokens: seq<Text>)
    requires GoodFrom(input, 0, plan) && !HasBlock(plan) && Fits(input, 0, plan) && |tokens| == |Items(plan)|
    ensures Weave(Pieces(input, 0, plan, tokens)) == Splice(input, 0, plan, Replacements(plan, tokens))
  {
    SpliceIsWoven(input, 0, 0, plan, tokens);
    var s := Splice(input, 0, plan, Replacements(plan, tokens));
    assert input[0..0] == "" && "" + s == s;
  }

  /** Round trip for any vault: if the input does not contain the placeholder
      prefix and the tokens are placeholders that resolve to their values, then
      restoring the sanitized text gives back the input, with each redacted span
      (and nothing else) replaced by the redaction marker. */
  lemma {:induction false} RoundTripFor(input: Text, plan: Plan, tokens: seq<Text>, resolve: Text -> Option<Text>,
                                        out: Text)
    requires GoodPlan(input, plan) && !HasBlock(plan) && Fits(input, 0, plan) && !Contains(input, PREFIX)
    requires |tokens| == |Items(plan)| && forall i :: 0 <= i < |tokens| ==> IsPlaceholder(tokens[i])
    requires ResolvesTo(tokens, Values(plan), resolve)
    requires Restores(Splice(input, 0, plan, Replacements(plan, tokens)), resolve, out)
    ensures out == Splice(input, 0, plan, Masked(plan))
  {
    RestoreSplices(input, plan, tokens, Values(plan), resolve, out);
    ReplacementsOfValues(plan);
  }

  lemma ThreeSlices(s: Text, a: nat, b: nat, c: nat)
    requires a <= b <= c <= |s|
    ensures s[a..b] + s[b..c] + s[c..] == s[a..]
  {
  }

  /** Without redactions the masked text is the input itself. */
  lemma {:induction false} MaskedWithoutRedaction(input: Text, cursor: nat, plan: Plan)
    requires GoodFrom(input, cursor, plan) && Fits(input, cursor, plan)
    requires forall i :: 0 <= i < |plan| ==> !plan[i].action.Redact?
    ensures Splice(input, cursor, plan, Masked(plan)) == input[cursor..]
    decreases |plan|
  {
    if plan != [] {
      GoodFromTail(input, cursor, plan);
      MaskedWithoutRedaction(input, plan[0].entity.end, plan[1..]);
      assert Masked(plan)[1..] == Masked(plan[1..]);
      ThreeSlices(input, cursor, plan[0].entity.start, plan[0].entity.end);
    }
  }

  // ---- With the vault ----------------------------------------------------------

  /** A mapping answers an item: its kind and value under a minted token. */
  predicate Gives(m: Mapping, item: (Text, Text)) {
    m.kind == item.0 && m.original == item.1 && IsMinted(m.token)
  }

  lemma {:induction false} InsertGives(s: State, scope: Text, item: (Text, Text), now: Clock, entropy: Entropy,
                                       drawn: nat)
    requires Insert(s, scope, item.0, item.1, now, entropy, drawn).result.Ok?
    ensures Gives(Insert(s, scope, item.0, item.1, now, entropy, drawn).result.value, item)
  {
    var at := FindKey(s.mappings, scope, item.0, item.1);
    if !(at.Some? && IsMinted(s.mappings[at.value].mapping.token)) {
      MintGivesToken(item.0, CounterOf(s.counters, scope, item.0) + 1, entropy, drawn);
    }
  }

  ghost predicate GivesAll(ms: seq<Mapping>, items: seq<(Text, Text)>) {
    |ms| == |items| && forall i :: 0 <= i < |items| ==> Gives(ms[i], items[i])
  }

  lemma {:induction false} GivesNext(ms: seq<Mapping>, items: seq<(Text, Text)>, m: Mapping)
    requires items != [] && GivesAll(ms, items[..|items| - 1]) && Gives(m, items[|items| - 1])
    ensures GivesAll(ms + [m], items)
  {
    forall i | 0 <= i < |items| ensures Gives((ms + [m])[i], items[i]) {
      if i < |ms| { assert items[..|items| - 1][i] == items[i]; }
    }
  }

  lemma {:induction false} BatchGives(s: State, scope: Text, items: seq<(Text, Text)>, now: Clock, entropy: Entropy,
                                      drawn: nat)
    requires InsertMany(s, scope, items, now, entropy, drawn).result.Ok?
    ensures GivesAll(InsertMany(s, scope, items, now, entropy, drawn).result.value, items)
  {
    if items != [] {
      var last := items[|items| - 1];
      var front := InsertMany(s, scope, items[..|items| - 1], now, entropy, drawn);
      BatchGives(s, scope, items[..|items| - 1], now, entropy, drawn);
      InsertGives(front.state, scope, last, now, entropy, front.drawn);
      GivesNext(front.result.value, items,
                Insert(front.state, scope, last.0, last.1, now, entropy, front.drawn).result.value);
    }
  }

  /** The scope still holds a live record of each mapping. */
  ghost predicate StillHeld(s: State, scope: Text, ms: seq<Mapping>, ttl: Ttl, now: Clock) {
    forall i :: 0 <= i < |ms| ==> HeldLive(s, scope, ms[i], ttl, now)
  }

  ghost predicate HeldLive(s: State, scope: Text, m: Mapping, ttl: Ttl, now: Clock) {
    exists r :: r in s.mappings && r.scope == scope && r.mapping == m && !Expired(r, ttl, now)
  }

  /** No kind of the set equals an asked one ignoring case. */
  ghost predicate AllAlone(items: seq<(Text, Text)>, kinds: set<Text>) {
    forall i :: 0 <= i < |items| ==> Alone(items[i].0, kinds)
  }

  /** The sanitize-restore law. For any input without the placeholder prefix and
      any accepted plan: when the file at restore time is sound, still holds the
      mappings live, and no kind of the scope equals a pseudonymized one ignoring
      case, restore gives back the input with each redacted span replaced by the
      marker, and the input itself when nothing was redacted. */
  lemma {:induction false} RestoreUndoesSanitize(input: Text, plan: Plan, scope: Text, before: State, now: Clock,
                                                 entropy: Entropy, drawn: nat, later: State, ttl: Ttl,
                                                 restoreTime: Clock, out: Text)
    requires GoodPlan(input, plan) && !HasBlock(plan) && Fits(input, 0, plan) && !Contains(input, PREFIX)
    requires InsertMany(before, scope, Items(plan), now, entropy, drawn).result.Ok?
    requires Sound(later) && AllAlone(Items(plan), ScopeKinds(later.mappings, scope))
    requires StillHeld(later, scope, InsertMany(before, scope, Items(plan), now, entropy, drawn).result.value, ttl,
                       restoreTime)
    requires var tokens := TokensOf(InsertMany(before, scope, Items(plan), now, entropy, drawn).result.value);
             && |tokens| == |Items(plan)|
             && Restores(Splice(input, 0, plan, Replacements(plan, tokens)),
                         Originals(later.mappings, scope, ttl, restoreTime), out)
    ensures out == Splice(input, 0, plan, Masked(plan))
    ensures (forall i :: 0 <= i < |plan| ==> !plan[i].action.Redact?) ==> out == input
  {
    var ms := InsertMany(before, scope, Items(plan), now, entropy, drawn).result.value;
    var resolve := Originals(later.mappings, scope, ttl, restoreTime);
    BatchGives(before, scope, Items(plan), now, entropy, drawn);
    assert ResolvesTo(TokensOf(ms), Values(plan), resolve) by {
      RedactedUnresolved(later.mappings, scope, ttl, restoreTime);
      forall i | 0 <= i < |ms| ensures resolve(TokensOf(ms)[i]) == Some(Values(plan)[i]) {
        assert Gives(ms[i], Items(plan)[i]);
        HeldResolves(later, scope, ms[i], ttl, restoreTime);
      }
    }
    forall i | 0 <= i < |ms| ensures IsPlaceholder(TokensOf(ms)[i]) { assert Gives(ms[i], Items(plan)[i]); }
    RoundTripFor(input, plan, TokensOf(ms), resolve, out);
    WholeWithoutRedaction(input, plan);
  }

  lemma {:induction false} WholeWithoutRedaction(input: Text, plan: Plan)
    requires GoodPlan(input, plan) && Fits(input, 0, plan)
    ensures (forall i :: 0 <= i < |plan| ==> !plan[i].action.Redact?) ==> Splice(input, 0, plan, Masked(plan)) == input
  {
    if forall i :: 0 <= i < |plan| ==> !plan[i].action.Redact? {
      forall i | 0 <= i < |plan| ensures GoodSpan(input, plan[i].entity) {}
      MaskedWithoutRedaction(input, 0, plan);
      assert input[0..] == input;
    }
  }

  lemma {:induction false} HeldResolves(s: State, scope: Text, m: Mapping, ttl: Ttl, now: Clock)
    requires Sound(s) && Alone(m.kind, ScopeKinds(s.mappings, scope)) && HeldLive(s, scope, m, ttl, now)
             && IsMinted(m.token)
    ensures Originals(s.mappings, scope, ttl, now)(m.token) == Some(m.original)
  {
    var r :| r in s.mappings && r.scope == scope && r.mapping == m && !Expired(r, ttl, now);
    AnswerUnique(s, scope, m.token, ttl, now, r);
  }

  lemma {:induction false} RedactedUnresolved(ms: seq<Record>, scope: Text, ttl: Ttl, now: Clock)
    ensures Originals(ms, scope, ttl, now)(REDACTED).None?
  {
    RedactedIsUnminted();
    assert Lookup(ms, scope, REDACTED, ttl, now).None? by {
      assert forall r :: !Answers(r, scope, REDACTED, ttl, now);
    }
  }

  // ---- When the mappings are still held -------------------------------------------

  /** A reading at which no stamp from `since` on has outlived the lifetime; a reading
      below every stamp qualifies. */
  predicate InLife(ttl: Ttl, now: Clock, since: nat) {
    ttl.Some? && now.Some? ==> ttl.value > 0 && now.value < since + ttl.value
  }

  /** Stamped at `since` or later, or undated where that is allowed. */
  predicate StampedSince(r: Record, since: nat, undated: bool) {
    if r.createdAt.Some? then r.createdAt.value >= since else undated
  }

  /** The scope holds the mapping under such a record. */
  ghost predicate HeldSince(s: State, scope: Text, m: Mapping, since: nat, undated: bool) {
    exists r :: r in s.mappings && r.scope == scope && r.mapping == m && StampedSince(r, since, undated)
  }

  /** A call that cannot take such a mapping away: it leaves the scope alone, reads
      no clock past the lifetime and, when there are undated records, gives them no
      stamp before `since`. */
  predicate Spares(c: Call, scope: Text, since: nat, undated: bool) {
    && c.op != DeleteScope(scope) && InLife(c.ttl, c.now, since)
    && (undated && c.ttl.Some? && c.now.Some? ==> since <= c.now.value)
  }

  lemma {:induction false} HeldIsLive(s: State, scope: Text, m: Mapping, ttl: Ttl, now: Clock, since: nat,
                                      undated: bool)
    requires HeldSince(s, scope, m, since, undated) && InLife(ttl, now, since)
    ensures HeldLive(s, scope, m, ttl, now)
  {
    var r :| r in s.mappings && r.scope == scope && r.mapping == m && StampedSince(r, since, undated);
    assert !Expired(r, ttl, now);
  }

  lemma {:induction false} ReapKeepsHeld(s: State, scope: Text, m: Mapping, c: Call, since: nat, undated: bool)
    requires HeldSince(s, scope, m, since, undated) && Spares(c, scope, since, undated)
    ensures HeldSince(Reap(s, c.ttl, c.now), scope, m, since, undated)
  {
    var ttl, now := c.ttl, c.now;
    var r :| r in s.mappings && r.scope == scope && r.mapping == m && StampedSince(r, since, undated);
    if ttl.Some? && now.Some? {
      var i :| 0 <= i < |s.mappings| && s.mappings[i] == r;
      var x := Stamped(r, now.value);
      assert StampAll(s.mappings, now.value)[i] == x;
      assert !Expired(x, ttl, now) && x in Reap(s, ttl, now).mappings && StampedSince(x, since, undated);
    }
  }

  ghost predicate HasRecord(ms: seq<Record>, scope: Text, m: Mapping) {
    exists r :: r in ms && r.scope == scope && r.mapping == m
  }

  /** An insert leaves a record of what it returned and keeps all records whose
      tokens were minted. */
  lemma {:induction false} InsertHolds(s: State, scope: Text, kind: Text, original: Text, now: Clock, entropy: Entropy,
                                       drawn: nat)
    requires Insert(s, scope, kind, original, now, entropy, drawn).result.Ok?
    ensures var o := Insert(s, scope, kind, original, now, entropy, drawn);
            && HasRecord(o.state.mappings, scope, o.result.value)
            && (forall r :: r in s.mappings && IsMinted(r.mapping.token) ==> r in o.state.mappings)
  {
    var at := FindKey(s.mappings, scope, kind, original);
    var o := Insert(s, scope, kind, original, now, entropy, drawn);
    var i := if at.Some? then at.value else |s.mappings|;
    assert o.state.mappings[i] in o.state.mappings && o.state.mappings[i].mapping == o.result.value;
    forall r | r in s.mappings && IsMinted(r.mapping.token) ensures r in o.state.mappings {
      var k :| 0 <= k < |s.mappings| && s.mappings[k] == r;
      assert o.state.mappings[k] == r;
    }
  }

  /** The scope has a record of each mapping. */
  ghost predicate HoldsAll(ms: seq<Record>, scope: Text, given: seq<Mapping>) {
    forall i :: 0 <= i < |given| ==> HasRecord(ms, scope, given[i])
  }

  lemma {:induction false} StillHoldsAll(before: seq<Record>, after: seq<Record>, scope: Text, given: seq<Mapping>,
                                         m: Mapping)
    requires HoldsAll(before, scope, given) && forall i :: 0 <= i < |given| ==> IsMinted(given[i].token)
    requires forall r :: r in before && IsMinted(r.mapping.token) ==> r in after
    requires HasRecord(after, scope, m)
    ensures HoldsAll(after, scope, given + [m])
  {
    forall i | 0 <= i < |given| + 1 ensures HasRecord(after, scope, (given + [m])[i]) {
      if i < |given| {
        assert HasRecord(before, scope, given[i]);
        var r :| r in before && r.scope == scope && r.mapping == given[i];
        assert r in after;
      }
    }
  }

  /** A batch leaves a record of everything it returned, keeps all records whose
      tokens were minted, and keeps the file sound. */
  lemma {:induction false} BatchHolds(s: State, scope: Text, items: seq<(Text, Text)>, now: Clock, entropy: Entropy,
                                      drawn: nat)
    requires Sound(s) && InsertMany(s, scope, items, now, entropy, drawn).result.Ok?
    ensures var o := InsertMany(s, scope, items, now, entropy, drawn);
            && Sound(o.state) && HoldsAll(o.state.mappings, scope, o.result.value)
            && (forall r :: r in s.mappings && IsMinted(r.mapping.token) ==> r in o.state.mappings)
  {
    if items != [] {
      var last := items[|items| - 1];
      var front := InsertMany(s, scope, items[..|items| - 1], now, entropy, drawn);
      var o := Insert(front.state, scope, last.0, last.1, now, entropy, front.drawn);
      BatchHolds(s, scope, items[..|items| - 1], now, entropy, drawn);
      BatchGives(s, scope, items[..|items| - 1], now, entropy, drawn);
      InsertKeepsSound(front.state, scope, last.0, last.1, now, entropy, front.drawn);
      InsertHolds(front.state, scope, last.0, last.1, now, entropy, front.drawn);
      assert forall i :: 0 <= i < |front.result.value| ==> Gives(front.result.value[i], items[..|items| - 1][i]);
      StillHoldsAll(front.state.mappings, o.state.mappings, scope, front.result.value, o.result.value);
    }
  }

  lemma {:induction false} KeptStaysHeld(s: State, after: State, scope: Text, m: Mapping, since: nat, undated: bool)
    requires HeldSince(s, scope, m, since, undated) && IsMinted(m.token)
    requires forall r :: r in s.mappings && IsMinted(r.mapping.token) ==> r in after.mappings
    ensures HeldSince(after, scope, m, since, undated)
  {
    var r :| r in s.mappings && r.scope == scope && r.mapping == m && StampedSince(r, since, undated);
    assert r in after.mappings;
  }

  lemma {:induction false} OperationKeepsHeld(s: State, c: Call, scope: Text, m: Mapping, since: nat, undated: bool,
                                              entropy: Entropy, drawn: nat)
    requires Sound(s) && HeldSince(s, scope, m, since, undated) && IsMinted(m.token)
    requires Spares(c, scope, since, undated)
    ensures HeldSince(Perform(s, c, entropy, drawn).state, scope, m, since, undated)
  {
    var reaped := Reap(s, c.ttl, c.now);
    ReapKeepsHeld(s, scope, m, c, since, undated);
    ReapIsSound(s, c.ttl, c.now);
    match c.op
    case GetOrInsert(sc, kind, original) =>
      if Insert(reaped, sc, kind, original, c.now, entropy, drawn).result.Ok? {
        InsertHolds(reaped, sc, kind, original, c.now, entropy, drawn);
        KeptStaysHeld(reaped, Insert(reaped, sc, kind, original, c.now, entropy, drawn).state, scope, m, since,
                      undated);
      }
    case GetOrInsertMany(sc, items) =>
      if InsertMany(reaped, sc, items, c.now, entropy, drawn).result.Ok? {
        BatchHolds(reaped, sc, items, c.now, entropy, drawn);
        KeptStaysHeld(reaped, InsertMany(reaped, sc, items, c.now, entropy, drawn).state, scope, m, since, undated);
      }
    case Resolve(_, _) =>
    case ResolveMany(_, _) =>
    case DeleteScope(other) => DropOtherKeepsHeld(reaped, other, scope, m, since, undated);
    case Expire =>
  }

  lemma {:induction false} DropOtherKeepsHeld(s: State, other: Text, scope: Text, m: Mapping, since: nat, undated: bool)
    requires HeldSince(s, scope, m, since, undated) && other != scope
    ensures HeldSince(DropScope(s, other), scope, m, since, undated)
  {
    var r :| r in s.mappings && r.scope == scope && r.mapping == m && StampedSince(r, since, undated);
    assert r in DropScope(s, other).mappings;
  }

  lemma {:induction false} RunKeepsHeld(s: State, calls: seq<Call>, scope: Text, m: Mapping, since: nat,
                                        undated: bool, entropy: Entropy, drawn: nat)
    requires Sound(s) && HeldSince(s, scope, m, since, undated) && IsMinted(m.token)
    requires forall i :: 0 <= i < |calls| ==> Spares(calls[i], scope, since, undated)
    ensures HeldSince(Run(s, calls, entropy, drawn).state, scope, m, since, undated)
  {
    if calls != [] {
      var before := Run(s, calls[..|calls| - 1], entropy, drawn);
      RunKeepsHeld(s, calls[..|calls| - 1], scope, m, since, undated, entropy, drawn);
      ReachableIsSound(s, calls[..|calls| - 1], entropy, drawn);
      OperationKeepsHeld(before.state, calls[|calls| - 1], scope, m, since, undated, entropy, before.drawn);
    }
  }

  /** The records of the given mappings are stamped at `since` or later, or undated
      where that is allowed. */
  ghost predicate GivenSince(ms: seq<Record>, scope: Text, given: seq<Mapping>, since: nat, undated: bool) {
    forall r :: r in ms && r.scope == scope && r.mapping in given ==> StampedSince(r, since, undated)
  }

  /** The law over whole runs. Start from any sound file, sanitize, then let any
      instances do anything except deleting the scope; no reading of the clock,
      up to and including the restore, is past the lifetime of the stamps. While no
      other kind of the scope equals a pseudonymized one ignoring case, restore
      gives back the masked input. Without a lifetime every reading qualifies. */
  lemma {:induction false} RestoreAfterRun(start: State, input: Text, plan: Plan, scope: Text, now: Clock,
                                           entropy: Entropy, drawn: nat, since: nat, undated: bool, calls: seq<Call>,
                                           ttl: Ttl, restoreTime: Clock, out: Text)
    requires GoodPlan(input, plan) && !HasBlock(plan) && Fits(input, 0, plan) && !Contains(input, PREFIX)
    requires Sound(start) && InsertMany(start, scope, Items(plan), now, entropy, drawn).result.Ok?
    requires var o := InsertMany(start, scope, Items(plan), now, entropy, drawn);
             GivenSince(o.state.mappings, scope, o.result.value, since, undated)
    requires forall i :: 0 <= i < |calls| ==> Spares(calls[i], scope, since, undated)
    requires InLife(ttl, restoreTime, since)
    requires var o := InsertMany(start, scope, Items(plan), now, entropy, drawn);
             var later := Run(o.state, calls, entropy, o.drawn).state;
             var tokens := TokensOf(o.result.value);
             && AllAlone(Items(plan), ScopeKinds(later.mappings, scope))
             && |tokens| == |Items(plan)|
             && Restores(Splice(input, 0, plan, Replacements(plan, tokens)),
                         Originals(later.mappings, scope, ttl, restoreTime), out)
    ensures out == Splice(input, 0, plan, Masked(plan))
    ensures (forall i :: 0 <= i < |plan| ==> !plan[i].action.Redact?) ==> out == input
  {
    var o := InsertMany(start, scope, Items(plan), now, entropy, drawn);
    var later := Run(o.state, calls, entropy, o.drawn).state;
    BatchHolds(start, scope, Items(plan), now, entropy, drawn);
    BatchGives(start, scope, Items(plan), now, entropy, drawn);
    ReachableIsSound(o.state, calls, entropy, o.drawn);
    forall i | 0 <= i < |o.result.value| ensures HeldLive(later, scope, o.result.value[i], ttl, restoreTime) {
      assert Gives(o.result.value[i], Items(plan)[i]);
      HeldAfterBatch(o.state, scope, o.result.value, i, since, undated);
      RunKeepsHeld(o.state, calls, scope, o.result.value[i], since, undated, entropy, o.drawn);
      HeldIsLive(later, scope, o.result.value[i], ttl, restoreTime, since, undated);
    }
    RestoreUndoesSanitize(input, plan, scope, start, now, entropy, drawn, later, ttl, restoreTime, out);
  }

  lemma {:induction false} HeldAfterBatch(s: State, scope: Text, given: seq<Mapping>, i: nat, since: nat, undated: bool)
    requires HoldsAll(s.mappings, scope, given) && GivenSince(s.mappings, scope, given, since, undated) && i < |given|
    ensures HeldSince(s, scope, given[i], since, undated)
  {
    assert HasRecord(s.mappings, scope, given[i]);
    var r :| r in s.mappings && r.scope == scope && r.mapping == given[i];
    assert r.mapping in given;
  }

  // ---- The sanitized text can be restored ---------------------------------------

  lemma {:induction false} JoinShaped(a: Text, b: Text)
    requires Utf8Shaped(a) && Utf8Shaped(b)
    ensures Utf8Shaped(a + b)
  {
  }

  lemma {:induction false} SliceShaped(s: Text, from: nat, to: nat)
    requires Utf8Shaped(s) && from <= to && IsBoundary(s, from) && IsBoundary(s, to)
    ensures Utf8Shaped(s[from..to])
  {
  }

  /** Splicing text between character boundaries gives text again, so what
      sanitize returns is an input restore accepts. */
  lemma {:induction false} SpliceShaped(input: Text, cursor: nat, plan: Plan, reps: seq<Text>)
    requires Utf8Shaped(input) && |reps| == |plan| && cursor <= |input| && Fits(input, cursor, plan)
    requires forall i :: 0 <= i < |reps| ==> Utf8Shaped(reps[i])
    ensures Utf8Shaped(Splice(input, cursor, plan, reps))
    decreases |plan|
  {
    if plan == [] {
      SliceShaped(input, cursor, |input|);
      assert input[cursor..] == input[cursor..|input|];
    } else {
      SpliceShaped(input, plan[0].entity.end, plan[1..], reps[1..]);
      SliceShaped(input, cursor, plan[0].entity.start);
      JoinShaped(input[cursor..plan[0].entity.start], reps[0]);
      JoinShaped(input[cursor..plan[0].entity.start] + reps[0],
                 Splice(input, plan[0].entity.end, plan[1..], reps[1..]));
    }
  }

  /** Placeholders are ASCII. */
  lemma {:induction false} PlaceholderShaped(token: Text)
    requires IsPlaceholder(token)
    ensures Utf8Shaped(token)
  {
    forall i | 0 <= i < |token| ensures !IsContinuation(token[i]) {
      if i < 13 {
        assert token[i] == token[..13][i] == PREFIX[i];
      } else if i >= |token| - 2 {
        assert token[i] == token[|token| - 2..][i - (|token| - 2)] == '_';
      } else {
        assert token[i] == Inner(token)[i - 13];
      }
    }
  }

  /** What sanitize returns is text again: each replacement is. */
  lemma {:induction false} SanitizedShaped(input: Text, plan: Plan, tokens: seq<Text>)
    requires Utf8Shaped(input) && GoodPlan(input, plan) && Fits(input, 0, plan) && |tokens| == |Items(plan)|
    requires forall i :: 0 <= i < |tokens| ==> IsPlaceholder(tokens[i])
    ensures Utf8Shaped(Splice(input, 0, plan, Replacements(plan, tokens)))
  {
    ReplacementsShaped(input, plan, tokens);
    SpliceShaped(input, 0, plan, Replacements(plan, tokens));
  }

  lemma {:induction false} ReplacementsShaped(input: Text, plan: Plan, tokens: seq<Text>)
    requires Utf8Shaped(input) && GoodPlan(input, plan) && |tokens| == |Items(plan)|
    requires forall i :: 0 <= i < |tokens| ==> IsPlaceholder(tokens[i])
    ensures forall i :: 0 <= i < |plan| ==> Utf8Shaped(Replacements(plan, tokens)[i])
    decreases |plan|
  {
    if plan != [] {
      GoodTail(input, plan);
      FirstShaped(input, plan, tokens);
      ReplacementsHead(plan, tokens);
      ReplacementsShaped(input, plan[1..], Replacement(plan[0], tokens).1);
      forall i | 0 < i < |plan| ensures Utf8Shaped(Replacements(plan, tokens)[i]) {
        assert Replacements(plan, tokens)[i] == Replacements(plan, tokens)[1..][i - 1];
      }
    }
  }

  lemma {:induction false} FirstShaped(input: Text, plan: Plan, tokens: seq<Text>)
    requires Utf8Shaped(input) && plan != [] && GoodSpan(input, plan[0].entity) && |tokens| == |Items(plan)|
    requires forall i :: 0 <= i < |tokens| ==> IsPlaceholder(tokens[i])
    ensures Utf8Shaped(Replacement(plan[0], tokens).0)
  {
    var e := plan[0].entity;
    SliceShaped(input, e.start, e.end);
    RedactedIsUnminted();
    PlaceholderShaped(REDACTED);
    if plan[0].action.Pseudonymize? {
      PlaceholderShaped(tokens[0]);
    }
  }

  // ---- The two calls in a row ------------------------------------------------------

  /** The kinds the plan pseudonymizes. */
  function ItemKinds(items: seq<(Text, Text)>): set<Text> { set item | item in items :: item.0 }

  /** The scope's records for the given items are undated or stamped at `since` or
      later. */
  ghost predicate AskedSince(ms: seq<Record>, scope: Text, items: seq<(Text, Text)>, since: nat) {
    forall r :: r in ms && r.scope == scope && (r.mapping.kind, r.mapping.original) in items ==>
      StampedSince(r, since, true)
  }

  /** A batch stamps with its reading and stores no other kinds than those stored
      before and asked for. */
  lemma {:induction false} BatchKeepsScope(s: State, scope: Text, items: seq<(Text, Text)>, now: Clock,
                                           entropy: Entropy, drawn: nat, asked: seq<(Text, Text)>, since: nat,
                                           kinds: set<Text>)
    requires AskedSince(s.mappings, scope, asked, since) && (now.Some? ==> since <= now.value)
    requires ScopeKinds(s.mappings, scope) <= kinds && forall i :: 0 <= i < |items| ==> items[i].0 in kinds
    ensures var ms := InsertMany(s, scope, items, now, entropy, drawn).state.mappings;
            AskedSince(ms, scope, asked, since) && ScopeKinds(ms, scope) <= kinds
  {
    if items != [] {
      var last, front := items[|items| - 1], InsertMany(s, scope, items[..|items| - 1], now, entropy, drawn);
      BatchKeepsScope(s, scope, items[..|items| - 1], now, entropy, drawn, asked, since, kinds);
      if front.result.Ok? {
        InsertKeepsScope(front.state, scope, last.0, last.1, now, entropy, front.drawn, asked, since, kinds);
      }
    }
  }

  lemma {:induction false} InsertKeepsScope(s: State, scope: Text, kind: Text, original: Text, now: Clock,
                                            entropy: Entropy, drawn: nat, asked: seq<(Text, Text)>, since: nat,
                                            kinds: set<Text>)
    requires AskedSince(s.mappings, scope, asked, since) && (now.Some? ==> since <= now.value)
    requires ScopeKinds(s.mappings, scope) <= kinds && kind in kinds
    ensures var ms := Insert(s, scope, kind, original, now, entropy, drawn).state.mappings;
            AskedSince(ms, scope, asked, since) && ScopeKinds(ms, scope) <= kinds
  {
    var ms := Insert(s, scope, kind, original, now, entropy, drawn).state.mappings;
    forall r | r in ms && r.scope == scope
      ensures r.mapping.kind in kinds
      ensures (r.mapping.kind, r.mapping.original) in asked ==> StampedSince(r, since, true) {
      var k :| 0 <= k < |ms| && ms[k] == r;
      if k < |s.mappings| {
        assert s.mappings[k] in s.mappings && s.mappings[k].scope == scope;
        assert s.mappings[k].mapping.kind in ScopeKinds(s.mappings, scope);
      }
    }
  }

  lemma {:induction false} AskedIsGiven(ms: seq<Record>, scope: Text, items: seq<(Text, Text)>, given: seq<Mapping>,
                                        since: nat)
    requires AskedSince(ms, scope, items, since) && GivesAll(given, items)
    ensures GivenSince(ms, scope, given, since, true)
  {
    forall r | r in ms && r.scope == scope && r.mapping in given ensures StampedSince(r, since, true) {
      var i :| 0 <= i < |given| && given[i] == r.mapping;
      assert Gives(given[i], items[i]) && items[i] in items;
    }
  }

  /** The file a sanitize works on. */
  function Base(before: State, ttl: Ttl, now: Clock, plan: Plan): State {
    if Items(plan) == [] then before else Reap(before, ttl, now)
  }

  /** What sanitize stored is the batch of the plan's items on the reaped file, and
      all of it is held and resolvable. */
  lemma {:induction false} StoredBatch(before: Disk, after: Disk, ttl: Ttl, scope: Text, plan: Plan, now: Clock,
                                       entropy: Entropy, drawn: nat, drawn': nat, tokens: seq<Text>, since: nat)
    requires StoredFor(before, after, ttl, scope, plan, now, entropy, drawn, drawn', tokens)
    requires Ready(before, ttl, scope, plan, now, since)
    ensures var o := InsertMany(Base(Load(before).value, ttl, now, plan), scope, Items(plan), now, entropy, drawn);
            && o.result.Ok? && tokens == TokensOf(o.result.value) && Load(after) == Ok(o.state) && Sound(o.state)
            && HoldsAll(o.state.mappings, scope, o.result.value)
            && GivenSince(o.state.mappings, scope, o.result.value, since, true)
            && AllAlone(Items(plan), ScopeKinds(o.state.mappings, scope))
  {
    var s := Base(Load(before).value, ttl, now, plan);
    assert TokensOf([]) == [];
    if Items(plan) != [] {
      ReapIsSound(Load(before).value, ttl, now);
      BatchIsHeld(s, scope, Items(plan), now, entropy, drawn, since);
    }
  }

  /** A successful batch on a sound file leaves its mappings held since `since` and
      their kinds alone, when the file's records and kinds let it. */
  lemma {:induction false} BatchIsHeld(s: State, scope: Text, items: seq<(Text, Text)>, now: Clock, entropy: Entropy,
                                       drawn: nat, since: nat)
    requires Sound(s) && AskedSince(s.mappings, scope, items, since) && (now.Some? ==> since <= now.value)
    requires AllAlone(items, ScopeKinds(s.mappings, scope) + ItemKinds(items))
    requires InsertMany(s, scope, items, now, entropy, drawn).result.Ok?
    ensures var o := InsertMany(s, scope, items, now, entropy, drawn);
            && Sound(o.state) && HoldsAll(o.state.mappings, scope, o.result.value)
            && GivenSince(o.state.mappings, scope, o.result.value, since, true)
            && AllAlone(items, ScopeKinds(o.state.mappings, scope))
  {
    var kinds := ScopeKinds(s.mappings, scope) + ItemKinds(items);
    var o := InsertMany(s, scope, items, now, entropy, drawn);
    assert forall i :: 0 <= i < |items| ==> items[i].0 in ItemKinds(items);
    BatchKeepsScope(s, scope, items, now, entropy, drawn, items, since, kinds);
    FewerAlone(items, ScopeKinds(o.state.mappings, scope), kinds);
    BatchHolds(s, scope, items, now, entropy, drawn);
    BatchGives(s, scope, items, now, entropy, drawn);
    AskedIsGiven(o.state.mappings, scope, items, o.result.value, since);
  }

  lemma {:induction false} FewerAlone(items: seq<(Text, Text)>, few: set<Text>, many: set<Text>)
    requires AllAlone(items, many) && few <= many
    ensures AllAlone(items, few)
  {
    forall i | 0 <= i < |items| ensures Alone(items[i].0, few) { assert Alone(items[i].0, many); }
  }

  /** The file and the reading a sanitize starts from. The file is sound; of what
      the reap leaves of the scope, the records for the plan's own items are
      stamped at `since` or later, as is the reading, and no other kind, stored or
      asked for, equals a pseudonymized one ignoring case. */
  ghost predicate Ready(before: Disk, ttl: Ttl, scope: Text, plan: Plan, now: Clock, since: nat) {
    && Load(before).Ok? && Sound(Load(before).value)
    && (now.Some? ==> since <= now.value)
    && var ms := Reap(Load(before).value, ttl, now).mappings;
    && AskedSince(ms, scope, Items(plan), since)
    && AllAlone(Items(plan), ScopeKinds(ms, scope) + ItemKinds(Items(plan)))
  }

  /** A successful sanitize: the accepted plan, its stored batch, and the text. */
  ghost predicate SanitizedAs(before: Disk, after: Disk, ttl: Ttl, scope: Text, input: Text, plan: Plan, now: Clock,
                              entropy: Entropy, drawn: nat, drawn': nat, tokens: seq<Text>, text: Text) {
    && GoodPlan(input, plan) && !HasBlock(plan) && Fits(input, 0, plan) && |tokens| == |Items(plan)|
    && StoredFor(before, after, ttl, scope, plan, now, entropy, drawn, drawn', tokens)
    && text == Splice(input, 0, plan, Replacements(plan, tokens))
  }

  /** Sanitize, then restore in the same scope, on one vault whose lifetime has not
      run out for stamps from `since` on: `accepted` says that sanitize succeeded;
      then so does restore, and it gives back the masked input. */
  method SanitizeThenRestore(pipeline: PrivacyPipeline, scope: Text, input: Text, detected: seq<Entity>, plan: Plan,
                             now: Clock, entropy: Entropy, drawn: nat, restoreTime: Clock, ghost since: nat)
    returns (accepted: bool, r: Result<Text, PipelineError>)
    requires Utf8Shaped(input) && !Contains(input, PREFIX)
    requires Ready(pipeline.vault.file.contents, pipeline.vault.ttl, scope, plan, now, since)
             && InLife(pipeline.vault.ttl, restoreTime, since)
    modifies pipeline.vault, pipeline.vault.file`contents, pipeline.vault.file`temporary
    ensures accepted <==> r.Ok?
    ensures r.Ok? ==> GoodPlan(input, plan) && Fits(input, 0, plan) && r.value == Splice(input, 0, plan, Masked(plan))
    ensures r.Ok? && (forall i :: 0 <= i < |plan| ==> !plan[i].action.Redact?) ==> r.value == input
  {
    ghost var before, ttl := pipeline.vault.file.contents, pipeline.vault.ttl;
    var sanitized, drawn'; ghost var tokens;
    sanitized, drawn', tokens := SanitizeNow(pipeline, scope, input, detected, plan, now, entropy, drawn);
    accepted := sanitized.Ok?;
    if !accepted { return false, Err(sanitized.error); }
    ghost var after, text := pipeline.vault.file.contents, sanitized.value;
    SanitizedIsText(before, after, ttl, scope, input, plan, now, entropy, drawn, drawn', tokens, text);
    r := pipeline.Restore(scope, sanitized.value, restoreTime, true);
    assert Restores(text, Originals(Load(after).value.mappings, scope, ttl, restoreTime), r.value);
    RestoredAtOnce(before, after, ttl, scope, input, plan, now, entropy, drawn, drawn', tokens, text, since,
                   restoreTime, r.value);
  }

  /** The sanitized text alone. */
  method SanitizeNow(pipeline: PrivacyPipeline, scope: Text, input: Text, detected: seq<Entity>, plan: Plan,
                     now: Clock, entropy: Entropy, drawn: nat)
    returns (r: Result<Text, PipelineError>, drawn': nat, ghost tokens: seq<Text>)
    requires Utf8Shaped(input)
    modifies pipeline.vault, pipeline.vault.file`contents, pipeline.vault.file`temporary
    ensures r.Ok? ==>
              SanitizedAs(old(pipeline.vault.file.contents), pipeline.vault.file.contents, pipeline.vault.ttl, scope,
                          input, plan, now, entropy, drawn, drawn', tokens, r.value)
  {
    var sanitized; ghost var entities;
    sanitized, drawn', entities, tokens := pipeline.Sanitize(scope, input, detected, plan, now, entropy, drawn, true);
    r := if sanitized.Ok? then Ok(sanitized.value.text) else Err(sanitized.error);
  }

  lemma {:induction false} SanitizedIsText(before: Disk, after: Disk, ttl: Ttl, scope: Text, input: Text, plan: Plan,
                                           now: Clock, entropy: Entropy, drawn: nat, drawn': nat, tokens: seq<Text>,
                                           text: Text)
    requires Utf8Shaped(input) && Load(before).Ok?
    requires SanitizedAs(before, after, ttl, scope, input, plan, now, entropy, drawn, drawn', tokens, text)
    ensures Utf8Shaped(text) && Load(after).Ok?
  {
    if Items(plan) != [] {
      TokensArePlaceholders(Reap(Load(before).value, ttl, now), scope, plan, now, entropy, drawn);
    }
    SanitizedShaped(input, plan, tokens);
  }

  /** Restoring from the file that sanitize left. */
  lemma {:induction false} RestoredAtOnce(before: Disk, after: Disk, ttl: Ttl, scope: Text, input: Text, plan: Plan,
                                          now: Clock, entropy: Entropy, drawn: nat, drawn': nat, tokens: seq<Text>,
                                          text: Text, since: nat, restoreTime: Clock, out: Text)
    requires SanitizedAs(before, after, ttl, scope, input, plan, now, entropy, drawn, drawn', tokens, text)
    requires Ready(before, ttl, scope, plan, now, since) && InLife(ttl, restoreTime, since) && !Contains(input, PREFIX)
    requires Load(after).Ok? && Restores(text, Originals(Load(after).value.mappings, scope, ttl, restoreTime), out)
    ensures out == Splice(input, 0, plan, Masked(plan))
    ensures (forall i :: 0 <= i < |plan| ==> !plan[i].action.Redact?) ==> out == input
  {
    var s := Base(Load(before).value, ttl, now, plan);
    var o := InsertMany(s, scope, Items(plan), now, entropy, drawn);
    StoredBatch(before, after, ttl, scope, plan, now, entropy, drawn, drawn', tokens, since);
    HeldAtOnce(o.state, scope, o.result.value, ttl, restoreTime, since);
    RestoreUndoesSanitize(input, plan, scope, s, now, entropy, drawn, o.state, ttl, restoreTime, out);
  }

  lemma {:induction false} HeldAtOnce(s: State, scope: Text, given: seq<Mapping>, ttl: Ttl, now: Clock, since: nat)
    requires HoldsAll(s.mappings, scope, given) && GivenSince(s.mappings, scope, given, since, true)
    requires InLife(ttl, now, since)
    ensures StillHeld(s, scope, given, ttl, now)
  {
    forall i | 0 <= i < |given| ensures HeldLive(s, scope, given[i], ttl, now) {
      HeldAfterBatch(s, scope, given, i, since, true);
      HeldIsLive(s, scope, given[i], ttl, now, since, true);
    }
  }

  lemma {:induction false} TokensArePlaceholders(s: State, scope: Text, plan: Plan, now: Clock, entropy: Entropy,
                                                 drawn: nat)
    requires InsertMany(s, scope, Items(plan), now, entropy, drawn).result.Ok?
    ensures var ms := InsertMany(s, scope, Items(plan), now, entropy, drawn).result.value;
            |ms| == |Items(plan)| && forall i :: 0 <= i < |ms| ==> IsPlaceholder(TokensOf(ms)[i])
  {
    BatchGives(s, scope, Items(plan), now, entropy, drawn);
    var ms := InsertMany(s, scope, Items(plan), now, entropy, drawn).result.value;
    forall i | 0 <= i < |ms| ensures IsPlaceholder(TokensOf(ms)[i]) { assert Gives(ms[i], Items(plan)[i]); }
  }
}
