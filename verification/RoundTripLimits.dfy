/** Where the sanitize-restore law ends: kinds that differ only in letter case
    (crates/plugin-api/src/placeholder.rs, crates/privacy-core/src/lib.rs). */
module RoundTripLimits {
  import opened Common
  import opened Placeholder
  import opened Sorting
  import opened Weaving
  import opened Spans
  import opened Vault
  import opened JsonState
  import opened VaultRuns
  import opened VaultBatches
  import opened Transform
  import opened Pipeline
  import opened RoundTrip

  // ---- What sanitize lets through ------------------------------------------------

  function EntitiesOf(plan: Plan): (es: seq<Entity>)
    ensures |es| == |plan| && forall i :: 0 <= i < |plan| ==> es[i] == plan[i].entity
  {
    seq(|plan|, i requires 0 <= i < |plan| => plan[i].entity)
  }

  lemma {:induction false} NameIsNotBlank(kind: Text)
    requires IsName(kind)
    ensures !Blank(kind)
  {
    StartsOff(kind, [0xC2, 0x85]);
    StartsOff(kind, [0xC2, 0xA0]);
    StartsOff(kind, [0xE1, 0x9A, 0x80]);
    StartsOff(kind, [0xE2, 0x81, 0x9F]);
    StartsOff(kind, [0xE3, 0x80, 0x80]);
    StartsOff(kind, [0xE2, 0x80]);
    assert WhiteWidth(kind, 0) == 0;
  }

  lemma StartsOff(s: Text, bytes: seq<int>)
    requires s != "" && bytes != [] && s[0] as int != bytes[0]
    ensures !Bytes(s, 0, bytes)
  {
    assert s[0 + 0] as int != bytes[0];
  }

  predicate Sure(c: Confidence) { c.Finite? && 0.0 <= c.value <= 1.0 }

  /** A plan that pseudonymizes good spans of valid kinds, none of them secret,
      passes every check before the transformer when exactly its spans are
      detected. */
  lemma {:induction false} PlanIsAdmissible(input: Text, plan: Plan)
    requires GoodPlan(input, plan)
    requires forall i :: 0 <= i < |plan| ==>
               && plan[i].action.Pseudonymize? && Sure(plan[i].entity.confidence)
               && IsName(plan[i].entity.kind) && !IsSecretKind(plan[i].entity.kind)
    ensures Admissible(input, EntitiesOf(plan), plan)
  {
    var es := EntitiesOf(plan);
    forall i | 0 <= i < |es| ensures FaultOf(input, es[i]).None? {
      assert GoodSpan(input, plan[i].entity);
      NameIsNotBlank(es[i].kind);
    }
    forall i, j | 0 <= i < j < |es| ensures !Overlap(es[i], es[j]) && !KeyLess(SpanKey(es[j]), SpanKey(es[i])) {
      assert GoodSpan(input, plan[i].entity) && plan[i].entity.end <= plan[j].entity.start;
    }
    DisjointIsResolved(es);
    assert Accepted(es, plan);
  }

  // ---- The exact condition ------------------------------------------------------

  /** A round trip: sanitize on a vault over the file, run `calls`, then restore. */
  datatype Trip = Trip(file: State, ttl: Ttl, now: Clock, scope: Text, input: Text, detected: seq<Entity>, plan: Plan,
                       entropy: Entropy, drawn: nat, calls: seq<Call>, restoreTtl: Ttl, restoreTime: Clock)

  function Batch(t: Trip): Outcome<seq<Mapping>> {
    InsertMany(Base(t.file, t.ttl, t.now, t.plan), t.scope, Items(t.plan), t.now, t.entropy, t.drawn)
  }

  /** The sanitized text is defined: the spans fit and the vault gave every token. */
  ghost predicate Spliced(t: Trip) {
    Fits(t.input, 0, t.plan) && Batch(t).result.Ok? && |TokensOf(Batch(t).result.value)| == |Items(t.plan)|
  }

  ghost function Sent(t: Trip): Text
    requires Spliced(t)
  {
    Splice(t.input, 0, t.plan, Replacements(t.plan, TokensOf(Batch(t).result.value)))
  }

  /** Sanitize succeeds: every check passes and no removed value is left. */
  ghost predicate Sanitizes(t: Trip) {
    Utf8Shaped(t.input) && Admissible(t.input, t.detected, t.plan) && Spliced(t) && ValuesGone(t.plan, Sent(t))
  }

  /** The mappings in the file when the text is restored. */
  function Later(t: Trip): seq<Record> {
    Run(Batch(t).state, t.calls, t.entropy, Batch(t).drawn).state.mappings
  }

  /** Until it is restored, nothing takes the sanitized text's mappings away. */
  ghost predicate StaysHeld(t: Trip, since: nat, undated: bool)
    requires Batch(t).result.Ok?
  {
    && GivenSince(Batch(t).state.mappings, t.scope, Batch(t).result.value, since, undated)
    && (forall i :: 0 <= i < |t.calls| ==> Spares(t.calls[i], t.scope, since, undated))
    && InLife(t.restoreTtl, t.restoreTime, since)
  }

  /** A trip the law is about: it starts from a sound file and a prefix-free input,
      sanitize accepts it, its mappings stay held, it pseudonymizes kinds out of
      `asked`, and its scope then holds kinds out of `kinds`. */
  ghost predicate Lawful(t: Trip, asked: set<Text>, kinds: set<Text>) {
    && Sound(t.file) && !Contains(t.input, PREFIX) && Sanitizes(t)
    && (exists since, undated :: StaysHeld(t, since, undated))
    && ItemKinds(Items(t.plan)) <= asked && ScopeKinds(Later(t), t.scope) <= kinds
  }

  /** Restoring its sanitized text gives back the masked input. */
  ghost predicate ComesBack(t: Trip)
    requires Spliced(t)
  {
    forall out :: Restores(Sent(t), Originals(Later(t), t.scope, t.restoreTtl, t.restoreTime), out) ==>
      out == Splice(t.input, 0, t.plan, Masked(t.plan))
  }

  /** What is pseudonymized is an entity of the plan under that action. */
  lemma {:induction false} ItemInPlan(plan: Plan, i: nat) returns (k: nat)
    requires i < |Items(plan)|
    ensures k < |plan| && plan[k].action.Pseudonymize?
    ensures Items(plan)[i] == (plan[k].entity.kind, plan[k].entity.value)
    decreases |plan|
  {
    if plan[0].action.Pseudonymize? && i == 0 {
      k := 0;
    } else {
      k := ItemInPlan(plan[1..], if plan[0].action.Pseudonymize? then i - 1 else i);
      k := k + 1;
    }
  }

  /** Sanitize never pseudonymizes a secret kind. */
  lemma {:induction false} NoSecretAsked(input: Text, detected: seq<Entity>, plan: Plan)
    requires Admissible(input, detected, plan)
    ensures forall i :: 0 <= i < |Items(plan)| ==> !IsSecretKind(Items(plan)[i].0)
  {
    var es :| Resolved(detected, es) && Accepted(es, plan);
    forall i | 0 <= i < |Items(plan)| ensures !IsSecretKind(Items(plan)[i].0) {
      var k := ItemInPlan(plan, i);
      assert Decides(plan[k], es[k]);
    }
  }

  lemma {:induction false} AdmissibleIsGood(input: Text, detected: seq<Entity>, plan: Plan)
    requires Utf8Shaped(input) && Admissible(input, detected, plan)
    ensures GoodPlan(input, plan) && !HasBlock(plan)
  {
    var es :| Resolved(detected, es) && Accepted(es, plan);
    KeptAreReported(detected, es);
    ResolvedIsDisjoint(detected, es);
    AcceptedIsGood(input, es, plan);
  }

  /** The condition: no kind that sanitize may pseudonymize equals another kind of
      the scope ignoring case. */
  ghost predicate ToldApart(asked: set<Text>, kinds: set<Text>) {
    forall a :: a in asked ==> IsSecretKind(a) || Alone(a, kinds)
  }

  lemma {:induction false} AloneComesBack(t: Trip, asked: set<Text>, kinds: set<Text>)
    requires Lawful(t, asked, kinds) && ToldApart(asked, kinds)
    ensures ComesBack(t)
  {
    var since, undated :| StaysHeld(t, since, undated);
    AdmissibleIsGood(t.input, t.detected, t.plan);
    NoSecretAsked(t.input, t.detected, t.plan);
    ReapIsSound(t.file, t.ttl, t.now);
    var start := Base(t.file, t.ttl, t.now, t.plan);
    forall i | 0 <= i < |Items(t.plan)| ensures Alone(Items(t.plan)[i].0, ScopeKinds(Later(t), t.scope)) {
      assert Items(t.plan)[i].0 in ItemKinds(Items(t.plan));
    }
    forall out | Restores(Sent(t), Originals(Later(t), t.scope, t.restoreTtl, t.restoreTime), out)
      ensures out == Splice(t.input, 0, t.plan, Masked(t.plan))
    {
      RestoreAfterRun(start, t.input, t.plan, t.scope, t.now, t.entropy, t.drawn, since, undated, t.calls,
                      t.restoreTtl, t.restoreTime, out);
    }
  }

  // ---- The failing trip -----------------------------------------------------------

  /** The whole input is one span to pseudonymize. */
  function OneSpan(a: Text, x: Text, c: Confidence): Plan { [Planned(Entity(a, 0, |x|, x, c), Pseudonymize)] }

  lemma {:induction false} OneReplacement(p: Planned, t: Text)
    requires p.action.Pseudonymize?
    ensures |Items([p])| == 1 && Replacements([p], [t]) == [t]
  {
    assert [p][1..] == [] && Items([p]) == [(p.entity.kind, p.entity.value)] + Items([]);
    assert [t][1..] == [] && Replacements([p], [t]) == [t] + Replacements([], []);
  }

  lemma {:induction false} OneSpliced(input: Text, p: Planned, t: Text)
    requires Fits(input, p.entity.start, [p]) && p.entity.start <= p.entity.end == |input|
    ensures Splice(input, p.entity.start, [p], [t]) == t
  {
    assert [p][1..] == [] && [t][1..] == [];
    assert input[p.entity.start..p.entity.start] == "" && input[p.entity.end..] == "";
    assert "" + t + "" == t;
  }

  lemma {:induction false} OneSpanIsGood(a: Text, x: Text, c: Confidence)
    requires x != "" && Utf8Shaped(x)
    ensures GoodPlan(x, OneSpan(a, x, c)) && Fits(x, 0, OneSpan(a, x, c)) && !HasBlock(OneSpan(a, x, c))
    ensures Items(OneSpan(a, x, c)) == [(a, x)]
  {
    assert OneSpan(a, x, c)[1..] == [];
    assert x[0..|x|] == x;
    GoodPlanFits(x, 0, OneSpan(a, x, c));
  }

  /** Its splice is the replacement. */
  lemma {:induction false} OneSpanSpliced(a: Text, x: Text, c: Confidence, t: Text)
    requires x != "" && Utf8Shaped(x)
    ensures Fits(x, 0, OneSpan(a, x, c)) && |Items(OneSpan(a, x, c))| == 1
    ensures Replacements(OneSpan(a, x, c), [t]) == [t]
    ensures Splice(x, 0, OneSpan(a, x, c), [t]) == t
  {
    OneSpanIsGood(a, x, c);
    OneReplacement(OneSpan(a, x, c)[0], t);
    OneSpliced(x, OneSpan(a, x, c)[0], t);
  }

  /** Two records under one token. */
  function TwoRecords(scope: Text, a: Text, b: Text, x: Text, y: Text, now: nat, token: Text): seq<Record> {
    [Record(scope, Mapping(b, y, token), Some(now)), Record(scope, Mapping(a, x, token), Some(now))]
  }

  /** The scope holds `y` under kind `b`; `x`, the whole input, is pseudonymized under
      kind `a`, gets the same token, and is restored at once. */
  ghost predicate Crosses(t: Trip, a: Text, b: Text, x: Text, y: Text, now: nat, token: Text) {
    && t.input == x && x != "" && Utf8Shaped(x) && !Contains(x, PREFIX)
    && Sound(t.file) && Batch(t).result == Ok([Mapping(a, x, token)])
    && t.calls == [] && Batch(t).state.mappings == Later(t) == TwoRecords(t.scope, a, b, x, y, now, token)
    && t.restoreTime == Some(now) && (t.restoreTtl.Some? ==> t.restoreTtl.value >= 1)
  }

  lemma {:induction false} CrossingBatch(scope: Text, a: Text, b: Text, x: Text, y: Text, c: Confidence, now: nat,
                                         entropy: Entropy, ttl: Ttl) returns (t: Trip)
    requires IsName(a) && IsName(b) && a != b && UpperKind(a) == UpperKind(b)
    requires x != "" && Utf8Shaped(x) && !Contains(x, PREFIX)
    requires entropy(0).Some? && entropy(0) == entropy(1) && (ttl.Some? ==> ttl.value >= 1)
    ensures t == Trip(Insert(EMPTY, scope, b, y, Some(now), entropy, 0).state, ttl, Some(now), scope, x,
                      EntitiesOf(OneSpan(a, x, c)), OneSpan(a, x, c), entropy, 1, [], ttl, Some(now))
    ensures Crosses(t, a, b, x, y, now, Token(b, 1, entropy(0).value))
  {
    var file := Insert(EMPTY, scope, b, y, Some(now), entropy, 0).state;
    t := Trip(file, ttl, Some(now), scope, x, EntitiesOf(OneSpan(a, x, c)), OneSpan(a, x, c), entropy, 1, [], ttl,
              Some(now));
    OneSpanIsGood(a, x, c);
    TwoInserts(scope, b, a, y, x, now, entropy);
    EmptyIsSound();
    InsertKeepsSound(EMPTY, scope, b, y, Some(now), entropy, 0);
    FreshIsReaped(file, ttl, now);
    OneItem(file, scope, (a, x), ttl, Some(now), entropy, 1);
  }

  /** A file of fresh records has nothing to reap. */
  lemma {:induction false} FreshIsReaped(s: State, ttl: Ttl, now: nat)
    requires ttl.Some? ==> ttl.value >= 1
    requires forall i :: 0 <= i < |s.mappings| ==> s.mappings[i].createdAt == Some(now)
    ensures Reap(s, ttl, Some(now)) == s
  {
    ReapOfReaped(s, ttl, Some(now));
  }

  /** The sanitized text is the token. */
  lemma {:induction false} CrossingSent(t: Trip, a: Text, b: Text, x: Text, y: Text, c: Confidence, now: nat,
                                        token: Text)
    requires Crosses(t, a, b, x, y, now, token) && t.plan == OneSpan(a, x, c)
    ensures Spliced(t) && Sent(t) == token
  {
    OneSpanSpliced(a, x, c, token);
    assert TokensOf([Mapping(a, x, token)]) == [token];
  }

  /** The token resolves to the text stored first. */
  lemma {:induction false} FirstResolves(scope: Text, a: Text, b: Text, x: Text, y: Text, now: nat, token: Text,
                                         ttl: Ttl)
    requires IsMinted(token) && (ttl.Some? ==> ttl.value >= 1)
    ensures ResolvesTo([token], [y], Originals(TwoRecords(scope, a, b, x, y, now, token), scope, ttl, Some(now)))
  {
    var ms := TwoRecords(scope, a, b, x, y, now, token);
    assert Answers(ms[0], scope, token, ttl, Some(now));
    HeadAnswers(ms, scope, token, ttl, Some(now));
    RedactedUnresolved(ms, scope, ttl, Some(now));
  }

  /** Restoring the one token gives what it resolves to, and nothing else. */
  lemma {:induction false} RestoredAs(a: Text, x: Text, y: Text, c: Confidence, token: Text,
                                      resolve: Text -> Option<Text>)
    requires x != "" && Utf8Shaped(x) && !Contains(x, PREFIX) && IsPlaceholder(token)
    requires ResolvesTo([token], [y], resolve)
    ensures forall out :: Restores(token, resolve, out) <==> out == y
  {
    OneSpanIsGood(a, x, c);
    OneSpanSpliced(a, x, c, token);
    OneSpanSpliced(a, x, c, y);
    var found := SpliceRestores(x, OneSpan(a, x, c), [token], resolve);
    forall out | Restores(token, resolve, out) ensures out == y {
      RestoreSplices(x, OneSpan(a, x, c), [token], [y], resolve, out);
    }
  }

  /** Restore gives the other text, and nothing else. */
  lemma {:induction false} CrossingIsLost(t: Trip, a: Text, b: Text, x: Text, y: Text, c: Confidence, now: nat,
                                          token: Text)
    requires Crosses(t, a, b, x, y, now, token) && t.plan == OneSpan(a, x, c) && IsMinted(token)
    ensures Spliced(t)
    ensures forall out :: Restores(Sent(t), Originals(Later(t), t.scope, t.restoreTtl, Some(now)), out) <==> out == y
    ensures x != y ==> !ComesBack(t)
  {
    CrossingSent(t, a, b, x, y, c, now, token);
    FirstResolves(t.scope, a, b, x, y, now, token, t.restoreTtl);
    RestoredAs(a, x, y, c, token, Originals(Later(t), t.scope, t.restoreTtl, Some(now)));
    assert Splice(x, 0, t.plan, Masked(t.plan)) == x by {
      assert Masked(t.plan) == [x];
      OneSpanSpliced(a, x, c, x);
    }
    assert Restores(Sent(t), Originals(Later(t), t.scope, t.restoreTtl, Some(now)), y);
  }

  /** Sanitize accepts it. */
  lemma {:induction false} CrossingSanitizes(t: Trip, a: Text, b: Text, x: Text, y: Text, c: Confidence, now: nat,
                                             token: Text)
    requires Crosses(t, a, b, x, y, now, token) && t.plan == OneSpan(a, x, c) && t.detected == EntitiesOf(t.plan)
    requires IsName(a) && !IsSecretKind(a) && Sure(c) && !Contains(token, x)
    ensures Sanitizes(t) && ItemKinds(Items(t.plan)) == {a}
  {
    OneSpanIsGood(a, x, c);
    PlanIsAdmissible(x, OneSpan(a, x, c));
    CrossingSent(t, a, b, x, y, c, now, token);
    assert ValuesGone(t.plan, token);
  }

  lemma {:induction false} CrossingIsLawful(t: Trip, a: Text, b: Text, x: Text, y: Text, c: Confidence, now: nat,
                                            token: Text)
    requires Crosses(t, a, b, x, y, now, token) && t.plan == OneSpan(a, x, c) && t.detected == EntitiesOf(t.plan)
    requires IsName(a) && !IsSecretKind(a) && Sure(c) && !Contains(token, x)
    ensures Lawful(t, {a}, {a, b})
  {
    CrossingSanitizes(t, a, b, x, y, c, now, token);
    assert StaysHeld(t, now, false);
  }

  /** The round trip needs kinds told apart: for any kind that is not secret, any
      other kind equal to it ignoring case, and any two texts, when the scope holds
      the second text under the second kind and the draws coincide, sanitize accepts
      the first text, gives it the same token, and restore returns the second text
      for it. */
  lemma {:induction false} CollisionBreaksRestore(scope: Text, a: Text, b: Text, x: Text, y: Text, c: Confidence,
                                                  now: nat, entropy: Entropy, ttl: Ttl) returns (t: Trip)
    requires IsName(a) && IsName(b) && a != b && UpperKind(a) == UpperKind(b) && !IsSecretKind(a) && Sure(c)
    requires x != "" && x != y && Utf8Shaped(x) && !Contains(x, PREFIX)
    requires entropy(0).Some? && entropy(0) == entropy(1) && (ttl.Some? ==> ttl.value >= 1)
    requires !Contains(Token(b, 1, entropy(0).value), x)
    ensures t == Trip(Insert(EMPTY, scope, b, y, Some(now), entropy, 0).state, ttl, Some(now), scope, x,
                      EntitiesOf(OneSpan(a, x, c)), OneSpan(a, x, c), entropy, 1, [], ttl, Some(now))
    ensures Lawful(t, {a}, {a, b}) && !ComesBack(t)
    ensures forall out :: Restores(Sent(t), Originals(Later(t), scope, ttl, Some(now)), out) <==> out == y
  {
    var token := Token(b, 1, entropy(0).value);
    t := CrossingBatch(scope, a, b, x, y, c, now, entropy, ttl);
    MintParsesBack(b, 1, entropy(0).value);
    CrossingIsLawful(t, a, b, x, y, c, now, token);
    CrossingIsLost(t, a, b, x, y, c, now, token);
  }

  /** No first token of a kind holds an "x". */
  lemma {:induction false} NoLetter(b: Text)
    ensures !Contains(Token(b, 1, 0), "x")
  {
    assert 'x' !in PREFIX && 'x' !in DELIMITER && 'x' !in UpperKind(b) && 'x' !in TokenInner(b, 1, 0);
    assert 'x' !in Token(b, 1, 0);
    forall i { LetterIsIn(Token(b, 1, 0), 'x', i); }
  }

  lemma LetterIsIn(s: Text, c: char, i: int)
    ensures OccursAt(s, [c], i) ==> c in s
  {
    if OccursAt(s, [c], i) { assert s[i..i + 1][0] == s[i]; }
  }

  lemma NoPrefixInLetter(x: Text)
    requires |x| == 1 && (x[0] as int) < 0x80
    ensures Utf8Shaped(x) && !Contains(x, PREFIX)
  {
  }

  /** A sanitized text can be restored, whatever its tokens resolve to. */
  lemma {:induction false} SpliceRestores(input: Text, plan: Plan, tokens: seq<Text>, resolve: Text -> Option<Text>)
    returns (out: Text)
    requires GoodPlan(input, plan) && !HasBlock(plan) && Fits(input, 0, plan) && !Contains(input, PREFIX)
    requires |tokens| == |Items(plan)| && forall i :: 0 <= i < |tokens| ==> IsPlaceholder(tokens[i])
    ensures Restores(Splice(input, 0, plan, Replacements(plan, tokens)), resolve, out)
  {
    forall i | 0 <= i < |plan| ensures plan[i].entity.start <= plan[i].entity.end <= |input| {
      assert GoodSpan(input, plan[i].entity);
    }
    WovenSplice(input, plan, tokens);
    PiecesAreWell(input, 0, plan, tokens);
    out := WovenRestores(Pieces(input, 0, plan, tokens), resolve);
  }

  // ---- The law and its condition ---------------------------------------------------

  /** For any valid kinds: every trip that sanitize accepts, pseudonymizes kinds out
      of `asked` and leaves kinds out of `kinds` in the scope comes back, if and
      only if no asked kind that is not secret equals another of the kinds ignoring
      case. */
  lemma {:induction false} LawIffToldApart(asked: set<Text>, kinds: set<Text>)
    requires asked <= kinds && forall k :: k in kinds ==> IsName(k)
    ensures (forall t: Trip :: Lawful(t, asked, kinds) ==> ComesBack(t)) <==> ToldApart(asked, kinds)
  {
    if ToldApart(asked, kinds) {
      forall t: Trip | Lawful(t, asked, kinds) ensures ComesBack(t) { AloneComesBack(t, asked, kinds); }
    } else {
      var t := LostTrip(asked, kinds);
    }
  }

  lemma {:induction false} LostTrip(asked: set<Text>, kinds: set<Text>) returns (t: Trip)
    requires asked <= kinds && (forall k :: k in kinds ==> IsName(k)) && !ToldApart(asked, kinds)
    ensures Lawful(t, asked, kinds) && !ComesBack(t)
  {
    var a :| a in asked && !IsSecretKind(a) && !Alone(a, kinds);
    var b :| b in kinds && UpperKind(b) == UpperKind(a) && b != a;
    t := LetterTrip(a, b);
    MoreKinds(t, {a}, {a, b}, asked, kinds);
  }

  lemma {:induction false} LetterTrip(a: Text, b: Text) returns (t: Trip)
    requires IsName(a) && IsName(b) && a != b && UpperKind(a) == UpperKind(b) && !IsSecretKind(a)
    ensures Lawful(t, {a}, {a, b}) && !ComesBack(t)
  {
    NoLetter(b);
    NoPrefixInLetter("x");
    t := CollisionBreaksRestore("", a, b, "x", "y", Finite(1.0), 0, _ => Some(0), None);
  }

  lemma {:induction false} MoreKinds(t: Trip, few: set<Text>, some: set<Text>, asked: set<Text>, kinds: set<Text>)
    requires Lawful(t, few, some) && few <= asked && some <= kinds
    ensures Lawful(t, asked, kinds)
  {
  }

  /** With one set for both: the law holds if and only if kinds that are equal
      ignoring case are the same or both secret. */
  lemma {:induction false} LawIffKindsApart(kinds: set<Text>)
    requires forall k :: k in kinds ==> IsName(k)
    ensures (forall t: Trip :: Lawful(t, kinds, kinds) ==> ComesBack(t))
            <==> forall a, b :: a in kinds && b in kinds && UpperKind(a) == UpperKind(b) ==>
                   a == b || (IsSecretKind(a) && IsSecretKind(b))
  {
    LawIffToldApart(kinds, kinds);
  }
}
