/** What the checks and the splice come to, entity by entity: which lists are
    refused and why, what each span asks the vault for, and where its
    replacement stands (crates/privacy-core/src/lib.rs,
    crates/privacy-core/src/plan.rs, crates/plugin-api/src/secret.rs,
    crates/transformer-pseudonymize/src/lib.rs). */
module SpliceLayout {
  import opened Common
  import opened Placeholder
  import opened Spans
  import opened Transform
  import opened Pipeline

  /** An entity names the bytes of a non-empty stretch of whole characters. */
  ghost predicate NamesBytes(input: Text, e: Entity) {
    && e.start < e.end <= |input| && IsBoundary(input, e.start) && IsBoundary(input, e.end)
    && e.value == input[e.start..e.end]
  }

  /** Each refusal of an entity, with exactly the entities it is for. */
  lemma FaultSpelledOut(input: Text, e: Entity)
    ensures FaultOf(input, e) == Some(NotOnBoundary) <==> !(IsBoundary(input, e.start) && IsBoundary(input, e.end))
    ensures FaultOf(input, e) == Some(OutOfBounds)
            <==> IsBoundary(input, e.start) && IsBoundary(input, e.end) && e.end < e.start
    ensures FaultOf(input, e) == Some(EmptySpan)
            <==> IsBoundary(input, e.start) && IsBoundary(input, e.end) && e.end == e.start
    ensures FaultOf(input, e) == Some(ValueMismatch)
            <==> IsBoundary(input, e.start) && IsBoundary(input, e.end) && e.start < e.end
                 && input[e.start..e.end] != e.value
    ensures FaultOf(input, e) == Some(EmptyKind) <==> NamesBytes(input, e) && Blank(e.kind)
    ensures FaultOf(input, e) == Some(BadConfidence)
            <==> NamesBytes(input, e) && !Blank(e.kind)
                 && (e.confidence.NotFinite? || e.confidence.value < 0.0 || e.confidence.value > 1.0)
    ensures FaultOf(input, e).None?
            <==> NamesBytes(input, e) && !Blank(e.kind)
                 && e.confidence.Finite? && 0.0 <= e.confidence.value <= 1.0
  {
  }

  /** The kinds whose values must not be kept or mapped. */
  ghost predicate NamesSecret(kind: Text) {
    || Contains(kind, "key") || Contains(kind, "secret") || Contains(kind, "token")
    || Contains(kind, "password") || Contains(kind, "credential")
    || kind in {"card_cvv", "recovery_code", "jwt"}
  }

  /** The accepted plans, without the checks: one decision for each entity, about
      that entity, and secret kinds redacted or blocked. */
  lemma AcceptedSpelledOut(entities: seq<Entity>, plan: Plan)
    ensures Accepted(entities, plan)
            <==> |plan| == |entities|
                 && (forall i :: 0 <= i < |plan| ==>
                       && plan[i].entity.kind == entities[i].kind && plan[i].entity.value == entities[i].value
                       && plan[i].entity.start == entities[i].start && plan[i].entity.end == entities[i].end)
                 && forall i :: 0 <= i < |plan| && NamesSecret(entities[i].kind) ==>
                      plan[i].action == Redact || plan[i].action == Block
  {
    forall i | 0 <= i < |entities| ensures IsSecretKind(entities[i].kind) <==> NamesSecret(entities[i].kind) {
      SecretIffNamed(entities[i].kind);
    }
  }

  lemma SecretIffNamed(kind: Text)
    ensures IsSecretKind(kind) <==> NamesSecret(kind)
  {
    FoundIffContained(kind, "key");
    FoundIffContained(kind, "secret");
    FoundIffContained(kind, "token");
    FoundIffContained(kind, "password");
    FoundIffContained(kind, "credential");
  }

  lemma FoundIffContained(s: Text, pattern: Text)
    ensures Find(s, pattern, 0).Some? <==> Contains(s, pattern)
  {
  }

  // ---- Tokens ------------------------------------------------------------------

  /** How many of the first `k` spans are pseudonymized. */
  function Asked(plan: Plan, k: nat): nat
    requires k <= |plan|
  {
    if k == 0 then 0 else Asked(plan, k - 1) + if plan[k - 1].action.Pseudonymize? then 1 else 0
  }

  lemma {:induction false} AskedTail(plan: Plan, k: nat)
    requires 1 <= k <= |plan|
    ensures Asked(plan, k) == Asked(plan[1..], k - 1) + if plan[0].action.Pseudonymize? then 1 else 0
  {
    if k > 1 { AskedTail(plan, k - 1); }
  }

  lemma {:induction false} ItemCount(plan: Plan)
    ensures |Items(plan)| == Asked(plan, |plan|)
  {
    if plan != [] {
      ItemCount(plan[1..]);
      AskedTail(plan, |plan|);
    }
  }

  lemma {:induction false} AskedBelow(plan: Plan, k: nat, n: nat)
    requires k < n <= |plan| && plan[k].action.Pseudonymize?
    ensures Asked(plan, k) < Asked(plan, n)
    decreases n
  {
    if k + 1 < n { AskedBelow(plan, k, n - 1); }
  }

  /** The vault is asked for the kind and value of each pseudonymized span and of
      no other, in plan order. */
  lemma {:induction false} ItemOf(plan: Plan, k: nat)
    requires k < |plan| && plan[k].action == Pseudonymize
    ensures |Items(plan)| == Asked(plan, |plan|) && Asked(plan, k) < |Items(plan)|
    ensures Items(plan)[Asked(plan, k)] == (plan[k].entity.kind, plan[k].entity.value)
  {
    ItemCount(plan);
    AskedBelow(plan, k, |plan|);
    if k > 0 {
      ItemOf(plan[1..], k - 1);
      AskedTail(plan, k);
    }
  }

  /** What stands for span `k`: its value, the redaction marker, or the token for
      the pseudonymized span with its number. */
  ghost predicate StandsFor(p: Planned, tokens: seq<Text>, number: nat, replacement: Text) {
    match p.action
    case Keep => replacement == p.entity.value
    case Redact => replacement == "__DO_PRIVATE_REDACTED__"
    case Block => replacement == ""
    case Pseudonymize => number < |tokens| && replacement == tokens[number]
  }

  /** The replacement of span `k` is what stands for it. */
  lemma {:induction false} ReplacementOf(plan: Plan, tokens: seq<Text>, k: nat)
    requires k < |plan| && |tokens| == |Items(plan)|
    ensures StandsFor(plan[k], tokens, Asked(plan, k), Replacements(plan, tokens)[k])
  {
    if k > 0 {
      ReplacementsHead(plan, tokens);
      ReplacementOf(plan[1..], Replacement(plan[0], tokens).1, k - 1);
      AskedTail(plan, k);
    } else {
      ItemCount(plan);
    }
  }

  // ---- Places ------------------------------------------------------------------

  ghost predicate StandsAt(text: Text, at: int, piece: Text) {
    0 <= at && at + |piece| <= |text| && text[at..at + |piece|] == piece
  }

  lemma {:induction false} StandsBehind(front: Text, rest: Text, at: int, piece: Text)
    requires StandsAt(rest, at, piece)
    ensures StandsAt(front + rest, |front| + at, piece)
  {
  }

  /** Each replacement stands where its span stood, moved by what the earlier ones
      add. */
  lemma {:induction false} ReplacementStandsAt(input: Text, cursor: nat, plan: Plan, reps: seq<Text>, k: nat)
    requires |reps| == |plan| && cursor <= |input| && Fits(input, cursor, plan) && k < |plan|
    ensures StandsAt(Splice(input, cursor, plan, reps), plan[k].entity.start - cursor + Growth(plan, reps, k), reps[k])
    decreases k
  {
    var rest := Splice(input, plan[0].entity.end, plan[1..], reps[1..]);
    var gap := input[cursor..plan[0].entity.start];
    if k == 0 {
      assert Splice(input, cursor, plan, reps) == gap + reps[0] + rest;
    } else {
      ReplacementStandsAt(input, plan[0].entity.end, plan[1..], reps[1..], k - 1);
      GrowthTail(plan, reps, k);
      StandsBehind(gap + reps[0], rest, plan[k].entity.start - plan[0].entity.end + Growth(plan[1..], reps[1..], k - 1),
                   reps[k]);
    }
  }

  /** The output has the input's length and what the replacements add. */
  lemma {:induction false} SpliceLength(input: Text, cursor: nat, plan: Plan, reps: seq<Text>)
    requires |reps| == |plan| && cursor <= |input| && Fits(input, cursor, plan)
    ensures |Splice(input, cursor, plan, reps)| == |input| - cursor + Growth(plan, reps, |plan|)
    decreases |plan|
  {
    if plan != [] {
      SpliceLength(input, plan[0].entity.end, plan[1..], reps[1..]);
      GrowthTail(plan, reps, |plan|);
    }
  }
}
