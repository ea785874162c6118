/** Validation, sanitize and restore (crates/privacy-core/src/lib.rs,
    crates/privacy-core/src/plan.rs, crates/plugin-api/src/secret.rs). The
    detector's and the policy's answers are parameters. */
module Pipeline {
  import opened Common
  import opened Placeholder
  import opened Scanner
  import opened Weaving
  import opened Sorting
  import opened Spans
  import opened Vault
  import opened JsonState
  import opened JsonVaults
  import opened Transform

  datatype SpanFault = NotOnBoundary | OutOfBounds | EmptySpan | ValueMismatch | EmptyKind | BadConfidence

  datatype PipelineError =
    | BadSpan(fault: SpanFault)
    | PlanLength
    | PlanMismatch
    | SecretKept
    | InputBlocked
    | TransformFailed(error: TransformError)
    | ValueSurvives
    | RestoreFailed(vaultError: VaultError)
    | AuditFailed

  datatype Summary = Summary(kind: Text, start: nat, end: nat, confidence: Confidence)

  datatype Sanitized = Sanitized(text: Text, entities: seq<Summary>)

  predicate Bytes(s: Text, i: nat, bytes: seq<int>) {
    i + |bytes| <= |s| && forall k :: 0 <= k < |bytes| ==> s[i + k] as int == bytes[k]
  }

  /** The number of bytes of the Unicode white-space character at `i`, 0 when there
      is another one. */
  function WhiteWidth(s: Text, i: nat): (w: nat)
    requires i < |s|
    ensures i + w <= |s|
  {
    var b := s[i] as int;
    if 9 <= b <= 13 || b == 32 then 1
    else if Bytes(s, i, [0xC2, 0x85]) || Bytes(s, i, [0xC2, 0xA0]) then 2
    else if Bytes(s, i, [0xE1, 0x9A, 0x80]) || Bytes(s, i, [0xE2, 0x81, 0x9F]) || Bytes(s, i, [0xE3, 0x80, 0x80]) then 3
    else if Bytes(s, i, [0xE2, 0x80]) && i + 2 < |s|
            && (0x80 <= s[i + 2] as int <= 0x8A || s[i + 2] as int in {0xA8, 0xA9, 0xAF}) then 3
    else 0
  }

  /** Only white space from `i` on. */
  predicate BlankFrom(s: Text, i: nat)
    requires i <= |s|
    decreases |s| - i
  {
    i == |s| || (WhiteWidth(s, i) > 0 && BlankFrom(s, i + WhiteWidth(s, i)))
  }

  /** `kind.trim().is_empty()`. */
  predicate Blank(kind: Text) { BlankFrom(kind, 0) }

  /** The first check an entity fails, in checking order. */
  function FaultOf(input: Text, e: Entity): Option<SpanFault> {
    if !IsBoundary(input, e.start) || !IsBoundary(input, e.end) then Some(NotOnBoundary)
    else if e.end > |input| || e.start > e.end then Some(OutOfBounds)
    else if e.start == e.end then Some(EmptySpan)
    else if input[e.start..e.end] != e.value then Some(ValueMismatch)
    else if Blank(e.kind) then Some(EmptyKind)
    else if !(e.confidence.Finite? && 0.0 <= e.confidence.value <= 1.0) then Some(BadConfidence)
    else None
  }

  /** The out-of-bounds error is for spans whose end precedes their start and for
      no others: an offset past the end is never a character boundary, and that
      is checked first. */
  lemma OutOfBoundsMeansReversed(input: Text, e: Entity)
    ensures FaultOf(input, e) == Some(OutOfBounds)
            <==> IsBoundary(input, e.start) && IsBoundary(input, e.end) && e.end < e.start
  {
  }

  /** Non-empty, in bounds, on character boundaries, and naming the bytes there. */
  predicate GoodSpan(input: Text, e: Entity) {
    && IsBoundary(input, e.start) && IsBoundary(input, e.end)
    && e.start < e.end
    && input[e.start..e.end] == e.value
  }

  predicate NoFault(input: Text, es: seq<Entity>) {
    forall i :: 0 <= i < |es| ==> FaultOf(input, es[i]).None?
  }

  /** The first faulty entity, and the first check it fails. */
  ghost predicate FirstSpanFault(input: Text, es: seq<Entity>, error: PipelineError) {
    exists i :: 0 <= i < |es| && FaultOf(input, es[i]).Some? && error == BadSpan(FaultOf(input, es[i]).value)
                && NoFault(input, es[..i])
  }

  method ValidateSpans(input: Text, entities: seq<Entity>) returns (r: Result<seq<Entity>, PipelineError>)
    ensures r.Ok? <==> NoFault(input, entities)
    ensures r.Ok? ==> Resolved(entities, r.value)
    ensures r.Ok? ==> Disjoint(r.value) && forall i :: 0 <= i < |r.value| ==> GoodSpan(input, r.value[i])
    ensures r.Err? ==> FirstSpanFault(input, entities, r.error)
  {
    for i := 0 to |entities|
      invariant NoFault(input, entities[..i])
    {
      var fault := FaultOf(input, entities[i]);
      if fault.Some? {
        return Err(BadSpan(fault.value));
      }
      assert entities[..i + 1] == entities[..i] + [entities[i]];
    }
    assert entities[..|entities|] == entities;
    var resolved := ResolveOverlaps(entities);
    KeptAreReported(entities, resolved);
    r := Ok(resolved);
  }

  lemma {:induction false} KeptAreReported(es: seq<Entity>, out: seq<Entity>)
    requires Resolved(es, out)
    ensures forall i :: 0 <= i < |out| ==> out[i] in es
  {
    var kept :| Selects(es, kept, out);
  }

  /** `is_secret_kind`. */
  predicate IsSecretKind(kind: Text) {
    || Find(kind, "key", 0).Some? || Find(kind, "secret", 0).Some? || Find(kind, "token", 0).Some?
    || Find(kind, "password", 0).Some? || Find(kind, "credential", 0).Some?
    || kind == "card_cvv" || kind == "recovery_code" || kind == "jwt"
  }

  predicate Decides(p: Planned, e: Entity) {
    p.entity.kind == e.kind && p.entity.start == e.start && p.entity.end == e.end && p.entity.value == e.value
  }

  /** The first check a decision fails. */
  function PlanFaultOf(p: Planned, e: Entity): Option<PipelineError> {
    if !Decides(p, e) then Some(PlanMismatch)
    else if IsSecretKind(e.kind) && !(p.action.Redact? || p.action.Block?) then Some(SecretKept)
    else None
  }

  /** One decision per entity, about the same kind, span and value, and secret
      kinds redacted or blocked. */
  predicate Accepted(entities: seq<Entity>, plan: Plan) {
    && |plan| == |entities|
    && forall i :: 0 <= i < |plan| ==>
         Decides(plan[i], entities[i])
         && (IsSecretKind(entities[i].kind) ==> plan[i].action.Redact? || plan[i].action.Block?)
  }

  /** The wrong length, or the first faulty decision with its first failing check. */
  ghost predicate FirstPlanFault(entities: seq<Entity>, plan: Plan, error: PipelineError) {
    if |plan| != |entities| then error == PlanLength
    else exists i :: 0 <= i < |plan| && PlanFaultOf(plan[i], entities[i]) == Some(error)
                     && Accepted(entities[..i], plan[..i])
  }

  method ValidatePlan(entities: seq<Entity>, plan: Plan) returns (r: Result<(), PipelineError>)
    ensures r.Ok? <==> Accepted(entities, plan)
    ensures r.Err? ==> FirstPlanFault(entities, plan, r.error) && r.error in {PlanLength, PlanMismatch, SecretKept}
  {
    if |plan| != |entities| {
      return Err(PlanLength);
    }
    for i := 0 to |plan|
      invariant Accepted(entities[..i], plan[..i])
    {
      if !Decides(plan[i], entities[i]) {
        assert PlanFaultOf(plan[i], entities[i]) == Some(PlanMismatch);
        return Err(PlanMismatch);
      }
      if IsSecretKind(entities[i].kind) && !(plan[i].action.Redact? || plan[i].action.Block?) {
        assert PlanFaultOf(plan[i], entities[i]) == Some(SecretKept);
        return Err(SecretKept);
      }
      AcceptedNext(entities, plan, i);
    }
    assert entities[..|plan|] == entities && plan[..|plan|] == plan;
    r := Ok(());
  }

  lemma AcceptedNext(entities: seq<Entity>, plan: Plan, n: nat)
    requires n < |plan| == |entities| && Accepted(entities[..n], plan[..n]) && PlanFaultOf(plan[n], entities[n]).None?
    ensures Accepted(entities[..n + 1], plan[..n + 1])
  {
    assert plan[..n + 1] == plan[..n] + [plan[n]] && entities[..n + 1] == entities[..n] + [entities[n]];
  }

  // ---- Splice safety ----------------------------------------------------------

  /** A plan validation accepts for a text: disjoint good spans in order. */
  ghost predicate GoodPlan(input: Text, plan: Plan) {
    && (forall i :: 0 <= i < |plan| ==> GoodSpan(input, plan[i].entity))
    && forall i, j :: 0 <= i < j < |plan| ==> plan[i].entity.end <= plan[j].entity.start
  }

  lemma {:induction false} AcceptedIsGood(input: Text, entities: seq<Entity>, plan: Plan)
    requires Accepted(entities, plan) && Disjoint(entities)
    requires forall i :: 0 <= i < |entities| ==> GoodSpan(input, entities[i])
    ensures GoodPlan(input, plan)
  {
    forall i, j | 0 <= i < j < |plan| ensures plan[i].entity.end <= plan[j].entity.start {
      assert !Overlap(entities[i], entities[j]) && !KeyLess(SpanKey(entities[j]), SpanKey(entities[i]));
    }
  }

  lemma {:induction false} GoodPlanFits(input: Text, cursor: nat, plan: Plan)
    requires GoodPlan(input, plan) && IsBoundary(input, cursor)
    requires plan != [] ==> cursor <= plan[0].entity.start
    ensures Fits(input, cursor, plan)
    decreases |plan|
  {
    if plan != [] {
      GoodTail(input, plan);
      GoodPlanFits(input, plan[0].entity.end, plan[1..]);
    }
  }

  /** After validation the transformer's sort changes nothing and the spans fit,
      so its overlap and boundary errors cannot occur. */
  lemma {:induction false} ValidatedPlanSplices(input: Text, entities: seq<Entity>, plan: Plan, ordered: Plan,
                                                perm: seq<nat>)
    requires Accepted(entities, plan) && Disjoint(entities) && Utf8Shaped(input)
    requires forall i :: 0 <= i < |entities| ==> GoodSpan(input, entities[i])
    requires StablySorted(plan, PlanKey, ordered, perm)
    ensures ordered == plan && GoodPlan(input, plan) && Fits(input, 0, plan)
  {
    AcceptedIsGood(input, entities, plan);
    forall i, j | 0 <= i < j < |plan| ensures !KeyLess(PlanKey(plan[j]), PlanKey(plan[i])) {
      assert GoodSpan(input, plan[i].entity);
    }
    SortedIsFixed(plan, PlanKey, ordered, perm);
    GoodPlanFits(input, 0, plan);
  }

  /** Total number of bytes the replacements of the first `k` spans add. */
  function Growth(plan: Plan, reps: seq<Text>, k: nat): int
    requires k <= |plan| == |reps|
  {
    if k == 0 then 0
    else Growth(plan, reps, k - 1) + |reps[k - 1]| - (plan[k - 1].entity.end - plan[k - 1].entity.start)
  }

  lemma {:induction false} GrowthTail(plan: Plan, reps: seq<Text>, k: nat)
    requires 1 <= k <= |plan| == |reps|
    ensures Growth(plan, reps, k)
            == |reps[0]| - (plan[0].entity.end - plan[0].entity.start) + Growth(plan[1..], reps[1..], k - 1)
  {
    if k > 1 { GrowthTail(plan, reps, k - 1); }
  }

  /** Offset `b` lies behind the first `k` spans and before the others. */
  predicate Between(input: Text, cursor: nat, plan: Plan, k: nat, b: nat)
    requires k <= |plan|
  {
    (if k == 0 then cursor else plan[k - 1].entity.end) <= b < (if k < |plan| then plan[k].entity.start else |input|)
  }

  /** Every byte outside the planned spans survives, moved by exactly what the
      replacements in front of it add. */
  lemma {:induction false} OutsideBytesSurvive(input: Text, cursor: nat, plan: Plan, reps: seq<Text>, k: nat, b: nat,
                                               at: int)
    requires |reps| == |plan| && cursor <= |input| && Fits(input, cursor, plan)
    requires k <= |plan| && Between(input, cursor, plan, k, b) && b < |input|
    requires at == b - cursor + Growth(plan, reps, k)
    ensures 0 <= at < |Splice(input, cursor, plan, reps)| && Splice(input, cursor, plan, reps)[at] == input[b]
    decreases k
  {
    if k == 0 {
      FirstByte(input, cursor, plan, reps, b);
    } else {
      GrowthTail(plan, reps, k);
      var i := b - plan[0].entity.end + Growth(plan[1..], reps[1..], k - 1);
      OutsideBytesSurvive(input, plan[0].entity.end, plan[1..], reps[1..], k - 1, b, i);
      LaterByte(input, cursor, plan, reps, i, at);
    }
  }

  lemma {:induction false} FirstByte(input: Text, cursor: nat, plan: Plan, reps: seq<Text>, b: nat)
    requires |reps| == |plan| && cursor <= |input| && Fits(input, cursor, plan)
    requires Between(input, cursor, plan, 0, b)
    ensures b - cursor < |Splice(input, cursor, plan, reps)|
            && Splice(input, cursor, plan, reps)[b - cursor] == input[b]
  {
  }

  /** A byte behind the first span, seen from the start of the splice. */
  lemma {:induction false} LaterByte(input: Text, cursor: nat, plan: Plan, reps: seq<Text>, i: int, at: int)
    requires |reps| == |plan| && cursor <= |input| && Fits(input, cursor, plan) && plan != []
    requires 0 <= i < |Splice(input, plan[0].entity.end, plan[1..], reps[1..])|
    requires at == plan[0].entity.start - cursor + |reps[0]| + i
    ensures 0 <= at < |Splice(input, cursor, plan, reps)|
    ensures Splice(input, cursor, plan, reps)[at] == Splice(input, plan[0].entity.end, plan[1..], reps[1..])[i]
  {
  }

  lemma {:induction false} GoodTail(input: Text, plan: Plan)
    requires GoodPlan(input, plan) && plan != []
    ensures GoodPlan(input, plan[1..]) && GoodSpan(input, plan[0].entity)
    ensures forall i :: 0 < i < |plan| ==> plan[1..][i - 1] == plan[i]
    ensures |plan| > 1 ==> plan[0].entity.end <= plan[1..][0].entity.start
  {
  }

  // ---- The pipeline --------------------------------------------------------------

  /** An action that promises the value is gone from the output. */
  predicate Removes(a: Action) { a.Pseudonymize? || a.Redact? || a.Block? }

  /** No value is left of an entity the plan does not keep. */
  ghost predicate ValuesGone(plan: Plan, text: Text) {
    forall i :: 0 <= i < |plan| && !plan[i].action.Keep? ==> !Contains(text, plan[i].entity.value)
  }

  method ValidateText(plan: Plan, text: Text) returns (ok: bool)
    ensures ok <==> forall i :: 0 <= i < |plan| && !plan[i].action.Keep? ==> !Contains(text, plan[i].entity.value)
    ensures !ok <==> exists i :: 0 <= i < |plan| && !plan[i].action.Keep? && Contains(text, plan[i].entity.value)
  {
    for i := 0 to |plan|
      invariant forall j :: 0 <= j < i && !plan[j].action.Keep? ==> !Contains(text, plan[j].entity.value)
    {
      if Removes(plan[i].action) && Find(text, plan[i].entity.value, 0).Some? {
        return false;
      }
    }
    ok := true;
  }

  function Summaries(es: seq<Entity>): (r: seq<Summary>)
    ensures |r| == |es|
  {
    seq(|es|, i requires 0 <= i < |es| => Summary(es[i].kind, es[i].start, es[i].end, es[i].confidence))
  }

  /** The last check, the audit event, and what the caller gets. */
  method HandOut(plan: Plan, text: Text, entities: seq<Entity>, recorded: bool)
    returns (r: Result<Sanitized, PipelineError>)
    ensures r.Ok? <==> recorded && ValuesGone(plan, text)
    ensures r.Ok? ==> r.value.text == text && |r.value.entities| == |entities|
    ensures r.Ok? ==>
              forall i :: 0 <= i < |entities| ==>
                && r.value.entities[i].kind == entities[i].kind
                && r.value.entities[i].start == entities[i].start && r.value.entities[i].end == entities[i].end
                && r.value.entities[i].confidence == entities[i].confidence
    ensures r.Err? ==> r.error == if ValuesGone(plan, text) then AuditFailed else ValueSurvives
  {
    var gone := ValidateText(plan, text);
    if !gone {
      r := Err(ValueSurvives);
    } else if !recorded {
      r := Err(AuditFailed);
    } else {
      r := Ok(Sanitized(text, Summaries(entities)));
    }
  }

  /** The vault's answers as a function from tokens to originals. */
  function Originals(ms: seq<Record>, scope: Text, ttl: Ttl, now: Clock): Text -> Option<Text> {
    (token: Text) =>
      var found := Lookup(ms, scope, token, ttl, now);
      if found.Some? then Some(found.value.original) else None
  }

  /** What the checks before the transformer ask for. */
  ghost predicate Admissible(input: Text, detected: seq<Entity>, plan: Plan) {
    NoFault(input, detected) && !HasBlock(plan) && exists es :: Resolved(detected, es) && Accepted(es, plan)
  }

  /** Why those checks refuse, in checking order. */
  ghost predicate Refused(input: Text, detected: seq<Entity>, plan: Plan, error: PipelineError) {
    if !NoFault(input, detected) then FirstSpanFault(input, detected, error)
    else exists es :: Resolved(detected, es) &&
           if Accepted(es, plan) then HasBlock(plan) && error == InputBlocked else FirstPlanFault(es, plan, error)
  }

  lemma {:induction false} RefusedIsNotAdmissible(input: Text, detected: seq<Entity>, plan: Plan, error: PipelineError)
    requires Refused(input, detected, plan, error)
    ensures !Admissible(input, detected, plan)
  {
    if Admissible(input, detected, plan) {
      var es :| Resolved(detected, es) &&
        if Accepted(es, plan) then HasBlock(plan) && error == InputBlocked else FirstPlanFault(es, plan, error);
      var fs :| Resolved(detected, fs) && Accepted(fs, plan);
      ResolvedUnique(detected, es, fs);
    }
  }

  /** Everything that is checked before the transformer runs. */
  method Validate(input: Text, detected: seq<Entity>, plan: Plan) returns (r: Result<seq<Entity>, PipelineError>)
    requires Utf8Shaped(input)
    ensures r.Ok? <==> Admissible(input, detected, plan)
    ensures r.Ok? ==> Resolved(detected, r.value) && Accepted(r.value, plan) && Spliceable(input, plan)
    ensures r.Err? ==> Refused(input, detected, plan, r.error)
    ensures r.Err? ==> r.error.BadSpan? || r.error in {PlanLength, PlanMismatch, SecretKept, InputBlocked}
  {
    r := ValidateSpans(input, detected);
    if r.Err? {
      return;
    }
    var accepted := ValidatePlan(r.value, plan);
    if accepted.Err? {
      assert Refused(input, detected, plan, accepted.error);
      RefusedIsNotAdmissible(input, detected, plan, accepted.error);
      return Err(accepted.error);
    }
    if HasBlock(plan) {
      return Err(InputBlocked);
    }
    GoodIsSpliceable(input, r.value, plan);
  }

  lemma {:induction false} GoodIsSpliceable(input: Text, entities: seq<Entity>, plan: Plan)
    requires Accepted(entities, plan) && Disjoint(entities) && Utf8Shaped(input)
    requires forall i :: 0 <= i < |entities| ==> GoodSpan(input, entities[i])
    ensures Spliceable(input, plan)
  {
    forall ordered, perm | StablySorted(plan, PlanKey, ordered, perm) ensures ordered == plan {
      ValidatedPlanSplices(input, entities, plan, ordered, perm);
    }
    AcceptedIsGood(input, entities, plan);
    GoodPlanFits(input, 0, plan);
  }

  /** The transformer's sort leaves the plan alone and its spans fit. */
  ghost predicate Spliceable(input: Text, plan: Plan) {
    && GoodPlan(input, plan) && Fits(input, 0, plan)
    && forall ordered, perm :: StablySorted(plan, PlanKey, ordered, perm) ==> ordered == plan
  }

  /** What sanitize leaves in the vault file: the batch of the plan, unless it was
      refused before that or the vault failed. */
  ghost predicate Stored(admissible: bool, r: Result<Sanitized, PipelineError>, before: Disk, after: Disk, ttl: Ttl,
                         scope: Text, plan: Plan, now: Clock, entropy: Entropy, drawn: nat, drawn': nat,
                         tokens: seq<Text>) {
    if admissible && !(r.Err? && r.error.TransformFailed?)
    then StoredFor(before, after, ttl, scope, plan, now, entropy, drawn, drawn', tokens)
    else after == before
  }

  class PrivacyPipeline {
    const vault: JsonVault

    constructor (vault: JsonVault)
      ensures this.vault == vault
    {
      this.vault := vault;
    }

    /** Detect, validate, transform and check. `detected` is the detector's
        output, `plan` the policy's answer for the validated entities, and
        `recorded` whether the audit sink accepts the event. */
    method Sanitize(scope: Text, input: Text, detected: seq<Entity>, plan: Plan, now: Clock, entropy: Entropy,
                    drawn: nat, recorded: bool)
      returns (r: Result<Sanitized, PipelineError>, drawn': nat, ghost entities: seq<Entity>, ghost tokens: seq<Text>)
      requires Utf8Shaped(input)
      modifies vault, vault.file`contents, vault.file`temporary
      ensures r.Ok? ==>
                && recorded && Admissible(input, detected, plan)
                && Resolved(detected, entities) && Accepted(entities, plan)
                && GoodPlan(input, plan) && !HasBlock(plan) && Fits(input, 0, plan)
                && |r.value.entities| == |entities|
                && (forall i :: 0 <= i < |entities| ==>
                      && r.value.entities[i].kind == entities[i].kind
                      && r.value.entities[i].start == entities[i].start && r.value.entities[i].end == entities[i].end
                      && r.value.entities[i].confidence == entities[i].confidence)
                && |tokens| == |Items(plan)|
                && r.value.text == Splice(input, 0, plan, Replacements(plan, tokens))
                && forall i :: 0 <= i < |plan| && !plan[i].action.Keep? ==>
                     !Contains(r.value.text, plan[i].entity.value)
      ensures Stored(Admissible(input, detected, plan), r, old(vault.file.contents), vault.file.contents, vault.ttl,
                     scope, plan, now, entropy, drawn, drawn', tokens)
      ensures r.Err? ==>
                match r.error
                case TransformFailed(error) =>
                  && Admissible(input, detected, plan) && error.VaultFailed?
                  && VaultFailure(old(vault.file.contents), vault.ttl, scope, plan, now, entropy, drawn,
                                  vault.file.accepts, error.error)
                case ValueSurvives =>
                  && Admissible(input, detected, plan) && Fits(input, 0, plan) && |tokens| == |Items(plan)|
                  && exists i :: 0 <= i < |plan| && !plan[i].action.Keep?
                                 && Contains(Splice(input, 0, plan, Replacements(plan, tokens)), plan[i].entity.value)
                case AuditFailed =>
                  && !recorded
                  && (Refused(input, detected, plan, InputBlocked)
                      || (Admissible(input, detected, plan) && Fits(input, 0, plan) && |tokens| == |Items(plan)|
                          && ValuesGone(plan, Splice(input, 0, plan, Replacements(plan, tokens)))))
                case error => Refused(input, detected, plan, error)
    {
      drawn', entities, tokens := drawn, [], [];
      var validated := Validate(input, detected, plan);
      if validated.Err? {
        r := Err(if validated.error.InputBlocked? && !recorded then AuditFailed else validated.error);
        return;
      }
      entities := validated.value;
      var transformed; ghost var ordered;
      transformed, drawn', ordered, tokens := RunTransform(input, plan, scope, vault, now, entropy, drawn);
      assert ordered == plan;
      if transformed.Err? {
        r := Err(TransformFailed(transformed.error));
        return;
      }
      r := HandOut(plan, transformed.value, validated.value, recorded);
    }

    /** Scan, look all tokens up in one snapshot, and replace backwards in place. */
    method Restore(scope: Text, input: Text, now: Clock, recorded: bool) returns (r: Result<Text, PipelineError>)
      requires Utf8Shaped(input)
      ensures Load(vault.file.contents).Err? ==> r == Err(RestoreFailed(Unreadable))
      ensures Load(vault.file.contents).Ok? ==> r.Ok? == recorded
      ensures r.Ok? ==>
                && Load(vault.file.contents).Ok?
                && Restores(input, Originals(Load(vault.file.contents).value.mappings, scope, vault.ttl, now), r.value)
    {
      var positions := Scan(input);
      CoverInOrder(input, positions);
      var tokens := seq(|positions|, i requires 0 <= i < |positions| => input[positions[i].start..positions[i].end]);
      var resolved := vault.ResolveMany(scope, tokens, now);
      if resolved.Err? {
        return Err(RestoreFailed(resolved.error));
      }
      var found := resolved.value;
      var decisions := seq(|found|, i requires 0 <= i < |found| =>
                                      if found[i].Some? then Some(found[i].value.original) else None);
      var output := ReplaceAll(input, positions, decisions);
      ghost var resolve := Originals(Load(vault.file.contents).value.mappings, scope, vault.ttl, now);
      assert decisions == Decide(input, positions, resolve);
      assert RestoresAt(input, positions, resolve, output);
      r := if recorded then Ok(output) else Err(AuditFailed);
    }

    /** Delete every mapping of a scope. */
    method Forget(scope: Text, now: Clock, recorded: bool) returns (r: Result<(), PipelineError>)
      modifies vault, vault.file`contents, vault.file`temporary
      ensures r.Ok? ==> recorded
      ensures r.Ok? || r.error.AuditFailed? ==>
                && Load(old(vault.file.contents)).Ok?
                && vault.file.contents
                   == Holds(DropScope(Reap(Load(old(vault.file.contents)).value, vault.ttl, now), scope))
      ensures r.Err? ==>
                match r.error
                case AuditFailed => !recorded
                case RestoreFailed(WriteFailed) =>
                  !vault.file.accepts && vault.file.contents == old(vault.file.contents)
                case error =>
                  && error == RestoreFailed(Unreadable) && Load(old(vault.file.contents)).Err?
                  && vault.file.contents == old(vault.file.contents)
    {
      var deleted := vault.DeleteScope(scope, now);
      if deleted.Err? {
        return Err(RestoreFailed(deleted.error));
      }
      r := if recorded then Ok(()) else Err(AuditFailed);
    }
  }
}
