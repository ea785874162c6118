/** Plans and the pseudonymizing transformer (crates/plugin-api/src/lib.rs,
    crates/transformer-pseudonymize/src/lib.rs). */
module Transform {
  import opened Common
  import opened Placeholder
  import opened Sorting
  import opened Spans
  import opened Vault
  import opened JsonState
  import opened JsonVaults

  datatype Action = Keep | Pseudonymize | Redact | Block

  datatype Planned = Planned(entity: Entity, action: Action)

  datatype TransformError = VaultFailed(error: VaultError) | OverlappingRange | OffBoundary | BlockedByPolicy

  type Plan = seq<Planned>

  function PlanKey(p: Planned): Key { SpanKey(p.entity) }

  /** The (kind, original) pairs to pseudonymize, in plan order. */
  function Items(plan: Plan): seq<(Text, Text)> {
    if plan == [] then []
    else if plan[0].action.Pseudonymize? then [(plan[0].entity.kind, plan[0].entity.value)] + Items(plan[1..])
    else Items(plan[1..])
  }

  /** `str::get(from..to)` is defined. */
  predicate Sliceable(s: Text, from: nat, to: nat) {
    from <= to && IsBoundary(s, from) && IsBoundary(s, to)
  }

  /** The spans can be spliced from `cursor` on: in order, in bounds and on
      character boundaries. */
  predicate Fits(input: Text, cursor: nat, plan: Plan)
    decreases |plan|
  {
    if plan == [] then IsBoundary(input, cursor)
    else
      && Sliceable(input, cursor, plan[0].entity.start)
      && plan[0].entity.end <= |input|
      && Fits(input, plan[0].entity.end, plan[1..])
  }

  /** The first error of the walk from `cursor` on, in checking order. */
  function WalkFault(input: Text, cursor: nat, plan: Plan): Option<TransformError>
    decreases |plan|
  {
    if plan == [] then if IsBoundary(input, cursor) then None else Some(OffBoundary)
    else if plan[0].entity.start < cursor || plan[0].entity.end > |input| then Some(OverlappingRange)
    else if !Sliceable(input, cursor, plan[0].entity.start) then Some(OffBoundary)
    else if plan[0].action.Block? then Some(BlockedByPolicy)
    else WalkFault(input, plan[0].entity.end, plan[1..])
  }

  /** The walk fails exactly when the spans do not fit or something blocks. */
  lemma {:induction false} FaultIffMisfit(input: Text, cursor: nat, plan: Plan)
    ensures WalkFault(input, cursor, plan).None? <==> Fits(input, cursor, plan) && !HasBlock(plan)
    ensures WalkFault(input, cursor, plan).Some? ==> !WalkFault(input, cursor, plan).value.VaultFailed?
    decreases |plan|
  {
    if plan != [] {
      FaultIffMisfit(input, plan[0].entity.end, plan[1..]);
      BlockHeadTail(plan);
    }
  }

  lemma {:induction false} BlockHeadTail(plan: Plan)
    requires plan != []
    ensures HasBlock(plan) <==> plan[0].action.Block? || HasBlock(plan[1..])
  {
    if HasBlock(plan[1..]) {
      var i :| 0 <= i < |plan[1..]| && plan[1..][i].action.Block?;
      assert plan[i + 1].action.Block?;
    }
    if HasBlock(plan) && !plan[0].action.Block? {
      var i :| 0 <= i < |plan| && plan[i].action.Block?;
      assert plan[1..][i - 1].action.Block?;
    }
  }

  predicate HasBlock(plan: Plan) { exists i :: 0 <= i < |plan| && plan[i].action.Block? }

  /** The replacement of each span, given the tokens for the pseudonymized ones. */
  function Replacements(plan: Plan, tokens: seq<Text>): (r: seq<Text>)
    requires |tokens| == |Items(plan)|
    ensures |r| == |plan|
  {
    if plan == [] then []
    else
      match plan[0].action
      case Keep => [plan[0].entity.value] + Replacements(plan[1..], tokens)
      case Redact => [REDACTED] + Replacements(plan[1..], tokens)
      case Block => [""] + Replacements(plan[1..], tokens)
      case Pseudonymize => [tokens[0]] + Replacements(plan[1..], tokens[1..])
  }

  /** The input from `cursor` on with each span replaced: the gaps between the
      spans, in order, with one replacement for each span. */
  function Splice(input: Text, cursor: nat, plan: Plan, reps: seq<Text>): Text
    requires |reps| == |plan| && cursor <= |input| && Fits(input, cursor, plan)
    decreases |plan|
  {
    if plan == [] then input[cursor..]
    else input[cursor..plan[0].entity.start] + reps[0] + Splice(input, plan[0].entity.end, plan[1..], reps[1..])
  }

  function TokensOf(ms: seq<Mapping>): (r: seq<Text>)
    ensures |r| == |ms|
    ensures forall i :: 0 <= i < |ms| ==> r[i] == ms[i].token
  {
    seq(|ms|, i requires 0 <= i < |ms| => ms[i].token)
  }

  lemma {:induction false} BatchLength(s: State, scope: Text, items: seq<(Text, Text)>, now: Clock, entropy: Entropy,
                                       drawn: nat)
    ensures var o := InsertMany(s, scope, items, now, entropy, drawn);
            o.result.Ok? ==> |o.result.value| == |items|
  {
    if items != [] { BatchLength(s, scope, items[..|items| - 1], now, entropy, drawn); }
  }

  method CollectItems(plan: Plan) returns (items: seq<(Text, Text)>)
    ensures items == Items(plan)
  {
    items := [];
    var i := |plan|;
    while i > 0
      invariant 0 <= i <= |plan| && items == Items(plan[i..])
    {
      i := i - 1;
      assert plan[i..][1..] == plan[i + 1..];
      if plan[i].action.Pseudonymize? {
        items := [(plan[i].entity.kind, plan[i].entity.value)] + items;
      }
    }
    assert plan[0..] == plan;
  }

  /** What a successful sanitize leaves in the vault file and the tokens it used. */
  ghost predicate StoredFor(before: Disk, after: Disk, ttl: Ttl, scope: Text, plan: Plan, now: Clock,
                            entropy: Entropy, drawn: nat, drawn': nat, tokens: seq<Text>) {
    if Items(plan) == [] then after == before && drawn' == drawn && tokens == []
    else
      && Load(before).Ok?
      && var o := InsertMany(Reap(Load(before).value, ttl, now), scope, Items(plan), now, entropy, drawn);
      && o.result.Ok? && drawn' == o.drawn && after == Holds(o.state) && tokens == TokensOf(o.result.value)
  }

  /** A vault error a transform may report: no readable file, a failing item, or
      a write that the file system does not let through. */
  ghost predicate VaultFailure(before: Disk, ttl: Ttl, scope: Text, plan: Plan, now: Clock, entropy: Entropy,
                               drawn: nat, accepts: bool, error: VaultError) {
    && Items(plan) != []
    && match Load(before)
       case Err(e) => error == e
       case Ok(s) =>
         var o := InsertMany(Reap(s, ttl, now), scope, Items(plan), now, entropy, drawn);
         if o.result.Err? then error == o.result.error else !accepts && error == WriteFailed
  }

  /** One batch insert, then one walk over the ordered plan. The result is the
      splice exactly when the vault answers, the spans fit and nothing blocks; a
      failing walk still leaves its batch stored. */
  method RunTransform(input: Text, plan: Plan, scope: Text, vault: JsonVault, now: Clock, entropy: Entropy, drawn: nat)
    returns (r: Result<Text, TransformError>, drawn': nat, ghost ordered: Plan, ghost tokens: seq<Text>)
    requires Utf8Shaped(input)
    modifies vault, vault.file`contents, vault.file`temporary
    ensures exists perm :: StablySorted(plan, PlanKey, ordered, perm)
    ensures r.Ok? ==>
              && Fits(input, 0, ordered) && !HasBlock(ordered) && |tokens| == |Items(ordered)|
              && r.value == Splice(input, 0, ordered, Replacements(ordered, tokens))
    ensures Fits(input, 0, ordered) && !HasBlock(ordered) ==> r.Ok? || r.error.VaultFailed?
    ensures r.Err? && !r.error.VaultFailed? ==> WalkFault(input, 0, ordered) == Some(r.error)
    ensures r.Ok? || !r.error.VaultFailed? ==>
              StoredFor(old(vault.file.contents), vault.file.contents, vault.ttl, scope, ordered, now, entropy, drawn,
                        drawn', tokens)
    ensures r.Err? && r.error.VaultFailed? ==>
              && vault.file.contents == old(vault.file.contents)
              && VaultFailure(old(vault.file.contents), vault.ttl, scope, ordered, now, entropy, drawn,
                              vault.file.accepts, r.error.error)
  {
    ghost var perm;
    var sorted;
    sorted, perm := StableSort(plan, PlanKey);
    ordered := sorted;
    var items := CollectItems(sorted);
    var stored: seq<Mapping> := [];
    drawn', tokens := drawn, [];
    if items != [] {
      var batch;
      ghost var loaded := Load(vault.file.contents);
      batch, drawn' := vault.GetOrInsertMany(scope, items, now, entropy, drawn);
      if batch.Err? {
        return Err(VaultFailed(batch.error)), drawn', ordered, tokens;
      }
      BatchLength(Reap(loaded.value, vault.ttl, now), scope, items, now, entropy, drawn);
      stored := batch.value;
      tokens := TokensOf(stored);
    }
    r := Walk(input, sorted, TokensOf(stored));
  }

  /** What one planned span becomes, and the tokens left for the later ones. */
  function Replacement(p: Planned, tokens: seq<Text>): (Text, seq<Text>)
    requires p.action.Pseudonymize? ==> tokens != []
  {
    match p.action
    case Keep => (p.entity.value, tokens)
    case Redact => (REDACTED, tokens)
    case Block => ("", tokens)
    case Pseudonymize => (tokens[0], tokens[1..])
  }

  lemma {:induction false} WalkStep(input: Text, output: Text, cursor: nat, plan: Plan, tokens: seq<Text>)
    requires plan != [] && |tokens| == |Items(plan)| && Fits(input, cursor, plan) && cursor <= |input|
    ensures |Replacement(plan[0], tokens).1| == |Items(plan[1..])|
    ensures output + Splice(input, cursor, plan, Replacements(plan, tokens))
            == output + input[cursor..plan[0].entity.start] + Replacement(plan[0], tokens).0
               + Splice(input, plan[0].entity.end, plan[1..], Replacements(plan[1..], Replacement(plan[0], tokens).1))
  {
    var put := Replacement(plan[0], tokens);
    ReplacementsHead(plan, tokens);
    ConcatFour(output, input[cursor..plan[0].entity.start], put.0,
               Splice(input, plan[0].entity.end, plan[1..], Replacements(plan[1..], put.1)));
  }

  lemma {:induction false} ReplacementsHead(plan: Plan, tokens: seq<Text>)
    requires plan != [] && |tokens| == |Items(plan)|
    ensures |Replacement(plan[0], tokens).1| == |Items(plan[1..])|
    ensures Replacements(plan, tokens)[0] == Replacement(plan[0], tokens).0
    ensures Replacements(plan, tokens)[1..] == Replacements(plan[1..], Replacement(plan[0], tokens).1)
  {
  }

  /** What the walk still has to append. */
  ghost predicate Pending(input: Text, ordered: Plan, tokens: seq<Text>, i: nat, cursor: nat, output: Text,
                          left: seq<Text>) {
    && i <= |ordered| && cursor <= |input|
    && |tokens| == |Items(ordered)| && |left| == |Items(ordered[i..])|
    && (Fits(input, 0, ordered) <==> Fits(input, cursor, ordered[i..]))
    && WalkFault(input, 0, ordered) == WalkFault(input, cursor, ordered[i..])
    && (Fits(input, 0, ordered) ==>
          Splice(input, 0, ordered, Replacements(ordered, tokens))
          == output + Splice(input, cursor, ordered[i..], Replacements(ordered[i..], left)))
  }

  lemma {:induction false} PendingStep(input: Text, ordered: Plan, tokens: seq<Text>, i: nat, cursor: nat, output: Text,
                                       left: seq<Text>)
    requires Pending(input, ordered, tokens, i, cursor, output, left) && i < |ordered|
    requires Sliceable(input, cursor, ordered[i].entity.start) && ordered[i].entity.end <= |input|
             && !ordered[i].action.Block?
    ensures ordered[i].action.Pseudonymize? ==> left != []
    ensures Pending(input, ordered, tokens, i + 1, ordered[i].entity.end,
                    output + input[cursor..ordered[i].entity.start] + Replacement(ordered[i], left).0,
                    Replacement(ordered[i], left).1)
  {
    assert ordered[i..][1..] == ordered[i + 1..] && ordered[i..][0] == ordered[i];
    if Fits(input, cursor, ordered[i..]) {
      WalkStep(input, output, cursor, ordered[i..], left);
    }
  }

  /** The walk: a cursor over the input, appending gaps and replacements and
      drawing stored tokens in order. */
  method Walk(input: Text, ordered: Plan, tokens: seq<Text>) returns (r: Result<Text, TransformError>)
    requires |tokens| == |Items(ordered)| && IsBoundary(input, 0)
    ensures r.Ok? <==> Fits(input, 0, ordered) && !HasBlock(ordered)
    ensures r.Ok? ==> r.value == Splice(input, 0, ordered, Replacements(ordered, tokens))
    ensures r.Err? ==> WalkFault(input, 0, ordered) == Some(r.error) && !r.error.VaultFailed?
  {
    FaultIffMisfit(input, 0, ordered);
    var output, left := "", tokens;
    var cursor: nat := 0;
    assert ordered[0..] == ordered;
    for i := 0 to |ordered|
      invariant Pending(input, ordered, tokens, i, cursor, output, left)
    {
      var planned := ordered[i];
      assert ordered[i..][0] == planned;
      if planned.entity.start < cursor || planned.entity.end > |input| {
        return Err(OverlappingRange);
      }
      if !Sliceable(input, cursor, planned.entity.start) {
        return Err(OffBoundary);
      }
      if planned.action.Block? {
        return Err(BlockedByPolicy);
      }
      PendingStep(input, ordered, tokens, i, cursor, output, left);
      var put := Replacement(planned, left);
      output := output + input[cursor..planned.entity.start] + put.0;
      left := put.1;
      cursor := planned.entity.end;
    }
    assert ordered[|ordered|..] == [];
    if !IsBoundary(input, cursor) {
      return Err(OffBoundary);
    }
    r := Ok(output + input[cursor..]);
  }
}
