# A reversible, audited privacy boundary

A Dafny model of the boundary that replaces sensitive text by placeholder tokens
before it leaves a machine, puts the values back when an answer returns, and keeps a
tamper-evident record of both. Main results:

- **Restore undoes sanitize.** Detected spans are validated and made disjoint, spliced
  out for tokens, found again by the scanner and put back: for every input without
  `__DO_PRIVATE_` the result is the input with each redacted span replaced by the
  marker, over whole runs of any number of vault instances, if and only if no kind that
  may be pseudonymized equals another kind of the scope ignoring case. The same law holds
  on the memory vault. The scanner finds exactly the tokens put in because the only proper
  border of the prefix is one underscore.
- **Two vaults, one store.** The JSON vault (eager purge, a file shared by many
  instances) and the memory vault (lazy expiry, map order) give equal replies at every
  step, single or batched, up to the first put that fails after a draw. Tokens stay
  unique, counters are never reissued, the batch forms refine the one-at-a-time forms.
- **The audit chain.** A file verifies if and only if it is one hash-linked chain; the
  bounded tail read agrees with the full scan if and only if the last line lies in its
  window; any interleaving of writers and crashes leaves a chain and a proper prefix of
  one line; equal last hashes mean equal histories; an edited record is located; with
  retention the two files hold the latest records without a gap, and a file is rotated
  exactly when it is full.
- **The frame reader** is a function of the byte stream alone, however it is chunked; a
  session is the handler's answers and the refusals in order, up to the first failure.
- **Detector combinatorics**: greedy span selection determined by its specification, the
  order-sensitive merge and exactly when the two agree, covering window plans, the tag
  decoder, checksum arithmetic.

## Files

| part | files |
|---|---|
| shared vocabulary | Common, Sorting |
| placeholders, scan, splice, round trip | Placeholder, TokenGrammar, Scanner, Spans, Transform, Pipeline, SpliceLayout, Utf8, Weaving, RoundTrip, RoundTripLimits, MemoryRoundTrip |
| vaults | Vault, JsonState, JsonVault, MemoryVault, Lifetimes, VaultRuns, VaultBatches, VaultRelation, BatchRelation, VaultEquivalence |
| audit chain | Chain, ChainProofs, ScanReports, AuditFile, AuditRefusals, AuditRuns, AuditRetention |
| frames | Transport |
| detectors | Hybrid, HybridRule, Windows, Bio, Checksums |

Code that changes things in place is a class or a method with a loop (`JsonVault`,
`MemoryVault`, `AuditLog`, `Reader`, the scan, the reverse replacement, the splice walk,
the window loops), proved against functions on values; what those functions guarantee is
then proved as lemmas, over all inputs and all runs. `dafny verify dfyconfig.toml` checks
the whole project.

## How the world is represented

- Text is the sequence of its UTF-8 bytes, one `char` per byte. The only facts used about
  UTF-8 are that text never starts with a continuation byte and that none follows an
  ASCII byte (`Utf8Shaped`); `Utf8` proves both of every encoded text, and what a
  boundary and white space are.
- Clock readings and entropy draws are parameters; a reading or a draw may be missing.
- A lock makes an operation one step. Writes may break off anywhere: whether the file
  system lets a vault write through is a field of the file no operation changes, and how
  far an audit write gets is a parameter.
- JSON, event serialization and the hash are the parameters of `Chain.Codec`. `ValidCodec`
  says that encoding is undone by decoding, that a line holds no newline and starts with
  `{"v":`, and that hashes are 64 lower-case hexadecimal characters. No hash on all texts
  is injective, so tamper evidence asks only that the hash does not collide on the texts
  hashed for the two files at hand (`CollisionFree`).
- The detector's entities, the policy's plan and the audit sink's success are parameters
  of the pipeline methods. Confidences are reals or not finite; token scores are reals.

## Where the code and its promises part

Each is a lemma, with the exact condition where the two agree for some inputs:

- Two kinds that differ only in letter case can receive one token when their draws
  coincide (`VaultRuns.CaseCollision`); restore then returns the wrong text
  (`RoundTripLimits.CollisionBreaksRestore`). The round trip holds for everything sanitize
  accepts if and only if no kind it may pseudonymize equals another kind of the scope
  ignoring case (`RoundTripLimits.LawIffToldApart`); two secret kinds may, because plan
  validation never lets a secret kind be pseudonymized (`LawIffKindsApart`).
- A memory vault keeps the counter of a put, and the earlier items of a batch, when a
  later draw fails or a later kind is invalid; a JSON vault stores nothing then. The
  stores stay related if and only if the request succeeds or draws nothing
  (`RelatedIffDrawn`, `BatchAgrees`), and when they part, a later put shows it
  (`FailedDrawDiffers`).
- At a full counter the JSON vault reports exhaustion and the memory vault's addition
  overflows, here an error (`FullCounterDiffers`: an if-and-only-if).
- With a lifetime of zero a batch differs from one-by-one inserts, with any other or none
  it does not (`ZeroTtlBatchDiffers`, `BatchIsFold`); so do the two vaults, exactly on a
  batch that repeats an item (`ZeroLifetimeBatch`). A batch of nothing still reaps the
  file.
- An append as record 2^64 - 1 succeeds and the file no longer verifies
  (`AppendVerifies`: an if-and-only-if).
- A comment at the merge of the hybrid detector says that its secondary half follows the
  shared overlap rule. It does on every sub-list of the untouched secondaries if and only
  if these hold no chain: a span, a longer or as long and earlier one that overlaps it,
  and a third, later and longer than the second, that overlaps the second but not the
  first (`FollowsRuleIffNoChain`, with `DisplacedTriple` and `BlockedTriple` as the
  failing inputs).
- In `validate_spans` the out-of-bounds message is reached by spans whose end precedes
  their start and by no others, because an offset past the end is never a character
  boundary (`OutOfBoundsMeansReversed`).
- A tagged token that shares offsets with its neighbours need not lie in a span of the
  decoder (`SharedOffsetsLost`); it does if and only if it ends no later than its run
  closes (`TaggedIsCovered`).
- The Luhn sum is a 32-bit number, so a value with more than a ninth of 2^32 digits may be
  judged by a wrapped sum (`LuhnValid`; `WrappedSumRejects` is such a value).

## Model

| member | source | states |
|---|---|---|
| `RoundTrip.SanitizeThenRestore` | crates/privacy-core/src/lib.rs:148-290 | sanitize and then restore on one vault: restore succeeds exactly when sanitize did, and returns the input with each redacted span replaced by the marker, the input itself when nothing was redacted; asked only of what the reap leaves of the scope: records for the plan's own items are still within the lifetime at restore, and no other kind equals a pseudonymized one ignoring case |
| `RoundTrip.RestoreAfterRun` | crates/privacy-core/src/lib.rs:148-290 | the same law when, between the two calls, any vault instances on the file do anything except deleting the scope, with or without lifetimes as long as no clock reading is past the lifetime of the stamps, starting from any sound file; a reading before every stamp is harmless to dated records |
| `RoundTrip.RestoreUndoesSanitize` | crates/privacy-core/src/lib.rs:148-290 | if the later file still holds the returned mappings live and no other kind of the scope equals a pseudonymized one ignoring case, restore gives back the masked input |
| `RoundTrip.RoundTripFor` | crates/privacy-core/src/lib.rs:217-290 | the law for any vault whose answers give each token its value: for every prefix-free input and accepted plan, restoring the spliced text gives the masked input |
| `RoundTrip.MaskedWithoutRedaction` | crates/transformer-pseudonymize/src/lib.rs:42-74 | without redactions, splicing the values back is the input |
| `RoundTrip.SpliceIsWoven` | crates/transformer-pseudonymize/src/lib.rs:38-79 | the transformer output is literals and placeholders in turn, kept values being part of the literals |
| `RoundTrip.PiecesAreWell` | crates/transformer-pseudonymize/src/lib.rs:42-74 | for a prefix-free input those literals are prefix-free and every inserted text is a well-formed placeholder |
| `RoundTrip.RestoreSplices` | crates/privacy-core/src/lib.rs:217-290 | whatever the tokens resolve to, restoring the spliced text is splicing in the resolutions |
| `RoundTrip.AppliedPieces` | crates/privacy-core/src/lib.rs:262-273 | swapping each token for its resolution turns the sanitized pieces into the pieces with the resolutions, the marker staying |
| `RoundTrip.RunKeepsHeld` | crates/vault-json/src/vault.rs:33-202 | a mapping held since a given time stays held over any run that does not delete its scope and reads no clock past its lifetime; only undated records need readings from that time on |
| `RoundTripLimits.LawIffToldApart` | crates/privacy-core/src/lib.rs:148-290 | for any valid kinds: every trip that sanitize accepts (admissible plan, no removed value left), whatever file, input, plan, entropy, run of calls and lifetime, that pseudonymizes kinds out of one set and leaves kinds out of another in the scope, comes back if and only if no kind of the first set that is not secret equals another kind of the second ignoring case |
| `RoundTripLimits.LawIffKindsApart` | crates/privacy-core/src/lib.rs:148-290 | with one set for both: the law holds if and only if kinds equal ignoring case are the same or both secret, because sanitize never pseudonymizes a secret kind |
| `RoundTripLimits.CollisionBreaksRestore` | crates/privacy-core/src/lib.rs:148-290 | the failing input: the scope holds a text under one kind, sanitize accepts another text under a kind equal to it ignoring case and not secret, equal draws give it the same token, and restore returns the first text for it |
| `RoundTripLimits.PlanIsAdmissible` | crates/privacy-core/src/lib.rs:158-191 | a plan that pseudonymizes good spans of valid kinds, none secret, passes every check before the transformer |
| `MemoryRoundTrip.MemoryRestoreAfterRun` | crates/vault-memory/src/lib.rs:54-147 | the round trip on the memory vault, from any sound state and over any run of single and batched requests, failed ones included, that does not forget the scope or outlive the stamps, whatever order its map is scanned in |
| `MemoryRoundTrip.StepSound` | crates/vault-memory/src/lib.rs:54-147 | every request keeps each entry filed under its key, with a minted token of its kind and of a counter handed out once |
| `MemoryRoundTrip.HeldIsFound` | crates/vault-memory/src/lib.rs:91-102 | a lookup finds a held mapping when no other kind of the scope equals its kind ignoring case |
| `RoundTrip.BatchHolds` | crates/vault-json/src/vault.rs:118-137 | a successful batch leaves a record of everything it returned and keeps all older records |
| `RoundTrip.SanitizedShaped` | crates/privacy-core/src/lib.rs:192-207 | what sanitize returns is well-formed UTF-8 at every boundary the scanner relies on |
| `Weaving.RestoreWoven` | crates/privacy-core/src/lib.rs:217-290 | restoring a text woven of prefix-free literals and placeholders replaces exactly its placeholders |
| `Weaving.NoTokenInLiteral` | crates/privacy-core/src/lib.rs:228-256 | no placeholder starts inside a prefix-free literal, even when the literal ends in part of the prefix and a token follows |
| `Weaving.PrefixBorder` | crates/plugin-api/src/placeholder.rs:10-14 | the only proper border of `__DO_PRIVATE_` is one underscore |
| `Weaving.SpotsAreCover` | crates/privacy-core/src/lib.rs:228-256 | the inserted placeholders are the leftmost cover of the woven text, so the scan records them and nothing else |
| `Weaving.SubstituteWoven` | crates/privacy-core/src/lib.rs:262-273 | substituting at those positions changes the tokens and nothing else |
| `Weaving.RestoresUnique` | crates/privacy-core/src/lib.rs:217-290 | restore is a function of the text and the vault answers |
| `Scanner.Scan` | crates/privacy-core/src/lib.rs:218-256 | the scan returns the leftmost cover: disjoint increasing placeholders, every other occurrence overlapping an earlier recorded one; the pass budget never runs out and every slice is on a boundary |
| `Scanner.ScanPrefix` | crates/privacy-core/src/lib.rs:235-255 | each pass moves forward past the found prefix to a character boundary and misses no occurrence before the new index |
| `Scanner.CoverUnique` | crates/privacy-core/src/lib.rs:218-256 | a text has exactly one leftmost cover, so the result of the scan is determined |
| `Scanner.TokenShape` | crates/plugin-api/src/placeholder.rs:10-25 | a placeholder occurrence begins with the prefix and ends at the first `__` after it |
| `Scanner.TokenEndUnique` | crates/plugin-api/src/placeholder.rs:10-25 | where a placeholder starts determines where it ends |
| `Scanner.ReplaceAll` | crates/privacy-core/src/lib.rs:258-273 | reverse in-place replacement equals simultaneous substitution, restored text never being scanned again |
| `Placeholder.MintParsesBack` | crates/plugin-api/src/placeholder.rs:31-103 | a minted token is recognised as minted and parses back to its uppercased kind, counter and entropy |
| `Placeholder.RedactedIsUnminted` | crates/plugin-api/src/placeholder.rs:10-54 | the redaction marker is a placeholder but not a minted token |
| `TokenGrammar.PlaceholderIffWords` | crates/plugin-api/src/placeholder.rs:10-25 | a text is a placeholder if and only if it is words of letters and digits joined by single underscores between `__DO_PRIVATE_` and `__` |
| `TokenGrammar.MintedIffParts` | crates/plugin-api/src/placeholder.rs:32-54 | a text is a minted token if and only if it is a name, decimal digits and sixteen hexadecimal digits in that frame |
| `TokenGrammar.NameIffWords` | crates/plugin-api/src/placeholder.rs:62-71 | a valid kind is one or more such words joined by single underscores |
| `TokenGrammar.SameUpperIffOneCase` | crates/plugin-api/src/placeholder.rs:99-102 | two kinds give one token text exactly when they differ in letter case at most |
| `TokenGrammar.TokenIsCanonical` | crates/plugin-api/src/placeholder.rs:98-102 | a token is the kind in capitals, the counter without leading zeros and sixteen capital hexadecimal digits |
| `Placeholder.DecimalRoundTrip` | crates/plugin-api/src/placeholder.rs:99-102 | a printed counter parses back |
| `Placeholder.HexRoundTrip` | crates/plugin-api/src/placeholder.rs:98-102 | fixed-width hexadecimal entropy parses back |
| `Vault.MintGivesToken` | crates/plugin-api/src/placeholder.rs:86-103 | a successful mint gives a token of that kind and counter |
| `Spans.ResolveOverlaps` | crates/plugin-api/src/spans.rs:19-32 | the result is sorted, free of overlaps, a sub-multiset of the input, and the greedy longest-first selection |
| `Spans.ResolvedSpelledOut` | crates/plugin-api/src/spans.rs:5-32 | in plain offsets: kept spans in order of start, end and report, no two sharing an offset, and every other span meets a kept one that is longer, or as long and reported earlier, a reversed span having no length |
| `Spans.GreedyPass` | crates/plugin-api/src/spans.rs:21-29 | after the pass kept spans are disjoint and every dropped one overlaps a kept span that sorted before it |
| `Spans.GreedyUnique` | crates/plugin-api/src/spans.rs:5-32 | only one set of positions is disjoint with every other position overlapped by a kept one that is longer, or as long and earlier |
| `Spans.ResolvedUnique` | crates/plugin-api/src/spans.rs:5-32 | overlap resolution is determined by its specification |
| `Spans.ResolveIsIdempotent` | crates/plugin-api/src/spans.rs:5-32 | resolving twice changes nothing |
| `Sorting.StableSort` | crates/plugin-api/src/spans.rs:20 | a stable sort: a permutation, ordered by key and then by reported position |
| `Sorting.SortedIsFixed` | crates/transformer-pseudonymize/src/lib.rs:18-19 | a stable sort leaves a list in key order as it is |
| `Pipeline.ValidateSpans` | crates/privacy-core/src/lib.rs:342-386 | accepts exactly the lists in which every entity passes every check, reports the first failing entity with its first failing check, and returns the resolved list of good disjoint spans |
| `Pipeline.ValidatePlan` | crates/privacy-core/src/lib.rs:402-430 | accepts exactly the plans with one decision per entity on the same kind, span and value, secret kinds redacted or blocked, and otherwise reports the first fault of the first faulty decision |
| `Pipeline.ValidatedPlanSplices` | crates/privacy-core/src/lib.rs:342-430 | after validation the transformer sort changes nothing and all spans fit |
| `Pipeline.AcceptedIsGood` | crates/privacy-core/src/lib.rs:342-430 | an accepted plan has good spans in order without overlap |
| `Pipeline.OutOfBoundsMeansReversed` | crates/privacy-core/src/lib.rs:342-360 | the out-of-bounds refusal is for spans on boundaries whose end precedes their start, and for no others |
| `Pipeline.OutsideBytesSurvive` | crates/transformer-pseudonymize/src/lib.rs:42-74 | every byte outside the planned spans is in the output, moved by exactly what the replacements before it add |
| `SpliceLayout.ReplacementStandsAt` | crates/transformer-pseudonymize/src/lib.rs:42-79 | each replacement stands where its span stood, moved by what the earlier ones add |
| `SpliceLayout.ReplacementOf` | crates/transformer-pseudonymize/src/lib.rs:52-69 | the replacement of a span is its value, the marker, or the token with its number among the pseudonymized ones |
| `SpliceLayout.SpliceLength` | crates/transformer-pseudonymize/src/lib.rs:42-79 | the output has the input's length and what the replacements add |
| `SpliceLayout.ItemOf` | crates/transformer-pseudonymize/src/lib.rs:24-28 | the vault is asked for exactly the pseudonymized kinds and values, each at its number |
| `SpliceLayout.FaultSpelledOut` | crates/privacy-core/src/lib.rs:342-386 | each refusal of an entity is for exactly the entities it names, and an entity passes if and only if it names the bytes of a non-empty stretch of whole characters, with a kind that is not blank and a confidence from 0 to 1 |
| `SpliceLayout.AcceptedSpelledOut` | crates/privacy-core/src/lib.rs:402-430 | a plan is accepted if and only if it decides each entity once, on the same kind, value and span, and redacts or blocks those whose kind contains one of five words or is one of three |
| `Utf8.BoundaryIffCodeEnd` | crates/privacy-core/src/lib.rs:342-360 | in encoded text the boundaries are exactly the offsets between two characters |
| `Utf8.EncodedIsShaped` | crates/privacy-core/src/lib.rs:342-360 | encoded text has the two facts the offset arithmetic asks for |
| `Utf8.BlankIffWhite` | crates/privacy-core/src/lib.rs:366-376 | a kind is blank if and only if every character of it is Unicode white space |
| `Pipeline.ValidateText` | crates/privacy-core/src/plan.rs:28-45 | passes if and only if, for every entity the plan does not keep, its value occurs nowhere in the text |
| `Pipeline.Validate` | crates/privacy-core/src/lib.rs:158-191 | accepts exactly the admissible requests, everything accepted is spliceable, and the refusal is the first check that fails |
| `Pipeline.RefusedIsNotAdmissible` | crates/privacy-core/src/lib.rs:158-191 | a refusal and admissibility exclude each other |
| `Pipeline.PrivacyPipeline.Sanitize` | crates/privacy-core/src/lib.rs:148-208 | success gives the splice of the accepted plan with the stored tokens, in which no value of an entity the plan does not keep occurs, and one summary per entity; every error comes with its exact reason (refused, vault failed, such a value does occur, event not recorded), so it succeeds when none applies; the file holds the batch of the plan once the vault answered and is unchanged before |
| `Pipeline.PrivacyPipeline.Restore` | crates/privacy-core/src/lib.rs:217-290 | fails only when the vault file cannot be read or the audit event not recorded; otherwise returns the unique restoration of the text |
| `Pipeline.PrivacyPipeline.Forget` | crates/privacy-core/src/lib.rs:316-320 | success, or a refused audit event alone, leaves the file without the mappings and counters of the scope; it fails otherwise only when the file cannot be read or the file system does not let the write through, and then the file is unchanged |
| `Transform.RunTransform` | crates/transformer-pseudonymize/src/lib.rs:11-80 | succeeds with the splice exactly when the vault answers, the spans fit and nothing blocks; a vault error is an unusable file, a failing item, or a write the file system does not let through, and leaves the file unchanged; a failing walk reports its first fault and leaves exactly the batch of the plan stored |
| `Transform.Walk` | crates/transformer-pseudonymize/src/lib.rs:38-79 | the cursor walk returns the gaps in order with one replacement per span if and only if the spans fit and nothing blocks, and otherwise the first fault |
| `Transform.FaultIffMisfit` | crates/transformer-pseudonymize/src/lib.rs:38-79 | the walk has a fault exactly when the spans do not fit or something blocks |
| `Transform.CollectItems` | crates/transformer-pseudonymize/src/lib.rs:24-28 | the batch holds the pseudonymized kinds and values in plan order |
| `JsonVaults.JsonVault.ReapLocked` | crates/vault-json/src/vault.rs:33-55 | stamps undated records, purges expired ones, keeps counters, and reports a change exactly when there is one |
| `JsonVaults.JsonVault.NextCounter` | crates/vault-json/src/lib.rs:313-332 | hands out the successor of the stored counter or reports exhaustion without a change |
| `JsonVaults.JsonVault.InsertLocked` | crates/vault-json/src/vault.rs:62-97 | reuses a minted token, rotates a legacy one in place, or mints under the next counter |
| `JsonVaults.JsonVault.ReloadLocked` | crates/vault-json/src/lib.rs:252-306 | reload gives the file's state, the empty one for a missing file, an error for an unusable file |
| `JsonVaults.JsonVault.PersistLocked` | crates/vault-json/src/lib.rs:337-353 | succeeds exactly when the file system lets the write through, the vault file then holding the whole new state; otherwise it is untouched, wherever the write broke off |
| `JsonVaults.JsonVault.GetOrInsert` | crates/vault-json/src/vault.rs:101-116 | one locked reload, reap, insert and persist, failing only on an unusable file, with the insert, or when the write is not let through; on any error the file is unchanged |
| `JsonVaults.JsonVault.GetOrInsertMany` | crates/vault-json/src/vault.rs:118-137 | the batch inserts all items on one snapshot and persists once, or leaves the file unchanged, for the same three reasons only |
| `JsonVaults.JsonVault.Resolve` | crates/vault-json/src/vault.rs:139-151 | the first minted record of the scope with this token that is undated or read before its date plus the lifetime, and none when there is no such record or the file cannot be read; records at or past that time do not answer |
| `JsonVaults.JsonVault.ResolveMany` | crates/vault-json/src/vault.rs:153-179 | one pass answers every token, repeats and misses included, as single lookups would |
| `Lifetimes.LookupInTime` | crates/vault-json/src/vault.rs:15-24 | a lookup returns a record dated c under lifetime t at reading n only if t > 0 and n < c + t, and misses only when all that match are at or past c + t |
| `Lifetimes.ReapInTime` | crates/vault-json/src/vault.rs:41-54 | a reap keeps exactly the records dated c with t > 0 and n < c + t, undated ones as of now |
| `Lifetimes.ReusedInTime` | crates/vault-json/src/vault.rs:62-77 | an insert reuses a stored mapping if and only if t > 0 and n < c + t |
| `JsonVaults.FirstAnswers` | crates/vault-json/src/vault.rs:163-174 | the table holds the first answer for every wanted token and nothing for a miss |
| `JsonVaults.JsonVault.DeleteScope` | crates/vault-json/src/vault.rs:181-188 | when the write is let through the file loses exactly the records and counters of the scope, and what the reap purges |
| `JsonVaults.JsonVault.Expire` | crates/vault-json/src/vault.rs:190-202 | purges like the reap, succeeds exactly when the write is let through or nothing changes, does not write an unchanged file, and does nothing without a lifetime |
| `JsonVaults.InsertManyStops` | crates/vault-json/src/vault.rs:131-134 | after the first failing item the batch result is fixed |
| `VaultRuns.ReachableIsSound` | crates/vault-json/src/vault.rs:33-202 | in every file any interleaving of instances reaches from a sound one, keys are unique and every minted token carries its kind and a counter at most the stored one, shared with no other record of its scope and kind |
| `VaultRuns.RunCall` | crates/vault-json/src/vault.rs:99-202 | one call on a vault instance leaves in the file what a step of the run leaves, whether or not the file system lets a write through |
| `VaultRuns.InsertCoherent` | crates/vault-json/src/vault.rs:62-97 | an insert returns an entry already known or one under a counter never used before |
| `VaultRuns.TokensDistinct` | crates/vault-json/src/vault.rs:62-97 | a record whose kind no other kind of its scope equals ignoring case shares its minted token with no other record of the scope |
| `VaultRuns.AnswerUnique` | crates/vault-json/src/vault.rs:139-151 | a lookup of its token then returns that record |
| `VaultRuns.NoReissue` | crates/vault-json/src/vault.rs:25-97 | without a scope deletion no counter of a scope and kind is ever handed out for two mappings, even across expiry |
| `VaultRuns.CaseCollision` | crates/plugin-api/src/placeholder.rs:99-102 | the condition on kinds is needed: two kinds that differ only in case collide when their draws coincide, and a lookup then returns the first original |
| `VaultBatches.BatchIsFold` | crates/vault-json/src/vault.rs:101-137 | a batch and one-by-one inserts return the same, draw the same entropy and leave the same file, unless the lifetime is zero; an empty batch differs by one reap |
| `VaultBatches.ZeroTtlBatchDiffers` | crates/vault-json/src/vault.rs:101-137 | with a lifetime of zero the two differ for every kind and value |
| `VaultRuns.LegacyIsRotated` | crates/vault-json/src/vault.rs:73-83 | a legacy mapping is rotated on first use: its record keeps place and date and gets a minted token under the next counter, and the old token never resolves |
| `VaultRuns.ReapIsInvisible` | crates/vault-json/src/vault.rs:12-55 | unless the lifetime is zero, stamping and purging change no lookup at that time and no counter |
| `VaultRuns.DroppedCounter` | crates/vault-json/src/vault.rs:186 | deleting a scope resets its counters and no others |
| `VaultRuns.ReapKeepsKeys` | crates/vault-json/src/vault.rs:33-55 | a reap keeps keys unique and adds nothing |
| `MemoryVaults.MemoryVault.GetOrInsert` | crates/vault-memory/src/lib.rs:54-89 | returns the live mapping or replaces a dead one by a mint under the next counter; a failed mint still drops the dead entry and uses the counter up |
| `MemoryVaults.MemoryVault.GetOrInsertMany` | crates/plugin-api/src/traits.rs:110-120 | the trait's default batch: one insert after another, stopping at the first error with what was stored before it kept |
| `MemoryVaults.MemoryVault.Resolve` | crates/vault-memory/src/lib.rs:91-102 | returns some minted entry of the scope with this token read before its date plus the lifetime, and misses only when there is none |
| `Lifetimes.MemoryLookupInTime` | crates/vault-memory/src/lib.rs:36-50 | the same lifetime rule for a lookup of the memory vault |
| `Lifetimes.PurgeInTime` | crates/vault-memory/src/lib.rs:141-146 | the bulk purge keeps exactly the entries dated c with t > 0 and n < c + t |
| `Lifetimes.MemoryReusedInTime` | crates/vault-memory/src/lib.rs:54-75 | an insert reuses an entry if and only if t > 0 and n < c + t |
| `MemoryVaults.MemoryVault.ResolveMany` | crates/vault-memory/src/lib.rs:110-131 | one scan in any order answers each token as a single lookup may, a repeated token always alike |
| `MemoryVaults.MemoryVault.DeleteScope` | crates/vault-memory/src/lib.rs:133-139 | drops exactly the entries and counters of the scope |
| `MemoryVaults.MemoryVault.Expire` | crates/vault-memory/src/lib.rs:141-146 | drops exactly the dead entries |
| `VaultEquivalence.StoresAgree` | crates/vault-memory/src/lib.rs:53-147 | for every run of single and batched requests from empty under one clock, lifetime and entropy stream, with the kinds of each scope distinct ignoring case, both vaults reply alike at every step up to and including the first put or batch that fails after a draw, and are related exactly until then, whatever order maps iterate in |
| `VaultEquivalence.StepAgrees` | crates/vault-memory/src/lib.rs:53-147 | one step gives equal replies, and keeps the two states related if and only if it did not fail after a draw |
| `VaultEquivalence.PutAgrees` | crates/vault-memory/src/lib.rs:54-89 | inserting agrees: same mapping or same error, and states related again if and only if it succeeded or drew nothing |
| `BatchRelation.BatchAgrees` | crates/plugin-api/src/traits.rs:110-120 | the JSON vault's batch and the memory vault's reply alike, and stay related if and only if the batch succeeds or draws nothing: one that fails after a draw leaves counters and mappings in the memory vault and nothing in the file |
| `BatchRelation.ItemsAgree` | crates/plugin-api/src/traits.rs:110-120 | item by item the one snapshot and the one-by-one inserts return and draw the same |
| `BatchRelation.ZeroLifetimeBatch` | crates/plugin-api/src/traits.rs:97-100 | under a lifetime of zero both reply alike to a batch if and only if it repeats no item |
| `VaultRelation.GetAgrees` | crates/vault-memory/src/lib.rs:91-102 | whatever entry the memory vault may return is the one the JSON vault finds |
| `VaultEquivalence.ForgetAgrees` | crates/vault-memory/src/lib.rs:133-139 | forgetting a scope keeps the stores related |
| `VaultEquivalence.PurgeAgrees` | crates/vault-memory/src/lib.rs:141-146 | eager and lazy expiry stay related |
| `VaultEquivalence.RelatedIffDrawn` | crates/vault-memory/src/lib.rs:67-75 | for related states a put of a valid kind without a live mapping and with a counter below 2^64 - 1 gives equal replies, and leaves the states related if and only if its draw is available |
| `VaultEquivalence.FailedDrawDiffers` | crates/vault-memory/src/lib.rs:67-75 | after such a failed draw the difference shows: the repeated put gives different tokens, because the memory vault used the counter up and the JSON vault did not |
| `VaultEquivalence.AskJson` | crates/vault-json/src/vault.rs:99-202 | a request to the JSON vault object is one step of the JSON store when the file system lets writes through; when its write failed the file is as it was and only draws were used |
| `VaultEquivalence.AskMemory` | crates/vault-memory/src/lib.rs:53-147 | a request to the memory vault object is one step of the memory store |
| `VaultEquivalence.FullCounterDiffers` | crates/vault-memory/src/lib.rs:69-74 | for related states and a valid kind without a live mapping a put gives equal replies if and only if the counter is below 2^64 - 1 |
| `Chain.ScanFile` | crates/audit-file/src/chain.rs:169-260 | the scan loop computes the scan function over the whole file |
| `Chain.SegmentsOfJoin` | crates/audit-file/src/chain.rs:189-192 | splitting newline-ended lines gives them back |
| `Chain.JoinOfSegments` | crates/audit-file/src/chain.rs:189-192 | every file is the join of its segments |
| `ScanReports.LegacyIffBare` | crates/audit-file/src/chain.rs:232-260 | a file is reported as legacy with n records if and only if it is n newline-ended lines, none empty, none a chained record, and each an event |
| `ScanReports.UnchainedFault` | crates/audit-file/src/chain.rs:194-256 | behind any accepted front: an empty line is truncated, a line that is no record and no allowed event is no envelope when it begins with a brace and malformed otherwise, and a chained record behind legacy lines is no envelope |
| `ScanReports.VersionFault` | crates/audit-file/src/chain.rs:279-295 | a line that begins as a record and is none, or one of another version, is reported as such |
| `ScanReports.LinkFault` | crates/audit-file/src/chain.rs:296-304 | the number of a record is checked before the hash it names, and both before the form of its own hash |
| `ScanReports.ContentFault` | crates/audit-file/src/chain.rs:305-314 | a record without event bytes is malformed, one whose hash is not that of the last hash, its big-endian number and its event bytes is a hash mismatch, and a right one numbered 2^64 - 1 is a sequence gap |
| `ScanReports.StopsAt` | crates/audit-file/src/chain.rs:169-260 | every refused file is an accepted front, the line the fault is reported at, and the rest |
| `ScanReports.BigEndianRoundTrip` | crates/audit-file/src/chain.rs:97-103 | the hashed bytes of a sequence number are its big-endian digits |
| `ChainProofs.VerifiedIffChain` | crates/audit-file/src/chain.rs:147-260 | a file verifies with n records if and only if it is n newline-ended lines forming one hash-linked chain from genesis, 0 < n < 2^64 - 1 |
| `ChainProofs.EditedRecord` | crates/audit-file/src/chain.rs:193-260 | editing one record is located: with the old record hash it fails at that record, with a renewed one at the next record, and only a renewed last record goes unnoticed |
| `ChainProofs.FullChainFails` | crates/audit-file/src/chain.rs:213-221 | a chain of 2^64 - 1 records no longer verifies |
| `ChainProofs.AppendVerifies` | crates/audit-file/src/unix.rs:169-187 | appending the next envelope line to a verified file verifies with one more record if and only if that is below 2^64 - 1 |
| `ChainProofs.ExtendChain` | crates/audit-file/src/unix.rs:169-187 | the next envelope line extends the chain and carries the event |
| `ChainProofs.DrawnLinesVerify` | crates/audit-file/src/chain.rs:147-260 | lines of a chain kept in any selection and order verify exactly when each is at its own position; otherwise the first moved position is reported as a sequence gap |
| `ChainProofs.PreimageSplits` | crates/audit-file/src/chain.rs:97-103 | a hashed preimage splits into previous hash, sequence and event bytes in one way only |
| `ChainProofs.TailsAgree` | crates/audit-file/src/chain.rs:97-103 | two chains with the same last hash hold the same events, record by record |
| `ChainProofs.TamperEvident` | crates/audit-file/src/chain.rs:147-260 | two verified files with the same last record hash have the same number of records and the same events, unless the hash collides on what was hashed for them |
| `AuditFiles.ReadExactAt` | crates/audit-file/src/unix.rs:343-360 | short reads are continued until the buffer holds the requested bytes, failing exactly when the file is too short |
| `AuditFiles.ReadTailLine` | crates/audit-file/src/unix.rs:247-276 | the buffered read returns the windowed last line or the right error |
| `AuditFiles.LastLineRead` | crates/audit-file/src/unix.rs:247-276 | the bounded read returns the last line exactly when it lies in the window, and otherwise refuses |
| `AuditFiles.TailOfChain` | crates/audit-file/src/unix.rs:235-244 | the tail of any chain, found without scanning it |
| `AuditFiles.FastTailIsScanTail` | crates/audit-file/src/unix.rs:235-276 | for every verified file the fast tail is the scan tail if and only if the last line lies in the window; otherwise the append is refused |
| `AuditFiles.AuditLog.WriteLine` | crates/audit-file/src/unix.rs:190-200 | the bytes that reach the file are a prefix of the line; success if and only if it is all of it and synced |
| `AuditFiles.AuditLog.Prepare` | crates/audit-file/src/unix.rs:133-148 | tail read, next line and rotation check compute the decision function |
| `AuditFiles.AuditLog.Record` | crates/audit-file/src/unix.rs:117-152 | refuses without touching the files, or appends, or rotates the whole file away, with as much of the line as the write got through; success if and only if that is all of it and it was synced |
| `AuditRetention.RetentionOverRun` | crates/audit-file/src/unix.rs:117-166 | over whole runs of record calls with any bounds, from any chain and with torn writes: both files are chains, but for part of a last line, each within the record bound and, unless a single record, within the byte bound, except for the starting file until a record is added to it; a file rotated during the run could not have taken one more record; together they hold the latest complete records in order without a gap, and all of them before the first rotation |
| `AuditRetention.RotatesExactly` | crates/audit-file/src/unix.rs:154-166 | a record rotates a chain if and only if it is not empty and the record count with the new one is above a positive record bound, or the bytes with the new line are above a positive byte bound; a byte bound of 2^64 - 1 is never passed |
| `AuditRetention.RotatedIsFull` | crates/audit-file/src/unix.rs:138-166 | from an empty file and with a record bound alone, a rotated file holds exactly that many records |
| `AuditRefusals.UnreadableTail` | crates/audit-file/src/unix.rs:247-276 | a file that does not end in a newline, or whose last line is out of the window, refuses every record |
| `AuditRefusals.BadTailRefused` | crates/audit-file/src/chain.rs:328-349 | a last line that is no record of this version, or whose hashes are not hexadecimal, refuses every record, with its category |
| `AuditRefusals.AlteredTailRefused` | crates/audit-file/src/chain.rs:351-362 | so does a last record without event bytes, or whose hash is not that of its previous hash, big-endian number and event bytes |
| `AuditRefusals.NextRecordDecides` | crates/audit-file/src/unix.rs:133-148 | behind a sound last record the next one is appended, or starts a new file as record 1 behind 64 zeros exactly when it would pass a bound |
| `AuditRefusals.NoNextRecord` | crates/audit-file/src/unix.rs:135-139 | nothing follows the last number, and an event without bytes is refused |
| `AuditRefusals.EmptyFileDecides` | crates/audit-file/src/unix.rs:133-150 | an empty file takes the first record, whatever the bounds |
| `AuditRetention.RecordKeepsHolding` | crates/audit-file/src/unix.rs:138-166 | each record call, completed or torn, keeps that, dropping nothing but the file a rotation replaces |
| `AuditRuns.RunStaysGood` | crates/audit-file/src/unix.rs:117-152 | for any interleaving of writers, partial writes and crashes, the file is always a chain of the initial and the committed events, each once and in lock order, followed by a proper prefix of one line |
| `AuditRuns.StepKeepsGood` | crates/audit-file/src/unix.rs:117-152 | each step of each writer keeps that |
| `AuditRuns.WriterPreparesRecord` | crates/audit-file/src/unix.rs:123-150 | a writer that finds the lock free prepares the very line one record call without retention would append, or gives up with nothing changed |
| `AuditRuns.LoneWriterSucceeds` | crates/audit-file/src/unix.rs:117-152 | a writer that finds the lock free and a tail to append to can finish: each of its steps is possible, however the write is split, and it leaves the file with the appended line, its record acknowledged and the lock free |
| `AuditRuns.StepsSpelledOut` | crates/audit-file/src/unix.rs:117-152 | each step is possible exactly when: nobody holds the lock, the lock is held, bytes are left to write, anything was begun (giving up or dying), or all bytes are written (success) |
| `AuditRuns.GivingUp` | crates/audit-file/src/unix.rs:123-151 | a writer that gives up leaves the bytes and records and frees the lock |
| `AuditRuns.InitialIsGood` | crates/audit-file/src/unix.rs:84-102 | any file the sink accepts at opening starts a run |
| `AuditRuns.GoodVerifies` | crates/audit-file/src/chain.rs:147-260 | the complete lines of any reached file verify with as many records as initial and committed events, below the sequence limit |
| `AuditRuns.AckedGrows` | crates/audit-file/src/unix.rs:150-151 | a success adds exactly the writer's own record to the acknowledged ones; commits are never taken back |
| `AuditRuns.TornStaysTorn` | crates/audit-file/src/unix.rs:247-256 | after a torn write every later append fails and the bytes stay as they are |
| `Transport.ReadFrame` | crates/mcp-server/src/transport.rs:50-86 | however the stream is cut into chunks, outcome and buffer are those its bytes determine, at most one byte past the limit is buffered, and a complete frame consumes itself and its newline only |
| `Transport.Serve` | crates/mcp-server/src/transport.rs:94-140 | the final pipeline state, the replies written and whether the session failed are those of the event list the bytes determine, up to the first failed request or write |
| `Transport.SessionTranscript` | crates/mcp-server/src/transport.rs:94-140 | the session without its fold: each dispatched frame moves the state by the handler, the output is one answer for each dispatch that answers and one refusal for each other event, in order, up to the first failing request or refused write, and the session failed if and only if there was one |
| `Transport.EventOfFrame` | crates/mcp-server/src/transport.rs:106-124 | a frame is skipped exactly when all its bytes are ASCII white space, refused when it is not UTF-8, and dispatched otherwise |
| `Transport.FailureEndsSession` | crates/mcp-server/src/transport.rs:106-120 | after a failed request or write nothing that was still to come has an effect |
| `Transport.PlanOfFrames` | crates/mcp-server/src/transport.rs:94-140 | whole frames are handled in order, whatever follows them |
| `Transport.OversizedEndsSession` | crates/mcp-server/src/transport.rs:8-15 | after an oversized frame nothing is dispatched and no later byte has an effect |
| `Transport.UnterminatedEndsSession` | crates/mcp-server/src/transport.rs:16-17 | an unterminated last frame is refused, never dispatched |
| `Transport.SessionShape` | crates/mcp-server/src/transport.rs:94-140 | every stream is whole bounded frames and a tail; the session is the frames' events and at most one refusal |
| `Transport.DispatchedIsWhole` | crates/mcp-server/src/transport.rs:106-120 | only whole, bounded, non-blank UTF-8 lines reach the handler |
| `Hybrid.Detect` | crates/detector-hybrid/src/lib.rs:51-81 | the result is the untouched primary list followed by the kept secondaries |
| `Hybrid.KeptIsApart` | crates/detector-hybrid/src/lib.rs:54-79 | kept secondaries are reported ones that overlap neither a primary span nor each other |
| `Hybrid.FirstLongestIsKept` | crates/detector-hybrid/src/lib.rs:63-78 | the first longest secondary that overlaps no primary span is always kept |
| `Hybrid.DroppedBecause` | crates/detector-hybrid/src/lib.rs:54-79 | a dropped secondary overlaps a primary span or a reported secondary with precedence over it |
| `HybridRule.NoChainAgrees` | crates/detector-hybrid/src/lib.rs:47-79 | without a chain of two displacements the kept secondaries are the selection of the shared overlap rule, displacements included |
| `HybridRule.FollowsRuleIffNoChain` | crates/detector-hybrid/src/lib.rs:47-50 | the merge follows the shared rule on every sub-list of the untouched secondaries if and only if they hold no chain |
| `HybridRule.MergeFollowsRule` | crates/detector-hybrid/src/lib.rs:51-81 | with primary spans: no chain among the untouched secondaries makes the kept ones the shared rule's selection from them |
| `HybridRule.DisplacedTriple` | crates/detector-hybrid/src/lib.rs:63-78 | after a chain of two displacements only the last span is kept, although the first no longer overlaps anything |
| `HybridRule.BlockedTriple` | crates/detector-hybrid/src/lib.rs:63-78 | a span turned away by one that is displaced later stays away |
| `Hybrid.TouchedHaveNoEffect` | crates/detector-hybrid/src/lib.rs:56-60 | secondaries that overlap a primary span have no effect, and the others compete as if there were no primary |
| `Hybrid.MergeSurvivesResolution` | crates/detector-hybrid/src/lib.rs:51-81 | with disjoint primary spans the later overlap resolution drops nothing |
| `Hybrid.ApartLosesNothing` | crates/plugin-api/src/spans.rs:19-32 | overlap resolution only reorders spans that do not overlap |
| `Windows.TokenWindows` | crates/detector-gliner2/src/lib.rs:240-257 | windows from 0 to the end without a gap, each one step on; no machine-word overflow |
| `Windows.TokenPlanInClosedForm` | crates/detector-gliner2/src/lib.rs:240-262 | window i starts at i steps, is a whole window wide and ends before the last token unless it is the last one; a step is the window less the overlap, of which at most half a window counts |
| `Windows.TokenRunFits` | crates/detector-gliner2/src/lib.rs:233-238 | every run of at most the capped overlap plus one token lies whole in some window |
| `Windows.TokenRunBoundIsExact` | crates/detector-gliner2/src/lib.rs:233-238 | with more than one window a run one token longer fits in none |
| `Windows.ByteWindows` | crates/detector-gliner2/src/lib.rs:203-231 | character-aligned windows from 0 to the end without a gap; the `next <= start` exit is never taken and no sum overflows |
| `Windows.BytePlanSpelledOut` | crates/detector-gliner2/src/lib.rs:203-238 | each window but the last reaches to the first boundary at least a window on, and the next starts at the first boundary at least a step on, at most all but one byte overlapping |
| `Windows.LastByteWindow` | crates/detector-gliner2/src/lib.rs:213-221 | the last window is the one behind which no boundary is left |
| `Windows.ByteSpanFits` | crates/detector-gliner2/src/lib.rs:195-202 | every character-aligned span of at most the capped overlap plus one byte lies whole in some window |
| `Windows.ByteSpanBoundIsExact` | crates/detector-gliner2/src/lib.rs:195-202 | in a text of single-byte characters with more than one window a span one byte longer fits in none |
| `Bio.BioDecode` | crates/detector-gliner2/src/onnx.rs:330-383 | the decoder emits the non-empty spans of the maximal same-name runs of the non-special tokens |
| `Bio.DecodesRuns` | crates/detector-gliner2/src/onnx.rs:330-383 | the running state, closed at the last end, is that list, special tokens not breaking a run |
| `Bio.RunsDecoded` | crates/detector-gliner2/src/onnx.rs:306-383 | for any offsets there is exactly one span, never empty, for each maximal run whose closing offset exceeds its start, in order |
| `Bio.SpansAreDisjoint` | crates/detector-gliner2/src/onnx.rs:306-315 | for starts and ends that never go back the spans are sorted and disjoint |
| `Bio.TaggedIsCovered` | crates/detector-gliner2/src/onnx.rs:306-315 | every tagged token lies in its maximal run, and whole in a span of its name with at least its score if and only if it ends no later than the run closes |
| `Bio.SeparatedTokens` | crates/detector-gliner2/src/onnx.rs:306-315 | for tokens that end before the next one starts every run gives a span and every tagged token is covered |
| `Bio.SharedOffsetsLost` | crates/detector-gliner2/src/onnx.rs:306-383 | a tagged token that shares its offsets with the next one gives no span |
| `Checksums.LuhnValid` | crates/detector-regex/src/lib.rs:50-71 | decides the Luhn tally of the whole value modulo 2^32, which is the Luhn rule for values up to a ninth of 2^32 bytes |
| `Checksums.LuhnByPosition` | crates/detector-regex/src/lib.rs:45-71 | the rule by position: a digit with an even number of digits to its right counts as itself, any other twice, less 9 above 9 |
| `Checksums.WrappedSumRejects` | crates/detector-regex/src/lib.rs:50-71 | the bound is needed: 477218590 nines satisfy the rule and their 32-bit sum rejects them |
| `Checksums.LuhnDetectsDigit` | crates/detector-regex/src/lib.rs:45-71 | any single digit change breaks the Luhn rule, on any length, and is rejected by the 32-bit sum on values up to a ninth of 2^32 bytes |
| `Checksums.LuhnDetectsSwap` | crates/detector-regex/src/lib.rs:45-71 | swapping neighbouring digits breaks the Luhn rule exactly when they differ and are not 0 and 9; on values up to a ninth of 2^32 bytes the 32-bit sum decides the same |
| `Checksums.AbaDetectsDigit` | crates/detector-regex/src/lib.rs:78-90 | any single digit change is detected |
| `Checksums.AbaWrittenOut` | crates/detector-regex/src/lib.rs:78-90 | nine digits pass if and only if 3 times the first, fourth and seventh, 7 times the second, fifth and eighth and the others add up to a multiple of ten |
| `Checksums.AbaDetectsSwap` | crates/detector-regex/src/lib.rs:78-90 | swapping neighbouring digits is detected exactly when their difference is not a multiple of five |
| `Checksums.IbanValid` | crates/detector-regex/src/lib.rs:113-130 | the mixed remainder loop decides the rule on the whole rearranged and expanded number |
| `Checksums.IbanWrittenOut` | crates/detector-regex/src/lib.rs:113-130 | without spaces a value passes if and only if it has 15 to 34 digits and capital letters whose number, letters from 10 for A to 35 for Z and the first four characters moved to the end, leaves 1 |
| `Checksums.SpaceIsIgnored` | crates/detector-regex/src/lib.rs:113-115 | a space anywhere makes no difference |
| `Checksums.RemainderOfNumber` | crates/detector-regex/src/lib.rs:118-128 | the running remainder is that of the expanded number |
| `Checksums.IbanDetectsChange` | crates/detector-regex/src/lib.rs:106-130 | any single digit-for-digit or letter-for-letter change is detected |

## Left out

- Real files, permissions, inodes, symlinks, platform branches and the lock calls themselves: a file is a value, a lock makes an operation one step.
- SHA-256, the AEAD envelope of the encrypted vault, serde and the JSON text of the vault file: the stored state is a value, an unusable file is `Corrupt`.
- Fine-grained interleaving during audit rotation: rename, create and lock are one step; concurrent appends are modelled without retention, and retention over runs of one writer.
- The semantic judge and the check of its answers, the policies' own decisions, error scrubbing, `inspect`, and the content of audit events.
- The other transformers, process plugins, the regex pattern table, the octet check for IPv4 addresses, ONNX inference, logits, label parsing and the score threshold of the span decoder.
- JSON-RPC parsing and tool handling: `Serve` takes the request handler, which may fail, the UTF-8 check and the success of each write as parameters; read errors of the stream and a half-written reply are not modelled.
- One clock reading per vault operation: the source reads the clock again for each record it reaps and for a new record's date, so a second may pass inside an operation.
- Lifetimes with a fraction of a second, which the JSON vault truncates and the memory vault does not.
- `VaultEquivalence.StoresAgree`: the clock never goes back and no counter is full; the memory vault reads a monotonic clock and the JSON vault the wall clock, here one clock.
- `MemoryVaults.MemoryVault.GetOrInsert`: the overflow of a full counter is an error here; the source's addition panics or wraps, as built.
- `Transport.ReadFrame`: after an oversized frame the bytes consumed may differ by one, so the contract leaves that open; at the largest machine limit it asks for a stream shorter than that limit.
- `Hybrid.Detect`: asks that a secondary which overlaps another does not end before it starts, where the source's subtraction would underflow.
- `Checksums.LuhnValid`: the sum wraps, as in a build without overflow checks; with them the source panics there.
