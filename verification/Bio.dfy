/** Decoding a tag per token into spans (crates/detector-gliner2/src/onnx.rs).
    The winning tag and its score are inputs. */
module Bio {
  import opened Common

  /** The winning label without its `B-` or `I-` prefix, or any other label. */
  datatype Tag = Tagged(name: Text) | Outside

  datatype Token = Token(start: nat, end: nat, tag: Tag, score: real)

  datatype RawSpan = RawSpan(name: Text, start: nat, end: nat, score: real)

  /** Special tokens have an empty range. */
  predicate Special(t: Token) { t.start >= t.end }

  /** How many of the first `n` tokens are not special. */
  function PlainCount(tokens: seq<Token>, n: nat): nat
    requires n <= |tokens|
  {
    if n == 0 then 0
    else if Special(tokens[n - 1]) then PlainCount(tokens, n - 1)
    else PlainCount(tokens, n - 1) + 1
  }

  /** The tokens that are not special, among the first `n`. */
  function Plain(tokens: seq<Token>, n: nat): (r: seq<Token>)
    requires n <= |tokens|
    ensures |r| == PlainCount(tokens, n)
  {
    if n == 0 then []
    else if Special(tokens[n - 1]) then Plain(tokens, n - 1)
    else Plain(tokens, n - 1) + [tokens[n - 1]]
  }

  function MaxScore(a: real, b: real): real { if a < b then b else a }

  // ---- Runs: the reference ------------------------------------------------------

  /** The first position from `j` on that is not tagged `name`. */
  function RunEnd(ts: seq<Token>, name: Text, j: nat): (r: nat)
    requires j <= |ts|
    ensures j <= r <= |ts|
    ensures forall k :: j <= k < r ==> ts[k].tag == Tagged(name)
    ensures r < |ts| ==> ts[r].tag != Tagged(name)
    decreases |ts| - j
  {
    if j < |ts| && ts[j].tag == Tagged(name) then RunEnd(ts, name, j + 1) else j
  }

  /** The highest score in `[i, j)`. */
  function Best(ts: seq<Token>, i: nat, j: nat): (r: real)
    requires i < j <= |ts|
    ensures forall k :: i <= k < j ==> ts[k].score <= r
    ensures exists k :: i <= k < j && ts[k].score == r
  {
    if j == i + 1 then ts[i].score
    else
      var r := Best(ts, i, j - 1);
      assert MaxScore(r, ts[j - 1].score) == ts[j - 1].score || MaxScore(r, ts[j - 1].score) == r;
      MaxScore(r, ts[j - 1].score)
  }

  /** Where a run that stops before position `j` closes. */
  function CloseAt(ts: seq<Token>, j: nat): nat
    requires ts != [] && j <= |ts|
  {
    if j < |ts| then ts[j].start else ts[|ts| - 1].end
  }

  /** The span of the run that starts at `i`. */
  function SpanOf(ts: seq<Token>, i: nat): RawSpan
    requires i < |ts| && ts[i].tag.Tagged?
  {
    var name := ts[i].tag.name;
    var j := RunEnd(ts, name, i + 1);
    RawSpan(name, ts[i].start, CloseAt(ts, j), Best(ts, i, j))
  }

  /** `push_span` keeps non-empty spans. */
  function Push(span: RawSpan): seq<RawSpan> {
    if span.end > span.start then [span] else []
  }

  /** The spans of the maximal runs from position `i` on. */
  function RunSpans(ts: seq<Token>, i: nat): seq<RawSpan>
    requires i <= |ts|
    decreases |ts| - i
  {
    if i == |ts| then []
    else
      match ts[i].tag
      case Outside => RunSpans(ts, i + 1)
      case Tagged(name) => Push(SpanOf(ts, i)) + RunSpans(ts, RunEnd(ts, name, i + 1))
  }

  // ---- The decoder --------------------------------------------------------------

  datatype Open = Open(name: Text, start: nat, score: real)

  /** The open run started at position `i` of `ts` and goes on at least to `k`. */
  ghost predicate Running(ts: seq<Token>, o: Open, i: nat, k: nat) {
    && i < k <= |ts|
    && (forall j :: i <= j < k ==> ts[j].tag == Tagged(o.name))
    && o.start == ts[i].start && o.score == Best(ts, i, k)
  }

  /** `spans` and the open run account for the first `k` plain tokens. */
  ghost predicate DecodedFrom(ts: seq<Token>, k: nat, spans: seq<RawSpan>, open: Option<Open>, i: nat) {
    && i <= k <= |ts|
    && (open.None? ==> i == k)
    && (open.Some? ==> Running(ts, open.value, i, k))
    && RunSpans(ts, 0) == spans + RunSpans(ts, i)
  }

  ghost predicate Decoded(ts: seq<Token>, k: nat, spans: seq<RawSpan>, open: Option<Open>) {
    exists i :: DecodedFrom(ts, k, spans, open, i)
  }

  lemma {:induction false} NothingDecoded(ts: seq<Token>)
    ensures Decoded(ts, 0, [], None)
  {
    assert [] + RunSpans(ts, 0) == RunSpans(ts, 0);
    assert DecodedFrom(ts, 0, [], None, 0);
  }

  lemma {:induction false} RunEndFrom(ts: seq<Token>, name: Text, j: nat, k: nat)
    requires j <= k <= |ts| && forall x :: j <= x < k ==> ts[x].tag == Tagged(name)
    ensures RunEnd(ts, name, j) == RunEnd(ts, name, k)
    decreases k - j
  {
    if j < k { RunEndFrom(ts, name, j + 1, k); }
  }

  /** `close`: push the open run, if any, up to `end`. */
  function Close(spans: seq<RawSpan>, open: Option<Open>, end: nat): seq<RawSpan> {
    if open.None? then spans else spans + Push(RawSpan(open.value.name, open.value.start, end, open.value.score))
  }

  /** Closing the open run where another tag comes, or at the end. */
  lemma {:induction false} CloseRun(ts: seq<Token>, k: nat, spans: seq<RawSpan>, open: Option<Open>, i: nat, end: nat)
    requires DecodedFrom(ts, k, spans, open, i)
    requires open.Some? ==> end == CloseAt(ts, k) && (k < |ts| ==> ts[k].tag != Tagged(open.value.name))
    ensures DecodedFrom(ts, k, Close(spans, open, end), None, k)
  {
    if open.Some? {
      var o := open.value;
      RunEndFrom(ts, o.name, i + 1, k);
      assert RunEnd(ts, o.name, k) == k;
      assert ts[i].tag == Tagged(o.name);
      var pushed := Push(SpanOf(ts, i));
      assert spans + (pushed + RunSpans(ts, k)) == spans + pushed + RunSpans(ts, k);
    }
  }

  /** A new run opens where no run of its name goes on. */
  lemma {:induction false} NewRun(ts: seq<Token>, k: nat, spans: seq<RawSpan>, open: Option<Open>, name: Text)
    requires Decoded(ts, k, spans, open) && k < |ts| && ts[k].tag == Tagged(name)
    requires open.Some? ==> open.value.name != name
    ensures Decoded(ts, k + 1, Close(spans, open, ts[k].start), Some(Open(name, ts[k].start, ts[k].score)))
  {
    var i :| DecodedFrom(ts, k, spans, open, i);
    CloseRun(ts, k, spans, open, i, ts[k].start);
    assert DecodedFrom(ts, k + 1, Close(spans, open, ts[k].start), Some(Open(name, ts[k].start, ts[k].score)), k);
  }

  lemma {:induction false} RunGoesOn(ts: seq<Token>, o: Open, i: nat, k: nat)
    requires Running(ts, o, i, k) && k < |ts| && ts[k].tag == Tagged(o.name)
    ensures Running(ts, o.(score := MaxScore(o.score, ts[k].score)), i, k + 1)
  {
  }

  lemma {:induction false} ExtendRun(ts: seq<Token>, k: nat, spans: seq<RawSpan>, o: Open)
    requires Decoded(ts, k, spans, Some(o)) && k < |ts| && ts[k].tag == Tagged(o.name)
    ensures Decoded(ts, k + 1, spans, Some(o.(score := MaxScore(o.score, ts[k].score))))
  {
    var i :| DecodedFrom(ts, k, spans, Some(o), i);
    RunGoesOn(ts, o, i, k);
    assert DecodedFrom(ts, k + 1, spans, Some(o.(score := MaxScore(o.score, ts[k].score))), i);
  }

  lemma {:induction false} SkipOutside(ts: seq<Token>, k: nat, spans: seq<RawSpan>, open: Option<Open>)
    requires Decoded(ts, k, spans, open) && k < |ts| && ts[k].tag == Outside
    ensures Decoded(ts, k + 1, Close(spans, open, ts[k].start), None)
  {
    var i :| DecodedFrom(ts, k, spans, open, i);
    CloseRun(ts, k, spans, open, i, ts[k].start);
    assert DecodedFrom(ts, k + 1, Close(spans, open, ts[k].start), None, k + 1);
  }

  lemma {:induction false} FinishRun(ts: seq<Token>, k: nat, spans: seq<RawSpan>, open: Option<Open>, lastEnd: nat)
    requires Decoded(ts, k, spans, open) && k == |ts| && lastEnd == EndOf(ts, k)
    ensures Close(spans, open, lastEnd) == RunSpans(ts, 0)
  {
    var i :| DecodedFrom(ts, k, spans, open, i);
    CloseRun(ts, k, spans, open, i, lastEnd);
  }

  /** The plain tokens of a prefix are a prefix of the plain tokens. */
  lemma {:induction false} PlainPrefix(tokens: seq<Token>, n: nat, m: nat)
    requires n <= m <= |tokens|
    ensures Plain(tokens, n) <= Plain(tokens, m)
    decreases m - n
  {
    if n < m { PlainPrefix(tokens, n, m - 1); }
  }

  /** Token `n`, when plain, comes right after the plain tokens before it. */
  ghost predicate ListedAt(tokens: seq<Token>, ts: seq<Token>, n: nat) {
    n < |tokens| && !Special(tokens[n]) ==>
      PlainCount(tokens, n) < |ts| && ts[PlainCount(tokens, n)] == tokens[n]
  }

  /** `ts` lists the plain tokens. */
  ghost predicate ListsPlain(tokens: seq<Token>, ts: seq<Token>) {
    |ts| == PlainCount(tokens, |tokens|) && forall n :: ListedAt(tokens, ts, n)
  }

  lemma {:induction false} PlainIsListed(tokens: seq<Token>)
    ensures ListsPlain(tokens, Plain(tokens, |tokens|))
  {
    forall n: nat | n < |tokens| && !Special(tokens[n]) ensures ListedAt(tokens, Plain(tokens, |tokens|), n) {
      PlainPrefix(tokens, n + 1, |tokens|);
      LastPlain(tokens, n, Plain(tokens, |tokens|));
    }
  }

  lemma {:induction false} LastPlain(tokens: seq<Token>, n: nat, ts: seq<Token>)
    requires n < |tokens| && !Special(tokens[n]) && Plain(tokens, n + 1) <= ts
    ensures PlainCount(tokens, n) < |ts| && ts[PlainCount(tokens, n)] == tokens[n]
  {
    assert Plain(tokens, n + 1)[PlainCount(tokens, n)] == tokens[n];
  }

  /** The end of the last of the first `k` tokens. */
  function EndOf(ts: seq<Token>, k: nat): nat
    requires k <= |ts|
  {
    if k == 0 then 0 else ts[k - 1].end
  }

  /** The spans closed so far and the open run. */
  datatype Progress = Progress(spans: seq<RawSpan>, open: Option<Open>)

  function AddToken(p: Progress, t: Token): Progress {
    match t.tag
    case Tagged(name) =>
      if p.open.Some? && p.open.value.name == name
      then p.(open := Some(p.open.value.(score := MaxScore(p.open.value.score, t.score))))
      else Progress(Close(p.spans, p.open, t.start), Some(Open(name, t.start, t.score)))
    case Outside => Progress(Close(p.spans, p.open, t.start), None)
  }

  function After(tokens: seq<Token>, n: nat): Progress
    requires n <= |tokens|
  {
    if n == 0 then Progress([], None)
    else if Special(tokens[n - 1]) then After(tokens, n - 1)
    else AddToken(After(tokens, n - 1), tokens[n - 1])
  }

  function LastEnd(tokens: seq<Token>, n: nat): nat
    requires n <= |tokens|
  {
    if n == 0 then 0 else if Special(tokens[n - 1]) then LastEnd(tokens, n - 1) else tokens[n - 1].end
  }

  lemma {:induction false} AddDecoded(ts: seq<Token>, k: nat, p: Progress)
    requires Decoded(ts, k, p.spans, p.open) && k < |ts|
    ensures Decoded(ts, k + 1, AddToken(p, ts[k]).spans, AddToken(p, ts[k]).open)
  {
    match ts[k].tag
    case Tagged(name) =>
      if p.open.Some? && p.open.value.name == name {
        ExtendRun(ts, k, p.spans, p.open.value);
      } else {
        NewRun(ts, k, p.spans, p.open, name);
      }
    case Outside => SkipOutside(ts, k, p.spans, p.open);
  }

  lemma {:induction false} LastEndIsPlain(tokens: seq<Token>, ts: seq<Token>, n: nat)
    requires ListsPlain(tokens, ts) && n <= |tokens|
    ensures PlainCount(tokens, n) <= |ts| && LastEnd(tokens, n) == EndOf(ts, PlainCount(tokens, n))
  {
    if n > 0 {
      LastEndIsPlain(tokens, ts, n - 1);
      assert ListedAt(tokens, ts, n - 1);
    }
  }

  lemma {:induction false} PlainTokenAt(tokens: seq<Token>, ts: seq<Token>, n: nat, k: nat)
    requires ListsPlain(tokens, ts) && n < |tokens| && !Special(tokens[n]) && k == PlainCount(tokens, n)
    ensures k < |ts| && ts[k] == tokens[n] && PlainCount(tokens, n + 1) == k + 1
  {
    assert ListedAt(tokens, ts, n);
  }

  /** One plain token more. */
  lemma {:induction false} AfterPlain(tokens: seq<Token>, ts: seq<Token>, n: nat, k: nat)
    requires n < |tokens| && !Special(tokens[n]) && k < |ts| && ts[k] == tokens[n]
    requires Decoded(ts, k, After(tokens, n).spans, After(tokens, n).open)
    ensures Decoded(ts, k + 1, After(tokens, n + 1).spans, After(tokens, n + 1).open)
  {
    AddDecoded(ts, k, After(tokens, n));
  }

  lemma {:induction false} AfterIsDecoded(tokens: seq<Token>, ts: seq<Token>, n: nat, k: nat)
    requires ListsPlain(tokens, ts) && n <= |tokens| && k == PlainCount(tokens, n)
    ensures Decoded(ts, k, After(tokens, n).spans, After(tokens, n).open)
  {
    if n == 0 {
      NothingDecoded(ts);
    } else if Special(tokens[n - 1]) {
      AfterIsDecoded(tokens, ts, n - 1, k);
    } else {
      PlainTokenAt(tokens, ts, n - 1, k - 1);
      AfterIsDecoded(tokens, ts, n - 1, k - 1);
      AfterPlain(tokens, ts, n - 1, k - 1);
    }
  }

  /** The decoder's last state, closed at the last end, holds the non-empty spans
      of the maximal runs of the plain tokens, whatever special tokens are between
      them. */
  lemma {:induction false} DecodesRuns(tokens: seq<Token>)
    ensures var p, n := After(tokens, |tokens|), |tokens|;
            Close(p.spans, p.open, LastEnd(tokens, n)) == RunSpans(Plain(tokens, n), 0)
  {
    var n, ts, p := |tokens|, Plain(tokens, |tokens|), After(tokens, |tokens|);
    PlainIsListed(tokens);
    LastEndIsPlain(tokens, ts, n);
    AfterIsDecoded(tokens, ts, n, PlainCount(tokens, n));
    FinishRun(ts, PlainCount(tokens, n), p.spans, p.open, LastEnd(tokens, n));
  }

  /** `bio_decode` on chosen tags. */
  method BioDecode(tokens: seq<Token>) returns (spans: seq<RawSpan>)
    ensures spans == RunSpans(Plain(tokens, |tokens|), 0)
  {
    spans := [];
    var open: Option<Open> := None;
    var lastEnd := 0;
    for n := 0 to |tokens|
      invariant Progress(spans, open) == After(tokens, n) && lastEnd == LastEnd(tokens, n)
    {
      var t := tokens[n];
      if Special(t) { continue; }
      lastEnd := t.end;
      match t.tag
      case Tagged(name) =>
        if open.Some? && open.value.name == name {
          open := Some(open.value.(score := MaxScore(open.value.score, t.score)));
        } else {
          spans := Close(spans, open, t.start);
          open := Some(Open(name, t.start, t.score));
        }
      case Outside =>
        spans, open := Close(spans, open, t.start), None;
    }
    spans := Close(spans, open, lastEnd);
    DecodesRuns(tokens);
  }

  // ---- What the spans are ---------------------------------------------------------

  ghost predicate StartsRun(ts: seq<Token>, i: nat) {
    && i < |ts| && ts[i].tag.Tagged?
    && (i > 0 ==> ts[i - 1].tag != ts[i].tag)
  }

  /** The offset at which the run from `i` on closes lies behind its start. */
  ghost predicate GivesSpan(ts: seq<Token>, i: nat)
    requires i < |ts| && ts[i].tag.Tagged?
  {
    CloseAt(ts, RunEnd(ts, ts[i].tag.name, i + 1)) > ts[i].start
  }

  /** The starts of the maximal runs from `from` on that give a span. */
  ghost function Emitted(ts: seq<Token>, from: nat): seq<nat>
    requires from <= |ts|
    decreases |ts| - from
  {
    if from == |ts| then []
    else
      match ts[from].tag
      case Outside => Emitted(ts, from + 1)
      case Tagged(name) =>
        var later := Emitted(ts, RunEnd(ts, name, from + 1));
        if GivesSpan(ts, from) then [from] + later else later
  }

  /** No run that started before goes on at `from`. */
  ghost predicate Fresh(ts: seq<Token>, from: nat) {
    from <= |ts| && (0 < from < |ts| && ts[from].tag.Tagged? ==> ts[from - 1].tag != ts[from].tag)
  }

  lemma {:induction false} EmittedInOrder(ts: seq<Token>, from: nat)
    requires Fresh(ts, from)
    ensures forall i :: 0 <= i < |Emitted(ts, from)| ==> from <= Emitted(ts, from)[i]
    ensures forall i, j :: 0 <= i < j < |Emitted(ts, from)| ==> Emitted(ts, from)[i] < Emitted(ts, from)[j]
    decreases |ts| - from
  {
    if from < |ts| {
      match ts[from].tag
      case Outside => EmittedInOrder(ts, from + 1);
      case Tagged(name) => EmittedInOrder(ts, RunEnd(ts, name, from + 1));
    }
  }

  lemma {:induction false} InsideRun(ts: seq<Token>, name: Text, i: nat, x: nat)
    requires i < |ts| && ts[i].tag == Tagged(name) && i < x < RunEnd(ts, name, i + 1)
    ensures !StartsRun(ts, x)
  {
  }

  lemma {:induction false} EmittedAreRuns(ts: seq<Token>, from: nat, x: nat)
    requires Fresh(ts, from) && x in Emitted(ts, from)
    ensures StartsRun(ts, x) && GivesSpan(ts, x)
    decreases |ts| - from
  {
    match ts[from].tag
    case Outside => EmittedAreRuns(ts, from + 1, x);
    case Tagged(name) =>
      if x != from || !GivesSpan(ts, from) { EmittedAreRuns(ts, RunEnd(ts, name, from + 1), x); }
  }

  lemma {:induction false} RunsAreEmitted(ts: seq<Token>, from: nat, x: nat)
    requires Fresh(ts, from) && from <= x && StartsRun(ts, x) && GivesSpan(ts, x)
    ensures x in Emitted(ts, from)
    decreases |ts| - from
  {
    match ts[from].tag
    case Outside => RunsAreEmitted(ts, from + 1, x);
    case Tagged(name) =>
      if x > from {
        if x < RunEnd(ts, name, from + 1) {
          InsideRun(ts, name, from, x);
        } else {
          RunsAreEmitted(ts, RunEnd(ts, name, from + 1), x);
        }
      }
  }

  lemma {:induction false} SameCount(ts: seq<Token>, from: nat)
    requires from <= |ts|
    ensures |RunSpans(ts, from)| == |Emitted(ts, from)|
    decreases |ts| - from
  {
    if from < |ts| {
      match ts[from].tag
      case Outside => SameCount(ts, from + 1);
      case Tagged(name) => SameCount(ts, RunEnd(ts, name, from + 1));
    }
  }

  /** Span `n` is the span of the `n`-th run that gives one. */
  ghost predicate SpansAt(ts: seq<Token>, from: nat, n: int) {
    && from <= |ts| && 0 <= n < |Emitted(ts, from)| && n < |RunSpans(ts, from)|
    && Emitted(ts, from)[n] < |ts| && ts[Emitted(ts, from)[n]].tag.Tagged?
    && RunSpans(ts, from)[n] == SpanOf(ts, Emitted(ts, from)[n])
  }

  lemma {:induction false} SpansAreRuns(ts: seq<Token>, from: nat, n: nat)
    requires from <= |ts| && n < |Emitted(ts, from)|
    ensures SpansAt(ts, from, n)
    decreases |ts| - from
  {
    SameCount(ts, from);
    match ts[from].tag
    case Outside => SpansAreRuns(ts, from + 1, n);
    case Tagged(name) =>
      var j := RunEnd(ts, name, from + 1);
      if !GivesSpan(ts, from) {
        SpansAreRuns(ts, j, n);
      } else if n > 0 {
        SpansAreRuns(ts, j, n - 1);
      }
  }

  /** For any offsets: one span, never empty, for each maximal run of one name
      whose closing offset exceeds its start, in order, and no other span. */
  lemma {:induction false} RunsDecoded(ts: seq<Token>)
    ensures |RunSpans(ts, 0)| == |Emitted(ts, 0)|
    ensures forall x: nat :: x in Emitted(ts, 0) <==> StartsRun(ts, x) && GivesSpan(ts, x)
    ensures forall m, n :: 0 <= m < n < |Emitted(ts, 0)| ==> Emitted(ts, 0)[m] < Emitted(ts, 0)[n]
    ensures forall n :: 0 <= n < |Emitted(ts, 0)| ==>
              SpansAt(ts, 0, n) && RunSpans(ts, 0)[n].start < RunSpans(ts, 0)[n].end
  {
    SameCount(ts, 0);
    EmittedInOrder(ts, 0);
    forall x: nat ensures x in Emitted(ts, 0) <==> StartsRun(ts, x) && GivesSpan(ts, x) {
      if x in Emitted(ts, 0) { EmittedAreRuns(ts, 0, x); }
      if StartsRun(ts, x) && GivesSpan(ts, x) { RunsAreEmitted(ts, 0, x); }
    }
    forall n | 0 <= n < |Emitted(ts, 0)|
      ensures SpansAt(ts, 0, n) && RunSpans(ts, 0)[n].start < RunSpans(ts, 0)[n].end {
      SpansAreRuns(ts, 0, n);
      assert Emitted(ts, 0)[n] in Emitted(ts, 0);
    }
  }

  /** Neither starts nor ends of plain tokens go back. */
  ghost predicate InOrder(ts: seq<Token>) {
    && (forall i :: 0 <= i < |ts| ==> !Special(ts[i]))
    && forall i, j :: 0 <= i < j < |ts| ==> ts[i].start <= ts[j].start && ts[i].end <= ts[j].end
  }

  lemma {:induction false} RunsApart(ts: seq<Token>, a: nat, b: nat)
    requires InOrder(ts) && a < b && StartsRun(ts, a) && StartsRun(ts, b)
    ensures SpanOf(ts, a).end <= ts[b].start
  {
    var name := ts[a].tag.name;
    if b < RunEnd(ts, name, a + 1) { InsideRun(ts, name, a, b); }
  }

  /** For offsets that never go back the spans are sorted and disjoint. */
  lemma {:induction false} SpansAreDisjoint(ts: seq<Token>)
    requires InOrder(ts)
    ensures forall m, n :: 0 <= m < n < |RunSpans(ts, 0)| ==> RunSpans(ts, 0)[m].end <= RunSpans(ts, 0)[n].start
  {
    RunsDecoded(ts);
    forall m, n | 0 <= m < n < |RunSpans(ts, 0)| ensures RunSpans(ts, 0)[m].end <= RunSpans(ts, 0)[n].start {
      assert SpansAt(ts, 0, m) && SpansAt(ts, 0, n);
      assert Emitted(ts, 0)[m] in Emitted(ts, 0) && Emitted(ts, 0)[n] in Emitted(ts, 0);
      RunsApart(ts, Emitted(ts, 0)[m], Emitted(ts, 0)[n]);
    }
  }

  /** The run a tagged token belongs to. */
  lemma {:induction false} RunOf(ts: seq<Token>, x: nat) returns (i: nat)
    requires x < |ts| && ts[x].tag.Tagged?
    ensures i <= x && StartsRun(ts, i) && ts[i].tag == ts[x].tag
    ensures x < RunEnd(ts, ts[x].tag.name, i + 1)
  {
    if StartsRun(ts, x) {
      i := x;
    } else {
      i := RunOf(ts, x - 1);
    }
  }

  /** `s` has the token's name, holds it whole and scores at least as high. */
  predicate Covers(s: RawSpan, t: Token) {
    Tagged(s.name) == t.tag && s.start <= t.start && t.end <= s.end && t.score <= s.score
  }

  /** The span of the run from `i` on was emitted and covers token `x`. */
  ghost predicate CoveredByRun(ts: seq<Token>, i: nat, x: nat) {
    i in Emitted(ts, 0) && i < |ts| && ts[i].tag.Tagged? && x < |ts| && Covers(SpanOf(ts, i), ts[x])
  }

  /** A tagged token is covered by its run's span if and only if it ends no later
      than the run closes. */
  lemma {:induction false} TaggedIsCovered(ts: seq<Token>, x: nat) returns (i: nat)
    requires InOrder(ts) && x < |ts| && ts[x].tag.Tagged?
    ensures i <= x && StartsRun(ts, i) && x < RunEnd(ts, ts[x].tag.name, i + 1) && ts[i].tag == ts[x].tag
    ensures CoveredByRun(ts, i, x) <==> ts[x].end <= CloseAt(ts, RunEnd(ts, ts[x].tag.name, i + 1))
  {
    i := RunOf(ts, x);
    if ts[x].end <= CloseAt(ts, RunEnd(ts, ts[x].tag.name, i + 1)) {
      assert ts[i].start <= ts[x].start < ts[x].end;
      RunsAreEmitted(ts, 0, i);
    }
  }

  /** When each token ends before the next one starts, every maximal run gives a
      span and every tagged token is covered. */
  lemma {:induction false} SeparatedTokens(ts: seq<Token>, x: nat)
    requires InOrder(ts) && forall i, j :: 0 <= i < j < |ts| ==> ts[i].end <= ts[j].start
    requires x < |ts| && ts[x].tag.Tagged?
    ensures GivesSpan(ts, x) && exists i :: CoveredByRun(ts, i, x)
  {
    var name := ts[x].tag.name;
    assert CloseAt(ts, RunEnd(ts, name, x + 1)) >= ts[x].end;
    var i := TaggedIsCovered(ts, x);
    assert CloseAt(ts, RunEnd(ts, name, i + 1)) >= ts[x].end;
    assert CoveredByRun(ts, i, x);
  }

  /** The condition is needed: a tagged token that shares its offsets with the next
      one gives no span at all. */
  lemma SharedOffsetsLost(name: Text, start: nat, end: nat, p: real, q: real)
    requires start < end
    ensures var ts := [Token(start, end, Tagged(name), p), Token(start, end, Outside, q)];
            InOrder(ts) && RunSpans(ts, 0) == []
  {
    var ts := [Token(start, end, Tagged(name), p), Token(start, end, Outside, q)];
    assert RunEnd(ts, name, 1) == 1 && RunSpans(ts, 2) == [] && RunSpans(ts, 1) == [];
  }
}
