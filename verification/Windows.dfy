/** Overlapping window plans over bytes and over tokens
    (crates/detector-gliner2/src/lib.rs). */
module Windows {
  import opened Common

  datatype Window = Window(start: nat, end: nat)

  function Max(a: nat, b: nat): nat { if a > b then a else b }

  /** Windows in order from 0 to the end, without a gap; only the last reaches
      the end. */
  ghost predicate IsPlan(ws: seq<Window>, len: nat) {
    && ws != [] && ws[0].start == 0 && ws[|ws| - 1].end == len
    && (forall i :: 0 <= i < |ws| ==> ws[i].start < ws[i].end <= len)
    && (forall i, j :: 0 <= i < j < |ws| && j == i + 1 ==> ws[i].start < ws[j].start <= ws[i].end < len)
  }

  /** `[a, b)` lies whole in some window. */
  ghost predicate Fits(ws: seq<Window>, a: nat, b: nat) {
    exists i :: 0 <= i < |ws| && ws[i].start <= a && b <= ws[i].end
  }

  /** The windows before the one at `start`, none reaching the end. */
  ghost predicate Planned(ws: seq<Window>, len: nat, start: nat) {
    && (if ws == [] then start == 0 else ws[0].start == 0 && ws[|ws| - 1].start < start <= ws[|ws| - 1].end)
    && (forall i :: 0 <= i < |ws| ==> ws[i].start < ws[i].end < len)
    && (forall i, j :: 0 <= i < j < |ws| && j == i + 1 ==> ws[i].start < ws[j].start <= ws[i].end)
  }

  lemma {:induction false} AddWindow(ws: seq<Window>, len: nat, start: nat, end: nat, next: nat)
    requires Planned(ws, len, start) && start < next <= end < len
    ensures Planned(ws + [Window(start, end)], len, next)
  {
  }

  lemma {:induction false} AddLast(ws: seq<Window>, len: nat, start: nat)
    requires Planned(ws, len, start) && start < len
    ensures IsPlan(ws + [Window(start, len)], len)
  {
  }

  /** The last window that starts at or before `a`. */
  lemma {:induction false} LastStart(ws: seq<Window>, len: nat, a: nat) returns (i: nat)
    requires IsPlan(ws, len)
    ensures i < |ws| && ws[i].start <= a && (i + 1 < |ws| ==> a < ws[i + 1].start)
  {
    i := 0;
    while i + 1 < |ws| && ws[i + 1].start <= a
      invariant i < |ws| && ws[i].start <= a
      decreases |ws| - i
    {
      i := i + 1;
    }
  }

  // ---- Tokens -------------------------------------------------------------------

  function TokenOverlap(window: nat, overlap: nat): nat { Min(overlap, Max(window, 1) / 2) }

  function TokenStep(window: nat, overlap: nat): (step: nat)
    ensures step >= 1
  {
    Max(window, 1) - TokenOverlap(window, overlap)
  }

  /** Every window is `window` wide but for the end, one step after the last. */
  ghost predicate TokenSteps(ws: seq<Window>, tokens: nat, window: nat, overlap: nat) {
    && (forall i :: 0 <= i < |ws| ==> ws[i].end == Min(ws[i].start + Max(window, 1), tokens))
    && (forall i, j :: 0 <= i < j < |ws| && j == i + 1 ==> ws[j].start == ws[i].start + TokenStep(window, overlap))
  }

  ghost predicate TokenStart(ws: seq<Window>, window: nat, overlap: nat, start: nat) {
    ws != [] ==> start == ws[|ws| - 1].start + TokenStep(window, overlap)
  }

  lemma {:induction false} AddTokens(ws: seq<Window>, tokens: nat, window: nat, overlap: nat, start: nat, end: nat)
    requires TokenSteps(ws, tokens, window, overlap) && TokenStart(ws, window, overlap, start)
    requires end == Min(start + Max(window, 1), tokens)
    ensures TokenSteps(ws + [Window(start, end)], tokens, window, overlap)
  {
  }

  /** The plan for a token list; no sum overflows a machine word, because a list
      is never longer than half its range. */
  method TokenWindows(tokens: nat, window: nat, overlap: nat) returns (windows: seq<Window>)
    requires tokens <= ISIZE_MAX && window <= U64_MAX && overlap <= U64_MAX
    ensures tokens == 0 ==> windows == []
    ensures tokens > 0 ==> IsPlan(windows, tokens) && TokenSteps(windows, tokens, window, overlap)
  {
    if tokens == 0 { return []; }
    var width := Max(window, 1);
    var shared := Min(overlap, width / 2);
    var step := width - shared;
    assert step == TokenStep(window, overlap) && width == Max(window, 1);
    windows := [];
    var start := 0;
    while true
      invariant start < tokens && Planned(windows, tokens, start)
      invariant TokenSteps(windows, tokens, window, overlap) && TokenStart(windows, window, overlap, start)
      invariant start > 0 ==> width < tokens
      decreases tokens - start
    {
      assert start + width <= U64_MAX;
      var end := Min(start + width, tokens);
      AddTokens(windows, tokens, window, overlap, start, end);
      if end == tokens {
        AddLast(windows, tokens, start);
        windows := windows + [Window(start, end)];
        return;
      }
      AddWindow(windows, tokens, start, end, start + step);
      windows := windows + [Window(start, end)];
      start := start + step;
    }
  }

  /** Every run of at most one token more than the overlap lies whole in some
      window. */
  lemma {:induction false} TokenRunFits(ws: seq<Window>, tokens: nat, window: nat, overlap: nat, a: nat, b: nat)
    requires IsPlan(ws, tokens) && TokenSteps(ws, tokens, window, overlap)
    requires a <= b <= tokens && b - a <= TokenOverlap(window, overlap) + 1
    ensures Fits(ws, a, b)
  {
    var i := LastStart(ws, tokens, a);
    assert b <= ws[i].end;
  }

  /** The bound is exact: with more than one window a run one token longer falls
      between the first two. */
  lemma {:induction false} TokenRunBoundIsExact(ws: seq<Window>, tokens: nat, window: nat, overlap: nat)
    requires IsPlan(ws, tokens) && TokenSteps(ws, tokens, window, overlap) && tokens > Max(window, 1)
    ensures var a := TokenStep(window, overlap) - 1;
            a + TokenOverlap(window, overlap) + 2 <= tokens && !Fits(ws, a, a + TokenOverlap(window, overlap) + 2)
  {
    forall i | 1 <= i < |ws| ensures ws[i].start >= TokenStep(window, overlap) {
      StartsGrow(ws, tokens, 1, i);
    }
  }

  lemma {:induction false} StartsGrow(ws: seq<Window>, len: nat, i: nat, j: nat)
    requires IsPlan(ws, len) && i <= j < |ws|
    ensures ws[i].start <= ws[j].start
    decreases j - i
  {
    if i < j { StartsGrow(ws, len, i, j - 1); }
  }

  /** The plan in closed form: window `i` starts at `i` steps and is `window` wide,
      or ends with the list, and the first window that reaches the end is the last.
      A step is the window less the overlap, of which at most half a window counts;
      a window of zero counts as one. */
  lemma {:induction false} TokenPlanInClosedForm(ws: seq<Window>, tokens: nat, window: nat, overlap: nat, width: nat,
                                                 step: nat)
    requires IsPlan(ws, tokens) && TokenSteps(ws, tokens, window, overlap)
    requires width == if window == 0 then 1 else window
    requires step == if 2 * overlap <= width then width - overlap else width - width / 2
    ensures forall i :: 0 <= i < |ws| ==> ws[i].start == i * step
    ensures forall i :: 0 <= i < |ws| - 1 ==> ws[i].end == ws[i].start + width < tokens
    ensures ws[|ws| - 1].end == tokens <= ws[|ws| - 1].start + width
  {
    forall i | 0 <= i < |ws| ensures ws[i].start == i * step { TokenStartAt(ws, tokens, window, overlap, step, i); }
    forall i | 0 <= i < |ws| - 1 ensures ws[i].end == ws[i].start + width < tokens {
      var j := i + 1;
      assert ws[i].start < ws[j].start <= ws[i].end < tokens;
    }
  }

  lemma {:induction false} TokenStartAt(ws: seq<Window>, tokens: nat, window: nat, overlap: nat, step: nat, i: nat)
    requires IsPlan(ws, tokens) && TokenSteps(ws, tokens, window, overlap) && i < |ws|
    requires step == TokenStep(window, overlap)
    ensures ws[i].start == i * step
  {
    if i > 0 {
      TokenStartAt(ws, tokens, window, overlap, step, i - 1);
      assert i * step == (i - 1) * step + step;
    }
  }

  // ---- Bytes --------------------------------------------------------------------

  /** `r` is the first character boundary `offset` bytes after `start`, or the
      end of the text when there are fewer bytes. */
  ghost predicate FirstBoundary(s: Text, start: nat, offset: nat, r: nat) {
    && Min(start + offset, |s|) <= r <= |s| && IsBoundary(s, r)
    && forall j :: start + offset <= j < r ==> !IsBoundary(s, j)
  }

  function ByteOverlap(window: nat, overlap: nat): nat { Min(overlap, Max(window, 1) - 1) }

  function ByteStep(window: nat, overlap: nat): (step: nat)
    ensures step >= 1
  {
    Max(window, 1) - ByteOverlap(window, overlap)
  }

  /** Every window reaches to the first boundary `window` bytes on, and the next
      starts at the first boundary one step on. */
  ghost predicate ByteSteps(s: Text, ws: seq<Window>, window: nat, overlap: nat) {
    && (forall i :: 0 <= i < |ws| ==> FirstBoundary(s, ws[i].start, Max(window, 1), ws[i].end))
    && (forall i, j :: 0 <= i < j < |ws| && j == i + 1 ==>
          FirstBoundary(s, ws[i].start, ByteStep(window, overlap), ws[j].start))
  }

  ghost predicate ByteStart(s: Text, ws: seq<Window>, window: nat, overlap: nat, start: nat) {
    ws != [] ==> FirstBoundary(s, ws[|ws| - 1].start, ByteStep(window, overlap), start)
  }

  lemma {:induction false} AddBytes(s: Text, ws: seq<Window>, window: nat, overlap: nat, start: nat, end: nat)
    requires ByteSteps(s, ws, window, overlap) && ByteStart(s, ws, window, overlap, start)
    requires FirstBoundary(s, start, Max(window, 1), end)
    ensures ByteSteps(s, ws + [Window(start, end)], window, overlap)
  {
  }

  ghost predicate OnBoundaries(s: Text, ws: seq<Window>) {
    forall i :: 0 <= i < |ws| ==> IsBoundary(s, ws[i].start) && IsBoundary(s, ws[i].end)
  }

  /** `Planned` and `ByteSteps` for the windows so far. */
  ghost predicate BytesPlanned(s: Text, ws: seq<Window>, window: nat, overlap: nat, start: nat) {
    && Planned(ws, |s|, start)
    && ByteSteps(s, ws, window, overlap) && ByteStart(s, ws, window, overlap, start)
    && OnBoundaries(s, ws) && IsBoundary(s, start)
  }

  lemma {:induction false} LastBytes(s: Text, ws: seq<Window>, window: nat, overlap: nat, start: nat)
    requires BytesPlanned(s, ws, window, overlap, start) && start < |s|
    requires FirstBoundary(s, start, Max(window, 1), |s|)
    ensures var ws' := ws + [Window(start, |s|)];
            IsPlan(ws', |s|) && ByteSteps(s, ws', window, overlap) && OnBoundaries(s, ws')
  {
    AddBytes(s, ws, window, overlap, start, |s|);
    AddLast(ws, |s|, start);
  }

  lemma {:induction false} MoreBytes(s: Text, ws: seq<Window>, window: nat, overlap: nat, start: nat, end: nat,
                                     next: nat)
    requires BytesPlanned(s, ws, window, overlap, start) && start < |s| && end < |s|
    requires FirstBoundary(s, start, Max(window, 1), end)
    requires FirstBoundary(s, start, ByteStep(window, overlap), next)
    ensures start < next <= end && BytesPlanned(s, ws + [Window(start, end)], window, overlap, next)
  {
    AddBytes(s, ws, window, overlap, start, end);
    AddWindow(ws, |s|, start, end, next);
  }

  /** Both alignment loops: forward to the next boundary. */
  method AlignForward(input: Text, start: nat, offset: nat) returns (at: nat)
    ensures FirstBoundary(input, start, offset, at)
  {
    at := Min(start + offset, |input|);
    while at < |input| && !IsBoundary(input, at)
      invariant Min(start + offset, |input|) <= at <= |input|
      invariant forall j :: start + offset <= j < at ==> !IsBoundary(input, j)
    {
      at := at + 1;
    }
  }

  /** The plan for a text, on character boundaries; the `next <= start` exit is
      never taken and no sum overflows a machine word. */
  method ByteWindows(input: Text, window: nat, overlap: nat) returns (windows: seq<Window>)
    requires |input| <= ISIZE_MAX && window <= U64_MAX && overlap <= U64_MAX
    requires IsBoundary(input, 0)
    ensures input == "" ==> windows == []
    ensures input != "" ==> IsPlan(windows, |input|) && ByteSteps(input, windows, window, overlap)
    ensures OnBoundaries(input, windows)
  {
    var len := |input|;
    if len == 0 { return []; }
    var width := Max(window, 1);
    var shared := Min(overlap, width - 1);
    var step := width - shared;
    windows := [];
    var start := 0;
    while true
      invariant start < len && BytesPlanned(input, windows, window, overlap, start)
      invariant start > 0 ==> width < len
      decreases len - start
    {
      assert start + width <= U64_MAX;
      var end := AlignForward(input, start, width);
      if end == len {
        LastBytes(input, windows, window, overlap, start);
        windows := windows + [Window(start, end)];
        return;
      }
      var next := AlignForward(input, start, step);
      MoreBytes(input, windows, window, overlap, start, end, next);
      windows := windows + [Window(start, end)];
      assert !(next <= start);
      start := next;
    }
  }

  /** The plan without helpers: from each start the window reaches to the first
      boundary at least `window` bytes on, and the next one starts at the first
      boundary at least a step on; at most all but one byte of a window overlaps. */
  lemma {:induction false} BytePlanSpelledOut(s: Text, ws: seq<Window>, window: nat, overlap: nat, i: nat)
    requires IsPlan(ws, |s|) && ByteSteps(s, ws, window, overlap) && i + 1 < |ws|
    ensures var full := ws[i].start + if window == 0 then 1 else window;
            full <= ws[i].end && IsBoundary(s, ws[i].end) && forall j :: full <= j < ws[i].end ==> !IsBoundary(s, j)
    ensures var step := ws[i].start + if overlap < window then window - overlap else 1;
            && step <= ws[i + 1].start && IsBoundary(s, ws[i + 1].start)
            && forall j :: step <= j < ws[i + 1].start ==> !IsBoundary(s, j)
  {
    assert FirstBoundary(s, ws[i].start, Max(window, 1), ws[i].end);
    var j := i + 1;
    assert ws[i].start < ws[j].start <= ws[i].end < |s|;
    assert FirstBoundary(s, ws[i].start, ByteStep(window, overlap), ws[j].start);
  }

  /** The last window is the first one with no boundary left behind it. */
  lemma {:induction false} LastByteWindow(s: Text, ws: seq<Window>, window: nat, overlap: nat)
    requires IsPlan(ws, |s|) && ByteSteps(s, ws, window, overlap)
    ensures var full := ws[|ws| - 1].start + if window == 0 then 1 else window;
            ws[|ws| - 1].end == |s| && forall j :: full <= j < |s| ==> !IsBoundary(s, j)
  {
    assert FirstBoundary(s, ws[|ws| - 1].start, Max(window, 1), ws[|ws| - 1].end);
  }

  /** Every character-aligned span of at most one byte more than the overlap lies
      whole in some window. */
  lemma {:induction false} ByteSpanFits(s: Text, ws: seq<Window>, window: nat, overlap: nat, a: nat, b: nat)
    requires IsPlan(ws, |s|) && ByteSteps(s, ws, window, overlap)
    requires IsBoundary(s, a) && a <= b <= |s| && b - a <= ByteOverlap(window, overlap) + 1
    ensures Fits(ws, a, b)
  {
    var i := LastStart(ws, |s|, a);
    if i + 1 < |ws| {
      assert a < ws[i].start + ByteStep(window, overlap);
    }
    assert b <= ws[i].end;
  }

  /** The bound is exact: in a text of single-byte characters with more than one
      window a span one byte longer falls between the first two. */
  lemma {:induction false} ByteSpanBoundIsExact(s: Text, ws: seq<Window>, window: nat, overlap: nat)
    requires IsPlan(ws, |s|) && ByteSteps(s, ws, window, overlap) && |s| > Max(window, 1)
    requires forall i :: 0 <= i <= |s| ==> IsBoundary(s, i)
    ensures var a := ByteStep(window, overlap) - 1;
            a + ByteOverlap(window, overlap) + 2 <= |s| && !Fits(ws, a, a + ByteOverlap(window, overlap) + 2)
  {
    assert ws[0].end == Max(window, 1) by { assert IsBoundary(s, Max(window, 1)); }
    forall i | 1 <= i < |ws| ensures ws[i].start >= ByteStep(window, overlap) {
      assert FirstBoundary(s, ws[0].start, ByteStep(window, overlap), ws[1].start);
      StartsGrow(ws, |s|, 1, i);
    }
  }
}
