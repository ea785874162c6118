/** The placeholder scan and the reverse in-place replacement of
    `PrivacyPipeline::restore` (crates/privacy-core/src/lib.rs). */
module Scanner {
  import opened Common
  import opened Placeholder

  /** A half-open byte range. */
  datatype Range = Range(start: nat, end: nat)

  /** `r` is an occurrence of a well-formed placeholder in `s`. */
  predicate TokenAt(s: Text, r: Range) {
    r.start <= r.end <= |s| && IsPlaceholder(s[r.start..r.end])
  }

  ghost predicate Ordered(ps: seq<Range>) {
    forall i, j :: 0 <= i < j < |ps| ==> ps[i].end <= ps[j].start
  }

  /** `r` is in the list, or starts inside a listed token that starts earlier. */
  ghost predicate CoveredBy(r: Range, ps: seq<Range>) {
    exists i :: 0 <= i < |ps| && (ps[i] == r || ps[i].start < r.start < ps[i].end)
  }

  /** The meaning of a scan: the listed ranges are disjoint placeholder
      occurrences in order, and no occurrence is missed unless it overlaps an
      earlier listed one. */
  ghost predicate LeftmostCover(s: Text, ps: seq<Range>) {
    && (forall i :: 0 <= i < |ps| ==> TokenAt(s, ps[i]))
    && Ordered(ps)
    && forall r :: TokenAt(s, r) ==> CoveredBy(r, ps)
  }

  lemma {:induction false} DelimiterChars(s: Text, j: int)
    requires 0 <= j
    ensures OccursAt(s, DELIMITER, j) <==> j + 1 < |s| && s[j] == '_' && s[j + 1] == '_'
  {
    if j + 1 < |s| {
      assert s[j..j + 2] == [s[j], s[j + 1]];
    }
  }

  /** The opening delimiter of an occurrence is an occurrence of the prefix,
      its first inner character is alphanumeric, and its closing delimiter is
      the first `__` after the prefix. */
  lemma {:induction false} TokenShape(s: Text, r: Range)
    requires TokenAt(s, r)
    ensures OccursAt(s, PREFIX, r.start) && r.start + 16 <= r.end
    ensures IsAlnum(s[r.start + 13])
    ensures OccursAt(s, DELIMITER, r.end - 2)
    ensures forall j :: r.start + 13 <= j < r.end - 2 ==> !OccursAt(s, DELIMITER, j)
  {
    var t := s[r.start..r.end];
    assert t[..13] == s[r.start..r.start + 13];
    assert t[|t| - 2..] == s[r.end - 2..r.end];
    var inner := Inner(t);
    assert forall k :: 0 <= k < |inner| ==> inner[k] == s[r.start + 13 + k];
    forall j | r.start + 13 <= j < r.end - 2 ensures !OccursAt(s, DELIMITER, j) {
      var k := j - r.start - 13;
      assert inner[k] == s[j];
      assert k + 1 < |inner| ==> inner[k + 1] == s[j + 1];
      DelimiterChars(s, j);
    }
  }

  /** Where a placeholder starts determines where it ends. */
  lemma {:induction false} TokenEndUnique(s: Text, a: Range, b: Range)
    requires TokenAt(s, a) && TokenAt(s, b) && a.start == b.start
    ensures a == b
  {
    TokenShape(s, a);
    TokenShape(s, b);
  }

  ghost predicate NonEmpty(ps: seq<Range>) {
    forall i :: 0 <= i < |ps| ==> ps[i].start < ps[i].end
  }

  /** Each list covers the other, and a range is fixed by its start. */
  ghost predicate Rivals(ps: seq<Range>, qs: seq<Range>) {
    && Ordered(ps) && NonEmpty(ps)
    && (forall i: nat :: CoveredAt(ps, qs, i))
    && (forall i, j :: 0 <= i < |ps| && 0 <= j < |qs| && ps[i].start == qs[j].start ==> ps[i] == qs[j])
  }

  ghost predicate CoveredAt(ps: seq<Range>, qs: seq<Range>, i: nat) {
    i < |ps| ==> CoveredBy(ps[i], qs)
  }

  lemma {:induction false} CoversAreRivals(s: Text, ps: seq<Range>, qs: seq<Range>)
    requires LeftmostCover(s, ps) && LeftmostCover(s, qs)
    ensures Rivals(ps, qs)
  {
    forall i | 0 <= i < |ps| ensures ps[i].start < ps[i].end { TokenShape(s, ps[i]); }
    forall i, j | 0 <= i < |ps| && 0 <= j < |qs| && ps[i].start == qs[j].start ensures ps[i] == qs[j] {
      TokenEndUnique(s, ps[i], qs[j]);
    }
  }

  /** Where two lists agree before position `k` and the first list's next range
      is covered by the second list, the second list continues no later. */
  lemma {:induction false} CoverContinues(ps: seq<Range>, qs: seq<Range>, k: nat)
    requires Ordered(ps) && Ordered(qs) && NonEmpty(ps) && NonEmpty(qs)
    requires k < |ps| && k <= |qs| && (forall i :: 0 <= i < k ==> ps[i] == qs[i])
    requires CoveredBy(ps[k], qs)
    ensures k < |qs| && qs[k].start <= ps[k].start
  {
    var i :| 0 <= i < |qs| && (qs[i] == ps[k] || qs[i].start < ps[k].start < qs[i].end);
    assert forall j :: 0 <= j < k ==> qs[j].end <= ps[k].start;
    assert k <= i;
    assert k < i ==> qs[k].end <= qs[i].start;
  }

  ghost predicate AgreeTo(ps: seq<Range>, qs: seq<Range>, k: nat) {
    k <= |ps| && k <= |qs| && forall i :: 0 <= i < k ==> ps[i] == qs[i]
  }

  lemma {:induction false} NextAgrees(ps: seq<Range>, qs: seq<Range>, k: nat)
    requires Rivals(ps, qs) && Rivals(qs, ps) && AgreeTo(ps, qs, k) && k < |ps|
    ensures k < |qs| && ps[k] == qs[k]
  {
    assert CoveredAt(ps, qs, k) && CoveredAt(qs, ps, k);
    CoverContinues(ps, qs, k);
    CoverContinues(qs, ps, k);
  }

  lemma {:induction false} RivalsAgree(ps: seq<Range>, qs: seq<Range>, k: nat)
    requires Rivals(ps, qs) && Rivals(qs, ps) && k <= |ps|
    ensures AgreeTo(ps, qs, k)
  {
    if k > 0 {
      RivalsAgree(ps, qs, k - 1);
      NextAgrees(ps, qs, k - 1);
    }
  }

  /** A text has exactly one leftmost cover, so the scan's meaning fixes its
      result. */
  lemma {:induction false} CoverUnique(s: Text, ps: seq<Range>, qs: seq<Range>)
    requires LeftmostCover(s, ps) && LeftmostCover(s, qs)
    ensures ps == qs
  {
    CoversAreRivals(s, ps, qs);
    CoversAreRivals(s, qs, ps);
    RivalsAgree(ps, qs, |ps|);
    RivalsAgree(qs, ps, |qs|);
  }

  /** Everything that can start before `index` has been dealt with. */
  ghost predicate CoveredBelow(s: Text, ps: seq<Range>, index: nat) {
    forall r :: TokenAt(s, r) && r.start < index ==> CoveredBy(r, ps)
  }

  /** The scan so far: recorded ranges are disjoint placeholders on character
      boundaries that end by `index`, and nothing before `index` is missed. */
  ghost predicate Scanned(s: Text, ps: seq<Range>, index: nat) {
    && (forall i :: 0 <= i < |ps| ==> Recordable(s, ps[i]) && ps[i].end <= index)
    && Ordered(ps)
    && CoveredBelow(s, ps, index)
  }

  ghost predicate Recordable(s: Text, r: Range) {
    TokenAt(s, r) && IsBoundary(s, r.start) && IsBoundary(s, r.end)
  }

  /** No occurrence starts where the prefix does not occur, so an index may move
      over a stretch without prefixes. */
  lemma {:induction false} SkipGap(s: Text, ps: seq<Range>, index: nat, next: nat)
    requires Scanned(s, ps, index) && index <= next
    requires forall j :: index <= j < next ==> !OccursAt(s, PREFIX, j)
    ensures Scanned(s, ps, next)
  {
    forall r | TokenAt(s, r) && r.start < next ensures CoveredBy(r, ps) {
      TokenShape(s, r);
    }
  }

  /** Without a closing delimiter after this prefix no later occurrence starts
      within the prefix either. */
  lemma {:induction false} SkipUnclosed(s: Text, ps: seq<Range>, start: nat)
    requires Scanned(s, ps, start)
    requires forall j :: start + 13 <= j ==> !OccursAt(s, DELIMITER, j)
    ensures Scanned(s, ps, start + 13)
  {
    forall r | TokenAt(s, r) && r.start < start + 13 ensures CoveredBy(r, ps) {
      TokenShape(s, r);
    }
  }

  /** A malformed candidate: no occurrence starts at this prefix at all. */
  lemma {:induction false} SkipMalformed(s: Text, ps: seq<Range>, start: nat, end: nat)
    requires Scanned(s, ps, start)
    requires start + 15 <= end <= |s| && OccursAt(s, DELIMITER, end - 2)
    requires forall j :: start + 13 <= j < end - 2 ==> !OccursAt(s, DELIMITER, j)
    requires !IsPlaceholder(s[start..end])
    ensures Scanned(s, ps, start + 1)
  {
    forall r | TokenAt(s, r) && r.start < start + 1 ensures CoveredBy(r, ps) {
      TokenShape(s, r);
    }
  }

  /** A recorded token covers every occurrence that starts inside it. */
  lemma {:induction false} Record(s: Text, ps: seq<Range>, start: nat, end: nat)
    requires Scanned(s, ps, start) && Recordable(s, Range(start, end))
    ensures Scanned(s, ps + [Range(start, end)], end)
  {
    var qs := ps + [Range(start, end)];
    forall r | TokenAt(s, r) && r.start < end ensures CoveredBy(r, qs) {
      if r.start < start {
        var i :| 0 <= i < |ps| && (ps[i] == r || ps[i].start < r.start < ps[i].end);
        assert qs[i] == ps[i];
      } else {
        if r.start == start { TokenEndUnique(s, r, Range(start, end)); }
        assert qs[|ps|] == Range(start, end);
      }
    }
  }

  /** The prefix and the delimiter are ASCII, so the scan slices at character
      boundaries only. */
  lemma {:induction false} AsciiBoundaries(s: Text, i: nat)
    requires Utf8Shaped(s)
    ensures OccursAt(s, PREFIX, i) ==> IsBoundary(s, i) && IsBoundary(s, i + 1) && IsBoundary(s, i + 13)
    ensures OccursAt(s, DELIMITER, i) ==> IsBoundary(s, i + 2)
  {
    if OccursAt(s, PREFIX, i) {
      assert s[i] == s[i..i + 13][0] && s[i + 12] == s[i..i + 13][12];
    }
    DelimiterChars(s, i);
  }

  /** The scan loop. Its result is the leftmost cover of the text, its budget of
      `|s| + 1` passes never runs out, and every offset it slices at is a
      character boundary, so neither the fail-closed exit nor the `break` for a
      split character is reachable. */
  method Scan(s: Text) returns (positions: seq<Range>)
    requires Utf8Shaped(s)
    ensures LeftmostCover(s, positions)
    ensures forall i :: 0 <= i < |positions| ==> Recordable(s, positions[i])
  {
    positions := [];
    var index := 0;
    var passesLeft := |s| + 1;
    while true
      invariant 0 <= index <= |s| && IsBoundary(s, index)
      invariant passesLeft + index >= |s| + 1
      invariant Scanned(s, positions, index)
      decreases |s| - index
    {
      var found := Find(s, PREFIX, index);
      if found.None? {
        SkipGap(s, positions, index, |s| + 1);
        break;
      }
      assert passesLeft > 0;
      passesLeft := passesLeft - 1;
      SkipGap(s, positions, index, found.value);
      positions, index := ScanPrefix(s, positions, found.value);
    }
    AllCovered(s, positions);
  }

  /** One pass: what the scan does with the prefix occurrence at `start`. */
  method ScanPrefix(s: Text, positions: seq<Range>, start: nat) returns (positions': seq<Range>, index: nat)
    requires Utf8Shaped(s) && OccursAt(s, PREFIX, start) && Scanned(s, positions, start)
    ensures start < index <= |s| && IsBoundary(s, index)
    ensures Scanned(s, positions', index)
  {
    AsciiBoundaries(s, start);
    var afterPrefix := start + |PREFIX|;
    assert IsBoundary(s, afterPrefix);
    var close := Find(s, DELIMITER, afterPrefix);
    if close.None? {
      SkipUnclosed(s, positions, start);
      return positions, afterPrefix;
    }
    var end := close.value + 2;
    AsciiBoundaries(s, close.value);
    if IsPlaceholder(s[start..end]) {
      Record(s, positions, start, end);
      return positions + [Range(start, end)], end;
    } else {
      SkipMalformed(s, positions, start, end);
      return positions, start + 1;
    }
  }

  lemma {:induction false} AllCovered(s: Text, ps: seq<Range>)
    requires Scanned(s, ps, |s| + 1)
    ensures LeftmostCover(s, ps)
  {
  }

  // ---- Replacement -------------------------------------------------------

  /** One decision per position: the text to put there, or nothing. */
  type Decisions = seq<Option<Text>>

  /** The ranges are in bounds, disjoint and in order. */
  ghost predicate InOrder(s: Text, ps: seq<Range>) {
    (forall i :: 0 <= i < |ps| ==> ps[i].start <= ps[i].end <= |s|) && Ordered(ps)
  }

  /** What a range becomes. */
  function Put(s: Text, r: Range, d: Option<Text>): Text
    requires r.start <= r.end <= |s|
  {
    if d.Some? then d.value else s[r.start..r.end]
  }

  /** Simultaneous substitution: the text from `from` on, with every range from
      the `i`-th on whose decision is present replaced, and nothing rescanned. */
  ghost function Substitute(s: Text, from: nat, ps: seq<Range>, ds: Decisions, i: nat): Text
    requires |ds| == |ps| && InOrder(s, ps) && i <= |ps|
    requires from <= if i < |ps| then ps[i].start else |s|
    decreases |ps| - i
  {
    if i == |ps| then s[from..]
    else s[from..ps[i].start] + Put(s, ps[i], ds[i]) + Substitute(s, ps[i].end, ps, ds, i + 1)
  }

  lemma {:induction false} CoverInOrder(s: Text, ps: seq<Range>)
    requires LeftmostCover(s, ps)
    ensures InOrder(s, ps)
  {
    forall i | 0 <= i < |ps| ensures ps[i].start <= ps[i].end <= |s| {
      assert TokenAt(s, ps[i]);
    }
  }

  lemma {:induction false} SplitSlice(s: Text, a: nat, b: nat, c: nat)
    requires a <= b <= c <= |s|
    ensures s[a..c] == s[a..b] + s[b..c]
  {
  }

  /** A substitution can start earlier: the text in front is kept. */
  lemma {:induction false} SubstituteFromEarlier(s: Text, from: nat, to: nat, ps: seq<Range>, ds: Decisions, i: nat)
    requires |ds| == |ps| && InOrder(s, ps) && i <= |ps|
    requires from <= to <= if i < |ps| then ps[i].start else |s|
    ensures Substitute(s, from, ps, ds, i) == s[from..to] + Substitute(s, to, ps, ds, i)
  {
    if i == |ps| {
      SplitSlice(s, from, to, |s|);
    } else {
      SplitSlice(s, from, to, ps[i].start);
      var rest := Substitute(s, ps[i].end, ps, ds, i + 1);
      ConcatFour(s[from..to], s[to..ps[i].start], Put(s, ps[i], ds[i]), rest);
    }
  }

  /** The reverse `replace_range` loop edits the output in place from the last
      position to the first; the result is the simultaneous substitution. */
  method ReplaceAll(s: Text, ps: seq<Range>, ds: Decisions) returns (output: Text)
    requires |ds| == |ps| && InOrder(s, ps)
    ensures output == Substitute(s, 0, ps, ds, 0)
  {
    output := s;
    var i := |ps|;
    while i > 0
      invariant 0 <= i <= |ps|
      invariant output == s[..Bound(s, ps, i)] + Substitute(s, Bound(s, ps, i), ps, ds, i)
    {
      i := i - 1;
      ReplaceStep(s, ps, ds, i, output);
      if ds[i].Some? {
        output := output[..ps[i].start] + ds[i].value + output[ps[i].end..];
      }
    }
    SubstituteFromEarlier(s, 0, Bound(s, ps, 0), ps, ds, 0);
  }

  /** Where the untouched front of the output ends before range `i`. */
  ghost function Bound(s: Text, ps: seq<Range>, i: nat): (b: nat)
    requires InOrder(s, ps) && i <= |ps|
    ensures b <= |s|
  {
    if i < |ps| then ps[i].start else |s|
  }

  /** One replacement, before it is made: the output still holds the original
      text up to and including range `i`. */
  lemma {:induction false} ReplaceStep(s: Text, ps: seq<Range>, ds: Decisions, i: nat, output: Text)
    requires |ds| == |ps| && i < |ps| && InOrder(s, ps)
    requires output == s[..Bound(s, ps, i + 1)] + Substitute(s, Bound(s, ps, i + 1), ps, ds, i + 1)
    ensures ps[i].end <= |output|
    ensures (if ds[i].Some? then output[..ps[i].start] + ds[i].value + output[ps[i].end..] else output)
            == s[..ps[i].start] + Substitute(s, ps[i].start, ps, ds, i)
  {
    var r, bound := ps[i], Bound(s, ps, i + 1);
    var rest := Substitute(s, bound, ps, ds, i + 1);
    AroundRange(s, r, bound, rest, output);
    assert Substitute(s, r.end, ps, ds, i + 1) == s[r.end..bound] + rest by {
      SubstituteFromEarlier(s, r.end, bound, ps, ds, i + 1);
    }
    assert Substitute(s, r.start, ps, ds, i) == Put(s, r, ds[i]) + output[r.end..] by {
      assert s[r.start..r.start] == [];
    }
    ConcatThree(s[..r.start], Put(s, r, ds[i]), output[r.end..]);
  }

  lemma {:induction false} AroundRange(s: Text, r: Range, bound: nat, rest: Text, output: Text)
    requires r.start <= r.end <= bound <= |s| && output == s[..bound] + rest
    ensures r.end <= |output| && output[..r.start] == s[..r.start]
    ensures output[r.end..] == s[r.end..bound] + rest
    ensures output == s[..r.start] + s[r.start..r.end] + output[r.end..]
  {
  }
}
