/** Why restore finds exactly the tokens sanitize put in: texts woven from
    literal pieces and placeholders (crates/privacy-core/src/lib.rs). */
module Weaving {
  import opened Common
  import opened Placeholder
  import opened Scanner

  /** A text in pieces: literals with one token between each two neighbours. */
  datatype Woven = Last(lit: Text) | Piece(lit: Text, tok: Text, rest: Woven)

  function Weave(w: Woven): Text {
    match w
    case Last(lit) => lit
    case Piece(lit, tok, rest) => lit + tok + Weave(rest)
  }

  /** Prefix-free literals and well-formed placeholders. */
  ghost predicate WellWoven(w: Woven) {
    && !Contains(w.lit, PREFIX)
    && (w.Piece? ==> IsPlaceholder(w.tok) && WellWoven(w.rest))
  }

  function Shift(ps: seq<Range>, off: nat): (r: seq<Range>)
    ensures |r| == |ps|
    ensures forall i :: 0 <= i < |ps| ==> r[i] == Range(ps[i].start + off, ps[i].end + off)
  {
    seq(|ps|, i requires 0 <= i < |ps| => Range(ps[i].start + off, ps[i].end + off))
  }

  /** The token positions of a join, from those of its last part. */
  function JoinSpots(lit: Text, tok: Text, ps: seq<Range>): (r: seq<Range>)
    ensures |r| == |ps| + 1 && r[0] == Range(|lit|, |lit| + |tok|)
    ensures forall i :: 0 < i <= |ps| ==> r[i] == Range(ps[i - 1].start + |lit| + |tok|, ps[i - 1].end + |lit| + |tok|)
  {
    [Range(|lit|, |lit| + |tok|)] + Shift(ps, |lit| + |tok|)
  }

  /** Where the tokens lie in the woven text. */
  function Spots(w: Woven): seq<Range> {
    match w
    case Last(_) => []
    case Piece(lit, tok, rest) => JoinSpots(lit, tok, Spots(rest))
  }

  /** The prefix overlaps itself only in its outermost underscore. */
  lemma PrefixBorder(k: nat)
    requires 1 <= k <= 12 && forall i :: 0 <= i < 13 - k ==> PREFIX[k + i] == PREFIX[i]
    ensures k == 12
  {
    if k < 12 {
      PrefixMismatch(k);
    }
  }

  lemma PrefixMismatch(k: nat)
    requires 1 <= k <= 11
    ensures exists i :: 0 <= i < 13 - k && PREFIX[k + i] != PREFIX[i]
  {
    var i := if k == 1 || k == 4 then 1 else 0;
    assert PREFIX[k + i] != PREFIX[i];
  }

  /** A placeholder cannot start in a prefix-free literal, not even when the
      literal ends in part of the prefix and a token follows. */
  lemma {:induction false} NoTokenInLiteral(lit: Text, rest: Text, r: Range)
    requires !Contains(lit, PREFIX)
    requires rest == "" || (|rest| >= 15 && rest[..13] == PREFIX)
    requires TokenAt(lit + rest, r)
    ensures |lit| <= r.start
  {
    var s := lit + rest;
    TokenShape(s, r);
    if r.start + 13 <= |lit| {
      assert s[r.start..r.start + 13] == lit[r.start..r.start + 13];
      assert OccursAt(lit, PREFIX, r.start);
    } else if r.start < |lit| {
      assert s[|lit|..|lit| + 13] == rest[..13];
      PrefixAgain(s, r.start, |lit|);
      PrefixBorder(|lit| - r.start);
    }
  }

  /** Two overlapping occurrences of the prefix make a border. */
  lemma {:induction false} PrefixAgain(s: Text, i: nat, j: nat)
    requires OccursAt(s, PREFIX, i) && OccursAt(s, PREFIX, j) && i < j < i + 13
    ensures forall x :: 0 <= x < 13 - (j - i) ==> PREFIX[j - i + x] == PREFIX[x]
  {
    var k := j - i;
    forall x | 0 <= x < 13 - k ensures PREFIX[k + x] == PREFIX[x] {
      assert s[i..i + 13][k + x] == s[j + x] == s[j..j + 13][x];
    }
  }

  lemma {:induction false} SliceOfJoin(lit: Text, tok: Text, rest: Text, a: nat, b: nat)
    requires a <= b <= |rest|
    ensures (lit + tok + rest)[|lit| + |tok| + a..|lit| + |tok| + b] == rest[a..b]
    ensures b == |rest| ==> (lit + tok + rest)[|lit| + |tok| + a..] == rest[a..]
  {
  }

  lemma {:induction false} ShiftedToken(lit: Text, tok: Text, rest: Text, x: Range)
    ensures TokenAt(lit + tok + rest, Range(|lit| + |tok| + x.start, |lit| + |tok| + x.end)) <==> TokenAt(rest, x)
  {
    if x.start <= x.end <= |rest| {
      SliceOfJoin(lit, tok, rest, x.start, x.end);
    }
  }

  /** The token positions of a woven text are its leftmost cover, hence (by
      uniqueness) what the scan records. */
  lemma {:induction false} SpotsAreCover(w: Woven)
    requires WellWoven(w)
    ensures LeftmostCover(Weave(w), Spots(w))
  {
    match w
    case Last(lit) => LiteralHasNoToken(lit);
    case Piece(lit, tok, rest) =>
      SpotsAreCover(rest);
      CoverOfJoin(lit, tok, Weave(rest), Spots(rest));
  }

  lemma {:induction false} LiteralHasNoToken(lit: Text)
    requires !Contains(lit, PREFIX)
    ensures LeftmostCover(lit, [])
  {
    assert lit + "" == lit;
    forall r ensures !TokenAt(lit, r) {
      if TokenAt(lit, r) {
        NoTokenInLiteral(lit, "", r);
        TokenShape(lit, r);
      }
    }
  }

  lemma {:induction false} CoverOfJoin(lit: Text, tok: Text, rest: Text, ps: seq<Range>)
    requires !Contains(lit, PREFIX) && IsPlaceholder(tok) && LeftmostCover(rest, ps)
    ensures LeftmostCover(lit + tok + rest, JoinSpots(lit, tok, ps))
  {
    JoinOrdered(lit, tok, ps);
    JoinTokens(lit, tok, rest, ps);
    forall r | TokenAt(lit + tok + rest, r) ensures CoveredBy(r, JoinSpots(lit, tok, ps)) {
      JoinCovers(lit, tok, rest, ps, r);
    }
  }

  lemma {:induction false} JoinOrdered(lit: Text, tok: Text, ps: seq<Range>)
    requires Ordered(ps)
    ensures Ordered(JoinSpots(lit, tok, ps))
  {
  }

  lemma {:induction false} JoinTokens(lit: Text, tok: Text, rest: Text, ps: seq<Range>)
    requires IsPlaceholder(tok) && forall i :: 0 <= i < |ps| ==> TokenAt(rest, ps[i])
    ensures var qs := JoinSpots(lit, tok, ps);
            forall i :: 0 <= i < |qs| ==> TokenAt(lit + tok + rest, qs[i])
  {
    var s, c := lit + tok + rest, |lit| + |tok|;
    var qs := JoinSpots(lit, tok, ps);
    assert s[|lit|..c] == tok;
    forall i | 0 <= i < |qs| ensures TokenAt(s, qs[i]) {
      if i > 0 { ShiftedToken(lit, tok, rest, ps[i - 1]); }
    }
  }

  /** A placeholder of the joined text starts at or in the token, or behind it. */
  lemma {:induction false} JoinStarts(lit: Text, tok: Text, rest: Text, r: Range)
    requires !Contains(lit, PREFIX) && IsPlaceholder(tok) && TokenAt(lit + tok + rest, r)
    ensures |lit| <= r.start
    ensures r.start == |lit| ==> r == Range(|lit|, |lit| + |tok|)
  {
    var s := lit + tok + rest;
    assert s == lit + (tok + rest) && (tok + rest)[..13] == tok[..13];
    NoTokenInLiteral(lit, tok + rest, r);
    if r.start == |lit| {
      assert s[|lit|..|lit| + |tok|] == tok;
      TokenEndUnique(s, r, Range(|lit|, |lit| + |tok|));
    }
  }

  lemma {:induction false} JoinCovers(lit: Text, tok: Text, rest: Text, ps: seq<Range>, r: Range)
    requires !Contains(lit, PREFIX) && IsPlaceholder(tok)
    requires forall x :: TokenAt(rest, x) ==> CoveredBy(x, ps)
    requires TokenAt(lit + tok + rest, r)
    ensures CoveredBy(r, JoinSpots(lit, tok, ps))
  {
    var c := |lit| + |tok|;
    JoinStarts(lit, tok, rest, r);
    if r.start < c {
      assert JoinSpots(lit, tok, ps)[0] == Range(|lit|, c);
    } else {
      ShiftedToken(lit, tok, rest, Range(r.start - c, r.end - c));
      ShiftedCover(lit, tok, ps, r);
    }
  }

  lemma {:induction false} ShiftedCover(lit: Text, tok: Text, ps: seq<Range>, r: Range)
    requires r.start >= |lit| + |tok| && r.end >= |lit| + |tok|
    requires CoveredBy(Range(r.start - |lit| - |tok|, r.end - |lit| - |tok|), ps)
    ensures CoveredBy(r, JoinSpots(lit, tok, ps))
  {
    var x := Range(r.start - |lit| - |tok|, r.end - |lit| - |tok|);
    var i :| 0 <= i < |ps| && (ps[i] == x || ps[i].start < x.start < ps[i].end);
    var q := JoinSpots(lit, tok, ps)[i + 1];
    assert q == r || q.start < r.start < q.end;
  }

  // ---- Substituting into a woven text ---------------------------------------

  lemma {:induction false} JoinInOrder(lit: Text, tok: Text, rest: Text, ps: seq<Range>)
    requires InOrder(rest, ps)
    ensures InOrder(lit + tok + rest, JoinSpots(lit, tok, ps))
  {
    JoinOrdered(lit, tok, ps);
  }

  /** From its `k`-th range on, the list shows the tokens of `w` when `w` starts
      at offset `o`. */
  ghost predicate SpotsAt(w: Woven, o: nat, ps: seq<Range>, k: nat) {
    match w
    case Last(_) => k == |ps|
    case Piece(lit, tok, rest) =>
      && k < |ps|
      && ps[k] == Range(o + |lit|, o + |lit| + |tok|)
      && SpotsAt(rest, o + |lit| + |tok|, ps, k + 1)
  }

  lemma {:induction false} SpotsAtShifted(w: Woven, o: nat, ps: seq<Range>, k: nat, lit: Text, tok: Text)
    requires SpotsAt(w, o, ps, k)
    ensures SpotsAt(w, o + |lit| + |tok|, JoinSpots(lit, tok, ps), k + 1)
  {
    if w.Piece? {
      SpotsAtShifted(w.rest, o + |w.lit| + |w.tok|, ps, k + 1, lit, tok);
    }
  }

  lemma {:induction false} SpotsShowWoven(w: Woven)
    ensures SpotsAt(w, 0, Spots(w), 0)
  {
    if w.Piece? {
      SpotsShowWoven(w.rest);
      SpotsAtShifted(w.rest, 0, Spots(w.rest), 0, w.lit, w.tok);
    }
  }

  lemma {:induction false} SpotsInOrder(w: Woven)
    ensures InOrder(Weave(w), Spots(w))
  {
    if w.Piece? {
      SpotsInOrder(w.rest);
      JoinInOrder(w.lit, w.tok, Weave(w.rest), Spots(w.rest));
    }
  }

  /** Every token swapped for its resolution, or kept when it has none. */
  function Applied(w: Woven, resolve: Text -> Option<Text>): Woven {
    match w
    case Last(lit) => w
    case Piece(lit, tok, rest) =>
      Piece(lit, if resolve(tok).Some? then resolve(tok).value else tok, Applied(rest, resolve))
  }

  lemma {:induction false} SuffixParts(s: Text, o: nat, lit: Text, tok: Text, rest: Text)
    requires o <= |s| && s[o..] == lit + tok + rest
    ensures o + |lit| + |tok| <= |s|
    ensures s[o..o + |lit|] == lit
    ensures s[o + |lit|..o + |lit| + |tok|] == tok
    ensures s[o + |lit| + |tok|..] == rest
  {
    assert forall k :: 0 <= k < |lit + tok + rest| ==> s[o + k] == (lit + tok + rest)[k];
  }

  /** What each listed token is to be replaced by. */
  function Decide(s: Text, ps: seq<Range>, resolve: Text -> Option<Text>): (ds: Decisions)
    requires forall i :: 0 <= i < |ps| ==> ps[i].start <= ps[i].end <= |s|
    ensures |ds| == |ps|
    ensures forall i :: 0 <= i < |ps| ==> ds[i] == resolve(s[ps[i].start..ps[i].end])
  {
    seq(|ps|, i requires 0 <= i < |ps| => resolve(s[ps[i].start..ps[i].end]))
  }

  /** Substituting at the token positions swaps tokens and nothing else. */
  lemma {:induction false} SubstituteWoven(s: Text, ps: seq<Range>, resolve: Text -> Option<Text>, w: Woven, o: nat,
                                           k: nat)
    requires InOrder(s, ps) && k <= |ps| && o <= (if k < |ps| then ps[k].start else |s|)
    requires s[o..] == Weave(w) && SpotsAt(w, o, ps, k)
    ensures Substitute(s, o, ps, Decide(s, ps, resolve), k) == Weave(Applied(w, resolve))
    decreases w
  {
    match w
    case Last(lit) =>
    case Piece(lit, tok, rest) =>
      SuffixParts(s, o, lit, tok, Weave(rest));
      NextInOrder(s, ps, k);
      SubstituteWoven(s, ps, resolve, rest, o + |lit| + |tok|, k + 1);
      assert Decide(s, ps, resolve)[k] == resolve(tok);
      SubstitutePiece(s, ps, Decide(s, ps, resolve), lit, tok, o, k);
  }

  lemma NextInOrder(s: Text, ps: seq<Range>, k: nat)
    requires InOrder(s, ps) && k < |ps|
    ensures ps[k].end <= if k + 1 < |ps| then ps[k + 1].start else |s|
  {
  }

  /** One literal and one token of a substitution. */
  lemma {:induction false} SubstitutePiece(s: Text, ps: seq<Range>, ds: Decisions, lit: Text, tok: Text, o: nat, k: nat)
    requires |ds| == |ps| && InOrder(s, ps) && k < |ps| && ps[k] == Range(o + |lit|, o + |lit| + |tok|)
    requires s[o..o + |lit|] == lit && s[o + |lit|..o + |lit| + |tok|] == tok
    requires ps[k].end <= if k + 1 < |ps| then ps[k + 1].start else |s|
    ensures Substitute(s, o, ps, ds, k)
            == lit + (if ds[k].Some? then ds[k].value else tok) + Substitute(s, ps[k].end, ps, ds, k + 1)
  {
  }

  // ---- Restoring --------------------------------------------------------------

  /** The meaning of restore: the tokens of the leftmost cover are looked up and
      replaced simultaneously. */
  ghost predicate Restores(s: Text, resolve: Text -> Option<Text>, out: Text) {
    exists ps :: RestoresAt(s, ps, resolve, out)
  }

  ghost predicate RestoresAt(s: Text, ps: seq<Range>, resolve: Text -> Option<Text>, out: Text) {
    && LeftmostCover(s, ps)
    && InOrder(s, ps)
    && out == Substitute(s, 0, ps, Decide(s, ps, resolve), 0)
  }

  /** Restore is a function of the text and the vault's answers. */
  lemma RestoresUnique(s: Text, resolve: Text -> Option<Text>, out1: Text, out2: Text)
    requires Restores(s, resolve, out1) && Restores(s, resolve, out2)
    ensures out1 == out2
  {
    var p :| RestoresAt(s, p, resolve, out1);
    var q :| RestoresAt(s, q, resolve, out2);
    CoverUnique(s, p, q);
  }

  /** Restoring a woven text looks up exactly its tokens. */
  lemma {:induction false} RestoreWoven(w: Woven, resolve: Text -> Option<Text>, out: Text)
    requires WellWoven(w) && Restores(Weave(w), resolve, out)
    ensures out == Weave(Applied(w, resolve))
  {
    var s := Weave(w);
    var ps :| RestoresAt(s, ps, resolve, out);
    assert ps == Spots(w) by {
      SpotsAreCover(w);
      CoverUnique(s, ps, Spots(w));
    }
    SpotsShowWoven(w);
    assert s[0..] == s;
    SubstituteWoven(s, ps, resolve, w, 0, 0);
  }

  /** A woven text can be restored. */
  lemma {:induction false} WovenRestores(w: Woven, resolve: Text -> Option<Text>) returns (out: Text)
    requires WellWoven(w)
    ensures Restores(Weave(w), resolve, out)
  {
    var s, ps := Weave(w), Spots(w);
    SpotsAreCover(w);
    CoverInOrder(s, ps);
    out := Substitute(s, 0, ps, Decide(s, ps, resolve), 0);
    assert RestoresAt(s, ps, resolve, out);
  }
}
