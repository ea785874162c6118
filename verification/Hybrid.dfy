/** The merge of two detectors: the primary's spans take precedence, the
    secondary's compete by length (crates/detector-hybrid/src/lib.rs). */
module Hybrid {
  import opened Common
  import opened Sorting
  import opened Spans

  predicate Touches(kept: seq<Entity>, e: Entity) {
    exists k :: 0 <= k < |kept| && Overlap(kept[k], e)
  }

  /** The length of the longest kept span that `e` overlaps. */
  function LongestTouching(kept: seq<Entity>, e: Entity): (r: Option<nat>)
    ensures r.Some? <==> Touches(kept, e)
    ensures r.Some? ==> forall k :: 0 <= k < |kept| && Overlap(kept[k], e) ==> Len(kept[k]) <= r.value
    ensures r.Some? ==> exists k :: 0 <= k < |kept| && Overlap(kept[k], e) && Len(kept[k]) == r.value
  {
    if kept == [] then None
    else
      var n := |kept| - 1;
      var r := LongestTouching(kept[..n], e);
      assert forall k :: 0 <= k < n ==> kept[..n][k] == kept[k];
      if Overlap(kept[n], e) && (r.None? || Len(kept[n]) >= r.value) then Some(Len(kept[n])) else r
  }

  /** The spans `e` does not overlap, in order (`retain`). */
  function Without(kept: seq<Entity>, e: Entity): (r: seq<Entity>)
    ensures !Touches(r, e)
    ensures forall x :: x in r <==> x in kept && !Overlap(x, e)
    ensures !Touches(kept, e) ==> r == kept
  {
    if kept == [] then []
    else
      var n := |kept| - 1;
      assert kept == kept[..n] + [kept[n]];
      assert forall k :: 0 <= k < n ==> kept[k] == kept[..n][k];
      if Overlap(kept[n], e) then Without(kept[..n], e) else Without(kept[..n], e) + [kept[n]]
  }

  /** The kept secondaries after one more candidate. */
  function Compete(primary: seq<Entity>, kept: seq<Entity>, e: Entity): seq<Entity> {
    if Touches(primary, e) then kept
    else
      match LongestTouching(kept, e)
      case None => kept + [e]
      case Some(longest) => if Len(e) > longest then Without(kept, e) + [e] else kept
  }

  function Kept(primary: seq<Entity>, secondary: seq<Entity>): seq<Entity> {
    if secondary == [] then []
    else Compete(primary, Kept(primary, secondary[..|secondary| - 1]), secondary[|secondary| - 1])
  }

  lemma {:induction false} WithoutPrefix(primary: seq<Entity>, kept: seq<Entity>, e: Entity)
    requires !Touches(primary, e)
    ensures Without(primary + kept, e) == primary + Without(kept, e)
  {
    if kept == [] {
      assert primary + kept == primary;
    } else {
      var n := |kept| - 1;
      WithoutPrefix(primary, kept[..n], e);
      assert (primary + kept)[..|primary + kept| - 1] == primary + kept[..n];
    }
  }

  // ---- What the merge keeps -----------------------------------------------------------

  ghost predicate Apart(es: seq<Entity>) {
    forall i, j :: 0 <= i < j < |es| ==> !Overlap(es[i], es[j])
  }

  lemma {:induction false} WithoutApart(kept: seq<Entity>, e: Entity)
    requires Apart(kept)
    ensures Apart(Without(kept, e))
  {
    if kept != [] {
      var n := |kept| - 1;
      var rest := Without(kept[..n], e);
      WithoutApart(kept[..n], e);
      forall i | 0 <= i < |rest| ensures !Overlap(rest[i], kept[n]) {
        assert rest[i] in rest;
        var k :| 0 <= k < n && kept[..n][k] == rest[i];
      }
    }
  }

  /** Kept secondaries are reported secondaries that overlap neither the primary
      spans nor each other, after every candidate. */
  lemma {:induction false} KeptIsApart(primary: seq<Entity>, secondary: seq<Entity>)
    ensures Apart(Kept(primary, secondary))
    ensures forall x :: x in Kept(primary, secondary) ==> x in secondary && !Touches(primary, x)
  {
    if secondary != [] {
      var n := |secondary| - 1;
      var kept, e := Kept(primary, secondary[..n]), secondary[n];
      KeptIsApart(primary, secondary[..n]);
      WithoutApart(kept, e);
    }
  }

  /** A candidate that overlaps a kept span can be measured, and so can that span. */
  lemma {:induction false} ContestIsMeasurable(primary: seq<Entity>, secondary: seq<Entity>, n: nat)
    requires forall i, j :: 0 <= i < |secondary| && 0 <= j < |secondary| && i != j ==>
               Overlap(secondary[i], secondary[j]) ==> secondary[i].start <= secondary[i].end
    requires n < |secondary|
    requires Touches(Kept(primary, secondary[..n]), secondary[n])
    ensures secondary[n].start <= secondary[n].end
    ensures forall k :: k in Kept(primary, secondary[..n]) && Overlap(k, secondary[n]) ==> k.start <= k.end
  {
    var kept := Kept(primary, secondary[..n]);
    KeptIsApart(primary, secondary[..n]);
    forall k | k in kept && Overlap(k, secondary[n])
      ensures k.start <= k.end && secondary[n].start <= secondary[n].end {
      var j :| 0 <= j < n && secondary[..n][j] == k;
      assert secondary[j] == k && Overlap(secondary[n], secondary[j]);
    }
    var i :| 0 <= i < |kept| && Overlap(kept[i], secondary[n]);
    assert kept[i] in kept;
  }

  // ---- The merge ------------------------------------------------------------------------

  /** The two parts of the list, and what pushing and displacing do to it. */
  lemma {:induction false} ListParts(primary: seq<Entity>, kept: seq<Entity>, e: Entity)
    ensures (primary + kept)[..|primary|] == primary && (primary + kept)[|primary|..] == kept
    ensures primary + kept + [e] == primary + (kept + [e])
    ensures !Touches(primary, e) ==> Without(primary + kept, e) + [e] == primary + (Without(kept, e) + [e])
  {
    if !Touches(primary, e) { WithoutPrefix(primary, kept, e); }
  }

  lemma KeptNext(primary: seq<Entity>, secondary: seq<Entity>, n: nat)
    requires n < |secondary|
    ensures Kept(primary, secondary[..n + 1]) == Compete(primary, Kept(primary, secondary[..n]), secondary[n])
  {
    assert secondary[..n + 1][..n] == secondary[..n];
  }

  /** The merge: the primary list stays an untouched prefix while secondaries
      displace one another behind it. Secondaries that overlap another one end no
      earlier than they start, so no length the source computes by subtraction
      underflows. */
  method Detect(primary: seq<Entity>, secondary: seq<Entity>) returns (entities: seq<Entity>)
    requires forall i, j :: 0 <= i < |secondary| && 0 <= j < |secondary| && i != j ==>
               Overlap(secondary[i], secondary[j]) ==> secondary[i].start <= secondary[i].end
    ensures entities == primary + Kept(primary, secondary)
  {
    entities := primary;
    var primaryLen := |entities|;
    ghost var kept := [];
    for n := 0 to |secondary|
      invariant kept == Kept(primary, secondary[..n]) && entities == primary + kept
    {
      var entity := secondary[n];
      ListParts(primary, kept, entity);
      KeptNext(primary, secondary, n);
      if !Touches(entities[..primaryLen], entity) {
        if Touches(entities[primaryLen..], entity) { ContestIsMeasurable(primary, secondary, n); }
        match LongestTouching(entities[primaryLen..], entity)
        case None => entities := entities + [entity];
        case Some(longest) =>
          if entity.end - entity.start > longest {
            entities := Without(entities, entity);
            entities := entities + [entity];
          }
      }
      kept := Compete(primary, kept, entity);
    }
    assert secondary[..|secondary|] == secondary;
  }

  ghost predicate Eligible(primary: seq<Entity>, secondary: seq<Entity>, i: nat) {
    i < |secondary| && !Touches(primary, secondary[i])
  }

  /** No eligible secondary is longer, and every earlier one is shorter. */
  ghost predicate FirstLongest(primary: seq<Entity>, secondary: seq<Entity>, i: nat) {
    && Eligible(primary, secondary, i)
    && forall j: nat :: j != i && Eligible(primary, secondary, j) ==>
         Len(secondary[j]) <= Len(secondary[i]) && (j < i ==> Len(secondary[j]) < Len(secondary[i]))
  }

  lemma {:induction false} KeptIsEligible(primary: seq<Entity>, secondary: seq<Entity>, x: Entity)
    requires x in Kept(primary, secondary)
    ensures exists j: nat :: Eligible(primary, secondary, j) && secondary[j] == x
  {
    KeptIsApart(primary, secondary);
    var j :| 0 <= j < |secondary| && secondary[j] == x;
    assert Eligible(primary, secondary, j);
  }

  /** The first longest secondary that overlaps no primary span is always kept. */
  lemma {:induction false} FirstLongestIsKept(primary: seq<Entity>, secondary: seq<Entity>, i: nat)
    requires FirstLongest(primary, secondary, i)
    ensures secondary[i] in Kept(primary, secondary)
    decreases |secondary|
  {
    var n := |secondary| - 1;
    var kept, e := Kept(primary, secondary[..n]), secondary[n];
    forall x | x in kept ensures Len(x) <= Len(secondary[i]) && (i == n ==> Len(x) < Len(secondary[i])) {
      KeptIsEligible(primary, secondary[..n], x);
      var j: nat :| Eligible(primary, secondary[..n], j) && secondary[..n][j] == x;
      assert Eligible(primary, secondary, j);
    }
    if i < n {
      FirstLongestIsKept(primary, secondary[..n], i);
    }
  }

  ghost predicate Outdone(primary: seq<Entity>, secondary: seq<Entity>, i: nat)
    requires i < |secondary|
  {
    exists j: nat :: Eligible(primary, secondary, j) && Overlap(secondary[i], secondary[j]) && Stronger(secondary, j, i)
  }

  lemma {:induction false} OutdoneInPrefix(primary: seq<Entity>, secondary: seq<Entity>, n: nat, i: nat)
    requires i < n <= |secondary| && Outdone(primary, secondary[..n], i)
    ensures Outdone(primary, secondary, i)
  {
    var j: nat :| Eligible(primary, secondary[..n], j) && Overlap(secondary[..n][i], secondary[..n][j])
      && Stronger(secondary[..n], j, i);
    assert Eligible(primary, secondary, j) && Overlap(secondary[i], secondary[j]) && Stronger(secondary, j, i);
  }

  /** A dropped secondary overlaps a primary span or a reported secondary with
      precedence over it. */
  lemma {:induction false} DroppedBecause(primary: seq<Entity>, secondary: seq<Entity>, i: nat)
    requires i < |secondary| && secondary[i] !in Kept(primary, secondary)
    ensures Touches(primary, secondary[i]) || Outdone(primary, secondary, i)
    decreases |secondary|
  {
    var n := |secondary| - 1;
    var kept, e := Kept(primary, secondary[..n]), secondary[n];
    if Touches(primary, secondary[i]) {
    } else if i == n {
      var k :| 0 <= k < |kept| && Overlap(kept[k], e) && Len(kept[k]) >= Len(e);
      KeptIsEligible(primary, secondary[..n], kept[k]);
      var j: nat :| Eligible(primary, secondary[..n], j) && secondary[..n][j] == kept[k];
      assert Eligible(primary, secondary, j) && Stronger(secondary, j, i);
    } else if secondary[i] !in kept {
      DroppedBecause(primary, secondary[..n], i);
      OutdoneInPrefix(primary, secondary, n, i);
    } else {
      assert secondary[i] !in Without(kept, e);
      assert Eligible(primary, secondary, n) && Stronger(secondary, n, i);
    }
  }

  /** The secondaries that overlap no primary span, in order. */
  function Untouched(primary: seq<Entity>, secondary: seq<Entity>): (r: seq<Entity>)
    ensures forall i :: 0 <= i < |r| ==> !Touches(primary, r[i])
  {
    if secondary == [] then []
    else
      var n := |secondary| - 1;
      var front := Untouched(primary, secondary[..n]);
      if Touches(primary, secondary[n]) then front else front + [secondary[n]]
  }

  /** Secondaries that overlap a primary span have no effect, and the others
      compete as if there were no primary. */
  lemma {:induction false} TouchedHaveNoEffect(primary: seq<Entity>, secondary: seq<Entity>)
    ensures Kept(primary, secondary) == Kept([], Untouched(primary, secondary))
  {
    if secondary != [] {
      var n := |secondary| - 1;
      TouchedHaveNoEffect(primary, secondary[..n]);
      if !Touches(primary, secondary[n]) {
        var front := Untouched(primary, secondary[..n]);
        assert (front + [secondary[n]])[..|front|] == front;
      }
    }
  }

  // ---- Resolving the merged list ---------------------------------------------------------

  /** Showing every position once keeps the multiset. */
  lemma {:induction false} PositionsMultiset(es: seq<Entity>, at: seq<nat>, out: seq<Entity>)
    requires |out| == |at| && forall i :: 0 <= i < |at| ==> at[i] < |es| && out[i] == es[at[i]]
    requires forall i, j :: 0 <= i < j < |at| ==> at[i] != at[j]
    requires forall v: nat :: v < |es| ==> Hits(at, v)
    ensures multiset(out) == multiset(es)
  {
    if es != [] {
      var n := |es| - 1;
      assert Hits(at, n);
      var p :| 0 <= p < |at| && at[p] == n;
      var at', out' := Dropped(at, p), Dropped(out, p);
      assert forall v: nat :: v < n ==> Hits(at', v) by { StillHit(at, p, n); }
      forall i | 0 <= i < |at'| ensures at'[i] < n && out'[i] == es[..n][at'[i]] {
        assert at[p] == n;
      }
      PositionsMultiset(es[..n], at', out');
      DroppedMultiset(out, p);
      assert es == es[..n] + [es[n]];
    }
  }

  function Dropped<T>(s: seq<T>, p: nat): (r: seq<T>)
    requires p < |s|
    ensures |r| == |s| - 1
    ensures forall i :: 0 <= i < |r| ==> r[i] == s[if i < p then i else i + 1]
  {
    s[..p] + s[p + 1..]
  }

  lemma DroppedMultiset<T>(s: seq<T>, p: nat)
    requires p < |s|
    ensures multiset(s) == multiset(Dropped(s, p)) + multiset{s[p]}
  {
    assert s == s[..p] + [s[p]] + s[p + 1..];
  }

  lemma {:induction false} StillHit(at: seq<nat>, p: nat, n: nat)
    requires p < |at| && at[p] == n && forall v: nat :: v <= n ==> Hits(at, v)
    ensures forall v: nat :: v < n ==> Hits(Dropped(at, p), v)
  {
    forall v: nat | v < n ensures Hits(Dropped(at, p), v) {
      assert Hits(at, v);
      var i :| 0 <= i < |at| && at[i] == v;
      assert Dropped(at, p)[if i < p then i else i - 1] == v;
    }
  }

  /** Overlap resolution only reorders spans that do not overlap. */
  lemma {:induction false} ApartLosesNothing(es: seq<Entity>, out: seq<Entity>)
    requires Apart(es) && Resolved(es, out)
    ensures multiset(out) == multiset(es)
  {
    var kept :| Selects(es, kept, out);
    forall v: nat | v < |es| ensures Hits(kept, v) {
      if v !in Elements(kept) {
        assert Dominated(es, Elements(kept), v);
        var j :| j in Elements(kept) && j < |es| && Overlap(es[v], es[j]) && Stronger(es, j, v);
        assert Overlap(es[j], es[v]);
        assert false;
      }
    }
    forall i, j | 0 <= i < j < |kept| ensures kept[i] != kept[j] { assert Before(es, SpanKey, kept[i], kept[j]); }
    PositionsMultiset(es, kept, out);
  }

  /** With disjoint primary spans the pipeline's later overlap resolution drops
      nothing from the merged list. */
  lemma {:induction false} MergeSurvivesResolution(primary: seq<Entity>, secondary: seq<Entity>, out: seq<Entity>)
    requires Apart(primary) && Resolved(primary + Kept(primary, secondary), out)
    ensures multiset(out) == multiset(primary + Kept(primary, secondary))
  {
    var kept := Kept(primary, secondary);
    KeptIsApart(primary, secondary);
    forall i, j | 0 <= i < |primary| && 0 <= j < |kept| ensures !Overlap(primary[i], kept[j]) {
      assert kept[j] in kept;
    }
    ApartLosesNothing(primary + kept, out);
  }
}
