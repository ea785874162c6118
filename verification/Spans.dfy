/** Detected entities and longest-span-wins overlap resolution
    (crates/plugin-api/src/lib.rs, crates/plugin-api/src/spans.rs). */
module Spans {
  import opened Common
  import opened Sorting

  /** A floating-point confidence: a number, or an infinity or NaN. */
  datatype Confidence = Finite(value: real) | NotFinite

  datatype Entity = Entity(kind: Text, start: nat, end: nat, value: Text, confidence: Confidence)

  /** A span whose end precedes its start counts as empty. */
  function Len(e: Entity): nat {
    if e.end >= e.start then e.end - e.start else 0
  }

  predicate Overlap(a: Entity, b: Entity) {
    a.start < b.end && b.start < a.end
  }

  function LengthKey(e: Entity): Key { (0 - (Len(e) as int), 0) }

  function SpanKey(e: Entity): Key { (e.start, e.end) }

  /** Span `j` has precedence over span `i`: longer, or as long and reported earlier. */
  predicate Stronger(es: seq<Entity>, j: nat, i: nat)
    requires j < |es| && i < |es|
  {
    Len(es[j]) > Len(es[i]) || (Len(es[j]) == Len(es[i]) && j < i)
  }

  ghost predicate Dominated(es: seq<Entity>, kept: set<nat>, i: nat)
    requires i < |es|
  {
    exists j :: j in kept && j < |es| && Overlap(es[i], es[j]) && Stronger(es, j, i)
  }

  /** The kept positions: they do not overlap, and every other position overlaps
      a kept one with precedence over it. */
  ghost predicate Greedy(es: seq<Entity>, kept: set<nat>) {
    && (forall i :: i in kept ==> i < |es|)
    && (forall i, j :: i in kept && j in kept && i != j ==> !Overlap(es[i], es[j]))
    && (forall i: nat :: i < |es| && i !in kept ==> Dominated(es, kept, i))
  }

  function Elements(ks: seq<nat>): set<nat> { set k | k in ks }

  /** `kept` lists positions by start, then end, then reported order. */
  ghost predicate Listed(es: seq<Entity>, kept: seq<nat>) {
    && (forall i :: 0 <= i < |kept| ==> kept[i] < |es|)
    && forall i, j :: 0 <= i < j < |kept| ==> Before(es, SpanKey, kept[i], kept[j])
  }

  ghost predicate Selects(es: seq<Entity>, kept: seq<nat>, out: seq<Entity>) {
    && Listed(es, kept)
    && Greedy(es, Elements(kept))
    && |out| == |kept|
    && forall i :: 0 <= i < |out| ==> out[i] == es[kept[i]]
  }

  /** The specification of overlap resolution. */
  ghost predicate Resolved(es: seq<Entity>, out: seq<Entity>) {
    exists kept :: Selects(es, kept, out)
  }

  /** Sorted by span and free of overlaps. */
  ghost predicate Disjoint(es: seq<Entity>) {
    && (forall i, j :: 0 <= i < j < |es| ==> !Overlap(es[i], es[j]))
    && (forall i, j :: 0 <= i < j < |es| ==> !KeyLess(SpanKey(es[j]), SpanKey(es[i])))
  }

  method ResolveOverlaps(entities: seq<Entity>) returns (out: seq<Entity>)
    ensures Resolved(entities, out)
    ensures Disjoint(out) && multiset(out) <= multiset(entities)
  {
    var byLength; ghost var perm;
    byLength, perm := StableSort(entities, LengthKey);
    var kept; ghost var at;
    kept, at := GreedyPass(byLength);
    ghost var order;
    out, order := StableSort(kept, SpanKey);
    AssembleSelection(entities, byLength, perm, kept, at, out, order);
  }

  method GreedyPass(sorted: seq<Entity>) returns (kept: seq<Entity>, ghost at: seq<nat>)
    ensures GreedyPrefix(sorted, |sorted|, kept, at)
    ensures multiset(kept) <= multiset(sorted)
  {
    kept, at := [], [];
    for n := 0 to |sorted|
      invariant GreedyPrefix(sorted, n, kept, at)
      invariant multiset(kept) <= multiset(sorted[..n])
    {
      var overlaps := exists i :: 0 <= i < |kept| && Overlap(sorted[n], kept[i]);
      assert sorted[..n + 1] == sorted[..n] + [sorted[n]];
      if !overlaps {
        KeepStep(sorted, n, kept, at);
        kept, at := kept + [sorted[n]], at + [n];
      } else {
        DropStep(sorted, n, kept, at);
      }
    }
    assert sorted[..|sorted|] == sorted;
  }

  /** The greedy pass after the first `n` spans in length order: the kept ones,
      at places `at`, are disjoint and every other one seen overlaps a kept span
      that came before it. */
  ghost predicate GreedyPrefix(sorted: seq<Entity>, n: nat, kept: seq<Entity>, at: seq<nat>) {
    && n <= |sorted| && |kept| == |at|
    && (forall i :: 0 <= i < |at| ==> at[i] < n && kept[i] == sorted[at[i]])
    && (forall i, j :: 0 <= i < j < |at| ==> at[i] < at[j])
    && (forall i, j :: 0 <= i < j < |at| ==> !Overlap(kept[i], kept[j]))
    && (forall i: nat :: i < n ==> Hits(at, i) || Beaten(sorted, kept, at, i))
  }

  ghost predicate Beaten(sorted: seq<Entity>, kept: seq<Entity>, at: seq<nat>, i: nat)
    requires i < |sorted| && |kept| == |at|
  {
    exists j :: 0 <= j < |at| && at[j] < i && Overlap(sorted[i], kept[j])
  }

  lemma {:induction false} KeepStep(sorted: seq<Entity>, n: nat, kept: seq<Entity>, at: seq<nat>)
    requires GreedyPrefix(sorted, n, kept, at) && n < |sorted|
    requires forall i :: 0 <= i < |kept| ==> !Overlap(sorted[n], kept[i])
    ensures GreedyPrefix(sorted, n + 1, kept + [sorted[n]], at + [n])
  {
    var kept', at' := kept + [sorted[n]], at + [n];
    forall i: nat | i < n + 1 ensures Hits(at', i) || Beaten(sorted, kept', at', i) {
      if i == n {
        assert at'[|at|] == n;
      } else if Hits(at, i) {
        var j :| 0 <= j < |at| && at[j] == i;
        assert at'[j] == i;
      } else {
        var j :| 0 <= j < |at| && at[j] < i && Overlap(sorted[i], kept[j]);
        assert at'[j] == at[j] && kept'[j] == kept[j];
      }
    }
  }

  lemma {:induction false} DropStep(sorted: seq<Entity>, n: nat, kept: seq<Entity>, at: seq<nat>)
    requires GreedyPrefix(sorted, n, kept, at) && n < |sorted|
    requires exists i :: 0 <= i < |kept| && Overlap(sorted[n], kept[i])
    ensures GreedyPrefix(sorted, n + 1, kept, at)
  {
    var j :| 0 <= j < |kept| && Overlap(sorted[n], kept[j]);
    assert at[j] < n;
    assert Beaten(sorted, kept, at, n);
  }

  /** Sorting the kept spans by position turns the greedy pass into a selection. */
  lemma {:induction false} AssembleSelection(es: seq<Entity>, sorted: seq<Entity>, perm: seq<nat>, kept: seq<Entity>,
                                             at: seq<nat>, out: seq<Entity>, order: seq<nat>)
    requires StablySorted(es, LengthKey, sorted, perm)
    requires GreedyPrefix(sorted, |es|, kept, at)
    requires StablySorted(kept, SpanKey, out, order)
    ensures Resolved(es, out) && Disjoint(out)
  {
    var listed := seq(|at|, i requires 0 <= i < |at| => perm[at[order[i]]]);
    ListedInOrder(es, sorted, perm, kept, at, out, order, listed);
    assert Greedy(es, Elements(listed)) by {
      KeptDisjoint(es, sorted, perm, kept, at, out, order, listed);
      forall v: nat | v < |es| && v !in Elements(listed) ensures Dominated(es, Elements(listed), v) {
        assert Hits(perm, v);
        var i :| 0 <= i < |es| && perm[i] == v;
        DroppedIsDominated(es, sorted, perm, kept, at, out, order, listed, i);
      }
    }
    assert Selects(es, listed, out);
    ResolvedIsDisjoint(es, out);
  }

  lemma {:induction false} ListedInOrder(es: seq<Entity>, sorted: seq<Entity>, perm: seq<nat>, kept: seq<Entity>,
                                         at: seq<nat>, out: seq<Entity>, order: seq<nat>, listed: seq<nat>)
    requires StablySorted(es, LengthKey, sorted, perm)
    requires GreedyPrefix(sorted, |es|, kept, at)
    requires StablySorted(kept, SpanKey, out, order)
    requires |listed| == |at| && forall k :: 0 <= k < |at| ==> listed[k] == perm[at[order[k]]]
    ensures Listed(es, listed) && forall i :: 0 <= i < |out| ==> out[i] == es[listed[i]]
  {
    forall i, j | 0 <= i < j < |listed| ensures Before(es, SpanKey, listed[i], listed[j]) {
      assert Before(kept, SpanKey, order[i], order[j]);
      if order[i] < order[j] {
        assert Before(es, LengthKey, perm[at[order[i]]], perm[at[order[j]]]);
      }
    }
  }

  lemma {:induction false} KeptDisjoint(es: seq<Entity>, sorted: seq<Entity>, perm: seq<nat>, kept: seq<Entity>,
                                        at: seq<nat>, out: seq<Entity>, order: seq<nat>, listed: seq<nat>)
    requires StablySorted(es, LengthKey, sorted, perm)
    requires GreedyPrefix(sorted, |es|, kept, at)
    requires StablySorted(kept, SpanKey, out, order)
    requires |listed| == |at| && forall k :: 0 <= k < |at| ==> listed[k] == perm[at[order[k]]]
    ensures forall a, b :: a in listed && b in listed && a != b ==> !Overlap(es[a], es[b])
  {
    forall a, b | a in listed && b in listed && a != b ensures !Overlap(es[a], es[b]) {
      var i :| 0 <= i < |listed| && listed[i] == a;
      var j :| 0 <= j < |listed| && listed[j] == b;
      assert es[a] == kept[order[i]] && es[b] == kept[order[j]];
    }
  }

  lemma {:induction false} DroppedIsDominated(es: seq<Entity>, sorted: seq<Entity>, perm: seq<nat>, kept: seq<Entity>,
                                             at: seq<nat>, out: seq<Entity>, order: seq<nat>, listed: seq<nat>, i: nat)
    requires StablySorted(es, LengthKey, sorted, perm)
    requires GreedyPrefix(sorted, |es|, kept, at)
    requires StablySorted(kept, SpanKey, out, order)
    requires |listed| == |at| && forall k :: 0 <= k < |at| ==> listed[k] == perm[at[order[k]]]
    requires i < |es| && perm[i] !in listed
    ensures Dominated(es, Elements(listed), perm[i])
  {
    if Hits(at, i) {
      HitIsListed(perm, kept, at, out, order, listed, i);
    } else {
      var j: nat :| j < |at| && at[j] < i && Overlap(sorted[i], kept[j]);
      assert Hits(order, j);
      var k :| 0 <= k < |order| && order[k] == j;
      assert listed[k] in Elements(listed);
      assert Before(es, LengthKey, perm[at[j]], perm[i]);
    }
  }

  lemma {:induction false} HitIsListed(perm: seq<nat>, kept: seq<Entity>, at: seq<nat>, out: seq<Entity>,
                                       order: seq<nat>, listed: seq<nat>, i: nat)
    requires StablySorted(kept, SpanKey, out, order) && |kept| == |at| == |listed|
    requires forall k :: 0 <= k < |at| ==> at[k] < |perm|
    requires forall k :: 0 <= k < |at| ==> listed[k] == perm[at[order[k]]]
    requires Hits(at, i)
    ensures i < |perm| && perm[i] in listed
  {
    var j: nat :| j < |at| && at[j] == i;
    assert Hits(order, j);
    var k :| 0 <= k < |order| && order[k] == j;
    assert listed[k] == perm[i];
  }

  // ---- The kept set is determined -----------------------------------------

  function Longest(es: seq<Entity>): (m: nat)
    ensures forall i :: 0 <= i < |es| ==> Len(es[i]) <= m
  {
    if es == [] then 0
    else
      var m := Longest(es[..|es| - 1]);
      if Len(es[|es| - 1]) > m then Len(es[|es| - 1]) else m
  }

  lemma {:induction false} GreedyWithin(es: seq<Entity>, a: set<nat>, b: set<nat>, i: nat)
    requires Greedy(es, a) && Greedy(es, b) && i in a
    ensures i in b
    decreases Longest(es) - Len(es[i]), i
  {
    if i !in b {
      assert Dominated(es, b, i);
      var j :| j in b && Overlap(es[i], es[j]) && Stronger(es, j, i);
      GreedyWithin(es, b, a, j);
      assert false;
    }
  }

  /** There is only one greedy set. */
  lemma {:induction false} GreedyUnique(es: seq<Entity>, a: set<nat>, b: set<nat>)
    requires Greedy(es, a) && Greedy(es, b)
    ensures a == b
  {
    forall i | i in a ensures i in b { GreedyWithin(es, a, b, i); }
    forall i | i in b ensures i in a { GreedyWithin(es, b, a, i); }
  }

  /** Only one list shows a given set of positions in span order. */
  lemma {:induction false} ListingUnique(es: seq<Entity>, a: seq<nat>, b: seq<nat>)
    requires Listed(es, a) && Listed(es, b) && Elements(a) == Elements(b)
    ensures a == b
    decreases |a|
  {
    if a == [] {
      assert forall i :: 0 <= i < |b| ==> b[i] in Elements(b);
    } else {
      assert a[0] in Elements(b);
      assert b != [];
      assert b[0] in Elements(a);
      assert a[0] == b[0];
      forall k | k in a[1..] ensures k in Elements(b[1..]) { assert k in Elements(b) && k != a[0]; }
      forall k | k in b[1..] ensures k in Elements(a[1..]) { assert k in Elements(a) && k != b[0]; }
      assert Elements(a[1..]) == Elements(b[1..]);
      ListingUnique(es, a[1..], b[1..]);
    }
  }

  /** Overlap resolution is a function of the reported list: whatever satisfies
      its specification is the same list. */
  lemma {:induction false} ResolvedUnique(es: seq<Entity>, out1: seq<Entity>, out2: seq<Entity>)
    requires Resolved(es, out1) && Resolved(es, out2)
    ensures out1 == out2
  {
    var k1 :| Selects(es, k1, out1);
    var k2 :| Selects(es, k2, out2);
    GreedyUnique(es, Elements(k1), Elements(k2));
    ListingUnique(es, k1, k2);
  }

  /** A disjoint list resolves to itself, so resolution is idempotent. */
  lemma {:induction false} DisjointIsResolved(es: seq<Entity>)
    requires Disjoint(es)
    ensures Resolved(es, es)
  {
    var all := seq(|es|, i => i);
    assert forall i :: 0 <= i < |es| ==> all[i] == i;
    forall i: nat | i < |es| ensures i in Elements(all) { assert all[i] in all; }
    assert Selects(es, all, es);
  }

  lemma {:induction false} ResolvedIsDisjoint(es: seq<Entity>, out: seq<Entity>)
    requires Resolved(es, out)
    ensures Disjoint(out)
  {
    var kept :| Selects(es, kept, out);
    forall i, j | 0 <= i < j < |out| ensures !Overlap(out[i], out[j]) && !KeyLess(SpanKey(out[j]), SpanKey(out[i])) {
      assert Before(es, SpanKey, kept[i], kept[j]);
      assert kept[i] in Elements(kept) && kept[j] in Elements(kept);
    }
  }

  lemma {:induction false} ResolveIsIdempotent(es: seq<Entity>, out: seq<Entity>, again: seq<Entity>)
    requires Resolved(es, out) && Resolved(out, again)
    ensures again == out
  {
    ResolvedIsDisjoint(es, out);
    DisjointIsResolved(out);
    ResolvedUnique(out, out, again);
  }

  /** Span `j` meets span `i` and is longer, or as long and reported earlier; a span
      that ends before it starts has no length. */
  predicate Ousts(es: seq<Entity>, j: nat, i: nat)
    requires j < |es| && i < |es|
  {
    && es[i].start < es[j].end && es[j].start < es[i].end
    && var a: int, b: int := es[i].end - es[i].start, es[j].end - es[j].start;
    && ((b > 0 && b > a) || ((b == a || (b <= 0 && a <= 0)) && j < i))
  }

  ghost predicate Ousted(es: seq<Entity>, kept: seq<nat>, i: nat)
    requires i < |es|
  {
    exists j :: j in kept && j < |es| && Ousts(es, j, i)
  }

  /** Resolution in plain offsets: the kept entities come in order of start, end
      and report, no two of them share an offset, and every other entity meets a
      kept one that is longer, or as long and reported earlier. */
  lemma {:induction false} ResolvedSpelledOut(es: seq<Entity>, out: seq<Entity>) returns (kept: seq<nat>)
    requires Resolved(es, out)
    ensures |kept| == |out| && forall k :: 0 <= k < |out| ==> kept[k] < |es| && out[k] == es[kept[k]]
    ensures forall a, b :: 0 <= a < b < |out| ==> out[a].end <= out[b].start || out[b].end <= out[a].start
    ensures forall a, b :: 0 <= a < b < |out| ==>
              || out[a].start < out[b].start
              || (out[a].start == out[b].start && out[a].end < out[b].end)
              || (out[a].start == out[b].start && out[a].end == out[b].end && kept[a] < kept[b])
    ensures forall i: nat :: i < |es| && i !in kept ==> Ousted(es, kept, i)
  {
    ResolvedIsDisjoint(es, out);
    kept :| Selects(es, kept, out);
    ListedSpelledOut(es, kept, out);
    forall i: nat | i < |es| && i !in kept ensures Ousted(es, kept, i) { OustedWhenDropped(es, kept, i); }
  }

  lemma {:induction false} ListedSpelledOut(es: seq<Entity>, kept: seq<nat>, out: seq<Entity>)
    requires Listed(es, kept) && |kept| == |out| && forall k :: 0 <= k < |out| ==> out[k] == es[kept[k]]
    ensures forall a, b :: 0 <= a < b < |out| ==>
              || out[a].start < out[b].start
              || (out[a].start == out[b].start && out[a].end < out[b].end)
              || (out[a].start == out[b].start && out[a].end == out[b].end && kept[a] < kept[b])
  {
    assert forall a, b :: 0 <= a < b < |kept| ==> Before(es, SpanKey, kept[a], kept[b]);
  }

  lemma {:induction false} OustedWhenDropped(es: seq<Entity>, kept: seq<nat>, i: nat)
    requires Listed(es, kept) && Greedy(es, Elements(kept)) && i < |es| && i !in kept
    ensures Ousted(es, kept, i)
  {
    assert Dominated(es, Elements(kept), i);
    var j :| j in Elements(kept) && j < |es| && Overlap(es[i], es[j]) && Stronger(es, j, i);
    StrongerOusts(es, j, i);
  }

  lemma StrongerOusts(es: seq<Entity>, j: nat, i: nat)
    requires j < |es| && i < |es| && Overlap(es[i], es[j]) && Stronger(es, j, i)
    ensures Ousts(es, j, i)
  {
  }
}
