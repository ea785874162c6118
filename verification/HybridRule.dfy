/** The merge of secondaries against the shared overlap rule: when
    the two select the same spans (crates/detector-hybrid/src/lib.rs,
    crates/plugin-api/src/spans.rs). */
module HybridRule {
  import opened Common
  import opened Sorting
  import opened Spans
  import opened Hybrid

  /** `kept` shows the spans at the increasing positions `at`, all below `n`. */
  ghost predicate Shows(es: seq<Entity>, n: nat, kept: seq<Entity>, at: seq<nat>) {
    && n <= |es| && |kept| == |at|
    && (forall i :: 0 <= i < |at| ==> at[i] < n && kept[i] == es[at[i]])
    && forall i, j :: 0 <= i < j < |at| ==> at[i] < at[j]
  }

  /** The merge keeps what the shared rule selects. */
  ghost predicate AgreesAt(es: seq<Entity>, at: seq<nat>) {
    Shows(es, |es|, Kept([], es), at) && Greedy(es, Elements(at))
  }

  ghost predicate Agrees(es: seq<Entity>) {
    exists at :: AgreesAt(es, at)
  }

  /** `a` gives way to `b`, and `b` to a later, longer `c` that leaves `a` alone. */
  predicate IsChain(es: seq<Entity>, a: nat, b: nat, c: nat) {
    && a < c < |es| && b < c
    && Overlap(es[a], es[b]) && Stronger(es, b, a)
    && Overlap(es[b], es[c]) && Len(es[c]) > Len(es[b])
    && !Overlap(es[a], es[c])
  }

  ghost predicate NoChain(es: seq<Entity>) {
    forall a: nat, b: nat, c: nat :: !IsChain(es, a, b, c)
  }

  // ---- Without a chain the rules agree ------------------------------------------

  /** `i` is overlapped by a span with precedence at one of the positions. */
  ghost predicate Covered(es: seq<Entity>, at: seq<nat>, i: nat)
    requires i < |es|
  {
    exists j :: j in at && j < |es| && Overlap(es[i], es[j]) && Stronger(es, j, i)
  }

  ghost predicate CoversBelow(es: seq<Entity>, at: seq<nat>, n: nat)
    requires n <= |es|
  {
    forall i: nat :: i < n ==> i in at || Covered(es, at, i)
  }

  lemma {:induction false} ShowMore(es: seq<Entity>, n: nat, kept: seq<Entity>, at: seq<nat>)
    requires Shows(es, n, kept, at) && n < |es|
    ensures Shows(es, n + 1, kept, at) && Shows(es, n + 1, kept + [es[n]], at + [n])
  {
  }

  /** The positions in `at` whose spans do not overlap `e`. */
  function ClearOf(es: seq<Entity>, at: seq<nat>, e: Entity): seq<nat> {
    if at == [] then []
    else
      var front, last := ClearOf(es, at[..|at| - 1], e), at[|at| - 1];
      if last < |es| && Overlap(es[last], e) then front else front + [last]
  }

  lemma {:induction false} ClearOfIs(es: seq<Entity>, at: seq<nat>, e: Entity)
    ensures forall k: nat :: k in ClearOf(es, at, e) <==> k in at && !(k < |es| && Overlap(es[k], e))
  {
    if at != [] {
      ClearOfIs(es, at[..|at| - 1], e);
      assert at == at[..|at| - 1] + [at[|at| - 1]];
    }
  }

  lemma {:induction false} ClearOfBelow(es: seq<Entity>, at: seq<nat>, e: Entity, bound: nat)
    requires forall i :: 0 <= i < |at| ==> at[i] < bound
    ensures forall i :: 0 <= i < |ClearOf(es, at, e)| ==> ClearOf(es, at, e)[i] < bound
  {
    if at != [] { ClearOfBelow(es, at[..|at| - 1], e, bound); }
  }

  lemma {:induction false} ShowsFront(es: seq<Entity>, n: nat, kept: seq<Entity>, at: seq<nat>)
    requires Shows(es, n, kept, at) && kept != []
    ensures Shows(es, n, kept[..|kept| - 1], at[..|kept| - 1])
    ensures at[|kept| - 1] < n && kept[|kept| - 1] == es[at[|kept| - 1]]
    ensures var front := at[..|kept| - 1]; forall i :: 0 <= i < |front| ==> front[i] < at[|kept| - 1]
  {
  }

  /** What is left after a displacement, by position. */
  lemma {:induction false} WithoutShown(es: seq<Entity>, n: nat, kept: seq<Entity>, at: seq<nat>, e: Entity)
    requires Shows(es, n, kept, at)
    ensures Shows(es, n, Without(kept, e), ClearOf(es, at, e))
  {
    if kept != [] {
      var m := |kept| - 1;
      ShowsFront(es, n, kept, at);
      WithoutShown(es, n, kept[..m], at[..m], e);
      if !Overlap(kept[m], e) {
        ClearOfBelow(es, at[..m], e, at[m]);
      }
    }
  }

  /** The candidate overlaps nothing kept. */
  lemma {:induction false} JoinKeeps(es: seq<Entity>, n: nat, kept: seq<Entity>, at: seq<nat>)
    requires Shows(es, n, kept, at) && CoversBelow(es, at, n) && n < |es|
    ensures CoversBelow(es, at + [n], n + 1)
  {
    forall i: nat | i < n + 1 ensures i in at + [n] || Covered(es, at + [n], i) {
      if i < n && i !in at {
        var j :| j in at && j < |es| && Overlap(es[i], es[j]) && Stronger(es, j, i);
        assert j in at + [n];
      }
    }
  }

  /** The candidate is no longer than a kept span it overlaps. */
  lemma {:induction false} DropKeeps(es: seq<Entity>, n: nat, kept: seq<Entity>, at: seq<nat>, k: nat)
    requires Shows(es, n, kept, at) && CoversBelow(es, at, n) && n < |es|
    requires k < |kept| && Overlap(kept[k], es[n]) && Len(kept[k]) >= Len(es[n])
    ensures CoversBelow(es, at, n + 1)
  {
    assert at[k] in at && Overlap(es[n], es[at[k]]) && Stronger(es, at[k], n);
  }

  /** The candidate displaces every kept span it overlaps. */
  lemma {:induction false} DisplaceKeeps(es: seq<Entity>, n: nat, at: seq<nat>, left: seq<nat>)
    requires NoChain(es) && n < |es| && CoversBelow(es, at, n)
    requires forall k :: k in at ==> k < n
    requires forall k :: k in at && Overlap(es[k], es[n]) ==> Len(es[n]) > Len(es[k])
    requires forall k :: k in left <==> k in at && !Overlap(es[k], es[n])
    ensures CoversBelow(es, left + [n], n + 1)
  {
    forall i: nat | i < n + 1 ensures i in left + [n] || Covered(es, left + [n], i) {
      assert n in left + [n];
      if i == n || i in left {
      } else if i in at {
        assert Overlap(es[i], es[n]) && Stronger(es, n, i);
      } else {
        var j :| j in at && j < |es| && Overlap(es[i], es[j]) && Stronger(es, j, i);
        if j in left {
          assert j in left + [n];
        } else {
          assert !IsChain(es, i, j, n);
          assert Overlap(es[i], es[n]) && Stronger(es, n, i);
        }
      }
    }
  }

  /** One candidate, whatever the merge does with it. */
  lemma {:induction false} CompeteKeeps(es: seq<Entity>, n: nat, kept: seq<Entity>, at: seq<nat>)
    returns (after: seq<nat>)
    requires NoChain(es) && n < |es| && Shows(es, n, kept, at) && CoversBelow(es, at, n)
    ensures Shows(es, n + 1, Compete([], kept, es[n]), after) && CoversBelow(es, after, n + 1)
  {
    var e := es[n];
    ShowMore(es, n, kept, at);
    match LongestTouching(kept, e)
    case None =>
      JoinKeeps(es, n, kept, at);
      after := at + [n];
    case Some(longest) =>
      if Len(e) > longest {
        var left := ClearOf(es, at, e);
        WithoutShown(es, n, kept, at, e);
        ClearOfIs(es, at, e);
        ShowMore(es, n, Without(kept, e), left);
        AllShorter(es, n, kept, at, longest);
        DisplaceKeeps(es, n, at, left);
        after := left + [n];
      } else {
        var k :| 0 <= k < |kept| && Overlap(kept[k], e) && Len(kept[k]) == longest;
        DropKeeps(es, n, kept, at, k);
        after := at;
      }
  }

  lemma {:induction false} AllShorter(es: seq<Entity>, n: nat, kept: seq<Entity>, at: seq<nat>, longest: nat)
    requires Shows(es, n, kept, at) && n < |es| && LongestTouching(kept, es[n]) == Some(longest) && Len(es[n]) > longest
    ensures forall k :: k in at ==> k < n
    ensures forall k :: k in at && Overlap(es[k], es[n]) ==> Len(es[n]) > Len(es[k])
  {
    forall k | k in at ensures k < n && (Overlap(es[k], es[n]) ==> Len(es[n]) > Len(es[k])) {
      var i :| 0 <= i < |at| && at[i] == k;
      assert kept[i] == es[k];
    }
  }

  lemma {:induction false} MergeCovers(es: seq<Entity>, n: nat) returns (at: seq<nat>)
    requires NoChain(es) && n <= |es|
    ensures Shows(es, n, Kept([], es[..n]), at) && CoversBelow(es, at, n)
  {
    if n == 0 {
      at := [];
    } else {
      var before := MergeCovers(es, n - 1);
      KeptNext([], es, n - 1);
      at := CompeteKeeps(es, n - 1, Kept([], es[..n - 1]), before);
    }
  }

  lemma {:induction false} ShownApart(es: seq<Entity>, kept: seq<Entity>, at: seq<nat>)
    requires Shows(es, |es|, kept, at) && Apart(kept)
    ensures forall i, j :: i in at && j in at && i != j ==> !Overlap(es[i], es[j])
  {
    forall i, j | i in at && j in at && i != j ensures !Overlap(es[i], es[j]) {
      var k :| 0 <= k < |at| && at[k] == i;
      var m :| 0 <= m < |at| && at[m] == j;
      assert kept[k] == es[i] && kept[m] == es[j];
    }
  }

  /** Without a chain the merge selects what the shared rule selects, displacing
      or not. */
  lemma {:induction false} NoChainAgrees(es: seq<Entity>)
    requires NoChain(es)
    ensures Agrees(es)
  {
    var at := MergeCovers(es, |es|);
    assert es[..|es|] == es;
    KeptIsApart([], es);
    ShownApart(es, Kept([], es), at);
    assert Greedy(es, Elements(at)) by {
      forall i: nat | i < |es| && i !in Elements(at) ensures Dominated(es, Elements(at), i) {
        var j :| j in at && j < |es| && Overlap(es[i], es[j]) && Stronger(es, j, i);
        assert j in Elements(at);
      }
    }
    assert AgreesAt(es, at);
  }

  // ---- A chain makes the rules differ ---------------------------------------------

  lemma {:induction false} KeptOfTwo(a: Entity, b: Entity)
    ensures Kept([], [a]) == [a] && Kept([], [a, b]) == Compete([], [a], b)
  {
    assert [a][..0] == [] && [a, b][..1] == [a];
    assert [] + [a] == [a];
  }

  lemma {:induction false} KeptOfThree(a: Entity, b: Entity, c: Entity)
    ensures Kept([], [a, b, c]) == Compete([], Kept([], [a, b]), c)
  {
    assert [a, b, c][..2] == [a, b];
  }

  lemma {:induction false} CompeteOne(a: Entity, b: Entity)
    requires Overlap(a, b)
    ensures Compete([], [a], b) == if Len(b) > Len(a) then [b] else [a]
  {
    assert Overlap([a][0], b);
    assert [a][..0] == [] && Without([], b) == [];
    assert Without([a], b) == [] && [] + [b] == [b];
  }

  /** The displaced triple: `a` gives way to `b` and stays dropped. */
  lemma {:induction false} DisplacedTriple(a: Entity, b: Entity, c: Entity)
    requires Len(a) < Len(b) < Len(c) && Overlap(a, b) && Overlap(b, c)
    ensures Kept([], [a, b, c]) == [c]
  {
    KeptOfTwo(a, b);
    CompeteOne(a, b);
    KeptOfThree(a, b, c);
    CompeteOne(b, c);
  }

  /** The blocked triple: `a` is turned away by `b`, which is displaced later. */
  lemma {:induction false} BlockedTriple(a: Entity, b: Entity, c: Entity)
    requires Len(a) <= Len(b) < Len(c) && Overlap(a, b) && Overlap(b, c)
    ensures Kept([], [b, a, c]) == [c]
  {
    KeptOfTwo(b, a);
    CompeteOne(b, a);
    KeptOfThree(b, a, c);
    CompeteOne(b, c);
  }

  /** On both triples the shared rule selects the two that do not overlap. */
  lemma {:induction false} SelectsOuter(es: seq<Entity>)
    requires |es| == 3 && !Overlap(es[0], es[2]) && Overlap(es[1], es[2]) && Len(es[1]) < Len(es[2])
    ensures Greedy(es, {0, 2})
  {
    assert Dominated(es, {0, 2}, 1) by { assert 2 in {0, 2} && Stronger(es, 2, 1); }
  }

  lemma {:induction false} SelectsLater(es: seq<Entity>)
    requires |es| == 3 && !Overlap(es[1], es[2]) && Overlap(es[0], es[2]) && Len(es[0]) < Len(es[2])
    ensures Greedy(es, {1, 2})
  {
    assert Dominated(es, {1, 2}, 0) by { assert 2 in {1, 2} && Stronger(es, 2, 0); }
  }

  /** A single kept span cannot be a selection of two. */
  lemma {:induction false} KeepsTooFew(es: seq<Entity>, selected: set<nat>, x: nat, y: nat)
    requires Greedy(es, selected) && x in selected && y in selected && x != y && |Kept([], es)| == 1
    ensures !Agrees(es)
  {
    if Agrees(es) {
      var at :| AgreesAt(es, at);
      GreedyUnique(es, Elements(at), selected);
      OneElement(at, x, y);
    }
  }

  lemma {:induction false} OneElement(at: seq<nat>, x: nat, y: nat)
    requires |at| == 1 && x in Elements(at) && y in Elements(at)
    ensures x == y
  {
  }

  /** The three spans of a chain, as a list of their own. */
  lemma {:induction false} ChainDisagrees(es: seq<Entity>, a: nat, b: nat, c: nat) returns (ks: seq<nat>)
    requires IsChain(es, a, b, c)
    ensures Increasing(ks, |es|) && !Agrees(Pick(es, ks))
  {
    if a < b {
      ks := [a, b, c];
      PickThree(es, a, b, c);
      DisplacedTriple(es[a], es[b], es[c]);
      SelectsOuter(Pick(es, ks));
      KeepsTooFew(Pick(es, ks), {0, 2}, 0, 2);
    } else {
      ks := [b, a, c];
      PickThree(es, b, a, c);
      BlockedTriple(es[a], es[b], es[c]);
      SelectsLater(Pick(es, ks));
      KeepsTooFew(Pick(es, ks), {1, 2}, 1, 2);
    }
  }

  lemma {:induction false} PickThree(es: seq<Entity>, x: nat, y: nat, z: nat)
    requires x < y < z < |es|
    ensures Increasing([x, y, z], |es|) && Pick(es, [x, y, z]) == [es[x], es[y], es[z]]
  {
  }

  // ---- The exact condition -----------------------------------------------------------

  /** Strictly increasing positions below `n`. */
  predicate Increasing(ks: seq<nat>, n: nat) {
    && (forall i :: 0 <= i < |ks| ==> ks[i] < n)
    && forall i, j :: 0 <= i < j < |ks| ==> ks[i] < ks[j]
  }

  lemma {:induction false} PickHasNoChain(es: seq<Entity>, ks: seq<nat>)
    requires NoChain(es) && Increasing(ks, |es|)
    ensures NoChain(Pick(es, ks))
  {
    forall a: nat, b: nat, c: nat ensures !IsChain(Pick(es, ks), a, b, c) {
      if a < |ks| && b < |ks| && c < |ks| {
        assert !IsChain(es, ks[a], ks[b], ks[c]);
      }
    }
  }

  /** The merge follows the shared rule on every sub-list of the secondaries that
      overlap no primary span if and only if they hold no chain. */
  lemma {:induction false} FollowsRuleIffNoChain(es: seq<Entity>)
    ensures (forall ks :: Increasing(ks, |es|) ==> Agrees(Pick(es, ks))) <==> NoChain(es)
  {
    if NoChain(es) {
      forall ks | Increasing(ks, |es|) ensures Agrees(Pick(es, ks)) {
        PickHasNoChain(es, ks);
        NoChainAgrees(Pick(es, ks));
      }
    } else {
      var a: nat, b: nat, c: nat :| IsChain(es, a, b, c);
      var ks := ChainDisagrees(es, a, b, c);
    }
  }

  /** With the primary spans: no chain among the untouched secondaries, and the
      kept secondaries are the shared rule's selection from them. */
  lemma {:induction false} MergeFollowsRule(primary: seq<Entity>, secondary: seq<Entity>) returns (at: seq<nat>)
    requires NoChain(Untouched(primary, secondary))
    ensures Shows(Untouched(primary, secondary), |Untouched(primary, secondary)|, Kept(primary, secondary), at)
    ensures Greedy(Untouched(primary, secondary), Elements(at))
  {
    TouchedHaveNoEffect(primary, secondary);
    NoChainAgrees(Untouched(primary, secondary));
    at :| AgreesAt(Untouched(primary, secondary), at);
  }
}
