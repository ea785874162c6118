/** Stable sorting by a key, standing for the standard library's
    `sort_by_key`. */
module Sorting {
  /** A sort key, compared lexicographically. */
  type Key = (int, int)

  predicate KeyLess(a: Key, b: Key) { a.0 < b.0 || (a.0 == b.0 && a.1 < b.1) }

  ghost predicate Hits(perm: seq<nat>, v: nat) {
    exists i :: 0 <= i < |perm| && perm[i] == v
  }

  ghost predicate IsPermutation(perm: seq<nat>, n: nat) {
    && |perm| == n
    && (forall i :: 0 <= i < n ==> perm[i] < n)
    && (forall i, j :: 0 <= i < j < n ==> perm[i] != perm[j])
    && (forall v: nat :: v < n ==> Hits(perm, v))
  }

  /** Position `i` of `es` goes before position `j` in a stable sort. */
  ghost predicate Before<T>(es: seq<T>, key: T -> Key, i: nat, j: nat)
    requires i < |es| && j < |es|
  {
    KeyLess(key(es[i]), key(es[j])) || (key(es[i]) == key(es[j]) && i < j)
  }

  ghost predicate StablySorted<T>(es: seq<T>, key: T -> Key, sorted: seq<T>, perm: seq<nat>) {
    IsPermutation(perm, |es|) && Arranged(es, key, |es|, sorted, perm)
  }

  /** `sorted` shows the elements of `es` at the positions `perm`, in stable order. */
  ghost predicate Arranged<T>(es: seq<T>, key: T -> Key, n: nat, sorted: seq<T>, perm: seq<nat>) {
    && |perm| == |sorted| == n
    && (forall i :: 0 <= i < n ==> perm[i] < |es| && perm[i] < n)
    && (forall i :: 0 <= i < n ==> sorted[i] == es[perm[i]])
    && (forall i, j :: 0 <= i < j < n ==> Before(es, key, perm[i], perm[j]))
  }

  function InsertAt<T>(s: seq<T>, p: nat, x: T): (r: seq<T>)
    requires p <= |s|
    ensures |r| == |s| + 1 && r[p] == x
    ensures forall i :: 0 <= i < p ==> r[i] == s[i]
    ensures forall i :: p < i <= |s| ==> r[i] == s[i - 1]
  {
    s[..p] + [x] + s[p..]
  }

  lemma {:induction false} InsertMultiset<T>(s: seq<T>, p: nat, x: T)
    requires p <= |s|
    ensures multiset(InsertAt(s, p, x)) == multiset(s) + multiset{x}
  {
    assert s == s[..p] + s[p..];
  }

  method StableSort<T>(es: seq<T>, key: T -> Key) returns (sorted: seq<T>, ghost perm: seq<nat>)
    ensures StablySorted(es, key, sorted, perm) && multiset(sorted) == multiset(es)
  {
    sorted, perm := [], [];
    for n := 0 to |es|
      invariant IsPermutation(perm, n) && Arranged(es, key, n, sorted, perm)
      invariant multiset(sorted) == multiset(es[..n])
    {
      sorted, perm := InsertNext(es, key, n, sorted, perm);
      assert es[..n + 1] == es[..n] + [es[n]];
    }
    assert es[..|es|] == es;
  }

  /** One insertion: element `n` goes after every element with its key. */
  method InsertNext<T>(es: seq<T>, key: T -> Key, n: nat, sorted: seq<T>, ghost perm: seq<nat>)
    returns (sorted': seq<T>, ghost perm': seq<nat>)
    requires n < |es| && IsPermutation(perm, n) && Arranged(es, key, n, sorted, perm)
    ensures IsPermutation(perm', n + 1) && Arranged(es, key, n + 1, sorted', perm')
    ensures multiset(sorted') == multiset(sorted) + multiset{es[n]}
  {
    var p := n;
    while p > 0 && KeyLess(key(es[n]), key(sorted[p - 1]))
      invariant 0 <= p <= n
      invariant forall j :: p <= j < n ==> KeyLess(key(es[n]), key(sorted[j]))
    {
      p := p - 1;
    }
    InsertKeepsPermutation(perm, n, p);
    InsertKeepsOrder(es, key, n, p, sorted, perm);
    InsertMultiset(sorted, p, es[n]);
    sorted', perm' := InsertAt(sorted, p, es[n]), InsertAt(perm, p, n);
  }

  lemma {:induction false} InsertKeepsPermutation(perm: seq<nat>, n: nat, p: nat)
    requires p <= n && IsPermutation(perm, n)
    ensures IsPermutation(InsertAt(perm, p, n), n + 1)
  {
    var q := InsertAt(perm, p, n);
    forall v: nat | v < n + 1 ensures Hits(q, v) {
      if v < n {
        assert Hits(perm, v);
        var i :| 0 <= i < n && perm[i] == v;
        assert q[if i < p then i else i + 1] == v;
      } else {
        assert q[p] == n;
      }
    }
  }

  lemma {:induction false} InsertKeepsOrder<T>(es: seq<T>, key: T -> Key, n: nat, p: nat, sorted: seq<T>,
                                               perm: seq<nat>)
    requires p <= n < |es| && Arranged(es, key, n, sorted, perm)
    requires forall j :: p <= j < n ==> KeyLess(key(es[n]), key(sorted[j]))
    requires p > 0 ==> !KeyLess(key(es[n]), key(sorted[p - 1]))
    ensures Arranged(es, key, n + 1, InsertAt(sorted, p, es[n]), InsertAt(perm, p, n))
  {
    var q := InsertAt(perm, p, n);
    forall i, j | 0 <= i < j < n + 1 ensures Before(es, key, q[i], q[j]) {
      if j == p {
        assert sorted[i] == es[perm[i]] && sorted[p - 1] == es[perm[p - 1]];
        assert i < p - 1 ==> Before(es, key, perm[i], perm[p - 1]);
      } else if i == p {
        assert sorted[j - 1] == es[q[j]];
      } else {
        var a, b := if i < p then i else i - 1, if j < p then j else j - 1;
        assert Before(es, key, perm[a], perm[b]);
      }
    }
  }

  lemma {:induction false} IncreasingBounds(perm: seq<nat>, n: nat, i: nat)
    requires |perm| == n && i < n
    requires forall a, b :: 0 <= a < b < n ==> perm[a] < perm[b]
    requires forall a :: 0 <= a < n ==> perm[a] < n
    ensures perm[i] == i
  {
    var lo := 0;
    while lo < i
      invariant 0 <= lo <= i && perm[lo] >= lo
    { lo := lo + 1; }
    var hi := n - 1;
    while hi > i
      invariant i <= hi < n && perm[hi] <= hi
    { hi := hi - 1; }
  }

  /** A stable sort leaves a list whose keys never decrease as it is. */
  lemma {:induction false} SortedIsFixed<T>(es: seq<T>, key: T -> Key, sorted: seq<T>, perm: seq<nat>)
    requires StablySorted(es, key, sorted, perm)
    requires forall i, j :: 0 <= i < j < |es| ==> !KeyLess(key(es[j]), key(es[i]))
    ensures sorted == es
  {
    forall a, b | 0 <= a < b < |es| ensures perm[a] < perm[b] {
      assert Before(es, key, perm[a], perm[b]);
    }
    forall i | 0 <= i < |es| ensures sorted[i] == es[i] {
      IncreasingBounds(perm, |es|, i);
    }
  }
}
