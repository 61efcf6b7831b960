/**
  Stable sorting: what it promises, that it can be done, that there is only one result, and what sorting twice amounts to.
 */
module StableSort {

  /** A strict weak order: what a comparison must be for sorting by it to make sense. */
  ghost predicate IsOrder<T(!new)>(less: (T, T) -> bool) {
    (forall a, b :: less(a, b) ==> !less(b, a))
    && (forall a, b, c :: less(a, c) ==> less(a, b) || less(b, c))
  }

  /** Each of the numbers below `n` exactly once. */
  ghost predicate IsPermutation(p: seq<nat>, n: nat) {
    |p| == n
    && (forall i :: 0 <= i < n ==> p[i] < n)
    && (forall k: nat :: k < n ==> k in p)
    && (forall i, j :: 0 <= i < j < n ==> p[i] != p[j])
  }

  /** The `i`-th element goes before the `j`-th: it is less, or as great and came first. */
  ghost predicate Precedes<T>(less: (T, T) -> bool, s: seq<T>, i: nat, j: nat)
    requires i < |s| && j < |s|
  {
    !less(s[j], s[i]) && (!less(s[i], s[j]) ==> i < j)
  }

  ghost predicate Arranges<T>(less: (T, T) -> bool, s: seq<T>, t: seq<T>, p: seq<nat>) {
    && IsPermutation(p, |s|) && |t| == |s|
    && (forall i :: 0 <= i < |s| ==> t[i] == s[p[i]])
    && (forall i, j :: 0 <= i < j < |s| ==> Precedes(less, s, p[i], p[j]))
  }

  /** A permutation in ascending order, with elements that compare equal in the order they had. */
  ghost predicate IsStableSort<T>(less: (T, T) -> bool, s: seq<T>, t: seq<T>) {
    exists p :: Arranges(less, s, t, p)
  }

  // ---------------------------------------------------------------------------------------------
  // A stable sort exists
  // ---------------------------------------------------------------------------------------------

  /** Where to insert the `k`-th element among those already in order: before the first that is greater. */
  function Place<T>(less: (T, T) -> bool, s: seq<T>, p: seq<nat>, k: nat): (j: nat)
    requires k < |s| && forall i :: 0 <= i < |p| ==> p[i] < |s|
    ensures j <= |p|
    ensures forall i :: 0 <= i < j ==> !less(s[k], s[p[i]])
    ensures j < |p| ==> less(s[k], s[p[j]])
  {
    if p == [] || less(s[k], s[p[0]]) then 0 else 1 + Place(less, s, p[1..], k)
  }

  function Ordering<T>(less: (T, T) -> bool, s: seq<T>, n: nat): (p: seq<nat>)
    requires n <= |s|
    ensures |p| == n
    ensures forall i :: 0 <= i < n ==> p[i] < n
  {
    if n == 0 then []
    else
      var p := Ordering(less, s, n - 1);
      var j := Place(less, s, p, n - 1);
      p[..j] + [n - 1] + p[j..]
  }

  function Sorted<T>(less: (T, T) -> bool, s: seq<T>): seq<T> {
    var p := Ordering(less, s, |s|);
    seq(|s|, i requires 0 <= i < |s| => s[p[i]])
  }

  ghost predicate Ordered<T>(less: (T, T) -> bool, s: seq<T>, p: seq<nat>)
    requires forall i :: 0 <= i < |p| ==> p[i] < |s|
  {
    forall i, j :: 0 <= i < j < |p| ==> Precedes(less, s, p[i], p[j])
  }

  lemma InsertKeepsOrder<T(!new)>(less: (T, T) -> bool, s: seq<T>, p: seq<nat>, k: nat, j: nat)
    requires IsOrder(less) && k < |s|
    requires (forall i :: 0 <= i < |p| ==> p[i] < k) && Ordered(less, s, p)
    requires j == Place(less, s, p, k)
    ensures Ordered(less, s, p[..j] + [k] + p[j..])
  {
    var q := p[..j] + [k] + p[j..];
    forall a, b | 0 <= a < b < |q|
      ensures Precedes(less, s, q[a], q[b])
    {
      InsertedAt(p, k, j, a);
      InsertedAt(p, k, j, b);
      if a < j && b != j {
        assert Precedes(less, s, p[a], p[if b < j then b else b - 1]);
      } else if a > j {
        assert Precedes(less, s, p[a - 1], p[b - 1]);
      } else if a == j && b > j + 1 {
        assert Precedes(less, s, p[j], p[b - 1]);
      }
    }
  }

  lemma InsertedAt(p: seq<nat>, k: nat, j: nat, i: nat)
    requires j <= |p| && i <= |p|
    ensures (p[..j] + [k] + p[j..])[i] == if i < j then p[i] else if i == j then k else p[i - 1]
  {}

  lemma InsertKeepsPermutation(p: seq<nat>, n: nat, j: nat)
    requires IsPermutation(p, n) && j <= n
    ensures IsPermutation(p[..j] + [n] + p[j..], n + 1)
  {
    var q := p[..j] + [n] + p[j..];
    assert forall i :: 0 <= i < j ==> q[i] == p[i];
    assert q[j] == n;
    assert forall i :: j < i < |q| ==> q[i] == p[i - 1];
    forall k: nat | k < n + 1
      ensures k in q
    {
      if k < n {
        assert k in p;
        var i :| 0 <= i < n && p[i] == k;
        assert q[if i < j then i else i + 1] == k;
      }
    }
  }

  lemma {:induction false} OrderingIsOrdered<T(!new)>(less: (T, T) -> bool, s: seq<T>, n: nat)
    requires IsOrder(less) && n <= |s|
    ensures IsPermutation(Ordering(less, s, n), n) && Ordered(less, s, Ordering(less, s, n))
  {
    if n > 0 {
      OrderingIsOrdered(less, s, n - 1);
      var p := Ordering(less, s, n - 1);
      var j := Place(less, s, p, n - 1);
      InsertKeepsOrder(less, s, p, n - 1, j);
      InsertKeepsPermutation(p, n - 1, j);
    }
  }

  lemma SortedIsStableSort<T(!new)>(less: (T, T) -> bool, s: seq<T>)
    requires IsOrder(less)
    ensures IsStableSort(less, s, Sorted(less, s))
  {
    OrderingIsOrdered(less, s, |s|);
    assert Arranges(less, s, Sorted(less, s), Ordering(less, s, |s|));
  }

  /** The comparisons agree on the elements of the sequence. */
  ghost predicate AgreeOn<T>(less: (T, T) -> bool, other: (T, T) -> bool, s: seq<T>) {
    forall i, j :: 0 <= i < |s| && 0 <= j < |s| ==> (less(s[i], s[j]) <==> other(s[i], s[j]))
  }

  lemma {:induction false} PlaceAgrees<T>(less: (T, T) -> bool, other: (T, T) -> bool, s: seq<T>, p: seq<nat>, k: nat)
    requires AgreeOn(less, other, s) && k < |s| && forall i :: 0 <= i < |p| ==> p[i] < |s|
    ensures Place(less, s, p, k) == Place(other, s, p, k)
  {
    if p != [] {
      PlaceAgrees(less, other, s, p[1..], k);
    }
  }

  lemma OrderingInserts<T>(less: (T, T) -> bool, s: seq<T>, n: nat, p: seq<nat>, j: nat)
    requires 0 < n <= |s| && p == Ordering(less, s, n - 1) && j == Place(less, s, p, n - 1)
    ensures Ordering(less, s, n) == p[..j] + [n - 1] + p[j..]
  {}

  lemma {:induction false} OrderingAgrees<T>(less: (T, T) -> bool, other: (T, T) -> bool, s: seq<T>, n: nat)
    requires AgreeOn(less, other, s) && n <= |s|
    ensures Ordering(less, s, n) == Ordering(other, s, n)
  {
    if n > 0 {
      OrderingAgrees(less, other, s, n - 1);
      var p := Ordering(other, s, n - 1);
      PlaceAgrees(less, other, s, p, n - 1);
      var j := Place(other, s, p, n - 1);
      OrderingInserts(less, s, n, p, j);
      OrderingInserts(other, s, n, p, j);
    }
  }

  lemma SortedAgrees<T>(less: (T, T) -> bool, other: (T, T) -> bool, s: seq<T>)
    requires AgreeOn(less, other, s)
    ensures Sorted(less, s) == Sorted(other, s)
  {
    OrderingAgrees(less, other, s, |s|);
  }

  lemma SameOrderSameSort<T>(less: (T, T) -> bool, other: (T, T) -> bool, s: seq<T>, t: seq<T>)
    requires AgreeOn(less, other, s) && IsStableSort(less, s, t)
    ensures IsStableSort(other, s, t)
  {
    var p :| Arranges(less, s, t, p);
    forall i, j | 0 <= i < j < |s|
      ensures Precedes(other, s, p[i], p[j])
    {
      assert Precedes(less, s, p[i], p[j]);
    }
    assert Arranges(other, s, t, p);
  }

  // ---------------------------------------------------------------------------------------------
  // There is only one
  // ---------------------------------------------------------------------------------------------

  lemma {:induction false} OrderedIsUnique<T(!new)>(less: (T, T) -> bool, s: seq<T>, p: seq<nat>, q: seq<nat>)
    requires forall i :: 0 <= i < |p| ==> p[i] < |s|
    requires forall i :: 0 <= i < |q| ==> q[i] < |s|
    requires Ordered(less, s, p) && Ordered(less, s, q)
    requires forall k: nat :: k in p <==> k in q
    requires IsOrder(less)
    ensures p == q
  {
    assert q != [] ==> q[0] in p;
    if p != [] {
      assert p[0] in q;
      var i :| 0 <= i < |q| && q[i] == p[0];
      assert q[0] in p;
      var j :| 0 <= j < |p| && p[j] == q[0];
      assert p[0] == q[0];
      forall k: nat
        ensures k in p[1..] <==> k in q[1..]
      {
        RestHasTheOthers(less, s, p, k);
        RestHasTheOthers(less, s, q, k);
      }
      assert forall i :: 0 <= i < |p[1..]| ==> p[1..][i] == p[i + 1];
      assert forall i :: 0 <= i < |q[1..]| ==> q[1..][i] == q[i + 1];
      OrderedIsUnique(less, s, p[1..], q[1..]);
      assert p == [p[0]] + p[1..] && q == [q[0]] + q[1..];
    }
  }

  lemma RestHasTheOthers<T(!new)>(less: (T, T) -> bool, s: seq<T>, p: seq<nat>, k: nat)
    requires IsOrder(less) && p != []
    requires (forall i :: 0 <= i < |p| ==> p[i] < |s|) && Ordered(less, s, p)
    ensures k in p[1..] <==> k in p && k != p[0]
  {
    if k in p[1..] {
      var i :| 0 <= i < |p[1..]| && p[1..][i] == k;
      assert p[i + 1] == k;
      assert Precedes(less, s, p[0], p[i + 1]);
    }
    if k in p && k != p[0] {
      var i :| 0 <= i < |p| && p[i] == k;
      assert p[1..][i - 1] == k;
    }
  }

  lemma StableSortIsUnique<T(!new)>(less: (T, T) -> bool, s: seq<T>, t: seq<T>, u: seq<T>)
    requires IsOrder(less)
    requires IsStableSort(less, s, t) && IsStableSort(less, s, u)
    ensures t == u
  {
    var p :| Arranges(less, s, t, p);
    var q :| Arranges(less, s, u, q);
    OrderedIsUnique(less, s, p, q);
  }

  // ---------------------------------------------------------------------------------------------
  // Sorting twice
  // ---------------------------------------------------------------------------------------------

  /** First by `major`, and by `minor` where that makes no difference. */
  function Lexicographic<T>(major: (T, T) -> bool, minor: (T, T) -> bool): (T, T) -> bool {
    (a, b) => major(a, b) || (!major(b, a) && minor(a, b))
  }

  lemma LexicographicAt<T(!new)>(major: (T, T) -> bool, minor: (T, T) -> bool, a: T, b: T)
    ensures Lexicographic(major, minor)(a, b) <==> major(a, b) || (!major(b, a) && minor(a, b))
  {}

  lemma LexicographicIsOrder<T(!new)>(major: (T, T) -> bool, minor: (T, T) -> bool)
    requires IsOrder(major) && IsOrder(minor)
    ensures IsOrder(Lexicographic(major, minor))
  {}

  function Composed(p: seq<nat>, q: seq<nat>): (r: seq<nat>)
    requires forall i :: 0 <= i < |q| ==> q[i] < |p|
    ensures |r| == |q| && forall i :: 0 <= i < |q| ==> r[i] == p[q[i]]
  {
    seq(|q|, i requires 0 <= i < |q| => p[q[i]])
  }

  lemma ComposedIsPermutation(p: seq<nat>, q: seq<nat>, n: nat)
    requires IsPermutation(p, n) && IsPermutation(q, n)
    ensures IsPermutation(Composed(p, q), n)
  {
    var r := Composed(p, q);
    forall k: nat | k < n
      ensures k in r
    {
      assert k in p;
      var i :| 0 <= i < n && p[i] == k;
      assert i in q;
      var j :| 0 <= j < n && q[j] == i;
      assert r[j] == k;
    }
    forall i, j | 0 <= i < j < n
      ensures r[i] != r[j]
    {
      assert q[i] != q[j];
    }
  }

  /** Sorting by the minor order and then by the major one is sorting lexicographically, because the sorts are stable. */
  lemma SortingTwice<T(!new)>(major: (T, T) -> bool, minor: (T, T) -> bool, s: seq<T>, t: seq<T>, u: seq<T>)
    requires IsStableSort(minor, s, t) && IsStableSort(major, t, u)
    requires IsOrder(major) && IsOrder(minor)
    ensures IsStableSort(Lexicographic(major, minor), s, u)
  {
    var p :| Arranges(minor, s, t, p);
    var q :| Arranges(major, t, u, q);
    var r := Composed(p, q);
    ComposedIsPermutation(p, q, |s|);
    forall i, j | 0 <= i < j < |s|
      ensures Precedes(Lexicographic(major, minor), s, r[i], r[j])
    {
      assert Precedes(major, t, q[i], q[j]);
      assert t[q[i]] == s[r[i]] && t[q[j]] == s[r[j]];
      if q[i] < q[j] {
        assert Precedes(minor, s, p[q[i]], p[q[j]]);
      }
    }
    assert Arranges(Lexicographic(major, minor), s, u, r);
  }

  // ---------------------------------------------------------------------------------------------
  // Nothing is lost
  // ---------------------------------------------------------------------------------------------

  lemma {:induction false} PermutationKeepsElements<T>(s: seq<T>, t: seq<T>, p: seq<nat>)
    requires IsPermutation(p, |s|) && |t| == |s| && forall i :: 0 <= i < |s| ==> t[i] == s[p[i]]
    ensures multiset(t) == multiset(s)
  {
    if s != [] {
      var n := |s| - 1;
      assert n in p;
      var i :| 0 <= i <= n && p[i] == n;
      var q, u := p[..i] + p[i + 1..], t[..i] + t[i + 1..];
      RemoveLargest(p, n, i);
      forall k | 0 <= k < n
        ensures u[k] == s[..n][q[k]]
      {
        RemovedAt(p, i, k);
        RemovedAt(t, i, k);
      }
      PermutationKeepsElements(s[..n], u, q);
      AddBack(t, i);
      assert s == s[..n] + [s[n]];
    }
  }

  lemma RemovedAt<T>(s: seq<T>, i: nat, k: nat)
    requires i < |s| && k < |s| - 1
    ensures (s[..i] + s[i + 1..])[k] == s[if k < i then k else k + 1]
  {}

  lemma AddBack<T>(t: seq<T>, i: nat)
    requires i < |t|
    ensures multiset(t) == multiset(t[..i] + t[i + 1..]) + multiset{t[i]}
  {
    assert t == t[..i] + [t[i]] + t[i + 1..];
  }

  lemma RemoveLargest(p: seq<nat>, n: nat, i: nat)
    requires IsPermutation(p, n + 1) && i <= n && p[i] == n
    ensures IsPermutation(p[..i] + p[i + 1..], n)
  {
    var q := p[..i] + p[i + 1..];
    assert forall k :: 0 <= k < n ==> q[k] == p[if k < i then k else k + 1];
    forall k: nat | k < n
      ensures k in q
    {
      assert k in p;
      var j :| 0 <= j <= n && p[j] == k;
      assert q[if j < i then j else j - 1] == k;
    }
    assert forall k :: 0 <= k < |q| ==> q[k] != p[i];
  }

  lemma StableSortKeepsElements<T>(less: (T, T) -> bool, s: seq<T>, t: seq<T>)
    requires IsStableSort(less, s, t)
    ensures multiset(t) == multiset(s)
  {
    var p :| Arranges(less, s, t, p);
    PermutationKeepsElements(s, t, p);
  }
}
