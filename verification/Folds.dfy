/**
  Left folds and pipelines of steps, and what their results preserve of their inputs, for any step function.
 */
module Folds {

  function Fold<A, E>(step: (A, E) -> A, acc: A, s: seq<E>): A {
    if s == [] then acc else step(Fold(step, acc, s[..|s| - 1]), s[|s| - 1])
  }

  ghost predicate InjectiveInAccumulator<A(!new), E(!new)>(step: (A, E) -> A) {
    forall x, y, e :: step(x, e) == step(y, e) ==> x == y
  }

  ghost predicate InjectiveInElement<A(!new), E(!new)>(step: (A, E) -> A) {
    forall x, e, f :: step(x, e) == step(x, f) ==> e == f
  }

  ghost predicate Commuting<A(!new), E(!new)>(step: (A, E) -> A) {
    forall x, e, f :: step(step(x, e), f) == step(step(x, f), e)
  }

  lemma {:induction false} FoldSplits<A, E>(step: (A, E) -> A, acc: A, s: seq<E>, t: seq<E>)
    ensures Fold(step, acc, s + t) == Fold(step, Fold(step, acc, s), t)
  {
    if t == [] {
      assert s + t == s;
    } else {
      var u := s + t;
      assert u[..|u| - 1] == s + t[..|t| - 1];
      FoldSplits(step, acc, s, t[..|t| - 1]);
    }
  }

  lemma {:induction false} FoldIsInjectiveInAccumulator<A(!new), E(!new)>(step: (A, E) -> A, x: A, y: A, s: seq<E>)
    requires InjectiveInAccumulator(step)
    ensures Fold(step, x, s) == Fold(step, y, s) <==> x == y
  {
    if s != [] {
      FoldIsInjectiveInAccumulator(step, x, y, s[..|s| - 1]);
    }
  }

  /** The middle of a sequence reaches the result only through the accumulator behind it. */
  lemma FoldMiddle<A(!new), E(!new)>(step: (A, E) -> A, acc: A, p: seq<E>, m: seq<E>, n: seq<E>, q: seq<E>)
    requires InjectiveInAccumulator(step)
    ensures Fold(step, acc, p + m + q) == Fold(step, acc, p + n + q)
            <==> Fold(step, Fold(step, acc, p), m) == Fold(step, Fold(step, acc, p), n)
  {
    FoldSplits(step, acc, p + m, q);
    FoldSplits(step, acc, p + n, q);
    FoldSplits(step, acc, p, m);
    FoldSplits(step, acc, p, n);
    FoldIsInjectiveInAccumulator(step, Fold(step, acc, p + m), Fold(step, acc, p + n), q);
  }

  lemma FoldOne<A, E>(step: (A, E) -> A, acc: A, e: E)
    ensures Fold(step, acc, [e]) == step(acc, e)
  {
    assert [e][..0] == [];
  }

  lemma FoldTwo<A, E>(step: (A, E) -> A, acc: A, e: E, f: E)
    ensures Fold(step, acc, [e, f]) == step(step(acc, e), f)
  {
    assert [e, f][..1] == [e];
    FoldOne(step, acc, e);
  }

  lemma {:induction false} FoldExtract<A(!new), E(!new)>(step: (A, E) -> A, acc: A, s: seq<E>, i: nat)
    requires i < |s|
    requires Commuting(step)
    ensures Fold(step, acc, s) == step(Fold(step, acc, s[..i] + s[i + 1..]), s[i])
  {
    var last := |s| - 1;
    if i == last {
      assert s[..i] + s[i + 1..] == s[..last];
    } else {
      FoldExtract(step, acc, s[..last], i);
      var t := s[..i] + s[i + 1..];
      assert t[..|t| - 1] == s[..last][..i] + s[..last][i + 1..];
      assert t[|t| - 1] == s[last];
    }
  }

  lemma {:induction false} FoldIgnoresOrder<A(!new), E(!new)>(step: (A, E) -> A, acc: A, s: seq<E>, t: seq<E>)
    requires multiset(s) == multiset(t)
    requires Commuting(step)
    ensures Fold(step, acc, s) == Fold(step, acc, t)
    ensures |s| == |t|
  {
    assert |s| == |multiset(s)| == |multiset(t)| == |t|;
    if s != [] {
      var last := |s| - 1;
      assert s[last] in multiset(t);
      var i :| 0 <= i < |t| && t[i] == s[last];
      RemovingKeepsMultisets(s, t, i);
      FoldIgnoresOrder(step, acc, s[..last], t[..i] + t[i + 1..]);
      FoldExtract(step, acc, t, i);
    }
  }

  lemma RemovingKeepsMultisets<E>(s: seq<E>, t: seq<E>, i: nat)
    requires s != [] && i < |t| && t[i] == s[|s| - 1]
    requires multiset(s) == multiset(t)
    ensures multiset(s[..|s| - 1]) == multiset(t[..i] + t[i + 1..])
  {
    var x, a, b := multiset{t[i]}, multiset(s[..|s| - 1]), multiset(t[..i] + t[i + 1..]);
    assert s == s[..|s| - 1] + [t[i]];
    assert t == t[..i] + [t[i]] + t[i + 1..];
    assert a + x == b + x;
    assert (a + x) - x == a && (b + x) - x == b;
  }
}
