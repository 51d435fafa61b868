/** Small generic helpers shared by the other modules: optional values,
    facts about sequences used as lists. */
module Util {

  datatype Option<+T> = None | Some(value: T)

  function Min(a: int, b: int): int
  {
    if a <= b then a else b
  }

  /** No element occurs twice. */
  predicate NoDup<T(==)>(s: seq<T>)
  {
    forall i, j :: 0 <= i < j < |s| ==> s[i] != s[j]
  }

  /** The elements of a list, forgetting order and multiplicity. */
  function ToSet<T>(s: seq<T>): set<T>
  {
    set x | x in s
  }

  /** `a` is a prefix of `b`. */
  predicate IsPrefix<T(==)>(a: seq<T>, b: seq<T>)
  {
    |a| <= |b| && b[..|a|] == a
  }

  lemma PrefixTrans<T>(a: seq<T>, b: seq<T>, c: seq<T>)
    requires IsPrefix(a, b) && IsPrefix(b, c)
    ensures IsPrefix(a, c)
  {
    assert c[..|a|] == c[..|b|][..|a|];
  }

  lemma AppendAssoc<T>(a: seq<T>, b: seq<T>, c: seq<T>)
    ensures (a + b) + c == a + (b + c)
  {
  }

  /** Removes repeated elements, keeping the first occurrence of each;
      this is one of the orders that Python's `list(set(xs))` may produce. */
  function Dedup<T(==)>(s: seq<T>): (r: seq<T>)
    ensures NoDup(r)
    ensures ToSet(r) == ToSet(s)
    ensures |r| <= |s|
  {
    if s == [] then []
    else
      var rest := Dedup(s[..|s| - 1]);
      var x := s[|s| - 1];
      assert s == s[..|s| - 1] + [x];
      assert ToSet(s) == ToSet(s[..|s| - 1]) + {x};
      if x in rest then rest else rest + [x]
  }

  lemma {:induction false} SetCardBound<T>(s: seq<T>)
    ensures |ToSet(s)| <= |s|
    ensures NoDup(s) ==> |ToSet(s)| == |s|
    decreases |s|
  {
    if s != [] {
      var init := s[..|s| - 1];
      var x := s[|s| - 1];
      SetCardBound(init);
      assert s == init + [x];
      assert ToSet(s) == ToSet(init) + {x};
      if NoDup(s) {
        assert x !in ToSet(init);
      }
    }
  }

  /** A duplicate-free list whose elements all occur in b is no longer than b. */
  lemma NoDupSubsetLength<T>(a: seq<T>, b: seq<T>)
    requires NoDup(a) && ToSet(a) <= ToSet(b)
    ensures |a| <= |b|
  {
    SetCardBound(a);
    SetCardBound(b);
    SubsetCard(ToSet(a), ToSet(b));
  }

  lemma SubsetCard<T>(a: set<T>, b: set<T>)
    requires a <= b
    ensures |a| <= |b|
  {
    assert b == a + (b - a);
  }

  /** The concatenation of f(x) over xs, in order. */
  function FlatMap<A, B>(xs: seq<A>, f: A -> seq<B>): seq<B>
  {
    if xs == [] then [] else FlatMap(xs[..|xs| - 1], f) + f(xs[|xs| - 1])
  }

  lemma {:induction false} FlatMapAppend<A, B>(a: seq<A>, b: seq<A>, f: A -> seq<B>)
    ensures FlatMap(a + b, f) == FlatMap(a, f) + FlatMap(b, f)
    decreases |b|
  {
    if b == [] {
      assert a + b == a;
    } else {
      assert (a + b)[..|a + b| - 1] == a + b[..|b| - 1];
      assert (a + b)[|a + b| - 1] == b[|b| - 1];
      FlatMapAppend(a, b[..|b| - 1], f);
    }
  }

  lemma FlatMapSnoc<A, B>(xs: seq<A>, n: nat, f: A -> seq<B>)
    requires n < |xs|
    ensures FlatMap(xs[..n + 1], f) == FlatMap(xs[..n], f) + f(xs[n])
  {
    assert xs[..n + 1][..n] == xs[..n];
  }

  /** Every element of the concatenation comes from the image of some x. */
  lemma {:induction false} FlatMapMember<A, B>(xs: seq<A>, f: A -> seq<B>, y: B)
    requires y in FlatMap(xs, f)
    ensures exists i | 0 <= i < |xs| :: y in f(xs[i])
    decreases |xs|
  {
    var init := xs[..|xs| - 1];
    if y !in f(xs[|xs| - 1]) {
      FlatMapMember(init, f, y);
      var i :| 0 <= i < |init| && y in f(init[i]);
      assert xs[i] == init[i];
    }
  }

  /** The image of every x is part of the concatenation. */
  lemma {:induction false} FlatMapHas<A, B>(xs: seq<A>, f: A -> seq<B>, i: nat, y: B)
    requires i < |xs| && y in f(xs[i])
    ensures y in FlatMap(xs, f)
    decreases |xs|
  {
    var init := xs[..|xs| - 1];
    if i < |xs| - 1 {
      assert init[i] == xs[i];
      FlatMapHas(init, f, i, y);
    }
  }

  /** When every x has an empty image, so has the whole list. */
  lemma {:induction false} FlatMapEmpty<A, B>(xs: seq<A>, f: A -> seq<B>)
    requires forall i | 0 <= i < |xs| :: f(xs[i]) == []
    ensures FlatMap(xs, f) == []
    decreases |xs|
  {
    if xs != [] {
      var init := xs[..|xs| - 1];
      assert forall i | 0 <= i < |init| :: init[i] == xs[i];
      FlatMapEmpty(init, f);
    }
  }

  /** Removing repetitions leaves a list empty only when it was empty. */
  lemma DedupEmpty<T>(s: seq<T>)
    ensures Dedup(s) == [] <==> s == []
  {
    if s != [] {
      assert s[0] in ToSet(s);
    }
  }
}
