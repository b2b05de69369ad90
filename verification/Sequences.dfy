/** Facts about ordered and duplicate-free sequences used by several components. */
module Sequences {

  ghost predicate OrderedBy<T>(less: (T, T) -> bool, s: seq<T>) {
    forall i, j :: 0 <= i < j < |s| ==> less(s[i], s[j])
  }

  ghost predicate Asymmetric<T(!new)>(less: (T, T) -> bool) {
    forall x, y :: less(x, y) ==> !less(y, x)
  }

  ghost predicate Distinct<T>(s: seq<T>) {
    forall i, j :: 0 <= i < j < |s| ==> s[i] != s[j]
  }

  /** An ordered sequence whose elements come first in another ordered sequence is a prefix of it. */
  lemma OrderedPrefix<T(!new)>(less: (T, T) -> bool, a: seq<T>, b: seq<T>)
    requires Asymmetric(less) && OrderedBy(less, a) && OrderedBy(less, b)
    requires forall x :: x in a ==> x in b
    requires forall i, j :: 0 <= i < j < |b| && b[j] in a ==> b[i] in a
    ensures a <= b
  {
    var n := 0;
    while n < |a|
      invariant 0 <= n <= |a| && n <= |b|
      invariant forall i :: 0 <= i < n ==> a[i] == b[i]
    {
      assert a[n] in b;
      var p :| 0 <= p < |b| && b[p] == a[n];
      if p < n {
        assert false;
      }
      if p > n {
        assert b[n] in a;
        var q :| 0 <= q < |a| && a[q] == b[n];
        if q != n {
          assert false;
        }
      }
      assert a[n] == b[n];
      n := n + 1;
    }
  }

  /** Two ordered sequences with the same elements are the same sequence. */
  lemma OrderedUnique<T(!new)>(less: (T, T) -> bool, a: seq<T>, b: seq<T>)
    requires Asymmetric(less) && OrderedBy(less, a) && OrderedBy(less, b)
    requires forall x :: x in a <==> x in b
    ensures a == b
  {
    OrderedPrefix(less, a, b);
    OrderedPrefix(less, b, a);
  }

  lemma {:induction false} DistinctSize<T>(s: seq<T>)
    requires Distinct(s)
    ensures |set x | x in s| == |s|
  {
    var elements := set x | x in s;
    if s != [] {
      var front := s[..|s| - 1];
      DistinctSize(front);
      var frontElements := set x | x in front;
      assert elements == frontElements + {s[|s| - 1]};
    }
  }

  ghost function Below(n: nat): (r: set<int>)
    ensures |r| == n
    ensures forall x :: x in r <==> 0 <= x < n
  {
    if n == 0 then {} else Below(n - 1) + {n - 1}
  }

  lemma SubsetSize<T>(a: set<T>, b: set<T>)
    requires a <= b
    ensures |a| <= |b|
  {
    assert b == a + (b - a);
    assert |b| == |a| + |b - a|;
  }

  /** Pigeonhole: distinct naturals below n number at most n. */
  lemma Pigeonhole(s: seq<int>, n: nat)
    requires Distinct(s)
    requires forall x :: x in s ==> 0 <= x < n
    ensures |s| <= n
  {
    DistinctSize(s);
    SubsetSize((set x | x in s), Below(n));
  }

  /** Distinct values that include every natural below n number at least n. */
  lemma Covering(s: seq<int>, n: nat)
    requires Distinct(s)
    requires forall x :: 0 <= x < n ==> x in s
    ensures |s| >= n
  {
    DistinctSize(s);
    SubsetSize(Below(n), (set x | x in s));
  }

  lemma {:induction false} DistinctMultiplicity<T>(s: seq<T>, x: T)
    requires Distinct(s)
    ensures multiset(s)[x] <= 1
  {
    if s != [] {
      var n := |s| - 1;
      DistinctMultiplicity(s[..n], x);
      assert s == s[..n] + [s[n]];
      if s[n] == x {
        assert x !in s[..n];
        assert x !in multiset(s[..n]);
      }
    }
  }

  lemma SubMultisetDistinct<T>(a: seq<T>, b: seq<T>)
    requires multiset(a) <= multiset(b) && Distinct(b)
    ensures Distinct(a)
  {
    forall i, j | 0 <= i < j < |a| ensures a[i] != a[j] {
      DistinctMultiplicity(b, a[i]);
      assert a == a[..j] + [a[j]] + a[j + 1..];
      assert a[i] in a[..j];
      assert multiset(a)[a[i]] == multiset(a[..j])[a[i]] + multiset([a[j]])[a[i]] + multiset(a[j + 1..])[a[i]];
      assert multiset(a[..j])[a[i]] >= 1;
    }
  }
}
