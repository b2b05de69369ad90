/** The Rust standard library's slice sorting and consecutive de-duplication, by what they promise. */
module Sorting {
  import opened Sequences

  ghost predicate TotalPreorderOn<T>(leq: (T, T) -> bool, s: seq<T>) {
    && (forall x, y :: x in s && y in s ==> leq(x, y) || leq(y, x))
    && (forall x, y, z :: x in s && y in s && z in s && leq(x, y) && leq(y, z) ==> leq(x, z))
  }

  function Insert<T>(leq: (T, T) -> bool, x: T, s: seq<T>): seq<T> {
    if s == [] then [x]
    else if leq(x, s[0]) then [x] + s
    else [s[0]] + Insert(leq, x, s[1..])
  }

  function SortBy<T>(leq: (T, T) -> bool, s: seq<T>): seq<T> {
    if s == [] then [] else Insert(leq, s[0], SortBy(leq, s[1..]))
  }

  lemma {:induction false} InsertPermutes<T>(leq: (T, T) -> bool, x: T, s: seq<T>)
    ensures multiset(Insert(leq, x, s)) == multiset(s) + multiset{x}
  {
    if s != [] {
      assert s == [s[0]] + s[1..];
      InsertPermutes(leq, x, s[1..]);
    }
  }

  lemma {:induction false} SortPermutes<T>(leq: (T, T) -> bool, s: seq<T>)
    ensures multiset(SortBy(leq, s)) == multiset(s)
  {
    if s != [] {
      SortPermutes(leq, s[1..]);
      InsertPermutes(leq, s[0], SortBy(leq, s[1..]));
      assert s == [s[0]] + s[1..];
    }
  }

  lemma SameElements<T>(a: seq<T>, b: seq<T>)
    requires multiset(a) == multiset(b)
    ensures |a| == |b|
    ensures forall x :: x in a <==> x in b
  {
    assert |multiset(a)| == |multiset(b)|;
    forall x ensures x in a <==> x in b {
      assert x in a <==> x in multiset(a);
      assert x in b <==> x in multiset(b);
    }
  }

  lemma SortKeepsElements<T>(leq: (T, T) -> bool, s: seq<T>)
    ensures |SortBy(leq, s)| == |s|
    ensures forall x :: x in SortBy(leq, s) <==> x in s
  {
    SortPermutes(leq, s);
    SameElements(SortBy(leq, s), s);
  }

  lemma HeadAndSortedTail<T>(leq: (T, T) -> bool, s: seq<T>, x: T)
    requires s != [] && x in [s[0]] + SortBy(leq, s[1..])
    ensures x in s
  {
    SortKeepsElements(leq, s[1..]);
  }

  lemma PreorderOnPart<T>(leq: (T, T) -> bool, part: seq<T>, s: seq<T>)
    requires TotalPreorderOn(leq, s)
    requires forall x :: x in part ==> x in s
    ensures TotalPreorderOn(leq, part)
  {
  }

  lemma PrependSorts<T>(leq: (T, T) -> bool, head: T, rest: seq<T>)
    requires OrderedBy(leq, rest)
    requires forall y :: y in rest ==> leq(head, y)
    ensures OrderedBy(leq, [head] + rest)
  {
  }

  lemma InsertElements<T>(leq: (T, T) -> bool, x: T, s: seq<T>, y: T)
    ensures y in Insert(leq, x, s) <==> y == x || y in s
  {
    InsertPermutes(leq, x, s);
    assert y in Insert(leq, x, s) <==> y in multiset(Insert(leq, x, s));
    assert y in s <==> y in multiset(s);
  }

  lemma {:induction false} InsertSorts<T>(leq: (T, T) -> bool, x: T, s: seq<T>)
    requires TotalPreorderOn(leq, [x] + s) && OrderedBy(leq, s)
    ensures OrderedBy(leq, Insert(leq, x, s))
  {
    if s != [] {
      assert x in [x] + s && s[0] in [x] + s;
      if leq(x, s[0]) {
        forall y | y in s ensures leq(x, y) {
          var k :| 0 <= k < |s| && s[k] == y;
          assert y in [x] + s;
        }
        PrependSorts(leq, x, s);
      } else {
        PreorderOnPart(leq, [x] + s[1..], [x] + s);
        InsertSorts(leq, x, s[1..]);
        forall y | y in Insert(leq, x, s[1..]) ensures leq(s[0], y) {
          InsertElements(leq, x, s[1..], y);
        }
        PrependSorts(leq, s[0], Insert(leq, x, s[1..]));
      }
    }
  }

  lemma {:induction false} SortSorts<T>(leq: (T, T) -> bool, s: seq<T>)
    requires TotalPreorderOn(leq, s)
    ensures OrderedBy(leq, SortBy(leq, s))
  {
    if s != [] {
      var tail := s[1..];
      var rest := SortBy(leq, tail);
      PreorderOnPart(leq, tail, s);
      forall x | x in [s[0]] + rest ensures x in s {
        HeadAndSortedTail(leq, s, x);
      }
      PreorderOnPart(leq, [s[0]] + rest, s);
      SortSorts(leq, tail);
      InsertSorts(leq, s[0], rest);
    }
  }

  /** `Vec::dedup`: drop every element equal to its predecessor. */
  function Dedup<T(==)>(s: seq<T>): seq<T> {
    if |s| <= 1 then s
    else if s[0] == s[1] then Dedup(s[1..])
    else [s[0]] + Dedup(s[1..])
  }

  function Ascending(s: seq<int>): seq<int> {
    SortBy((a: int, b: int) => a <= b, s)
  }

  lemma AscendingSorts(s: seq<int>)
    ensures OrderedBy((a: int, b: int) => a <= b, Ascending(s))
    ensures multiset(Ascending(s)) == multiset(s)
  {
    SortSorts((a: int, b: int) => a <= b, s);
    SortPermutes((a: int, b: int) => a <= b, s);
  }

  lemma {:induction false} DedupStrict(s: seq<int>)
    requires forall i, j :: 0 <= i < j < |s| ==> s[i] <= s[j]
    ensures forall x :: x in Dedup(s) <==> x in s
    ensures forall i, j :: 0 <= i < j < |Dedup(s)| ==> Dedup(s)[i] < Dedup(s)[j]
    ensures s != [] ==> Dedup(s) != [] && Dedup(s)[0] == s[0]
  {
    if |s| > 1 {
      DedupStrict(s[1..]);
      assert s == [s[0]] + s[1..];
    }
  }

  /** Sorting and de-duplicating a group leaves its element set, strictly ascending. */
  lemma GroupIsAscendingSet(s: seq<int>)
    ensures forall x :: x in Dedup(Ascending(s)) <==> x in s
    ensures forall i, j :: 0 <= i < j < |Dedup(Ascending(s))| ==> Dedup(Ascending(s))[i] < Dedup(Ascending(s))[j]
  {
    AscendingSorts(s);
    SameElements(Ascending(s), s);
    assert forall i, j :: 0 <= i < j < |Ascending(s)| ==>
      ((a: int, b: int) => a <= b)(Ascending(s)[i], Ascending(s)[j]);
    DedupStrict(Ascending(s));
  }
}
