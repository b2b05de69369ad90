/** What greedy hot-entry planning achieves, and what it conserves. */
module GreedyTheorems {
  import opened Machine
  import opened DivMod
  import opened Sequences
  import opened Sorting
  import opened CacheFabric
  import opened HotPlanning

  // ----- sums over candidates

  function Sum(value: HotCacheCandidate -> int, candidates: seq<HotCacheCandidate>): int {
    if candidates == [] then 0 else value(candidates[0]) + Sum(value, candidates[1..])
  }

  lemma {:induction false} SumConcat(value: HotCacheCandidate -> int, a: seq<HotCacheCandidate>, b: seq<HotCacheCandidate>)
    ensures Sum(value, a + b) == Sum(value, a) + Sum(value, b)
  {
    if a == [] {
      assert a + b == b;
    } else {
      assert (a + b)[1..] == a[1..] + b;
      SumConcat(value, a[1..], b);
    }
  }

  lemma SumOne(value: HotCacheCandidate -> int, a: HotCacheCandidate)
    ensures Sum(value, [a]) == value(a)
  {
    assert [a][1..] == [];
    assert Sum(value, []) == 0;
  }

  lemma SumPair(value: HotCacheCandidate -> int, a: HotCacheCandidate, b: HotCacheCandidate)
    ensures Sum(value, [a, b]) == value(a) + value(b)
  {
    SumOne(value, b);
    assert [a, b][1..] == [b];
  }

  lemma RemoveOne(b: seq<HotCacheCandidate>, j: nat)
    requires j < |b|
    ensures multiset(b[..j] + b[j + 1..]) == multiset(b) - multiset{b[j]}
  {
    assert b == b[..j] + [b[j]] + b[j + 1..];
  }

  lemma SumRemovesOne(value: HotCacheCandidate -> int, b: seq<HotCacheCandidate>, j: nat)
    requires j < |b|
    ensures Sum(value, b) == value(b[j]) + Sum(value, b[..j] + b[j + 1..])
  {
    var front, tail := b[..j], b[j + 1..];
    SumConcat(value, front, tail);
    SumConcat(value, front, [b[j]] + tail);
    assert front + ([b[j]] + tail) == b;
    assert ([b[j]] + tail)[1..] == tail;
  }

  lemma {:induction false} SumPermutes(value: HotCacheCandidate -> int, a: seq<HotCacheCandidate>, b: seq<HotCacheCandidate>)
    requires multiset(a) == multiset(b)
    ensures Sum(value, a) == Sum(value, b)
  {
    if a == [] {
      SameElements(a, b);
    } else {
      var j := Find(b, a);
      TailPermutes(a, b, j);
      SumPermutes(value, a[1..], b[..j] + b[j + 1..]);
      SumRemovesOne(value, b, j);
    }
  }

  lemma TailPermutes(a: seq<HotCacheCandidate>, b: seq<HotCacheCandidate>, j: nat)
    requires a != [] && multiset(a) == multiset(b) && j < |b| && b[j] == a[0]
    ensures multiset(a[1..]) == multiset(b[..j] + b[j + 1..])
  {
    RemoveOne(a, 0);
    RemoveOne(b, j);
    assert a[..0] + a[1..] == a[1..];
  }

  lemma Find(b: seq<HotCacheCandidate>, a: seq<HotCacheCandidate>) returns (j: nat)
    requires a != [] && multiset(a) == multiset(b)
    ensures j < |b| && b[j] == a[0]
  {
    SameElements(a, b);
    assert a[0] in b;
    j :| 0 <= j < |b| && b[j] == a[0];
  }

  function Bytes(): HotCacheCandidate -> int {
    (c: HotCacheCandidate) => c.bytes
  }

  function Savings(): HotCacheCandidate -> int {
    (c: HotCacheCandidate) => c.expectedSavingsNs
  }

  /** Bytes of a candidate if its key is chosen. */
  function BytesIn(keys: set<u64>): HotCacheCandidate -> int {
    (c: HotCacheCandidate) => if c.key in keys then c.bytes else 0
  }

  /** Savings of a candidate if its key is chosen. */
  function SavingsIn(keys: set<u64>): HotCacheCandidate -> int {
    (c: HotCacheCandidate) => if c.key in keys then c.expectedSavingsNs else 0
  }

  // ----- ranked lists

  /** A list in rank order, of candidates the planner accepts. */
  ghost predicate RankedList(ranked: seq<HotCacheCandidate>) {
    && (forall c :: c in ranked ==> c.bytes > 0)
    && OrderedBy(RankedBefore, ranked)
  }

  lemma KeysOfPart(part: seq<HotCacheCandidate>, whole: seq<HotCacheCandidate>)
    requires multiset(part) <= multiset(whole) && Distinct(Keys(whole))
    ensures Distinct(Keys(part))
  {
    DistinctFromKeys(whole);
    SubMultisetDistinct(part, whole);
    forall i, j | 0 <= i < j < |part| ensures Keys(part)[i] != Keys(part)[j] {
      assert part[i] in multiset(whole) && part[j] in multiset(whole);
      var m :| 0 <= m < |whole| && whole[m] == part[i];
      var n :| 0 <= n < |whole| && whole[n] == part[j];
      assert Keys(whole)[m] == Keys(part)[i] && Keys(whole)[n] == Keys(part)[j];
      assert part[i] != part[j];
      assert m < n ==> Keys(whole)[m] != Keys(whole)[n];
      assert n < m ==> Keys(whole)[n] != Keys(whole)[m];
    }
  }

  lemma DistinctFromKeys(candidates: seq<HotCacheCandidate>)
    requires Distinct(Keys(candidates))
    ensures Distinct(candidates)
  {
    forall i, j | 0 <= i < j < |candidates| ensures candidates[i] != candidates[j] {
      assert Keys(candidates)[i] != Keys(candidates)[j];
    }
  }

  lemma {:induction false} OwnedIsPart(fabric: CpuCacheFabric, candidates: seq<HotCacheCandidate>, cpu: u32)
    requires fabric.owners != []
    ensures multiset(OwnedBy(fabric, candidates, cpu)) <= multiset(candidates)
  {
    if candidates != [] {
      var n := |candidates| - 1;
      OwnedIsPart(fabric, candidates[..n], cpu);
      assert candidates == candidates[..n] + [candidates[n]];
    }
  }

  lemma PreorderOfRank(candidates: seq<HotCacheCandidate>)
    requires forall c :: c in candidates ==> c.bytes > 0
    ensures TotalPreorderOn(RankedNotAfter, candidates)
  {
    forall a, b | a in candidates && b in candidates ensures RankedNotAfter(a, b) || RankedNotAfter(b, a) {
      OrderAntisymmetric(a, b);
    }
    forall a, b, c | a in candidates && b in candidates && c in candidates && RankedNotAfter(a, b) && RankedNotAfter(b, c)
      ensures RankedNotAfter(a, c)
    {
      OrderAntisymmetric(a, b);
      OrderAntisymmetric(b, c);
      if a != b && b != c {
        OrderTransitive(a, b, c);
      }
    }
  }

  /** Sorting valid candidates by the comparator gives a strictly ranked list of the same candidates. */
  lemma SortingRanks(candidates: seq<HotCacheCandidate>)
    requires ValidCandidates(candidates)
    ensures var ranked := SortBy(RankedNotAfter, candidates);
      RankedList(ranked) && multiset(ranked) == multiset(candidates)
  {
    var ranked := SortBy(RankedNotAfter, candidates);
    PreorderOfRank(candidates);
    SortSorts(RankedNotAfter, candidates);
    SortPermutes(RankedNotAfter, candidates);
    SameElements(ranked, candidates);
    DistinctFromKeys(candidates);
    SubMultisetDistinct(ranked, candidates);
    forall i, j | 0 <= i < j < |ranked| ensures RankedBefore(ranked[i], ranked[j]) {
      OrderAntisymmetric(ranked[i], ranked[j]);
    }
  }

  lemma OwnerRanks(fabric: CpuCacheFabric, candidates: seq<HotCacheCandidate>, cpu: u32)
    requires fabric.owners != [] && ValidCandidates(candidates)
    ensures RankedList(Ranked(fabric, candidates, cpu))
    ensures multiset(Ranked(fabric, candidates, cpu)) == multiset(OwnedBy(fabric, candidates, cpu))
    ensures Distinct(Keys(Ranked(fabric, candidates, cpu)))
  {
    var owned := OwnedBy(fabric, candidates, cpu);
    OwnedElements(fabric, candidates, cpu);
    OwnedIsPart(fabric, candidates, cpu);
    KeysOfPart(owned, candidates);
    SortingRanks(owned);
    KeysOfPart(Ranked(fabric, candidates, cpu), owned);
  }

  // ----- the plan does not depend on the order of the candidates

  lemma ValidPermutes(candidates: seq<HotCacheCandidate>, others: seq<HotCacheCandidate>)
    requires multiset(candidates) == multiset(others) && ValidCandidates(candidates)
    ensures ValidCandidates(others)
  {
    SameElements(candidates, others);
    KeysOfPart(others, candidates);
  }

  lemma RankedPermutes(fabric: CpuCacheFabric, candidates: seq<HotCacheCandidate>, others: seq<HotCacheCandidate>, cpu: u32)
    requires fabric.owners != [] && ValidCandidates(candidates) && multiset(candidates) == multiset(others)
    ensures Ranked(fabric, candidates, cpu) == Ranked(fabric, others, cpu)
  {
    ValidPermutes(candidates, others);
    OwnerRanks(fabric, candidates, cpu);
    OwnerRanks(fabric, others, cpu);
    SameElements(candidates, others);
    OwnedElements(fabric, candidates, cpu);
    OwnedElements(fabric, others, cpu);
    var a, b := Ranked(fabric, candidates, cpu), Ranked(fabric, others, cpu);
    SameElements(a, OwnedBy(fabric, candidates, cpu));
    SameElements(b, OwnedBy(fabric, others, cpu));
    RankUnique(a, b);
  }

  lemma RankUnique(a: seq<HotCacheCandidate>, b: seq<HotCacheCandidate>)
    requires RankedList(a) && RankedList(b) && forall c :: c in a <==> c in b
    ensures a == b
  {
    forall x, y ensures RankedBefore(x, y) ==> !RankedBefore(y, x) {
      OrderAntisymmetric(x, y);
    }
    OrderedUnique(RankedBefore, a, b);
  }

  /** A successful plan is identical for every permutation of the candidates. */
  lemma PlanIsCanonical(
    fabric: CpuCacheFabric, candidates: seq<HotCacheCandidate>, others: seq<HotCacheCandidate>,
    r: Result<CpuHotCachePlan, CacheFabricError>, s: Result<CpuHotCachePlan, CacheFabricError>)
    requires multiset(candidates) == multiset(others)
    requires IsPlanResult(fabric, candidates, r) && IsPlanResult(fabric, others, s)
    requires r.Ok?
    ensures r == s
  {
    ValidPermutes(candidates, others);
    ValidHasNoFault(others);
    forall i | 0 <= i < |fabric.owners|
      ensures Acceptances(fabric, candidates)[i] == Acceptances(fabric, others)[i]
    {
      AcceptanceAt(fabric, candidates, |fabric.owners|, i);
      AcceptanceAt(fabric, others, |fabric.owners|, i);
      RankedPermutes(fabric, candidates, others, fabric.owners[i].cpuId);
    }
    assert Acceptances(fabric, candidates) == Acceptances(fabric, others);
  }

  lemma ValidHasNoFault(candidates: seq<HotCacheCandidate>)
    requires ValidCandidates(candidates)
    ensures forall key: u64 :: !FirstZero(candidates, key) && !FirstDuplicate(candidates, key)
  {
    forall key: u64 ensures !FirstZero(candidates, key) && !FirstDuplicate(candidates, key) {
      forall i | 0 <= i < |candidates| ensures candidates[i].bytes > 0 {
        assert candidates[i] in candidates;
      }
      forall i | 0 <= i < |candidates| && candidates[i].key == key ensures key !in Keys(candidates)[..i] {
        assert Keys(candidates)[i] == key;
      }
    }
  }

  /** Planning succeeds exactly when there are owners, no candidate is empty and no key repeats. */
  lemma PlanningAccepts(
    fabric: CpuCacheFabric, candidates: seq<HotCacheCandidate>, r: Result<CpuHotCachePlan, CacheFabricError>)
    requires IsPlanResult(fabric, candidates, r)
    ensures r.Ok? <==>
            && fabric.owners != [] && (forall c :: c in candidates ==> c.bytes > 0)
            && forall i, j :: 0 <= i < j < |candidates| ==> candidates[i].key != candidates[j].key
  {
    var keys := Keys(candidates);
    assert forall i :: 0 <= i < |keys| ==> keys[i] == candidates[i].key;
    if fabric.owners != [] && ValidCandidates(candidates) {
      ValidHasNoFault(candidates);
    }
    if forall i, j :: 0 <= i < j < |candidates| ==> candidates[i].key != candidates[j].key {
      assert Distinct(keys);
    }
  }

  // ----- conservation

  /** Greedy acceptance never overdraws: bytes placed and bytes left make up the budget. */
  lemma {:induction false} BudgetConserved(ranked: seq<HotCacheCandidate>, budget: u64, k: nat)
    requires k <= |ranked|
    ensures Sum(Bytes(), Accept(ranked, budget, k).placed) + Accept(ranked, budget, k).remaining == budget
  {
    if k > 0 {
      BudgetConserved(ranked, budget, k - 1);
      var before := Accept(ranked, budget, k - 1).placed;
      SumConcat(Bytes(), before, [ranked[k - 1]]);
      SumOne(Bytes(), ranked[k - 1]);
    }
  }

  /** Only listed candidates with positive savings are placed. */
  lemma {:induction false} PlacedAreWorthwhile(ranked: seq<HotCacheCandidate>, budget: u64, k: nat)
    requires k <= |ranked|
    ensures multiset(Accept(ranked, budget, k).placed) <= multiset(ranked[..k])
    ensures forall c :: c in Accept(ranked, budget, k).placed ==> c in ranked && c.expectedSavingsNs > 0
  {
    if k > 0 {
      PlacedAreWorthwhile(ranked, budget, k - 1);
      assert ranked[..k] == ranked[..k - 1] + [ranked[k - 1]];
    }
  }

  /** A worthwhile candidate is left out only when, at its turn, it exceeds what the candidates placed
      before it leave of the budget; otherwise it is placed. */
  lemma PlacedExactlyIfFits(ranked: seq<HotCacheCandidate>, budget: u64, k: nat)
    requires k < |ranked| && Distinct(ranked) && ranked[k].expectedSavingsNs > 0
    ensures ranked[k] in Accept(ranked, budget, |ranked|).placed <==>
            Sum(Bytes(), Accept(ranked, budget, k).placed) + ranked[k].bytes <= budget
  {
    BudgetConserved(ranked, budget, k);
    PlacedAreWorthwhile(ranked, budget, k);
    assert ranked[k] !in Accept(ranked, budget, k).placed by {
      assert ranked[k] !in ranked[..k];
      assert ranked[k] !in multiset(ranked[..k]);
    }
    LaterPlacements(ranked, budget, k + 1, |ranked|, k);
  }

  lemma {:induction false} LaterPlacements(ranked: seq<HotCacheCandidate>, budget: u64, from: nat, to: nat, k: nat)
    requires k < from <= to <= |ranked| && Distinct(ranked)
    ensures Accept(ranked, budget, from).placed <= Accept(ranked, budget, to).placed
    ensures ranked[k] in Accept(ranked, budget, to).placed <==> ranked[k] in Accept(ranked, budget, from).placed
  {
    if from < to {
      LaterPlacements(ranked, budget, from, to - 1, k);
    }
  }

  // ----- near-optimality

  function Weigh(ownBytes: int, ownSavings: int, savings: int, bytes: int): int {
    ownBytes * savings - ownSavings * bytes
  }

  /** Signed worth of a candidate against the density of `c`, scaled by the bytes of `c`. */
  function Worth(c: HotCacheCandidate): HotCacheCandidate -> int {
    (x: HotCacheCandidate) => Weigh(c.bytes, c.expectedSavingsNs, x.expectedSavingsNs, x.bytes)
  }

  function WorthIn(c: HotCacheCandidate, keys: set<u64>): HotCacheCandidate -> int {
    (x: HotCacheCandidate) => if x.key in keys then Weigh(c.bytes, c.expectedSavingsNs, x.expectedSavingsNs, x.bytes) else 0
  }

  lemma {:induction false} WorthIsLinear(c: HotCacheCandidate, keys: set<u64>, xs: seq<HotCacheCandidate>)
    ensures Sum(WorthIn(c, keys), xs) == c.bytes * Sum(SavingsIn(keys), xs) - c.expectedSavingsNs * Sum(BytesIn(keys), xs)
    ensures Sum(Worth(c), xs) == c.bytes * Sum(Savings(), xs) - c.expectedSavingsNs * Sum(Bytes(), xs)
  {
    if xs != [] {
      WorthIsLinear(c, keys, xs[1..]);
      var s, b := Sum(SavingsIn(keys), xs[1..]), Sum(BytesIn(keys), xs[1..]);
      Distribute(c.bytes, SavingsIn(keys)(xs[0]), s);
      Distribute(c.expectedSavingsNs, BytesIn(keys)(xs[0]), b);
      Distribute(c.bytes, Savings()(xs[0]), Sum(Savings(), xs[1..]));
      Distribute(c.expectedSavingsNs, Bytes()(xs[0]), Sum(Bytes(), xs[1..]));
    }
  }

  lemma Distribute(a: int, b: int, c: int)
    ensures a * (b + c) == a * b + a * c
  {
  }

  /** Candidates ranked before `c` are worth at least as much per byte, candidates after it at most. */
  lemma WorthByRank(ranked: seq<HotCacheCandidate>, i: nat, k: nat)
    requires RankedList(ranked) && i < |ranked| && k < |ranked|
    ensures k < i ==> Worth(ranked[i])(ranked[k]) >= 0
    ensures k >= i ==> Worth(ranked[i])(ranked[k]) <= 0
  {
    if k != i {
      assert k < i ==> RankedBefore(ranked[k], ranked[i]);
      assert i < k ==> RankedBefore(ranked[i], ranked[k]);
    }
  }

  lemma {:induction false} ChosenWorthAbove(c: HotCacheCandidate, keys: set<u64>, xs: seq<HotCacheCandidate>)
    requires forall k :: 0 <= k < |xs| ==> Worth(c)(xs[k]) >= 0
    ensures Sum(WorthIn(c, keys), xs) <= Sum(Worth(c), xs)
  {
    if xs != [] {
      assert Worth(c)(xs[0]) >= 0;
      ChosenWorthAbove(c, keys, xs[1..]);
    }
  }

  lemma {:induction false} ChosenWorthBelow(c: HotCacheCandidate, keys: set<u64>, xs: seq<HotCacheCandidate>)
    requires forall k :: 0 <= k < |xs| ==> Worth(c)(xs[k]) <= 0
    ensures Sum(WorthIn(c, keys), xs) <= 0
  {
    if xs != [] {
      assert Worth(c)(xs[0]) <= 0;
      ChosenWorthBelow(c, keys, xs[1..]);
    }
  }

  lemma ChosenWorthByRank(ranked: seq<HotCacheCandidate>, i: nat, keys: set<u64>)
    requires RankedList(ranked) && i < |ranked|
    ensures Sum(WorthIn(ranked[i], keys), ranked) <= Sum(Worth(ranked[i]), ranked[..i])
  {
    var c, before, after := ranked[i], ranked[..i], ranked[i..];
    forall k | 0 <= k < |before| ensures Worth(c)(before[k]) >= 0 {
      WorthByRank(ranked, i, k);
    }
    forall k | 0 <= k < |after| ensures Worth(c)(after[k]) <= 0 {
      WorthByRank(ranked, i, i + k);
    }
    ChosenWorthAbove(c, keys, before);
    ChosenWorthBelow(c, keys, after);
    assert ranked == before + after;
    SumConcat(WorthIn(c, keys), before, after);
  }

  /** Exchange: measured against the density of ranked[i], no choice is worth more than exactly the
      candidates ranked before it. */
  lemma Exchange(ranked: seq<HotCacheCandidate>, i: nat, keys: set<u64>)
    requires RankedList(ranked) && i < |ranked|
    ensures var c, before := ranked[i], ranked[..i];
      c.bytes * Sum(SavingsIn(keys), ranked) - c.expectedSavingsNs * Sum(BytesIn(keys), ranked)
      <= c.bytes * Sum(Savings(), before) - c.expectedSavingsNs * Sum(Bytes(), before)
  {
    ChosenWorthByRank(ranked, i, keys);
    WorthIsLinear(ranked[i], keys, ranked);
    WorthIsLinear(ranked[i], keys, ranked[..i]);
  }

  /** Candidate k is not rejected: it is not worthwhile, or it fits when its turn comes. */
  ghost predicate NotRejected(ranked: seq<HotCacheCandidate>, budget: u64, k: nat)
    requires k < |ranked|
  {
    ranked[k].expectedSavingsNs > 0 ==> ranked[k].bytes <= Accept(ranked, budget, k).remaining
  }

  /** ranked[i] is the first worthwhile candidate that greedy acceptance leaves out. */
  ghost predicate FirstRejected(ranked: seq<HotCacheCandidate>, budget: u64, i: nat) {
    && i < |ranked| && !NotRejected(ranked, budget, i)
    && forall k: nat :: k < i ==> NotRejected(ranked, budget, k)
  }

  /** No worthwhile candidate is left out. */
  ghost predicate NoneRejected(ranked: seq<HotCacheCandidate>, budget: u64) {
    forall k: nat :: k < |ranked| ==> NotRejected(ranked, budget, k)
  }

  /** Candidates without savings rank behind every worthwhile one. */
  lemma WorthwhileFirst(ranked: seq<HotCacheCandidate>, k: nat, i: nat)
    requires RankedList(ranked) && k < i < |ranked| && ranked[i].expectedSavingsNs > 0
    ensures ranked[k].expectedSavingsNs > 0
  {
    WorthByRank(ranked, i, k);
    assert ranked[k] in ranked;
    PositiveProduct(ranked[i].expectedSavingsNs, ranked[k].bytes);
  }

  lemma PositiveProduct(a: nat, b: nat)
    requires a > 0 && b > 0
    ensures a * b > 0
  {
  }

  lemma {:induction false} PlacedWhileWorthwhile(ranked: seq<HotCacheCandidate>, budget: u64, i: nat, k: nat)
    requires FirstRejected(ranked, budget, i) && k <= i
    requires forall j :: 0 <= j < i ==> ranked[j].expectedSavingsNs > 0
    ensures Accept(ranked, budget, k).placed == ranked[..k]
  {
    if k > 0 {
      PlacedWhileWorthwhile(ranked, budget, i, k - 1);
      assert NotRejected(ranked, budget, k - 1);
      assert ranked[..k] == ranked[..k - 1] + [ranked[k - 1]];
    }
  }

  /** Before the first rejection everything is placed. */
  lemma AllPlacedBefore(ranked: seq<HotCacheCandidate>, budget: u64, i: nat)
    requires RankedList(ranked) && FirstRejected(ranked, budget, i)
    ensures Accept(ranked, budget, i).placed == ranked[..i]
  {
    forall j | 0 <= j < i ensures ranked[j].expectedSavingsNs > 0 {
      WorthwhileFirst(ranked, j, i);
    }
    PlacedWhileWorthwhile(ranked, budget, i, i);
  }

  /** Greedy near-optimality. Every choice of candidates that fits the budget saves strictly less than
      the candidates placed before the first rejection and the rejected candidate together. */
  lemma GreedyNearOptimal(ranked: seq<HotCacheCandidate>, budget: u64, i: nat, keys: set<u64>)
    requires RankedList(ranked) && FirstRejected(ranked, budget, i)
    requires Sum(BytesIn(keys), ranked) <= budget
    ensures Sum(SavingsIn(keys), ranked) <
            Sum(Savings(), Accept(ranked, budget, i).placed) + ranked[i].expectedSavingsNs
  {
    var c, before := ranked[i], ranked[..i];
    AllPlacedBefore(ranked, budget, i);
    BudgetConserved(ranked, budget, i);
    Exchange(ranked, i, keys);
    assert c in ranked;
    StrictlyBelow(
      c.bytes, c.expectedSavingsNs, Sum(SavingsIn(keys), ranked), Sum(BytesIn(keys), ranked),
      Sum(Savings(), before), Sum(Bytes(), before));
  }

  /** From the exchange inequality and a choice smaller than the accepted plus the rejected bytes. */
  lemma StrictlyBelow(b: nat, s: nat, chosenSavings: int, chosenBytes: int, savings: int, bytes: int)
    requires b > 0 && s > 0
    requires b * chosenSavings - s * chosenBytes <= b * savings - s * bytes
    requires chosenBytes < bytes + b
    ensures chosenSavings < savings + s
  {
    assert s * chosenBytes < s * (bytes + b);
    assert s * (bytes + b) == s * bytes + s * b;
    assert b * chosenSavings < b * savings + b * s;
    assert b * savings + b * s == b * (savings + s);
  }

  lemma {:induction false} ChosenBelowAll(keys: set<u64>, xs: seq<HotCacheCandidate>)
    ensures Sum(SavingsIn(keys), xs) <= Sum(Savings(), xs)
  {
    if xs != [] {
      ChosenBelowAll(keys, xs[1..]);
    }
  }

  lemma {:induction false} PlacedSavings(ranked: seq<HotCacheCandidate>, budget: u64, k: nat)
    requires k <= |ranked|
    requires forall j: nat :: j < k ==> NotRejected(ranked, budget, j)
    ensures Sum(Savings(), Accept(ranked, budget, k).placed) == Sum(Savings(), ranked[..k])
  {
    if k > 0 {
      PlacedSavings(ranked, budget, k - 1);
      assert NotRejected(ranked, budget, k - 1);
      var last := [ranked[k - 1]];
      assert ranked[..k] == ranked[..k - 1] + last;
      SumConcat(Savings(), ranked[..k - 1], last);
      SumConcat(Savings(), Accept(ranked, budget, k - 1).placed, last);
      assert last[1..] == [];
    }
  }

  /** The bound cannot be improved to optimality: here greedy places the denser entry, rejects the larger
      one, and a choice that fits saves more. */
  lemma GreedyCanBeBeaten(ranked: seq<HotCacheCandidate>, budget: u64, keys: set<u64>)
    requires ranked == [HotCacheCandidate(0, 6, 7), HotCacheCandidate(1, 10, 10)] && budget == 10 && keys == {1}
    ensures RankedList(ranked) && FirstRejected(ranked, budget, 1)
    ensures Sum(BytesIn(keys), ranked) <= budget
    ensures Sum(SavingsIn(keys), ranked) > Sum(Savings(), Accept(ranked, budget, |ranked|).placed)
  {
    var first, second := ranked[0], ranked[1];
    SumPair(BytesIn(keys), first, second);
    SumPair(SavingsIn(keys), first, second);
    SumOne(Savings(), first);
    assert Accept(ranked, budget, 0) == Acceptance([], 10);
    assert Accept(ranked, budget, 1) == Acceptance([first], 4);
    assert Accept(ranked, budget, 2) == Acceptance([first], 4);
    assert NotRejected(ranked, budget, 0);
  }

  /** When no worthwhile candidate is left out the placements save the most any choice could. */
  lemma GreedyOptimalWhenAllFit(ranked: seq<HotCacheCandidate>, budget: u64, keys: set<u64>)
    requires NoneRejected(ranked, budget)
    ensures Sum(SavingsIn(keys), ranked) <= Sum(Savings(), Accept(ranked, budget, |ranked|).placed)
  {
    PlacedSavings(ranked, budget, |ranked|);
    assert ranked[..|ranked|] == ranked;
    ChosenBelowAll(keys, ranked);
  }

  lemma {:induction false} PlacedSavingsGrow(ranked: seq<HotCacheCandidate>, budget: u64, from: nat, to: nat)
    requires from <= to <= |ranked|
    ensures Sum(Savings(), Accept(ranked, budget, from).placed) <= Sum(Savings(), Accept(ranked, budget, to).placed)
  {
    if from < to {
      PlacedSavingsGrow(ranked, budget, from, to - 1);
      SumConcat(Savings(), Accept(ranked, budget, to - 1).placed, [ranked[to - 1]]);
      assert [ranked[to - 1]][1..] == [];
    }
  }

  lemma {:induction false} EqualSizeBytes(size: u64, keys: set<u64>, xs: seq<HotCacheCandidate>)
    returns (chosen: nat)
    requires forall x :: x in xs ==> x.bytes == size
    ensures Sum(BytesIn(keys), xs) == chosen * size && Sum(Bytes(), xs) == |xs| * size
  {
    if xs == [] {
      chosen := 0;
    } else {
      var rest := EqualSizeBytes(size, keys, xs[1..]);
      assert xs[0] in xs;
      chosen := if xs[0].key in keys then rest + 1 else rest;
      assert chosen * size == rest * size + BytesIn(keys)(xs[0]);
      assert |xs| * size == |xs[1..]| * size + size;
    }
  }

  /** Equal-size optimality: when all of an owner's candidates have the same size, as fixed-width rows
      do, the greedy placements save as much as any choice that fits the budget. */
  lemma GreedyOptimalForEqualSizes(ranked: seq<HotCacheCandidate>, budget: u64, size: u64, keys: set<u64>)
    requires RankedList(ranked) && forall c :: c in ranked ==> c.bytes == size
    requires Sum(BytesIn(keys), ranked) <= budget
    ensures Sum(SavingsIn(keys), ranked) <= Sum(Savings(), Accept(ranked, budget, |ranked|).placed)
  {
    if NoneRejected(ranked, budget) {
      GreedyOptimalWhenAllFit(ranked, budget, keys);
    } else {
      var i := FindFirstRejected(ranked, budget, |ranked|);
      var c, before := ranked[i], ranked[..i];
      AllPlacedBefore(ranked, budget, i);
      BudgetConserved(ranked, budget, i);
      Exchange(ranked, i, keys);
      assert c in ranked;
      var chosen := EqualSizeBytes(size, keys, ranked);
      forall x | x in before ensures x.bytes == size {
        assert x in ranked;
      }
      var _ := EqualSizeBytes(size, keys, before);
      AtMostAsMany(chosen, i, size, budget);
      NotAbove(
        c.bytes, c.expectedSavingsNs, Sum(SavingsIn(keys), ranked), Sum(BytesIn(keys), ranked),
        Sum(Savings(), before), Sum(Bytes(), before));
      PlacedSavingsGrow(ranked, budget, i, |ranked|);
    }
  }

  lemma AtMostAsMany(chosen: nat, placed: nat, size: nat, budget: nat)
    requires size > 0 && chosen * size <= budget < placed * size + size
    ensures chosen * size <= placed * size
  {
    MulNext(placed, size);
    if placed + 1 <= chosen {
      MulMono(placed + 1, chosen, size);
    } else {
      MulMono(chosen, placed, size);
    }
  }

  lemma NotAbove(b: nat, s: nat, chosenSavings: int, chosenBytes: int, savings: int, bytes: int)
    requires b > 0
    requires b * chosenSavings - s * chosenBytes <= b * savings - s * bytes
    requires chosenBytes <= bytes
    ensures chosenSavings <= savings
  {
    assert s * chosenBytes <= s * bytes;
    assert b * chosenSavings <= b * savings;
  }

  lemma {:induction false} FindFirstRejected(ranked: seq<HotCacheCandidate>, budget: u64, n: nat) returns (i: nat)
    requires n <= |ranked|
    requires exists k: nat :: k < n && !NotRejected(ranked, budget, k)
    ensures FirstRejected(ranked, budget, i)
  {
    if exists k: nat :: k < n - 1 && !NotRejected(ranked, budget, k) {
      i := FindFirstRejected(ranked, budget, n - 1);
    } else {
      i := n - 1;
    }
  }

  ghost predicate EqualSized(candidates: seq<HotCacheCandidate>) {
    forall c, d :: c in candidates && d in candidates ==> c.bytes == d.bytes
  }

  /** How good a plan saving `saved` is, over candidates in any order. For every choice of keys that fits the
      budget: if every worthwhile candidate was placed the plan saves at least as much; if not, the
      choice saves strictly less than the candidates placed before the first rejection and the
      rejected candidate; and with equal sizes the plan is optimal in any case. */
  ghost predicate NearOptimal(
    saved: int, owned: seq<HotCacheCandidate>, ranked: seq<HotCacheCandidate>, budget: u64)
  {
    forall keys: set<u64> :: Sum(BytesIn(keys), owned) <= budget ==>
      Within(Sum(SavingsIn(keys), owned), saved, owned, ranked, budget)
  }

  ghost predicate Within(
    chosen: int, saved: int, owned: seq<HotCacheCandidate>, ranked: seq<HotCacheCandidate>, budget: u64)
  {
    && (NoneRejected(ranked, budget) ==> chosen <= saved)
    && (!NoneRejected(ranked, budget) ==> exists j: nat :: FirstRejected(ranked, budget, j))
    && (forall j: nat :: FirstRejected(ranked, budget, j) ==> BelowRejection(chosen, ranked, budget, j))
    && (EqualSized(owned) ==> chosen <= saved)
  }

  ghost predicate BelowRejection(chosen: int, ranked: seq<HotCacheCandidate>, budget: u64, j: nat) {
    && j < |ranked|
    && chosen < Sum(Savings(), Accept(ranked, budget, j).placed) + ranked[j].expectedSavingsNs
  }

  lemma EqualSizedWithin(
    owned: seq<HotCacheCandidate>, ranked: seq<HotCacheCandidate>, budget: u64, keys: set<u64>)
    requires RankedList(ranked) && EqualSized(owned) && forall c :: c in ranked <==> c in owned
    requires Sum(BytesIn(keys), ranked) <= budget
    ensures Sum(SavingsIn(keys), ranked) <= Sum(Savings(), Accept(ranked, budget, |ranked|).placed)
  {
    var size := if owned == [] then 0 else owned[0].bytes;
    forall c | c in ranked ensures c.bytes == size {
      assert c in owned && owned[0] in owned;
    }
    GreedyOptimalForEqualSizes(ranked, budget, size, keys);
  }

  lemma ChoiceWithin(owned: seq<HotCacheCandidate>, ranked: seq<HotCacheCandidate>, budget: u64, keys: set<u64>)
    requires RankedList(ranked) && multiset(ranked) == multiset(owned)
    requires Sum(BytesIn(keys), owned) <= budget
    ensures Within(
      Sum(SavingsIn(keys), owned), Sum(Savings(), Accept(ranked, budget, |ranked|).placed), owned, ranked, budget)
  {
    SameElements(ranked, owned);
    SumPermutes(BytesIn(keys), ranked, owned);
    SumPermutes(SavingsIn(keys), ranked, owned);
    if NoneRejected(ranked, budget) {
      GreedyOptimalWhenAllFit(ranked, budget, keys);
    } else {
      var first := FindFirstRejected(ranked, budget, |ranked|);
    }
    forall j: nat | FirstRejected(ranked, budget, j)
      ensures BelowRejection(Sum(SavingsIn(keys), ranked), ranked, budget, j)
    {
      GreedyNearOptimal(ranked, budget, j, keys);
    }
    if EqualSized(owned) {
      EqualSizedWithin(owned, ranked, budget, keys);
    }
  }

  // ----- the plan as a whole

  /** Every candidate is considered by exactly one owner. */
  lemma OwnersPartition(fabric: CpuCacheFabric, candidates: seq<HotCacheCandidate>, c: HotCacheCandidate, i: nat)
    requires fabric.Canonical() && c in candidates && i < |fabric.owners|
    ensures c in OwnedBy(fabric, candidates, fabric.owners[i].cpuId) <==> i == fabric.OwnerIndex(c.key)
  {
    OwnedElements(fabric, candidates, fabric.owners[i].cpuId);
    var own := fabric.OwnerIndex(c.key);
    assert i < own ==> fabric.owners[i].cpuId < fabric.owners[own].cpuId;
    assert own < i ==> fabric.owners[own].cpuId < fabric.owners[i].cpuId;
  }

  /** Each owner's placements and what it has left make up its budget. */
  lemma OwnerBudgetConserved(fabric: CpuCacheFabric, candidates: seq<HotCacheCandidate>, i: nat)
    requires i < |fabric.owners|
    ensures var accepted := OwnerAcceptance(fabric, candidates, i);
      Sum(Bytes(), accepted.placed) + accepted.remaining == fabric.owners[i].hotBudgetBytes
  {
    var ranked := Ranked(fabric, candidates, fabric.owners[i].cpuId);
    BudgetConserved(ranked, fabric.owners[i].hotBudgetBytes, |ranked|);
  }

  /** A placement of a worthwhile candidate. */
  ghost predicate PlacesCandidate(candidates: seq<HotCacheCandidate>, p: HotCachePlacement) {
    HotCacheCandidate(p.key, p.bytes, p.expectedSavingsNs) in candidates && p.expectedSavingsNs > 0
  }

  lemma OwnerAccepts(fabric: CpuCacheFabric, candidates: seq<HotCacheCandidate>, i: nat)
    requires fabric.Canonical() && ValidCandidates(candidates) && i < |fabric.owners|
    ensures var accepted := OwnerAcceptance(fabric, candidates, i).placed;
      && Distinct(Keys(accepted))
      && forall c :: c in accepted ==>
           c in candidates && c.expectedSavingsNs > 0 && fabric.OwnerCpuForKey(c.key) == fabric.owners[i].cpuId
  {
    var cpu := fabric.owners[i].cpuId;
    var ranked := Ranked(fabric, candidates, cpu);
    OwnerRanks(fabric, candidates, cpu);
    SameElements(ranked, OwnedBy(fabric, candidates, cpu));
    OwnedElements(fabric, candidates, cpu);
    PlacedAreWorthwhile(ranked, fabric.owners[i].hotBudgetBytes, |ranked|);
    assert ranked[..|ranked|] == ranked;
    KeysOfPart(OwnerAcceptance(fabric, candidates, i).placed, ranked);
  }

  /** What each owner accepted, for keys owned through `ownerOf`. */
  ghost predicate AcceptedByOwners(
    owners: seq<CpuCacheOwner>, accepted: seq<Acceptance>, ownerOf: u64 -> u32, candidates: seq<HotCacheCandidate>)
  {
    && |accepted| == |owners|
    && (forall i, j :: 0 <= i < j < |owners| ==> owners[i].cpuId < owners[j].cpuId)
    && forall i :: 0 <= i < |owners| ==>
         && Distinct(Keys(accepted[i].placed))
         && forall c :: c in accepted[i].placed ==>
              c in candidates && c.expectedSavingsNs > 0 && ownerOf(c.key) == owners[i].cpuId
  }

  ghost predicate SoundPlacements(
    placements: seq<HotCachePlacement>, ownerOf: u64 -> u32, candidates: seq<HotCacheCandidate>)
  {
    && (forall a, b :: 0 <= a < b < |placements| ==> placements[a].key != placements[b].key)
    && (forall p :: p in placements ==> PlacesCandidate(candidates, p) && p.ownerCpu == ownerOf(p.key))
  }

  lemma {:induction false} PlacementsSound(
    owners: seq<CpuCacheOwner>, accepted: seq<Acceptance>, ownerOf: u64 -> u32, candidates: seq<HotCacheCandidate>,
    n: nat)
    requires AcceptedByOwners(owners, accepted, ownerOf, candidates) && n <= |owners|
    ensures SoundPlacements(PlacementsUpTo(owners, accepted, n), ownerOf, candidates)
    ensures forall p :: p in PlacementsUpTo(owners, accepted, n) ==> n > 0 && p.ownerCpu <= owners[n - 1].cpuId
  {
    if n > 0 {
      PlacementsSound(owners, accepted, ownerOf, candidates, n - 1);
      var own := Placed(owners[n - 1].cpuId, accepted[n - 1].placed);
      forall m | 0 <= m < |own|
        ensures PlacesCandidate(candidates, own[m]) && own[m].ownerCpu == ownerOf(own[m].key) == owners[n - 1].cpuId
      {
        assert accepted[n - 1].placed[m] in accepted[n - 1].placed;
      }
      forall a, b | 0 <= a < b < |own| ensures own[a].key != own[b].key {
        assert Keys(accepted[n - 1].placed)[a] != Keys(accepted[n - 1].placed)[b];
      }
      SoundConcat(PlacementsUpTo(owners, accepted, n - 1), own, ownerOf, candidates);
    }
  }

  lemma SoundConcat(
    a: seq<HotCachePlacement>, b: seq<HotCachePlacement>, ownerOf: u64 -> u32, candidates: seq<HotCacheCandidate>)
    requires SoundPlacements(a, ownerOf, candidates) && SoundPlacements(b, ownerOf, candidates)
    requires forall p, q :: p in a && q in b ==> p.ownerCpu != q.ownerCpu
    ensures SoundPlacements(a + b, ownerOf, candidates)
  {
  }

  /** No key is placed twice, every placement is of a worthwhile candidate, on the owner of its key. */
  lemma PlanIsSound(fabric: CpuCacheFabric, candidates: seq<HotCacheCandidate>)
    requires fabric.Canonical() && ValidCandidates(candidates)
    ensures SoundPlacements(PlanOf(fabric, candidates).placements, fabric.OwnerOf(), candidates)
  {
    var accepted := Acceptances(fabric, candidates);
    forall i | 0 <= i < |fabric.owners|
      ensures Distinct(Keys(accepted[i].placed))
      ensures forall c :: c in accepted[i].placed ==>
        c in candidates && c.expectedSavingsNs > 0 && fabric.OwnerOf()(c.key) == fabric.owners[i].cpuId
    {
      AcceptanceAt(fabric, candidates, |fabric.owners|, i);
      OwnerAccepts(fabric, candidates, i);
    }
    PlacementsSound(fabric.owners, accepted, fabric.OwnerOf(), candidates, |fabric.owners|);
  }

  // ----- the budget, as the finished plan shows it

  /** The candidates placed on a CPU, in plan order. */
  function PlacedOn(placements: seq<HotCachePlacement>, cpu: u32): seq<HotCacheCandidate> {
    if placements == [] then [] else OnCpu(placements[0], cpu) + PlacedOn(placements[1..], cpu)
  }

  function OnCpu(p: HotCachePlacement, cpu: u32): seq<HotCacheCandidate> {
    if p.ownerCpu == cpu then [HotCacheCandidate(p.key, p.bytes, p.expectedSavingsNs)] else []
  }

  lemma {:induction false} PlacedOnConcat(a: seq<HotCachePlacement>, b: seq<HotCachePlacement>, cpu: u32)
    ensures PlacedOn(a + b, cpu) == PlacedOn(a, cpu) + PlacedOn(b, cpu)
  {
    if a == [] {
      assert a + b == b;
    } else {
      assert (a + b)[1..] == a[1..] + b && (a + b)[0] == a[0];
      PlacedOnConcat(a[1..], b, cpu);
      var first, rest, last := OnCpu(a[0], cpu), PlacedOn(a[1..], cpu), PlacedOn(b, cpu);
      assert first + (rest + last) == first + rest + last;
    }
  }

  lemma {:induction false} PlacedOnOne(owner: u32, candidates: seq<HotCacheCandidate>, cpu: u32)
    ensures PlacedOn(Placed(owner, candidates), cpu) == if owner == cpu then candidates else []
  {
    if candidates != [] {
      PlacedOnOne(owner, candidates[1..], cpu);
      assert Placed(owner, candidates)[1..] == Placed(owner, candidates[1..]);
    }
  }

  lemma PlacedOnNext(owners: seq<CpuCacheOwner>, accepted: seq<Acceptance>, n: nat, cpu: u32)
    requires 0 < n <= |owners| == |accepted|
    ensures PlacedOn(PlacementsUpTo(owners, accepted, n), cpu) ==
            PlacedOn(PlacementsUpTo(owners, accepted, n - 1), cpu)
            + if owners[n - 1].cpuId == cpu then accepted[n - 1].placed else []
  {
    var last := owners[n - 1].cpuId;
    var before, own := PlacementsUpTo(owners, accepted, n - 1), Placed(last, accepted[n - 1].placed);
    PlacedOnOne(last, accepted[n - 1].placed, cpu);
    PlacedOnConcat(before, own, cpu);
    assert PlacementsUpTo(owners, accepted, n) == before + own;
  }

  lemma {:induction false} PlacedOnUpTo(owners: seq<CpuCacheOwner>, accepted: seq<Acceptance>, n: nat, i: nat)
    requires n <= |owners| == |accepted| && i < |owners|
    requires forall j, k :: 0 <= j < k < |owners| ==> owners[j].cpuId < owners[k].cpuId
    ensures PlacedOn(PlacementsUpTo(owners, accepted, n), owners[i].cpuId) ==
            if i < n then accepted[i].placed else []
  {
    if n > 0 {
      PlacedOnUpTo(owners, accepted, n - 1, i);
      PlacedOnNext(owners, accepted, n, owners[i].cpuId);
      if i == n - 1 {
        assert [] + accepted[i].placed == accepted[i].placed;
      } else {
        assert owners[n - 1].cpuId != owners[i].cpuId;
      }
    }
  }

  /** The finished plan places on each owner's CPU exactly what that owner accepted. */
  lemma PlanPlacesAccepted(fabric: CpuCacheFabric, candidates: seq<HotCacheCandidate>, i: nat)
    requires fabric.Canonical() && i < |fabric.owners|
    ensures PlacedOn(PlanOf(fabric, candidates).placements, fabric.owners[i].cpuId) ==
            OwnerAcceptance(fabric, candidates, i).placed
  {
    AcceptanceAt(fabric, candidates, |fabric.owners|, i);
    PlacedOnUpTo(fabric.owners, Acceptances(fabric, candidates), |fabric.owners|, i);
  }

  lemma {:induction false} RemainingFound(remaining: seq<(u32, u64)>, i: nat)
    requires i < |remaining| && forall j :: 0 <= j < i ==> remaining[j].0 != remaining[i].0
    ensures FirstRemaining(remaining, remaining[i].0) == Some(remaining[i].1)
  {
    if i > 0 {
      RemainingFound(remaining[1..], i - 1);
    }
  }

  lemma {:induction false} RemainingMissing(remaining: seq<(u32, u64)>, cpu: u32)
    requires forall j :: 0 <= j < |remaining| ==> remaining[j].0 != cpu
    ensures FirstRemaining(remaining, cpu) == None
  {
    if remaining != [] {
      RemainingMissing(remaining[1..], cpu);
    }
  }

  /** Only owners have a remaining budget. */
  lemma OthersHaveNoBudget(fabric: CpuCacheFabric, candidates: seq<HotCacheCandidate>, cpu: u32)
    requires fabric.Canonical() && cpu !in fabric.OwnerCpus()
    ensures PlanOf(fabric, candidates).RemainingBytesForCpu(cpu) == None
  {
    forall i | 0 <= i < |fabric.owners| ensures fabric.owners[i].cpuId != cpu {
      assert fabric.OwnerCpus()[i] == fabric.owners[i].cpuId;
    }
    RemainingMissing(RemainingByCpu(fabric.owners, Acceptances(fabric, candidates)), cpu);
  }

  /** Budget conservation in the finished plan: for each owner CPU, the bytes of the placements on it
      and the remaining bytes reported for it make up its budget. */
  lemma PlanConservesBudget(fabric: CpuCacheFabric, candidates: seq<HotCacheCandidate>, i: nat)
    requires fabric.Canonical() && i < |fabric.owners|
    ensures var plan, owner := PlanOf(fabric, candidates), fabric.owners[i];
      var remaining := plan.RemainingBytesForCpu(owner.cpuId);
      && remaining.Some?
      && Sum(Bytes(), PlacedOn(plan.placements, owner.cpuId)) + remaining.value == owner.hotBudgetBytes
  {
    var accepted := Acceptances(fabric, candidates);
    AcceptanceAt(fabric, candidates, |fabric.owners|, i);
    OwnerBudgetConserved(fabric, candidates, i);
    PlanPlacesAccepted(fabric, candidates, i);
    RemainingFound(RemainingByCpu(fabric.owners, accepted), i);
  }

  // ----- what the finished plan achieves

  /** The optimality guarantees for each owner: the savings placed on its CPU against every choice among
      its candidates as the caller gave them. */
  lemma OwnerPlanNearOptimal(fabric: CpuCacheFabric, candidates: seq<HotCacheCandidate>, i: nat)
    requires fabric.Canonical() && ValidCandidates(candidates) && i < |fabric.owners|
    ensures var owner := fabric.owners[i];
      NearOptimal(
        Sum(Savings(), PlacedOn(PlanOf(fabric, candidates).placements, owner.cpuId)),
        OwnedBy(fabric, candidates, owner.cpuId), Ranked(fabric, candidates, owner.cpuId), owner.hotBudgetBytes)
  {
    var owner := fabric.owners[i];
    var owned, ranked := OwnedBy(fabric, candidates, owner.cpuId), Ranked(fabric, candidates, owner.cpuId);
    var saved := Sum(Savings(), Accept(ranked, owner.hotBudgetBytes, |ranked|).placed);
    OwnerRanks(fabric, candidates, owner.cpuId);
    PlanPlacesAccepted(fabric, candidates, i);
    forall keys: set<u64> | Sum(BytesIn(keys), owned) <= owner.hotBudgetBytes
      ensures Within(Sum(SavingsIn(keys), owned), saved, owned, ranked, owner.hotBudgetBytes)
    {
      ChoiceWithin(owned, ranked, owner.hotBudgetBytes, keys);
    }
  }

  /** The order in which an owner's candidates are tried, in plain arithmetic: by savings per byte, and
      at equal savings per byte by key. */
  lemma RankedByDensityThenKey(fabric: CpuCacheFabric, candidates: seq<HotCacheCandidate>, cpu: u32, i: nat, j: nat)
    requires fabric.owners != [] && ValidCandidates(candidates) && i < j < |Ranked(fabric, candidates, cpu)|
    ensures var a, b := Ranked(fabric, candidates, cpu)[i], Ranked(fabric, candidates, cpu)[j];
      || a.expectedSavingsNs * b.bytes > b.expectedSavingsNs * a.bytes
      || (a.expectedSavingsNs * b.bytes == b.expectedSavingsNs * a.bytes && a.key < b.key)
  {
    OwnerRanks(fabric, candidates, cpu);
    DenserFirst(Ranked(fabric, candidates, cpu), i, j);
  }

  lemma DenserFirst(ranked: seq<HotCacheCandidate>, i: nat, j: nat)
    requires RankedList(ranked) && Distinct(Keys(ranked)) && i < j < |ranked|
    ensures Denser(ranked[i], ranked[j]) || (!Denser(ranked[j], ranked[i]) && ranked[i].key < ranked[j].key)
  {
    assert Keys(ranked)[i] != Keys(ranked)[j];
    assert RankedBefore(ranked[i], ranked[j]);
    DensityOrder(ranked[i], ranked[j], ranked[j]);
  }

  lemma {:induction false} RemainingShrinks(ranked: seq<HotCacheCandidate>, budget: u64, from: nat, to: nat)
    requires from <= to <= |ranked|
    ensures Accept(ranked, budget, to).remaining <= Accept(ranked, budget, from).remaining
  {
    if from < to {
      RemainingShrinks(ranked, budget, from, to - 1);
    }
  }

  lemma RankedDistinct(ranked: seq<HotCacheCandidate>)
    requires RankedList(ranked)
    ensures Distinct(ranked)
  {
    forall i, j | 0 <= i < j < |ranked| ensures ranked[i] != ranked[j] {
      assert RankedBefore(ranked[i], ranked[j]);
      OrderAntisymmetric(ranked[i], ranked[j]);
    }
  }

  /** Of two worthwhile candidates, one ranked earlier and no larger is placed if the other is. */
  lemma EarlierAndSmallerPlaced(ranked: seq<HotCacheCandidate>, budget: u64, i: nat, j: nat)
    requires RankedList(ranked) && i < j < |ranked|
    requires ranked[i].expectedSavingsNs > 0 && ranked[i].bytes <= ranked[j].bytes
    requires ranked[j] in Accept(ranked, budget, |ranked|).placed
    ensures ranked[i] in Accept(ranked, budget, |ranked|).placed
  {
    RankedDistinct(ranked);
    PlacedAreWorthwhile(ranked, budget, |ranked|);
    PlacedExactlyIfFits(ranked, budget, i);
    PlacedExactlyIfFits(ranked, budget, j);
    BudgetConserved(ranked, budget, i);
    BudgetConserved(ranked, budget, j);
    RemainingShrinks(ranked, budget, i, j);
  }

  /** `a` is worthwhile, costs no more and saves no less than `b`, and is better in one of the two or,
      failing that, has the smaller key. */
  ghost predicate Dominates(a: HotCacheCandidate, b: HotCacheCandidate) {
    && a.bytes <= b.bytes && a.expectedSavingsNs >= b.expectedSavingsNs && a.expectedSavingsNs > 0
    && (a.bytes < b.bytes || a.expectedSavingsNs > b.expectedSavingsNs || a.key < b.key)
  }

  lemma DominatingIsDenser(a: HotCacheCandidate, b: HotCacheCandidate)
    requires a.bytes > 0 && Dominates(a, b)
    ensures !Denser(b, a)
    ensures a.bytes < b.bytes || a.expectedSavingsNs > b.expectedSavingsNs ==> Denser(a, b)
  {
    ProductsDominate(a.expectedSavingsNs, b.expectedSavingsNs, a.bytes, b.bytes);
  }

  lemma ProductsDominate(s: nat, t: nat, x: nat, y: nat)
    requires 0 < x <= y && s >= t && s > 0
    ensures s * y >= t * x && (x < y || s > t ==> s * y > t * x)
  {
    ScaleUp(s, t, x);
    ScaleUp(y, x, s);
    assert s * x == x * s && s * y == y * s;
  }

  /** A candidate that costs no more and saves no less than another of the same owner is placed whenever
      the other is; at equal cost and savings this holds for the smaller key. */
  lemma DominatingPlaced(
    fabric: CpuCacheFabric, candidates: seq<HotCacheCandidate>, a: HotCacheCandidate, b: HotCacheCandidate)
    requires fabric.Canonical() && ValidCandidates(candidates) && a in candidates && b in candidates
    requires fabric.OwnerCpuForKey(a.key) == fabric.OwnerCpuForKey(b.key)
    requires Dominates(a, b)
    ensures var placed := PlacedOn(PlanOf(fabric, candidates).placements, fabric.OwnerCpuForKey(a.key));
      b in placed ==> a in placed
  {
    var i := fabric.OwnerIndex(a.key);
    var owner := fabric.owners[i];
    var ranked := Ranked(fabric, candidates, owner.cpuId);
    PlanPlacesAccepted(fabric, candidates, i);
    OwnerRanks(fabric, candidates, owner.cpuId);
    var m := PositionInRank(fabric, candidates, a);
    var n := PositionInRank(fabric, candidates, b);
    DominatingRanksFirst(ranked, m, n);
    if b in Accept(ranked, owner.hotBudgetBytes, |ranked|).placed {
      EarlierAndSmallerPlaced(ranked, owner.hotBudgetBytes, m, n);
    }
  }

  lemma PositionInRank(fabric: CpuCacheFabric, candidates: seq<HotCacheCandidate>, c: HotCacheCandidate) returns (m: nat)
    requires fabric.owners != [] && ValidCandidates(candidates) && c in candidates
    ensures var ranked := Ranked(fabric, candidates, fabric.OwnerCpuForKey(c.key));
      m < |ranked| && ranked[m] == c
  {
    var cpu := fabric.OwnerCpuForKey(c.key);
    var ranked := Ranked(fabric, candidates, cpu);
    OwnerRanks(fabric, candidates, cpu);
    OwnedElements(fabric, candidates, cpu);
    SameElements(ranked, OwnedBy(fabric, candidates, cpu));
    assert c in ranked;
    m :| 0 <= m < |ranked| && ranked[m] == c;
  }

  lemma DominatingRanksFirst(ranked: seq<HotCacheCandidate>, m: nat, n: nat)
    requires RankedList(ranked) && Distinct(Keys(ranked)) && m < |ranked| && n < |ranked|
    requires Dominates(ranked[m], ranked[n])
    ensures m < n
  {
    assert ranked[m] in ranked;
    DominatingIsDenser(ranked[m], ranked[n]);
    if n < m {
      DenserFirst(ranked, n, m);
    }
  }
}
