/** Greedy planning of hot entries: the density order and the per-owner budget. */
module HotPlanning {
  import opened Machine
  import opened Sequences
  import opened Sorting
  import opened CacheFabric

  // ----- the density order

  datatype Ordering = Less | Equal | Greater {
    function Then(next: Ordering): Ordering {
      if Equal? then next else this
    }
  }

  function Compare(a: int, b: int): Ordering {
    if a < b then Less else if a == b then Equal else Greater
  }

  lemma ProductBound(a: u64, b: u64)
    ensures 0 <= a * b < U128_SPACE
  {
    MulBelow(a, b, U64_SPACE);
  }

  lemma MulBelow(a: nat, b: nat, n: nat)
    requires a < n && b < n
    ensures 0 <= a * b < n * n
  {
    assert a * b <= a * n;
    assert a * n < n * n;
  }

  /** A u64 by u64 product, which always fits u128. */
  function Product(a: u64, b: u64): u128 {
    ProductBound(a, b);
    a * b
  }

  /** The sort's comparator: greater savings per byte first, ties broken by key, bytes, savings. */
  function CompareCandidates(left: HotCacheCandidate, right: HotCacheCandidate): Ordering {
    CompareGiven(
      Product(left.expectedSavingsNs, right.bytes), Product(right.expectedSavingsNs, left.bytes), left, right)
  }

  function CompareGiven(
    leftDensity: int, rightDensity: int, left: HotCacheCandidate, right: HotCacheCandidate): Ordering
  {
    Compare(rightDensity, leftDensity)
      .Then(Compare(left.key, right.key))
      .Then(Compare(left.bytes, right.bytes))
      .Then(Compare(left.expectedSavingsNs, right.expectedSavingsNs))
  }

  predicate RankedBefore(a: HotCacheCandidate, b: HotCacheCandidate) {
    CompareCandidates(a, b) == Less
  }

  predicate RankedNotAfter(a: HotCacheCandidate, b: HotCacheCandidate) {
    CompareCandidates(a, b) != Greater
  }

  /** Cross-multiplied densities compare transitively, because no candidate has zero bytes. */
  lemma DensityTransitive(s1: nat, b1: nat, s2: nat, b2: nat, s3: nat, b3: nat)
    requires b1 > 0 && b2 > 0 && b3 > 0
    requires s1 * b2 >= s2 * b1 && s2 * b3 >= s3 * b2
    ensures s1 * b3 >= s3 * b1
    ensures s1 * b2 > s2 * b1 || s2 * b3 > s3 * b2 ==> s1 * b3 > s3 * b1
  {
    var x, y := s1 * b3, s3 * b1;
    ScaleUp(s1 * b2, s2 * b1, b3);
    ScaleUp(s2 * b3, s3 * b2, b1);
    assert x * b2 == (s1 * b2) * b3;
    assert (s2 * b1) * b3 == (s2 * b3) * b1;
    assert y * b2 == (s3 * b2) * b1;
    CancelFactor(x, y, b2);
  }

  lemma ScaleUp(a: nat, b: nat, c: nat)
    requires a >= b && c > 0
    ensures a * c >= b * c && (a > b ==> a * c > b * c)
  {
  }

  lemma CancelFactor(a: nat, b: nat, c: nat)
    requires c > 0
    ensures a * c >= b * c ==> a >= b
    ensures a * c > b * c ==> a > b
  {
  }

  /** The comparator is a strict total order on candidates of nonzero size: asymmetric, equal only on
      equal candidates, transitive. Of two keys the one that saves more per byte comes first, and at
      equal savings per byte the smaller key. */
  lemma DensityOrder(a: HotCacheCandidate, b: HotCacheCandidate, c: HotCacheCandidate)
    ensures CompareCandidates(a, b) == Less <==> CompareCandidates(b, a) == Greater
    ensures CompareCandidates(a, b) == Equal <==> a == b
    ensures a.key != b.key ==> (CompareCandidates(a, b) == Less <==> Denser(a, b) || (!Denser(b, a) && a.key < b.key))
    ensures a.key == b.key && !Denser(a, b) && !Denser(b, a) ==>
            (CompareCandidates(a, b) == Less <==>
               a.bytes < b.bytes || (a.bytes == b.bytes && a.expectedSavingsNs < b.expectedSavingsNs))
    ensures a.bytes > 0 && b.bytes > 0 && c.bytes > 0 && RankedBefore(a, b) && RankedBefore(b, c) ==> RankedBefore(a, c)
  {
    OrderAntisymmetric(a, b);
    if a.bytes > 0 && b.bytes > 0 && c.bytes > 0 && RankedBefore(a, b) && RankedBefore(b, c) {
      OrderTransitive(a, b, c);
    }
  }

  /** `a` saves more per byte than `b`. */
  ghost predicate Denser(a: HotCacheCandidate, b: HotCacheCandidate) {
    a.expectedSavingsNs * b.bytes > b.expectedSavingsNs * a.bytes
  }

  lemma OrderAntisymmetric(a: HotCacheCandidate, b: HotCacheCandidate)
    ensures CompareCandidates(a, b) == Less <==> CompareCandidates(b, a) == Greater
    ensures CompareCandidates(a, b) == Equal <==> a == b
  {
  }

  lemma CombineTransitive(
    a: HotCacheCandidate, b: HotCacheCandidate, c: HotCacheCandidate,
    ab: int, ba: int, bc: int, cb: int, ac: int, ca: int)
    requires ab >= ba && bc >= cb ==> ac >= ca && (ab > ba || bc > cb ==> ac > ca)
    requires ab <= ba && bc <= cb ==> ac <= ca
    requires CompareGiven(ab, ba, a, b) == Less && CompareGiven(bc, cb, b, c) == Less
    ensures CompareGiven(ac, ca, a, c) == Less
  {
  }

  lemma OrderTransitive(a: HotCacheCandidate, b: HotCacheCandidate, c: HotCacheCandidate)
    requires a.bytes > 0 && b.bytes > 0 && c.bytes > 0
    requires RankedBefore(a, b) && RankedBefore(b, c)
    ensures RankedBefore(a, c)
  {
    var ab, ba := Product(a.expectedSavingsNs, b.bytes), Product(b.expectedSavingsNs, a.bytes);
    var bc, cb := Product(b.expectedSavingsNs, c.bytes), Product(c.expectedSavingsNs, b.bytes);
    var ac, ca := Product(a.expectedSavingsNs, c.bytes), Product(c.expectedSavingsNs, a.bytes);
    DensitiesCompose(a, b, c);
    DensitiesCompose(c, b, a);
    CombineTransitive(a, b, c, ab, ba, bc, cb, ac, ca);
  }

  lemma DensitiesCompose(a: HotCacheCandidate, b: HotCacheCandidate, c: HotCacheCandidate)
    requires a.bytes > 0 && b.bytes > 0 && c.bytes > 0
    ensures var ab, ba := Product(a.expectedSavingsNs, b.bytes), Product(b.expectedSavingsNs, a.bytes);
      var bc, cb := Product(b.expectedSavingsNs, c.bytes), Product(c.expectedSavingsNs, b.bytes);
      var ac, ca := Product(a.expectedSavingsNs, c.bytes), Product(c.expectedSavingsNs, a.bytes);
      ab >= ba && bc >= cb ==> ac >= ca && (ab > ba || bc > cb ==> ac > ca)
  {
    FractionsCompose(
      a.expectedSavingsNs, a.bytes, b.expectedSavingsNs, b.bytes, c.expectedSavingsNs, c.bytes);
  }

  lemma FractionsCompose(s1: nat, b1: nat, s2: nat, b2: nat, s3: nat, b3: nat)
    requires b1 > 0 && b2 > 0 && b3 > 0
    ensures s1 * b2 >= s2 * b1 && s2 * b3 >= s3 * b2 ==>
            s1 * b3 >= s3 * b1 && (s1 * b2 > s2 * b1 || s2 * b3 > s3 * b2 ==> s1 * b3 > s3 * b1)
  {
    if s1 * b2 >= s2 * b1 && s2 * b3 >= s3 * b2 {
      DensityTransitive(s1, b1, s2, b2, s3, b3);
    }
  }

  // ----- specification of a plan

  function Keys(candidates: seq<HotCacheCandidate>): (keys: seq<u64>)
    ensures |keys| == |candidates|
  {
    seq(|candidates|, i requires 0 <= i < |candidates| => candidates[i].key)
  }

  /** Candidates the planner accepts: nonzero sizes and unambiguous keys. */
  ghost predicate ValidCandidates(candidates: seq<HotCacheCandidate>) {
    && (forall c :: c in candidates ==> c.bytes > 0)
    && Distinct(Keys(candidates))
  }

  /** The candidates a CPU owns, in input order. */
  function OwnedBy(fabric: CpuCacheFabric, candidates: seq<HotCacheCandidate>, cpu: u32)
    : seq<HotCacheCandidate>
    requires fabric.owners != []
  {
    if candidates == [] then []
    else
      var n := |candidates| - 1;
      var last := candidates[n];
      OwnedBy(fabric, candidates[..n], cpu) + if fabric.OwnerCpuForKey(last.key) == cpu then [last] else []
  }

  lemma {:induction false} OwnedElements(fabric: CpuCacheFabric, candidates: seq<HotCacheCandidate>, cpu: u32)
    requires fabric.owners != []
    ensures forall c :: c in OwnedBy(fabric, candidates, cpu) <==> c in candidates && fabric.OwnerCpuForKey(c.key) == cpu
  {
    if candidates != [] {
      var n := |candidates| - 1;
      OwnedElements(fabric, candidates[..n], cpu);
      assert candidates == candidates[..n] + [candidates[n]];
    }
  }

  function Ranked(fabric: CpuCacheFabric, candidates: seq<HotCacheCandidate>, cpu: u32): seq<HotCacheCandidate>
    requires fabric.owners != []
  {
    SortBy(RankedNotAfter, OwnedBy(fabric, candidates, cpu))
  }

  /** What greedy acceptance of the first k candidates leaves: those accepted, and the bytes left. */
  datatype Acceptance = Acceptance(placed: seq<HotCacheCandidate>, remaining: u64)

  function Accept(ranked: seq<HotCacheCandidate>, budget: u64, k: nat): Acceptance
    requires k <= |ranked|
  {
    if k == 0 then Acceptance([], budget)
    else
      var before := Accept(ranked, budget, k - 1);
      var c := ranked[k - 1];
      if c.expectedSavingsNs > 0 && c.bytes <= before.remaining then
        Acceptance(before.placed + [c], before.remaining - c.bytes)
      else before
  }

  function OwnerAcceptance(fabric: CpuCacheFabric, candidates: seq<HotCacheCandidate>, i: nat): Acceptance
    requires i < |fabric.owners|
  {
    var owner := fabric.owners[i];
    var ranked := Ranked(fabric, candidates, owner.cpuId);
    Accept(ranked, owner.hotBudgetBytes, |ranked|)
  }

  /** What each of the first n owners accepts. */
  function AcceptancesUpTo(fabric: CpuCacheFabric, candidates: seq<HotCacheCandidate>, n: nat)
    : (accepted: seq<Acceptance>)
    requires n <= |fabric.owners|
    ensures |accepted| == n
  {
    if n == 0 then []
    else AcceptancesUpTo(fabric, candidates, n - 1) + [OwnerAcceptance(fabric, candidates, n - 1)]
  }

  function Acceptances(fabric: CpuCacheFabric, candidates: seq<HotCacheCandidate>): (accepted: seq<Acceptance>)
    ensures |accepted| == |fabric.owners|
  {
    AcceptancesUpTo(fabric, candidates, |fabric.owners|)
  }

  lemma {:induction false} AcceptanceAt(fabric: CpuCacheFabric, candidates: seq<HotCacheCandidate>, n: nat, i: nat)
    requires i < n <= |fabric.owners|
    ensures AcceptancesUpTo(fabric, candidates, n)[i] == OwnerAcceptance(fabric, candidates, i)
  {
    if i < n - 1 {
      AcceptanceAt(fabric, candidates, n - 1, i);
    }
  }

  function Placed(cpu: u32, candidates: seq<HotCacheCandidate>): (placements: seq<HotCachePlacement>)
    ensures |placements| == |candidates|
  {
    seq(|candidates|, i requires 0 <= i < |candidates| =>
      HotCachePlacement(candidates[i].key, cpu, candidates[i].bytes, candidates[i].expectedSavingsNs))
  }

  /** Placements of the first n owners, in owner order. */
  function PlacementsUpTo(owners: seq<CpuCacheOwner>, accepted: seq<Acceptance>, n: nat): seq<HotCachePlacement>
    requires n <= |owners| == |accepted|
  {
    if n == 0 then []
    else PlacementsUpTo(owners, accepted, n - 1) + Placed(owners[n - 1].cpuId, accepted[n - 1].placed)
  }

  function RemainingByCpu(owners: seq<CpuCacheOwner>, accepted: seq<Acceptance>): (remaining: seq<(u32, u64)>)
    requires |owners| == |accepted|
    ensures |remaining| == |owners|
  {
    seq(|owners|, i requires 0 <= i < |owners| => (owners[i].cpuId, accepted[i].remaining))
  }

  function PlanOf(fabric: CpuCacheFabric, candidates: seq<HotCacheCandidate>): CpuHotCachePlan
    requires fabric.owners != []
  {
    var accepted := Acceptances(fabric, candidates);
    CpuHotCachePlan(
      fabric.OwnerCpus(),
      fabric.HotBudgetBytesPerOwner(),
      PlacementsUpTo(fabric.owners, accepted, |fabric.owners|),
      RemainingByCpu(fabric.owners, accepted))
  }

  /** The first candidate of zero size. */
  ghost predicate FirstZero(candidates: seq<HotCacheCandidate>, key: u64) {
    exists i :: 0 <= i < |candidates| && candidates[i].bytes == 0 && candidates[i].key == key
      && forall j :: 0 <= j < i ==> candidates[j].bytes > 0
  }

  /** The first candidate whose key was seen before. */
  ghost predicate FirstDuplicate(candidates: seq<HotCacheCandidate>, key: u64) {
    exists i :: 0 <= i < |candidates| && candidates[i].key == key
      && key in Keys(candidates)[..i] && Distinct(Keys(candidates)[..i])
  }

  ghost predicate IsPlanResult(
    fabric: CpuCacheFabric, candidates: seq<HotCacheCandidate>, r: Result<CpuHotCachePlan, CacheFabricError>)
  {
    match r
    case Ok(plan) => fabric.owners != [] && ValidCandidates(candidates) && plan == PlanOf(fabric, candidates)
    case Err(NoComputeCpus) => fabric.owners == []
    case Err(ZeroCandidateBytes(key)) => fabric.owners != [] && FirstZero(candidates, key)
    case Err(DuplicateCandidateKey(key)) =>
      fabric.owners != [] && (forall c :: c in candidates ==> c.bytes > 0) && FirstDuplicate(candidates, key)
    case Err(_) => false
  }

  // ----- the planner

  method CheckCandidates(candidates: seq<HotCacheCandidate>) returns (fault: Option<CacheFabricError>)
    ensures match fault
            case None => ValidCandidates(candidates)
            case Some(ZeroCandidateBytes(key)) => FirstZero(candidates, key)
            case Some(DuplicateCandidateKey(key)) =>
              (forall c :: c in candidates ==> c.bytes > 0) && FirstDuplicate(candidates, key)
            case Some(_) => false
  {
    for i := 0 to |candidates|
      invariant forall j :: 0 <= j < i ==> candidates[j].bytes > 0
    {
      if candidates[i].bytes == 0 {
        return Some(ZeroCandidateBytes(candidates[i].key));
      }
    }
    ghost var keys := Keys(candidates);
    var seenKeys: set<u64> := {};
    for i := 0 to |candidates|
      invariant forall key: u64 :: key in seenKeys <==> key in keys[..i]
      invariant Distinct(keys[..i])
    {
      if candidates[i].key in seenKeys {
        return Some(DuplicateCandidateKey(candidates[i].key));
      }
      assert keys[..i + 1] == keys[..i] + [candidates[i].key];
      seenKeys := seenKeys + {candidates[i].key};
    }
    assert keys[..|candidates|] == keys;
    return None;
  }

  /** Collect the candidates of one CPU. */
  method FilterOwned(fabric: CpuCacheFabric, candidates: seq<HotCacheCandidate>, cpu: u32)
    returns (owned: seq<HotCacheCandidate>)
    requires fabric.owners != []
    ensures owned == OwnedBy(fabric, candidates, cpu)
  {
    owned := [];
    for i := 0 to |candidates|
      invariant owned == OwnedBy(fabric, candidates[..i], cpu)
    {
      assert candidates[..i + 1][..i] == candidates[..i];
      if fabric.OwnerCpuForKey(candidates[i].key) == cpu {
        owned := owned + [candidates[i]];
      }
    }
    assert candidates[..|candidates|] == candidates;
  }

  /** Fill one owner's budget greedily, in rank order. */
  method FillBudget(cpu: u32, ranked: seq<HotCacheCandidate>, budget: u64)
    returns (placements: seq<HotCachePlacement>, remainingBytes: u64)
    ensures var accepted := Accept(ranked, budget, |ranked|);
            placements == Placed(cpu, accepted.placed) && remainingBytes == accepted.remaining
  {
    placements, remainingBytes := [], budget;
    for k := 0 to |ranked|
      invariant placements == Placed(cpu, Accept(ranked, budget, k).placed)
      invariant remainingBytes == Accept(ranked, budget, k).remaining
    {
      var c := ranked[k];
      if c.expectedSavingsNs == 0 {
        continue;
      }
      if c.bytes <= remainingBytes {
        remainingBytes := remainingBytes - c.bytes;
        placements := placements + [HotCachePlacement(c.key, cpu, c.bytes, c.expectedSavingsNs)];
      }
    }
  }

  method PlanOwner(
    fabric: CpuCacheFabric, candidates: seq<HotCacheCandidate>, i: nat, ghost accepted: seq<Acceptance>)
    returns (placements: seq<HotCachePlacement>, remainingBytes: u64)
    requires i < |fabric.owners| && accepted == Acceptances(fabric, candidates)
    ensures placements == Placed(fabric.owners[i].cpuId, accepted[i].placed)
    ensures remainingBytes == accepted[i].remaining
  {
    AcceptanceAt(fabric, candidates, |fabric.owners|, i);
    var owner := fabric.owners[i];
    var owned := FilterOwned(fabric, candidates, owner.cpuId);
    placements, remainingBytes := FillBudget(owner.cpuId, SortBy(RankedNotAfter, owned), owner.hotBudgetBytes);
  }

  method PlanOwners(fabric: CpuCacheFabric, candidates: seq<HotCacheCandidate>)
    returns (placements: seq<HotCachePlacement>, remainingBytesByCpu: seq<(u32, u64)>)
    ensures placements == PlacementsUpTo(fabric.owners, Acceptances(fabric, candidates), |fabric.owners|)
    ensures remainingBytesByCpu == RemainingByCpu(fabric.owners, Acceptances(fabric, candidates))
  {
    placements, remainingBytesByCpu := [], [];
    ghost var accepted := Acceptances(fabric, candidates);
    ghost var expected := RemainingByCpu(fabric.owners, accepted);
    for i := 0 to |fabric.owners|
      invariant placements == PlacementsUpTo(fabric.owners, accepted, i)
      invariant remainingBytesByCpu == expected[..i]
    {
      var ownPlacements, remaining := PlanOwner(fabric, candidates, i, accepted);
      placements := placements + ownPlacements;
      remainingBytesByCpu := remainingBytesByCpu + [(fabric.owners[i].cpuId, remaining)];
    }
    assert expected[..|fabric.owners|] == expected;
  }

  method PlanHotCandidates(fabric: CpuCacheFabric, candidates: seq<HotCacheCandidate>)
    returns (r: Result<CpuHotCachePlan, CacheFabricError>)
    ensures IsPlanResult(fabric, candidates, r)
  {
    if fabric.owners == [] {
      return Err(NoComputeCpus);
    }
    var fault := CheckCandidates(candidates);
    if fault.Some? {
      return Err(fault.value);
    }
    var placements, remainingBytesByCpu := PlanOwners(fabric, candidates);
    return Ok(CpuHotCachePlan(
      fabric.OwnerCpus(), fabric.HotBudgetBytesPerOwner(), placements, remainingBytesByCpu));
  }
}
