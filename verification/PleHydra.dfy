/** Logical tier resolution seeded from a hot-cache plan. */
module PleHydra {
  import opened Machine
  import opened CacheFabric
  import opened HotPlanning
  import opened GreedyTheorems

  datatype PleHydraMode = Exact | ExperimentalApproximate(labelIsBlank: bool)

  datatype PleHydraTier = OwnerCpuHot(ownerCpu: u32) | SharedCpuWarm | PageCacheWarm | NvmeCold

  datatype PleHydraAccess = PleHydraAccess(key: u64, tier: PleHydraTier)

  datatype PleHydraError =
    | EmptyExperimentalModeLabel
    | HotPlanFabricMismatch(planOwnerCpus: seq<u32>, planBudget: u64, hydraOwnerCpus: seq<u32>, hydraBudget: u64)
    | HotPlacementOwnerMismatch(key: u64, actualOwnerCpu: u32, expectedOwnerCpu: u32)

  datatype TierCounts = TierCounts(
    ownerCpuHotHits: nat, sharedCpuWarmHits: nat, pageCacheWarmHits: nat, nvmeColdReads: nat)
  {
    function Total(): nat {
      ownerCpuHotHits + sharedCpuWarmHits + pageCacheWarmHits + nvmeColdReads
    }

    function Plus(other: TierCounts): TierCounts {
      TierCounts(
        ownerCpuHotHits + other.ownerCpuHotHits, sharedCpuWarmHits + other.sharedCpuWarmHits,
        pageCacheWarmHits + other.pageCacheWarmHits, nvmeColdReads + other.nvmeColdReads)
    }
  }

  /** Saturating counters, one per tier. */
  class PleHydraTierCounts {
    var ownerCpuHotHits: u64
    var sharedCpuWarmHits: u64
    var pageCacheWarmHits: u64
    var nvmeColdReads: u64

    constructor ()
      ensures Counts() == TierCounts(0, 0, 0, 0)
    {
      ownerCpuHotHits, sharedCpuWarmHits, pageCacheWarmHits, nvmeColdReads := 0, 0, 0, 0;
    }

    function Counts(): TierCounts
      reads this
    {
      TierCounts(ownerCpuHotHits, sharedCpuWarmHits, pageCacheWarmHits, nvmeColdReads)
    }

    method Record(tier: PleHydraTier)
      modifies this
      ensures Counts() == Saturated(old(Counts()).Plus(CountOf(tier)))
    {
      match tier
      case OwnerCpuHot(_) => ownerCpuHotHits := SaturatingAdd(ownerCpuHotHits, 1);
      case SharedCpuWarm => sharedCpuWarmHits := SaturatingAdd(sharedCpuWarmHits, 1);
      case PageCacheWarm => pageCacheWarmHits := SaturatingAdd(pageCacheWarmHits, 1);
      case NvmeCold => nvmeColdReads := SaturatingAdd(nvmeColdReads, 1);
    }
  }

  function Clamp(n: nat): u64 {
    if n < U64_SPACE then n else U64_SPACE - 1
  }

  /** Counters are exact up to the largest u64 and stay there. */
  lemma ClampSaturates(n: nat)
    ensures n <= 0xFFFF_FFFF_FFFF_FFFF ==> Clamp(n) == n
    ensures n > 0xFFFF_FFFF_FFFF_FFFF ==> Clamp(n) == 0xFFFF_FFFF_FFFF_FFFF
  {
  }

  function SaturatingAdd(a: u64, b: nat): u64 {
    Clamp(a + b)
  }

  function Saturated(c: TierCounts): TierCounts {
    TierCounts(Clamp(c.ownerCpuHotHits), Clamp(c.sharedCpuWarmHits), Clamp(c.pageCacheWarmHits), Clamp(c.nvmeColdReads))
  }

  function CountOf(tier: PleHydraTier): TierCounts {
    match tier
    case OwnerCpuHot(_) => TierCounts(1, 0, 0, 0)
    case SharedCpuWarm => TierCounts(0, 1, 0, 0)
    case PageCacheWarm => TierCounts(0, 0, 1, 0)
    case NvmeCold => TierCounts(0, 0, 0, 1)
  }

  // ----- the hydra

  datatype PleHydra = PleHydra(
    mode: PleHydraMode,
    cacheFabric: CpuCacheFabric,
    ownerHotKeys: map<u32, set<u64>>,
    sharedCpuWarmKeys: set<u64>,
    pageCacheWarmKeys: set<u64>)
  {
    /** The highest tier holding a key. */
    function TierForKey(key: u64): PleHydraTier
      requires cacheFabric.owners != []
    {
      var ownerCpu := cacheFabric.OwnerCpuForKey(key);
      if ownerCpu in ownerHotKeys && key in ownerHotKeys[ownerCpu] then OwnerCpuHot(ownerCpu)
      else if key in sharedCpuWarmKeys then SharedCpuWarm
      else if key in pageCacheWarmKeys then PageCacheWarm
      else NvmeCold
    }

    function Accesses(keys: seq<u64>): (accesses: seq<PleHydraAccess>)
      requires cacheFabric.owners != []
      ensures |accesses| == |keys|
    {
      seq(|keys|, i requires 0 <= i < |keys| => PleHydraAccess(keys[i], TierForKey(keys[i])))
    }

    /** The tiers a trace of keys resolves to. */
    function Tiers(keys: seq<u64>): (tiers: seq<PleHydraTier>)
      requires cacheFabric.owners != []
      ensures |tiers| == |keys|
    {
      seq(|keys|, i requires 0 <= i < |keys| => TierForKey(keys[i]))
    }
  }

  /** Tiers from highest to lowest. */
  function RankOf(tier: PleHydraTier): nat {
    match tier
    case OwnerCpuHot(_) => 0
    case SharedCpuWarm => 1
    case PageCacheWarm => 2
    case NvmeCold => 3
  }

  function CountRank(tiers: seq<PleHydraTier>, rank: nat): nat {
    if tiers == [] then 0
    else CountRank(tiers[1..], rank) + if RankOf(tiers[0]) == rank then 1 else 0
  }

  /** Lookups per tier. */
  function CountTiers(tiers: seq<PleHydraTier>): TierCounts {
    TierCounts(CountRank(tiers, 0), CountRank(tiers, 1), CountRank(tiers, 2), CountRank(tiers, 3))
  }

  /** Counts are additive over concatenation. */
  lemma {:induction false} CountRankAdds(a: seq<PleHydraTier>, b: seq<PleHydraTier>, rank: nat)
    ensures CountRank(a + b, rank) == CountRank(a, rank) + CountRank(b, rank)
  {
    if a == [] {
      assert a + b == b;
    } else {
      assert (a + b)[1..] == a[1..] + b;
      CountRankAdds(a[1..], b, rank);
    }
  }

  lemma CountTiersAdds(a: seq<PleHydraTier>, b: seq<PleHydraTier>)
    ensures CountTiers(a + b) == CountTiers(a).Plus(CountTiers(b))
  {
    CountRankAdds(a, b, 0);
    CountRankAdds(a, b, 1);
    CountRankAdds(a, b, 2);
    CountRankAdds(a, b, 3);
  }

  lemma CountRankOne(tier: PleHydraTier, rank: nat)
    ensures CountRank([tier], rank) == if RankOf(tier) == rank then 1 else 0
  {
    assert [tier][1..] == [];
    assert CountRank([], rank) == 0;
  }

  lemma CountOne(tier: PleHydraTier)
    ensures CountTiers([tier]) == CountOf(tier)
  {
    CountRankOne(tier, 0);
    CountRankOne(tier, 1);
    CountRankOne(tier, 2);
    CountRankOne(tier, 3);
  }

  /** Recording one more lookup in saturated counters saturates the count of all of them. */
  lemma CountNext(tiers: seq<PleHydraTier>, tier: PleHydraTier)
    ensures Saturated(Saturated(CountTiers(tiers)).Plus(CountOf(tier))) == Saturated(CountTiers(tiers + [tier]))
  {
    CountTiersAdds(tiers, [tier]);
    CountOne(tier);
  }

  // ----- building

  predicate Holds(owners: map<u32, set<u64>>, cpu: u32, key: u64) {
    cpu in owners && key in owners[cpu]
  }

  /** The first placement not on the canonical owner of its key. */
  ghost predicate FirstMisplaced(fabric: CpuCacheFabric, placements: seq<HotCachePlacement>, p: HotCachePlacement)
    requires fabric.owners != []
  {
    exists i :: 0 <= i < |placements| && placements[i] == p && p.ownerCpu != fabric.OwnerCpuForKey(p.key)
      && forall j :: 0 <= j < i ==> placements[j].ownerCpu == fabric.OwnerCpuForKey(placements[j].key)
  }

  ghost predicate AllOnOwners(fabric: CpuCacheFabric, placements: seq<HotCachePlacement>)
    requires fabric.owners != []
  {
    forall p :: p in placements ==> p.ownerCpu == fabric.OwnerCpuForKey(p.key)
  }

  ghost predicate KeepsPlacements(owners: map<u32, set<u64>>, placements: seq<HotCachePlacement>) {
    forall cpu: u32, key: u64 ::
      Holds(owners, cpu, key) <==> exists p :: p in placements && p.ownerCpu == cpu && p.key == key
  }

  /** Everything building a hierarchy promises, for any plan, whoever made it. */
  ghost predicate IsHydraResult(
    mode: PleHydraMode, fabric: CpuCacheFabric, plan: CpuHotCachePlan, shared: seq<u64>, paged: seq<u64>,
    r: Result<PleHydra, PleHydraError>)
    requires fabric.owners != []
  {
    var labelled := mode.Exact? || !mode.labelIsBlank;
    var sameFabric := plan.ownerCpus == fabric.OwnerCpus() && plan.hotBudgetBytesPerOwner == fabric.HotBudgetBytesPerOwner();
    match r
    case Err(EmptyExperimentalModeLabel) => !labelled
    case Err(HotPlanFabricMismatch(planCpus, planBudget, cpus, budget)) =>
      && labelled && !sameFabric
      && planCpus == plan.ownerCpus && planBudget == plan.hotBudgetBytesPerOwner
      && cpus == fabric.OwnerCpus() && budget == fabric.HotBudgetBytesPerOwner()
    case Err(HotPlacementOwnerMismatch(key, actual, expected)) =>
      && labelled && sameFabric && expected == fabric.OwnerCpuForKey(key)
      && exists p :: FirstMisplaced(fabric, plan.placements, p) && p.key == key && p.ownerCpu == actual
    case Ok(hydra) =>
      && labelled && sameFabric && AllOnOwners(fabric, plan.placements)
      && hydra.mode == mode && hydra.cacheFabric == fabric
      && KeepsPlacements(hydra.ownerHotKeys, plan.placements)
      && hydra.sharedCpuWarmKeys == (set k | k in shared) && hydra.pageCacheWarmKeys == (set k | k in paged)
  }

  lemma InsertPlacement(owners: map<u32, set<u64>>, placements: seq<HotCachePlacement>, p: HotCachePlacement)
    requires KeepsPlacements(owners, placements)
    ensures var keys := (if p.ownerCpu in owners then owners[p.ownerCpu] else {}) + {p.key};
      KeepsPlacements(owners[p.ownerCpu := keys], placements + [p])
  {
    var keys := (if p.ownerCpu in owners then owners[p.ownerCpu] else {}) + {p.key};
    var more := owners[p.ownerCpu := keys];
    forall cpu: u32, key: u64
      ensures Holds(more, cpu, key) <==> exists q :: q in placements + [p] && q.ownerCpu == cpu && q.key == key
    {
      assert Holds(more, cpu, key) <==> Holds(owners, cpu, key) || (cpu == p.ownerCpu && key == p.key);
      if Holds(owners, cpu, key) {
        var q :| q in placements && q.ownerCpu == cpu && q.key == key;
        assert q in placements + [p];
      }
      assert p in placements + [p];
    }
  }

  method FromHotCachePlanWithMode(
    mode: PleHydraMode, fabric: CpuCacheFabric, plan: CpuHotCachePlan, shared: seq<u64>, paged: seq<u64>)
    returns (r: Result<PleHydra, PleHydraError>)
    requires fabric.Canonical()
    ensures IsHydraResult(mode, fabric, plan, shared, paged, r)
  {
    if mode.ExperimentalApproximate? && mode.labelIsBlank {
      return Err(EmptyExperimentalModeLabel);
    }
    var cpus, budget := fabric.OwnerCpus(), fabric.HotBudgetBytesPerOwner();
    if plan.ownerCpus != cpus || plan.hotBudgetBytesPerOwner != budget {
      return Err(HotPlanFabricMismatch(plan.ownerCpus, plan.hotBudgetBytesPerOwner, cpus, budget));
    }
    var ownerHotKeys: map<u32, set<u64>> := map[];
    for i := 0 to |plan.placements|
      invariant forall j :: 0 <= j < i ==> plan.placements[j].ownerCpu == fabric.OwnerCpuForKey(plan.placements[j].key)
      invariant KeepsPlacements(ownerHotKeys, plan.placements[..i])
    {
      var p := plan.placements[i];
      var expected := fabric.OwnerCpuForKey(p.key);
      if p.ownerCpu != expected {
        assert FirstMisplaced(fabric, plan.placements, p);
        return Err(HotPlacementOwnerMismatch(p.key, p.ownerCpu, expected));
      }
      InsertPlacement(ownerHotKeys, plan.placements[..i], p);
      assert plan.placements[..i + 1] == plan.placements[..i] + [p];
      var keys := (if p.ownerCpu in ownerHotKeys then ownerHotKeys[p.ownerCpu] else {}) + {p.key};
      ownerHotKeys := ownerHotKeys[p.ownerCpu := keys];
    }
    assert plan.placements[..|plan.placements|] == plan.placements;
    return Ok(PleHydra(mode, fabric, ownerHotKeys, set k | k in shared, set k | k in paged));
  }

  method SimulateTrace(hydra: PleHydra, keys: seq<u64>)
    returns (accesses: seq<PleHydraAccess>, counts: PleHydraTierCounts)
    requires hydra.cacheFabric.owners != []
    ensures accesses == hydra.Accesses(keys)
    ensures fresh(counts) && counts.Counts() == Saturated(CountTiers(hydra.Tiers(keys)))
  {
    counts := new PleHydraTierCounts();
    accesses := [];
    ghost var expected, tiers := hydra.Accesses(keys), hydra.Tiers(keys);
    for i := 0 to |keys|
      invariant accesses == expected[..i]
      invariant counts.Counts() == Saturated(CountTiers(tiers[..i]))
    {
      var tier := hydra.TierForKey(keys[i]);
      assert tiers[..i + 1] == tiers[..i] + [tier];
      CountNext(tiers[..i], tier);
      counts.Record(tier);
      accesses := accesses + [PleHydraAccess(keys[i], tier)];
    }
    assert tiers[..|keys|] == tiers && expected[..|keys|] == expected;
  }

  // ----- theorems

  lemma SoundMeansOnOwners(fabric: CpuCacheFabric, placements: seq<HotCachePlacement>, candidates: seq<HotCacheCandidate>)
    requires fabric.owners != [] && SoundPlacements(placements, fabric.OwnerOf(), candidates)
    ensures AllOnOwners(fabric, placements)
  {
    forall p | p in placements ensures p.ownerCpu == fabric.OwnerCpuForKey(p.key) {
      assert fabric.OwnerOf()(p.key) == fabric.OwnerCpuForKey(p.key);
    }
  }

  lemma OnOwnersMeansNoneMisplaced(fabric: CpuCacheFabric, placements: seq<HotCachePlacement>, p: HotCachePlacement)
    requires fabric.owners != [] && AllOnOwners(fabric, placements)
    ensures !FirstMisplaced(fabric, placements, p)
  {
  }

  /** A plan made by any canonical fabric that passes the owner and budget check was made by this very
      fabric, so no placement can be found on the wrong owner. */
  lemma PlannedNeverMisplaced(
    mode: PleHydraMode, planner: CpuCacheFabric, fabric: CpuCacheFabric, candidates: seq<HotCacheCandidate>,
    shared: seq<u64>, paged: seq<u64>, r: Result<PleHydra, PleHydraError>)
    requires planner.Canonical() && fabric.Canonical() && ValidCandidates(candidates)
    requires IsHydraResult(mode, fabric, PlanOf(planner, candidates), shared, paged, r)
    ensures r.Err? ==> !r.error.HotPlacementOwnerMismatch?
    ensures r.Ok? <==> (mode.Exact? || !mode.labelIsBlank) && planner == fabric
  {
    var placements := PlanOf(planner, candidates).placements;
    if planner.OwnerCpus() == fabric.OwnerCpus() && planner.HotBudgetBytesPerOwner() == fabric.HotBudgetBytesPerOwner() {
      FabricDetermined(planner, fabric);
      PlanIsSound(fabric, candidates);
      SoundMeansOnOwners(fabric, placements, candidates);
      forall p ensures !FirstMisplaced(fabric, placements, p) {
        OnOwnersMeansNoneMisplaced(fabric, placements, p);
      }
    }
  }

  /** The tier a plan and the warm lists give a key. */
  ghost predicate ServedBy(plan: CpuHotCachePlan, shared: seq<u64>, paged: seq<u64>, key: u64, tier: PleHydraTier) {
    var placed := exists p :: p in plan.placements && p.key == key;
    && (tier.OwnerCpuHot? <==> placed)
    && (tier.OwnerCpuHot? ==> exists p :: p in plan.placements && p.key == key && p.ownerCpu == tier.ownerCpu)
    && (tier.SharedCpuWarm? <==> !placed && key in shared)
    && (tier.PageCacheWarm? <==> !placed && key !in shared && key in paged)
    && (tier.NvmeCold? <==> !placed && key !in shared && key !in paged)
  }

  /** A key resolves to its owner's hot tier exactly when the plan placed it, and then to that owner;
      every other key goes to the first warm tier listing it, and to cold storage when none does. */
  lemma TierMatchesPlan(
    mode: PleHydraMode, fabric: CpuCacheFabric, plan: CpuHotCachePlan, shared: seq<u64>, paged: seq<u64>,
    hydra: PleHydra, key: u64)
    requires fabric.Canonical() && IsHydraResult(mode, fabric, plan, shared, paged, Ok(hydra))
    ensures ServedBy(plan, shared, paged, key, hydra.TierForKey(key))
  {
    var cpu := fabric.OwnerCpuForKey(key);
    assert Holds(hydra.ownerHotKeys, cpu, key) <==> exists p :: p in plan.placements && p.ownerCpu == cpu && p.key == key;
  }

  /** A simulated trace reports its keys in order, each with the tier the plan and the warm lists give it,
      and a tier's counter, below saturation, is the number of accesses reported with that tier. */
  lemma SimulationMatchesPlan(
    mode: PleHydraMode, fabric: CpuCacheFabric, plan: CpuHotCachePlan, shared: seq<u64>, paged: seq<u64>,
    hydra: PleHydra, keys: seq<u64>)
    requires fabric.Canonical() && IsHydraResult(mode, fabric, plan, shared, paged, Ok(hydra))
    ensures var accesses := hydra.Accesses(keys);
      && |accesses| == |keys|
      && (forall i :: 0 <= i < |keys| ==>
            accesses[i].key == keys[i] && ServedBy(plan, shared, paged, keys[i], accesses[i].tier))
    ensures forall rank: nat ::
      CountRank(hydra.Tiers(keys), rank) == |set i | 0 <= i < |keys| && RankOf(hydra.Accesses(keys)[i].tier) == rank|
  {
    var accesses, tiers := hydra.Accesses(keys), hydra.Tiers(keys);
    forall i | 0 <= i < |keys| ensures ServedBy(plan, shared, paged, keys[i], accesses[i].tier) {
      TierMatchesPlan(mode, fabric, plan, shared, paged, hydra, keys[i]);
    }
    forall rank: nat
      ensures CountRank(tiers, rank) == |set i | 0 <= i < |keys| && RankOf(accesses[i].tier) == rank|
    {
      CountsArePositions(tiers, rank);
      assert Positions(tiers, rank) == set i | 0 <= i < |keys| && RankOf(accesses[i].tier) == rank;
    }
  }

  /** The count of a tier is the number of lookups it serves, and the four counts cover every lookup. */
  lemma {:induction false} CountsCover(tiers: seq<PleHydraTier>)
    ensures CountTiers(tiers).Total() == |tiers|
  {
    if tiers != [] {
      CountsCover(tiers[1..]);
    }
  }

  /** Over one simulated trace after another: below 2^64 lookups nothing saturates, the counters add up
      to the length of the traces, and simulating the traces together adds the counters up. */
  lemma SimulationsAdd(hydra: PleHydra, keys: seq<u64>, more: seq<u64>)
    requires hydra.cacheFabric.owners != [] && |keys| + |more| < U64_SPACE
    ensures var first, second, both :=
        CountTiers(hydra.Tiers(keys)), CountTiers(hydra.Tiers(more)), CountTiers(hydra.Tiers(keys + more));
      && Saturated(first) == first && Saturated(second) == second && Saturated(both) == both
      && both == first.Plus(second) && both.Total() == |keys| + |more|
  {
    TiersConcat(hydra, keys, more);
    CountsConcat(hydra.Tiers(keys), hydra.Tiers(more));
  }

  lemma TiersConcat(hydra: PleHydra, keys: seq<u64>, more: seq<u64>)
    requires hydra.cacheFabric.owners != []
    ensures hydra.Tiers(keys + more) == hydra.Tiers(keys) + hydra.Tiers(more)
  {
  }

  lemma CountsConcat(a: seq<PleHydraTier>, b: seq<PleHydraTier>)
    requires |a| + |b| < U64_SPACE
    ensures var first, second, both := CountTiers(a), CountTiers(b), CountTiers(a + b);
      && Saturated(first) == first && Saturated(second) == second && Saturated(both) == both
      && both == first.Plus(second) && both.Total() == |a| + |b|
  {
    CountTiersAdds(a, b);
    CountsCover(a);
    CountsCover(b);
  }

  /** Positions of the lookups served by the tier of a given rank. */
  ghost function Positions(tiers: seq<PleHydraTier>, rank: nat): set<int> {
    set i | 0 <= i < |tiers| && RankOf(tiers[i]) == rank
  }

  /** The count of a tier is the number of positions of the trace it serves. */
  lemma {:induction false} CountsArePositions(tiers: seq<PleHydraTier>, rank: nat)
    ensures CountRank(tiers, rank) == |Positions(tiers, rank)|
    decreases |tiers|
  {
    if tiers == [] {
      assert Positions(tiers, rank) == {};
    } else {
      var n := |tiers| - 1;
      var front, last := tiers[..n], [tiers[n]];
      assert tiers == front + last;
      CountsArePositions(front, rank);
      CountRankAdds(front, last, rank);
      CountRankOne(tiers[n], rank);
      PositionsExtend(front, tiers[n], rank);
    }
  }

  lemma PositionsExtend(front: seq<PleHydraTier>, tier: PleHydraTier, rank: nat)
    ensures |Positions(front + [tier], rank)| == |Positions(front, rank)| + if RankOf(tier) == rank then 1 else 0
  {
    var n, all := |front|, front + [tier];
    assert forall i :: 0 <= i < n ==> all[i] == front[i];
    assert Positions(all, rank) == Positions(front, rank) + if RankOf(tier) == rank then {n} else {};
  }
}
