/** CPU hot-cache owners from topology, and the greedy per-owner hot-entry plan. */
module CacheFabric {
  import opened Machine
  import opened DivMod
  import opened Sequences
  import opened Sorting

  datatype CacheType = Instruction | Data | Unified

  datatype CpuCache = CpuCache(level: u8, cacheType: CacheType, sizeBytes: u64, lineBytes: u32, sharedCpuIds: seq<u32>)

  datatype CacheFabricError =
    | NoComputeCpus
    | DuplicateComputeCpu(cpu: u32)
    | MissingPrivateL2(cpu: u32)
    | BudgetExceedsPrivateL2(cpu: u32, requestedBytes: u64, privateL2Bytes: u64)
    | ZeroCandidateBytes(key: u64)
    | DuplicateCandidateKey(key: u64)

  datatype CpuCacheOwner = CpuCacheOwner(cpuId: u32, hotBudgetBytes: u64)

  datatype HotCacheCandidate = HotCacheCandidate(key: u64, bytes: u64, expectedSavingsNs: u64)

  datatype HotCachePlacement = HotCachePlacement(key: u64, ownerCpu: u32, bytes: u64, expectedSavingsNs: u64)

  datatype CpuHotCachePlan = CpuHotCachePlan(
    ownerCpus: seq<u32>,
    hotBudgetBytesPerOwner: u64,
    placements: seq<HotCachePlacement>,
    remainingBytesByCpu: seq<(u32, u64)>)
  {
    function RemainingBytesForCpu(cpu: u32): Option<u64> {
      FirstRemaining(remainingBytesByCpu, cpu)
    }
  }

  function FirstRemaining(remaining: seq<(u32, u64)>, cpu: u32): Option<u64> {
    if remaining == [] then None
    else if remaining[0].0 == cpu then Some(remaining[0].1)
    else FirstRemaining(remaining[1..], cpu)
  }

  datatype CpuCacheFabric = CpuCacheFabric(owners: seq<CpuCacheOwner>) {
    /** What every fabric built by `FromTopology` satisfies: owners in CPU order, one budget. */
    ghost predicate Canonical() {
      && owners != []
      && (forall i, j :: 0 <= i < j < |owners| ==> owners[i].cpuId < owners[j].cpuId)
      && (forall i :: 0 <= i < |owners| ==> owners[i].hotBudgetBytes == owners[0].hotBudgetBytes)
    }

    function OwnerCpus(): (cpus: seq<u32>)
      ensures |cpus| == |owners|
    {
      seq(|owners|, i requires 0 <= i < |owners| => owners[i].cpuId)
    }

    function OwnerIndex(key: u64): (i: nat)
      requires owners != []
      ensures i < |owners|
    {
      key % |owners|
    }

    function OwnerCpuForKey(key: u64): u32
      requires owners != []
    {
      owners[OwnerIndex(key)].cpuId
    }

    /** The routing of keys to owner CPUs, as a function value. */
    function OwnerOf(): u64 -> u32
      requires owners != []
    {
      (key: u64) => OwnerCpuForKey(key)
    }

    function HotBudgetBytesPerOwner(): u64
      requires owners != []
    {
      owners[0].hotBudgetBytes
    }
  }

  /** Keys are dealt to the owners in turn, starting from the first. */
  lemma RoutingRotates(fabric: CpuCacheFabric, key: u64)
    requires fabric.owners != [] && key + 1 < U64_SPACE
    ensures fabric.OwnerIndex(0) == 0
    ensures fabric.OwnerIndex(key + 1) ==
      if fabric.OwnerIndex(key) + 1 == |fabric.owners| then 0 else fabric.OwnerIndex(key) + 1
  {
    var n := |fabric.owners|;
    DivModSum(key, n);
    DivUnique(0, n, 0, 0);
    if key % n + 1 == n {
      MulNext(key / n, n);
      DivUnique(key + 1, n, key / n + 1, 0);
    } else {
      DivUnique(key + 1, n, key / n, key % n + 1);
    }
  }

  // ----- topology

  /** A cache that serves one CPU alone and may hold data at level two. */
  predicate IsPrivateL2(cache: CpuCache, cpu: u32) {
    cache.level == 2 && (cache.cacheType.Data? || cache.cacheType.Unified?) && cache.sharedCpuIds == [cpu]
  }

  /** Size of the largest private L2 of a CPU. */
  function PrivateL2(caches: seq<CpuCache>, cpu: u32): (size: Option<u64>)
    ensures size.None? <==> forall c :: c in caches ==> !IsPrivateL2(c, cpu)
    ensures size.Some? ==> exists c :: c in caches && IsPrivateL2(c, cpu) && c.sizeBytes == size.value
    ensures size.Some? ==> forall c :: c in caches && IsPrivateL2(c, cpu) ==> c.sizeBytes <= size.value
  {
    if caches == [] then None
    else
      assert forall c :: c in caches <==> c == caches[0] || c in caches[1..];
      var rest := PrivateL2(caches[1..], cpu);
      if !IsPrivateL2(caches[0], cpu) then rest
      else if rest.Some? && rest.value > caches[0].sizeBytes then rest
      else Some(caches[0].sizeBytes)
  }

  /** The CPU has a level-two cache of its own, for data or unified, of at least this size. */
  ghost predicate HasPrivateL2(caches: seq<CpuCache>, cpu: u32, bytes: nat) {
    exists c :: c in caches && c.level == 2 && c.cacheType in {Data, Unified} && c.sharedCpuIds == [cpu]
      && c.sizeBytes >= bytes
  }

  /** Why a CPU cannot own the budget, if it cannot. */
  function OwnerRefusal(caches: seq<CpuCache>, cpu: u32, budget: u64): (refusal: Option<CacheFabricError>)
    ensures refusal == None <==> HasPrivateL2(caches, cpu, budget)
    ensures refusal == Some(MissingPrivateL2(cpu)) <==> !HasPrivateL2(caches, cpu, 0)
    ensures refusal.Some? && refusal != Some(MissingPrivateL2(cpu)) ==>
            && refusal.value.BudgetExceedsPrivateL2?
            && refusal.value.cpu == cpu && refusal.value.requestedBytes == budget > refusal.value.privateL2Bytes
            && HasPrivateL2(caches, cpu, refusal.value.privateL2Bytes)
            && !HasPrivateL2(caches, cpu, refusal.value.privateL2Bytes + 1)
  {
    match PrivateL2(caches, cpu)
    case None => Some(MissingPrivateL2(cpu))
    case Some(size) => if budget > size then Some(BudgetExceedsPrivateL2(cpu, budget, size)) else None
  }

  ghost predicate IsLeast(s: iset<u32>, x: u32) {
    x in s && forall y: u32 :: y in s ==> x <= y
  }

  ghost function Repeated(cpus: seq<u32>): iset<u32> {
    iset cpu: u32 | multiset(cpus)[cpu] >= 2
  }

  ghost function Refused(caches: seq<CpuCache>, cpus: seq<u32>, budget: u64): iset<u32> {
    iset cpu: u32 | cpu in cpus && OwnerRefusal(caches, cpu, budget).Some?
  }

  /** Everything deriving a fabric promises: each error names the least offending CPU, and a fabric
      has every compute CPU, in order, each with a private L2 no smaller than the budget. */
  ghost predicate IsTopologyResult(
    caches: seq<CpuCache>, cpus: seq<u32>, budget: u64, r: Result<CpuCacheFabric, CacheFabricError>)
  {
    match r
    case Err(NoComputeCpus) => cpus == []
    case Err(DuplicateComputeCpu(cpu)) => IsLeast(Repeated(cpus), cpu)
    case Err(MissingPrivateL2(cpu)) =>
      && Repeated(cpus) == iset{} && IsLeast(Refused(caches, cpus, budget), cpu)
      && OwnerRefusal(caches, cpu, budget) == Some(r.error)
    case Err(BudgetExceedsPrivateL2(cpu, _, _)) =>
      && Repeated(cpus) == iset{} && IsLeast(Refused(caches, cpus, budget), cpu)
      && OwnerRefusal(caches, cpu, budget) == Some(r.error)
    case Err(_) => false
    case Ok(fabric) =>
      && cpus != [] && Repeated(cpus) == iset{} && Refused(caches, cpus, budget) == iset{}
      && fabric.Canonical() && fabric.HotBudgetBytesPerOwner() == budget
      && forall cpu: u32 :: cpu in fabric.OwnerCpus() <==> cpu in cpus
  }

  lemma {:induction false} CountTwice(s: seq<u32>, x: u32)
    ensures multiset(s)[x] >= 2 <==> exists i, j :: 0 <= i < j < |s| && s[i] == x && s[j] == x
  {
    if exists i, j :: 0 <= i < j < |s| && s[i] == x && s[j] == x {
      var i, j :| 0 <= i < j < |s| && s[i] == x && s[j] == x;
      assert s == s[..j] + [s[j]] + s[j + 1..];
      assert s[i] in s[..j];
      assert multiset(s)[x] == multiset(s[..j])[x] + 1 + multiset(s[j + 1..])[x];
      assert x in multiset(s[..j]);
    } else if x in s {
      var i :| 0 <= i < |s| && s[i] == x;
      assert s == s[..i] + [s[i]] + s[i + 1..];
      assert x !in s[..i] && x !in s[i + 1..];
      assert x !in multiset(s[..i]) && x !in multiset(s[i + 1..]);
    } else {
      assert x !in multiset(s);
    }
  }

  /** In sorted order a repeated CPU sits beside itself. */
  lemma AdjacentRepeats(sorted: seq<u32>, n: nat)
    requires forall i, j :: 0 <= i < j < |sorted| ==> sorted[i] <= sorted[j]
    requires forall i :: 0 < i < n && i < |sorted| ==> sorted[i - 1] != sorted[i]
    ensures forall i, j :: 0 <= i < j < |sorted| && i + 1 < n ==> sorted[i] < sorted[j]
  {
    forall i, j | 0 <= i < j < |sorted| && i + 1 < n ensures sorted[i] < sorted[j] {
      assert sorted[i + 1 - 1] != sorted[i + 1];
    }
  }

  method FindDuplicate(sorted: seq<u32>) returns (duplicate: Option<u32>)
    requires forall i, j :: 0 <= i < j < |sorted| ==> sorted[i] <= sorted[j]
    ensures duplicate.None? ==> forall i, j :: 0 <= i < j < |sorted| ==> sorted[i] < sorted[j]
    ensures duplicate.Some? ==> IsLeast(Repeated(sorted), duplicate.value)
    ensures duplicate.None? ==> Repeated(sorted) == iset{}
  {
    forall x: u32
      ensures x in Repeated(sorted) <==> exists i, j :: 0 <= i < j < |sorted| && sorted[i] == x && sorted[j] == x
    {
      CountTwice(sorted, x);
    }
    var i := 1;
    while i < |sorted|
      invariant 1 <= i
      invariant forall k :: 0 < k < i && k < |sorted| ==> sorted[k - 1] != sorted[k]
    {
      if sorted[i - 1] == sorted[i] {
        AdjacentRepeats(sorted, i);
        return Some(sorted[i]);
      }
      i := i + 1;
    }
    AdjacentRepeats(sorted, i);
    return None;
  }

  lemma RepeatedPermutes(a: seq<u32>, b: seq<u32>)
    requires multiset(a) == multiset(b)
    ensures Repeated(a) == Repeated(b)
  {
  }

  method FromTopology(caches: seq<CpuCache>, computeCpus: seq<u32>, budget: u64)
    returns (r: Result<CpuCacheFabric, CacheFabricError>)
    ensures IsTopologyResult(caches, computeCpus, budget, r)
  {
    if computeCpus == [] {
      return Err(NoComputeCpus);
    }
    var ownerCpus := AscendingCpus(computeCpus);
    RepeatedPermutes(computeCpus, ownerCpus);
    SameElements(ownerCpus, computeCpus);
    var duplicate := FindDuplicate(ownerCpus);
    if duplicate.Some? {
      return Err(DuplicateComputeCpu(duplicate.value));
    }
    RefusedPermutes(caches, caches, computeCpus, ownerCpus, budget);
    var owners := BuildOwners(caches, ownerCpus, budget);
    match owners
    case Err(e) =>
      return Err(e);
    case Ok(list) =>
      var fabric := CpuCacheFabric(list);
      assert fabric.OwnerCpus() == ownerCpus;
      return Ok(fabric);
  }

  /** Check each CPU in order against its private L2 and give it the budget. */
  method BuildOwners(caches: seq<CpuCache>, ownerCpus: seq<u32>, budget: u64)
    returns (r: Result<seq<CpuCacheOwner>, CacheFabricError>)
    requires forall i, j :: 0 <= i < j < |ownerCpus| ==> ownerCpus[i] < ownerCpus[j]
    ensures match r
      case Ok(owners) =>
        && |owners| == |ownerCpus| && Refused(caches, ownerCpus, budget) == iset{}
        && forall k :: 0 <= k < |owners| ==> owners[k] == CpuCacheOwner(ownerCpus[k], budget)
      case Err(e) =>
        && (e.MissingPrivateL2? || e.BudgetExceedsPrivateL2?)
        && IsLeast(Refused(caches, ownerCpus, budget), e.cpu)
        && OwnerRefusal(caches, e.cpu, budget) == Some(e)
  {
    var owners: seq<CpuCacheOwner> := [];
    for i := 0 to |ownerCpus|
      invariant |owners| == i
      invariant forall k :: 0 <= k < i ==> owners[k] == CpuCacheOwner(ownerCpus[k], budget)
      invariant forall k :: 0 <= k < i ==> OwnerRefusal(caches, ownerCpus[k], budget).None?
    {
      var cpu := ownerCpus[i];
      var refusal := OwnerRefusal(caches, cpu, budget);
      if refusal.Some? {
        forall other: u32 | other in Refused(caches, ownerCpus, budget) ensures cpu <= other {
          var k :| 0 <= k < |ownerCpus| && ownerCpus[k] == other;
        }
        return Err(refusal.value);
      }
      owners := owners + [CpuCacheOwner(cpu, budget)];
    }
    return Ok(owners);
  }

  /** When a topology is accepted and what each error says, in terms of the caches and CPUs given. */
  lemma TopologyOutcome(
    caches: seq<CpuCache>, cpus: seq<u32>, budget: u64, r: Result<CpuCacheFabric, CacheFabricError>)
    requires IsTopologyResult(caches, cpus, budget, r)
    ensures r.Ok? <==> cpus != [] && Distinct(cpus) && forall cpu :: cpu in cpus ==> HasPrivateL2(caches, cpu, budget)
    ensures r == Err(NoComputeCpus) <==> cpus == []
    ensures r.Err? && r.error.DuplicateComputeCpu? ==>
            && (exists i, j :: 0 <= i < j < |cpus| && cpus[i] == cpus[j] == r.error.cpu)
            && forall i, j :: 0 <= i < j < |cpus| && cpus[i] == cpus[j] ==> r.error.cpu <= cpus[i]
    ensures r.Err? && (r.error.MissingPrivateL2? || r.error.BudgetExceedsPrivateL2?) ==>
            && Distinct(cpus) && r.error.cpu in cpus
            && forall cpu :: cpu in cpus && cpu < r.error.cpu ==> HasPrivateL2(caches, cpu, budget)
    ensures r.Err? && r.error.MissingPrivateL2? ==> !HasPrivateL2(caches, r.error.cpu, 0)
    ensures r.Err? && r.error.BudgetExceedsPrivateL2? ==>
            var size := r.error.privateL2Bytes;
            && r.error.requestedBytes == budget > size
            && HasPrivateL2(caches, r.error.cpu, size) && !HasPrivateL2(caches, r.error.cpu, size + 1)
  {
    RepeatedMeansIndistinct(cpus);
    forall cpu: u32 | cpu in cpus
      ensures cpu in Refused(caches, cpus, budget) <==> !HasPrivateL2(caches, cpu, budget)
    {
    }
    forall i, j | 0 <= i < j < |cpus| && cpus[i] == cpus[j] ensures cpus[i] in Repeated(cpus) {
    }
  }

  lemma RepeatedMeansIndistinct(cpus: seq<u32>)
    ensures Repeated(cpus) == iset{} <==> Distinct(cpus)
    ensures forall cpu: u32 ::
      cpu in Repeated(cpus) <==> exists i, j :: 0 <= i < j < |cpus| && cpus[i] == cpu && cpus[j] == cpu
  {
    forall cpu: u32
      ensures cpu in Repeated(cpus) <==> exists i, j :: 0 <= i < j < |cpus| && cpus[i] == cpu && cpus[j] == cpu
    {
      CountTwice(cpus, cpu);
    }
    forall i, j | 0 <= i < j < |cpus| && cpus[i] == cpus[j] ensures cpus[i] in Repeated(cpus) {
    }
  }

  lemma PrivateL2Permutes(caches: seq<CpuCache>, otherCaches: seq<CpuCache>, cpu: u32)
    requires forall c :: c in caches <==> c in otherCaches
    ensures PrivateL2(caches, cpu) == PrivateL2(otherCaches, cpu)
  {
    var a, b := PrivateL2(caches, cpu), PrivateL2(otherCaches, cpu);
    if a.Some? && b.Some? {
      var c :| c in caches && IsPrivateL2(c, cpu) && c.sizeBytes == a.value;
      var d :| d in otherCaches && IsPrivateL2(d, cpu) && d.sizeBytes == b.value;
      assert c in otherCaches && d in caches;
    }
  }

  lemma RefusedPermutes(
    caches: seq<CpuCache>, otherCaches: seq<CpuCache>, cpus: seq<u32>, otherCpus: seq<u32>, budget: u64)
    requires forall c :: c in caches <==> c in otherCaches
    requires forall cpu :: cpu in cpus <==> cpu in otherCpus
    ensures Refused(caches, cpus, budget) == Refused(otherCaches, otherCpus, budget)
    ensures forall cpu: u32 :: OwnerRefusal(caches, cpu, budget) == OwnerRefusal(otherCaches, cpu, budget)
  {
    forall cpu: u32 ensures OwnerRefusal(caches, cpu, budget) == OwnerRefusal(otherCaches, cpu, budget) {
      PrivateL2Permutes(caches, otherCaches, cpu);
    }
  }

  method AscendingCpus(cpus: seq<u32>) returns (sorted: seq<u32>)
    ensures multiset(sorted) == multiset(cpus)
    ensures forall i, j :: 0 <= i < j < |sorted| ==> sorted[i] <= sorted[j]
  {
    var leq := (a: u32, b: u32) => a <= b;
    sorted := SortBy(leq, cpus);
    SortSorts(leq, cpus);
    SortPermutes(leq, cpus);
    assert forall i, j :: 0 <= i < j < |sorted| ==> leq(sorted[i], sorted[j]);
  }

  /** The fabric, or the error, does not depend on the order of caches or of compute CPUs. */
  lemma TopologyIsCanonical(
    caches: seq<CpuCache>, cpus: seq<u32>, otherCaches: seq<CpuCache>, otherCpus: seq<u32>, budget: u64,
    r: Result<CpuCacheFabric, CacheFabricError>, s: Result<CpuCacheFabric, CacheFabricError>)
    requires multiset(caches) == multiset(otherCaches) && multiset(cpus) == multiset(otherCpus)
    requires IsTopologyResult(caches, cpus, budget, r) && IsTopologyResult(otherCaches, otherCpus, budget, s)
    ensures r == s
  {
    SameElements(caches, otherCaches);
    SameElements(cpus, otherCpus);
    RepeatedPermutes(cpus, otherCpus);
    RefusedPermutes(caches, otherCaches, cpus, otherCpus, budget);
    if r.Ok? && s.Ok? {
      SameFabric(r.value, s.value, budget, cpus);
    } else if r.Err? && s.Err? {
      SameRefusal(Repeated(cpus), Refused(caches, cpus, budget), r.error, s.error);
    }
  }

  ghost predicate NamesRefused(refused: iset<u32>, e: CacheFabricError) {
    (e.MissingPrivateL2? || e.BudgetExceedsPrivateL2?) && IsLeast(refused, e.cpu)
  }

  /** Errors that name the least offender of the same sets name the same CPU. */
  lemma SameRefusal(repeated: iset<u32>, refused: iset<u32>, e: CacheFabricError, f: CacheFabricError)
    ensures e.DuplicateComputeCpu? && f.DuplicateComputeCpu? && IsLeast(repeated, e.cpu) && IsLeast(repeated, f.cpu) ==>
            e == f
    ensures NamesRefused(refused, e) && NamesRefused(refused, f) ==> e.cpu == f.cpu
  {
  }

  lemma SameFabric(f: CpuCacheFabric, g: CpuCacheFabric, budget: u64, cpus: seq<u32>)
    requires f.Canonical() && g.Canonical()
    requires f.HotBudgetBytesPerOwner() == g.HotBudgetBytesPerOwner() == budget
    requires forall cpu: u32 :: cpu in f.OwnerCpus() <==> cpu in cpus
    requires forall cpu: u32 :: cpu in g.OwnerCpus() <==> cpu in cpus
    ensures f == g
  {
    OrderedUnique((a: u32, b: u32) => a < b, f.OwnerCpus(), g.OwnerCpus());
    FabricDetermined(f, g);
  }

  /** A canonical fabric is determined by its owner CPUs and its budget. */
  lemma FabricDetermined(f: CpuCacheFabric, g: CpuCacheFabric)
    requires f.Canonical() && g.Canonical()
    requires f.OwnerCpus() == g.OwnerCpus() && f.HotBudgetBytesPerOwner() == g.HotBudgetBytesPerOwner()
    ensures f == g
  {
    assert |f.owners| == |g.owners|;
    forall i | 0 <= i < |f.owners| ensures f.owners[i] == g.owners[i] {
      assert f.OwnerCpus()[i] == g.OwnerCpus()[i];
    }
    assert f.owners == g.owners;
  }
}
