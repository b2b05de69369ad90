/** Deterministic planning of the hot overlay from a trace of row batches. */
module Layout {
  import opened Machine
  import opened DivMod
  import opened PackFormat
  import opened Sequences
  import opened Sorting

  datatype HotOverlayPlacement = HotOverlayPlacement(logicalRow: u32, blockId: u64, offsetInBlock: u32)

  datatype LayoutPlan = LayoutPlan(
    rowCount: u64,
    rowBytes: u32,
    blockBytes: u32,
    hotPhysicalOrder: seq<u32>,
    hotOverlayPlacements: seq<HotOverlayPlacement>)
  {
    /** Byte offset of a row in the cold base region. */
    function BaseOffset(logicalRow: u32): Result<u64, LayoutError> {
      if logicalRow >= rowCount then Err(LogicalRowOutOfRange(logicalRow, rowCount))
      else MulOr(logicalRow, rowBytes, ColdRowOffsetOverflow)
    }
  }

  /** Row offsets in the cold base never overflow; rows that do not exist are refused. */
  lemma ColdOffsets(plan: LayoutPlan, row: u32)
    ensures row < plan.rowCount ==>
            plan.BaseOffset(row).Ok? && plan.BaseOffset(row).value == row * plan.rowBytes
    ensures row >= plan.rowCount ==> plan.BaseOffset(row) == Err(LogicalRowOutOfRange(row, plan.rowCount))
  {
    MulMono(row, U32_SPACE, plan.rowBytes);
    assert U32_SPACE * plan.rowBytes < U64_SPACE;
  }

  // ----- specification

  type Trace = seq<seq<u32>>

  /** The first geometry check that fails, if any. */
  function GeometryRefusal(rowCount: u64, rowBytes: u32, blockBytes: u32): Option<GeometryFault> {
    if rowCount == 0 then Some(RowCountZero)
    else if rowCount > U32_SPACE then Some(RowSpaceExceedsU32)
    else if rowBytes == 0 then Some(RowBytesZero)
    else if blockBytes < rowBytes then Some(BlockTooSmall)
    else None
  }

  /** Index of the first batch holding `row`; `|trace|` if there is none. */
  ghost function FirstBatch(trace: Trace, row: u32): (b: nat)
    ensures b <= |trace|
    ensures b < |trace| ==> row in trace[b]
    ensures forall i :: 0 <= i < b ==> row !in trace[i]
  {
    if trace == [] then 0
    else if row in trace[0] then 0
    else
      var rest := FirstBatch(trace[1..], row);
      assert forall i :: 0 < i < 1 + rest ==> trace[i] == trace[1..][i - 1];
      1 + rest
  }

  ghost predicate Traced(trace: Trace, row: u32) {
    FirstBatch(trace, row) < |trace|
  }

  /** Physical order of traced rows: by first batch seen in, then by row ID. */
  ghost predicate Precedes(trace: Trace, a: u32, b: u32) {
    var i, j := FirstBatch(trace, a), FirstBatch(trace, b);
    i < j || (i == j && a < b)
  }

  ghost predicate IsHotOrder(trace: Trace, order: seq<u32>) {
    && (forall row: u32 :: row in order <==> Traced(trace, row))
    && OrderedBy((a: u32, b: u32) => Precedes(trace, a, b), order)
  }

  /** `row` is the out-of-range row met first. */
  ghost predicate IsFirstOutOfRange(trace: Trace, rowCount: u64, row: u32) {
    && Traced(trace, row) && row >= rowCount
    && forall other: u32 :: Traced(trace, other) && other >= rowCount && other != row ==> Precedes(trace, row, other)
  }

  function RowsPerBlock(rowBytes: u32, blockBytes: u32): (n: nat)
    requires 0 < rowBytes <= blockBytes
    ensures n > 0 && n * rowBytes <= blockBytes < n * rowBytes + rowBytes
  {
    DivAtLeast(blockBytes, rowBytes, 1);
    DivModSum(blockBytes, rowBytes);
    blockBytes / rowBytes
  }

  ghost predicate IsPacked(plan: LayoutPlan)
    requires 0 < plan.rowBytes <= plan.blockBytes
  {
    var rowsPerBlock := RowsPerBlock(plan.rowBytes, plan.blockBytes);
    && |plan.hotOverlayPlacements| == |plan.hotPhysicalOrder|
    && forall k :: 0 <= k < |plan.hotPhysicalOrder| ==>
         var p := plan.hotOverlayPlacements[k];
         && p.logicalRow == plan.hotPhysicalOrder[k]
         && p.blockId == k / rowsPerBlock
         && p.offsetInBlock == k % rowsPerBlock * plan.rowBytes
  }

  ghost predicate Planned(plan: LayoutPlan, trace: Trace) {
    && GeometryRefusal(plan.rowCount, plan.rowBytes, plan.blockBytes) == None
    && (forall row: u32 :: Traced(trace, row) ==> row < plan.rowCount)
    && IsHotOrder(trace, plan.hotPhysicalOrder)
    && IsPacked(plan)
  }

  /** Everything planning promises about its result; no overflow error is among the outcomes. */
  ghost predicate IsPlanningResult(
    rowCount: u64, rowBytes: u32, blockBytes: u32, trace: Trace, r: Result<LayoutPlan, LayoutError>)
  {
    var refusal := GeometryRefusal(rowCount, rowBytes, blockBytes);
    match r
    case Ok(plan) =>
      && plan.rowCount == rowCount && plan.rowBytes == rowBytes && plan.blockBytes == blockBytes
      && Planned(plan, trace)
    case Err(InvalidGeometry(fault)) => refusal == Some(fault)
    case Err(TraceRowOutOfRange(row, n)) =>
      refusal == None && n == rowCount && IsFirstOutOfRange(trace, rowCount, row)
    case Err(_) => false
  }

  // ----- the planner

  /** Pigeonhole: no row is placed twice, so at most `rowCount` are. */
  lemma HotOrderSize(order: seq<u32>, rowCount: u64, trace: Trace)
    requires IsHotOrder(trace, order)
    requires forall row: u32 :: Traced(trace, row) ==> row < rowCount
    ensures Distinct(order)
    ensures |order| <= rowCount
  {
    forall i, j | 0 <= i < j < |order| ensures order[i] != order[j] {
      assert ((a: u32, b: u32) => Precedes(trace, a, b))(order[i], order[j]);
    }
    Pigeonhole(order, rowCount);
  }

  lemma SlotFits(slot: nat, rowBytes: u32, blockBytes: u32)
    requires 0 < rowBytes <= blockBytes && slot < RowsPerBlock(rowBytes, blockBytes)
    ensures 0 <= slot * rowBytes && slot * rowBytes + rowBytes <= blockBytes
  {
    var n := RowsPerBlock(rowBytes, blockBytes);
    MulMono(slot + 1, n, rowBytes);
    MulNext(slot, rowBytes);
  }

  /** Place one row by its ordinal. None of the overflow checks ever fires. */
  function PlaceRow(rowBytes: u32, blockBytes: u32, logicalRow: u32, ordinal: nat)
    : (r: Result<HotOverlayPlacement, LayoutError>)
    requires 0 < rowBytes <= blockBytes && ordinal < U32_SPACE
    ensures var n := RowsPerBlock(rowBytes, blockBytes);
      && r.Ok? && r.value.logicalRow == logicalRow
      && r.value.blockId == ordinal / n && r.value.offsetInBlock == ordinal % n * rowBytes
  {
    var n := RowsPerBlock(rowBytes, blockBytes);
    DivModSum(ordinal, n);
    MulMono(1, n, ordinal / n);
    SlotFits(ordinal % n, rowBytes, blockBytes);
    var blockId := ordinal / n;
    var offset := ordinal % n * rowBytes;
    if offset >= U64_SPACE then Err(BlockOffsetOverflow)
    else if offset < U32_SPACE then
      var fits: u32 := offset;
      Ok(HotOverlayPlacement(logicalRow, blockId, fits))
    else Err(BlockOffsetU32Overflow)
  }

  /** The second half of planning: pack the physical order into blocks. */
  method PackRows(rowBytes: u32, blockBytes: u32, order: seq<u32>)
    returns (r: Result<seq<HotOverlayPlacement>, LayoutError>)
    requires 0 < rowBytes <= blockBytes
    requires |order| <= U32_SPACE
    ensures r.Ok? && |r.value| == |order|
    ensures forall k :: 0 <= k < |order| ==> Ok(r.value[k]) == PlaceRow(rowBytes, blockBytes, order[k], k)
  {
    var placements: seq<HotOverlayPlacement> := [];
    for ordinal := 0 to |order|
      invariant |placements| == ordinal
      invariant forall k :: 0 <= k < ordinal ==> Ok(placements[k]) == PlaceRow(rowBytes, blockBytes, order[k], k)
    {
      match PlaceRow(rowBytes, blockBytes, order[ordinal], ordinal) {
        case Err(e) => return Err(e);
        case Ok(placement) => placements := placements + [placement];
      }
    }
    return Ok(placements);
  }

  lemma PlacedRowsArePacked(plan: LayoutPlan)
    requires 0 < plan.rowBytes <= plan.blockBytes
    requires |plan.hotOverlayPlacements| == |plan.hotPhysicalOrder| <= U32_SPACE
    requires forall k :: 0 <= k < |plan.hotPhysicalOrder| ==>
      Ok(plan.hotOverlayPlacements[k]) == PlaceRow(plan.rowBytes, plan.blockBytes, plan.hotPhysicalOrder[k], k)
    ensures IsPacked(plan)
  {
  }

  /** The first half: visit each batch as a sorted set and collect the rows not seen before. */
  method CollectRows(rowCount: u64, trace: Trace) returns (r: Result<seq<u32>, LayoutError>)
    ensures match r
            case Ok(order) => IsHotOrder(trace, order) && forall row: u32 :: Traced(trace, row) ==> row < rowCount
            case Err(e) => e.TraceRowOutOfRange? && e.rowCount == rowCount && IsFirstOutOfRange(trace, rowCount, e.row)
  {
    var order: seq<u32> := [];
    var seen: set<u32> := {};
    ghost var before := (a: u32, b: u32) => Precedes(trace, a, b);
    for b := 0 to |trace|
      invariant forall row: u32 :: row in seen <==> row in order
      invariant forall row: u32 :: row in order <==> FirstBatch(trace, row) < b
      invariant forall row: u32 :: row in order ==> row < rowCount
      invariant OrderedBy(before, order)
    {
      var group := Dedup(Ascending(trace[b]));
      GroupIsAscendingSet(trace[b]);
      for k := 0 to |group|
        invariant forall row: u32 :: row in seen <==> row in order
        invariant forall row: u32 :: row in order <==> FirstBatch(trace, row) < b || row in group[..k]
        invariant forall row: u32 :: row in order ==> row < rowCount
        invariant OrderedBy(before, order)
      {
        assert group[k] in group;
        assert group[k] in trace[b];
        var row: u32 := group[k];
        if row >= rowCount {
          return Err(TraceRowOutOfRange(row, rowCount));
        }
        if row !in seen {
          seen := seen + {row};
          order := order + [row];
        }
      }
    }
    return Ok(order);
  }

  method PlanExactLayout(rowCount: u64, rowBytes: u32, blockBytes: u32, trace: Trace)
    returns (r: Result<LayoutPlan, LayoutError>)
    ensures IsPlanningResult(rowCount, rowBytes, blockBytes, trace, r)
  {
    if rowCount == 0 {
      return Err(InvalidGeometry(RowCountZero));
    }
    if rowCount > U32_SPACE {
      return Err(InvalidGeometry(RowSpaceExceedsU32));
    }
    if rowBytes == 0 {
      return Err(InvalidGeometry(RowBytesZero));
    }
    if blockBytes < rowBytes {
      return Err(InvalidGeometry(BlockTooSmall));
    }
    if RowsPerBlock(rowBytes, blockBytes) == 0 {
      return Err(InvalidGeometry(NoCompleteRowsPerBlock));
    }
    var collected := CollectRows(rowCount, trace);
    match collected
    case Err(e) =>
      return Err(e);
    case Ok(order) =>
      HotOrderSize(order, rowCount, trace);
      var packed := PackRows(rowBytes, blockBytes, order);
      match packed {
        case Err(e) =>
          return Err(e);
        case Ok(placements) =>
          var plan := LayoutPlan(rowCount, rowBytes, blockBytes, order, placements);
          PlacedRowsArePacked(plan);
          return Ok(plan);
      }
  }
}
