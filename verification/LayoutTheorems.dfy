/** What the planner's contract implies: canonical plans, stable prefixes, tight packing. */
module LayoutTheorems {
  import opened Machine
  import opened DivMod
  import opened PackFormat
  import opened Sequences
  import opened Layout

  /** The batches agree as sets: row order and repetition inside a batch may differ. */
  ghost predicate SameBatchSets(t: Trace, u: Trace) {
    && |t| == |u|
    && forall b: nat, row: u32 :: b < |t| ==> (row in t[b] <==> row in u[b])
  }

  lemma FirstBatchSame(t: Trace, u: Trace, row: u32)
    requires SameBatchSets(t, u)
    ensures FirstBatch(t, row) == FirstBatch(u, row)
  {
    var i, j := FirstBatch(t, row), FirstBatch(u, row);
    assert i < |t| ==> (row in t[i] <==> row in u[i]);
    assert j < |t| ==> (row in t[j] <==> row in u[j]);
  }

  lemma OrderSame(t: Trace, u: Trace, a: seq<u32>, b: seq<u32>)
    requires SameBatchSets(t, u) && IsHotOrder(t, a) && IsHotOrder(u, b)
    ensures a == b
  {
    var less := (x: u32, y: u32) => Precedes(t, x, y);
    forall row: u32 ensures FirstBatch(t, row) == FirstBatch(u, row) {
      FirstBatchSame(t, u, row);
    }
    forall i, j | 0 <= i < j < |b| ensures less(b[i], b[j]) {
      assert ((x: u32, y: u32) => Precedes(u, x, y))(b[i], b[j]);
    }
    OrderedUnique(less, a, b);
  }

  lemma PackedSame(p: LayoutPlan, q: LayoutPlan)
    requires p.rowBytes == q.rowBytes && p.blockBytes == q.blockBytes
    requires 0 < p.rowBytes <= p.blockBytes && IsPacked(p) && IsPacked(q)
    requires p.hotPhysicalOrder <= q.hotPhysicalOrder
    ensures p.hotOverlayPlacements <= q.hotOverlayPlacements
  {
    forall k | 0 <= k < |p.hotPhysicalOrder|
      ensures p.hotOverlayPlacements[k] == q.hotOverlayPlacements[k]
    {
    }
  }

  /** Planning is canonical: its whole result, including which row an error names, is a function of
      the geometry and of the sequence of batch sets alone. */
  lemma PlanningIsCanonical(
    rowCount: u64, rowBytes: u32, blockBytes: u32, t: Trace, u: Trace,
    r: Result<LayoutPlan, LayoutError>, s: Result<LayoutPlan, LayoutError>)
    requires SameBatchSets(t, u)
    requires IsPlanningResult(rowCount, rowBytes, blockBytes, t, r)
    requires IsPlanningResult(rowCount, rowBytes, blockBytes, u, s)
    ensures r == s
  {
    forall row: u32 ensures FirstBatch(t, row) == FirstBatch(u, row) {
      FirstBatchSame(t, u, row);
    }
    if r.Err? && r.error.TraceRowOutOfRange? {
      assert Traced(t, r.error.row) <==> Traced(u, r.error.row);
    }
    if s.Err? && s.error.TraceRowOutOfRange? {
      assert Traced(t, s.error.row) <==> Traced(u, s.error.row);
    }
    if r.Ok? && s.Ok? {
      OrderSame(t, u, r.value.hotPhysicalOrder, s.value.hotPhysicalOrder);
      PackedSame(r.value, s.value);
      PackedSame(s.value, r.value);
      assert r.value.hotOverlayPlacements == s.value.hotOverlayPlacements;
    }
  }

  lemma FirstBatchAppend(t: Trace, u: Trace, row: u32)
    ensures Traced(t, row) ==> FirstBatch(t + u, row) == FirstBatch(t, row)
    ensures !Traced(t, row) ==> FirstBatch(t + u, row) >= |t|
  {
    var i, j := FirstBatch(t, row), FirstBatch(t + u, row);
    assert forall b: nat :: b < |t| ==> (t + u)[b] == t[b];
    assert i < |t| ==> row in (t + u)[i];
  }

  /** Appending batches to a trace never moves a row already placed. */
  lemma PlacementsExtend(p: LayoutPlan, q: LayoutPlan, t: Trace, u: Trace)
    requires Planned(p, t) && Planned(q, t + u)
    requires p.rowBytes == q.rowBytes && p.blockBytes == q.blockBytes
    ensures p.hotPhysicalOrder <= q.hotPhysicalOrder
    ensures p.hotOverlayPlacements <= q.hotOverlayPlacements
  {
    var a, b := p.hotPhysicalOrder, q.hotPhysicalOrder;
    var less := (x: u32, y: u32) => Precedes(t + u, x, y);
    forall row: u32
      ensures Traced(t, row) ==> FirstBatch(t + u, row) == FirstBatch(t, row)
      ensures !Traced(t, row) ==> FirstBatch(t + u, row) >= |t|
    {
      FirstBatchAppend(t, u, row);
    }
    forall i, j | 0 <= i < j < |a| ensures less(a[i], a[j]) {
      assert ((x: u32, y: u32) => Precedes(t, x, y))(a[i], a[j]);
    }
    forall i, j | 0 <= i < j < |b| && b[j] in a ensures b[i] in a {
      assert less(b[i], b[j]);
    }
    OrderedPrefix(less, a, b);
    PackedSame(p, q);
  }

  /** No row is duplicated, and pigeonhole bounds the overlay by the row space. */
  lemma HotRowsDistinct(plan: LayoutPlan, trace: Trace)
    requires Planned(plan, trace)
    ensures Distinct(plan.hotPhysicalOrder)
    ensures |plan.hotPhysicalOrder| <= plan.rowCount <= U32_SPACE
  {
    HotOrderSize(plan.hotPhysicalOrder, plan.rowCount, trace);
  }

  /** Byte position of the k-th packed row inside the overlay region. */
  function SlotOffset(rowBytes: u32, blockBytes: u32, k: nat): (offset: nat)
    requires 0 < rowBytes <= blockBytes
  {
    var n := RowsPerBlock(rowBytes, blockBytes);
    DivModSum(k, n);
    MulMono(0, k / n, blockBytes);
    MulMono(0, k % n, rowBytes);
    k / n * blockBytes + k % n * rowBytes
  }

  /** Each row ends inside its block. */
  lemma SlotInBlock(rowBytes: u32, blockBytes: u32, k: nat)
    requires 0 < rowBytes <= blockBytes
    ensures var n := RowsPerBlock(rowBytes, blockBytes);
      && 0 <= k / n && 0 <= k % n < n
      && SlotOffset(rowBytes, blockBytes, k) + rowBytes <= (k / n + 1) * blockBytes
      && SlotOffset(rowBytes, blockBytes, k) / blockBytes == k / n
      && SlotOffset(rowBytes, blockBytes, k) % blockBytes == k % n * rowBytes
      && k % n * rowBytes + rowBytes <= blockBytes
  {
    var n := RowsPerBlock(rowBytes, blockBytes);
    DivModSum(k, n);
    SlotFits(k % n, rowBytes, blockBytes);
    MulNext(k / n, blockBytes);
    DivUnique(SlotOffset(rowBytes, blockBytes, k), blockBytes, k / n, k % n * rowBytes);
  }

  /** Rows later in physical order start after earlier ones end. */
  lemma SlotsInOrder(rowBytes: u32, blockBytes: u32, j: nat, k: nat)
    requires 0 < rowBytes <= blockBytes && j < k
    ensures SlotOffset(rowBytes, blockBytes, j) + rowBytes <= SlotOffset(rowBytes, blockBytes, k)
  {
    var n := RowsPerBlock(rowBytes, blockBytes);
    SlotInBlock(rowBytes, blockBytes, j);
    DivModSum(j, n);
    DivModSum(k, n);
    MulNext(k / n, n);
    if j / n == k / n {
      MulMono(j % n + 1, k % n, rowBytes);
      MulNext(j % n, rowBytes);
    } else {
      if k / n + 1 <= j / n {
        MulMono(k / n + 1, j / n, n);
      }
      MulMono(j / n + 1, k / n, blockBytes);
    }
  }

  /** Blocks needed for n rows: the ceiling of n / rowsPerBlock. */
  function BlocksFor(rowBytes: u32, blockBytes: u32, rows: nat): (blocks: nat)
    requires 0 < rowBytes <= blockBytes
    ensures rows == 0 ==> blocks == 0
    ensures rows > 0 ==> blocks == (rows - 1) / RowsPerBlock(rowBytes, blockBytes) + 1
  {
    var n := RowsPerBlock(rowBytes, blockBytes);
    if rows == 0 then DivUnique(n - 1, n, 0, n - 1); (rows + n - 1) / n
    else
      DivModSum(rows - 1, n);
      MulNext((rows - 1) / n, n);
      DivUnique(rows + n - 1, n, (rows - 1) / n + 1, (rows - 1) % n);
      (rows + n - 1) / n
  }

  /** Packing is a tight bijection: a placement determines its ordinal, every block but the last is
      full, every row ends inside its block and inside the storage for `rows` rows. */
  lemma PackingIsTight(plan: LayoutPlan, k: nat)
    requires 0 < plan.rowBytes <= plan.blockBytes && IsPacked(plan) && k < |plan.hotPhysicalOrder|
    ensures var n := RowsPerBlock(plan.rowBytes, plan.blockBytes);
      var p := plan.hotOverlayPlacements[k];
      && k == p.blockId * n + p.offsetInBlock / plan.rowBytes
      && p.offsetInBlock % plan.rowBytes == 0
      && p.offsetInBlock + plan.rowBytes <= plan.blockBytes
      && (p.blockId + 1 < BlocksFor(plan.rowBytes, plan.blockBytes, |plan.hotPhysicalOrder|) ==>
            (p.blockId + 1) * n <= |plan.hotPhysicalOrder|)
  {
    var n := RowsPerBlock(plan.rowBytes, plan.blockBytes);
    var rows := |plan.hotPhysicalOrder|;
    DivModSum(k, n);
    SlotFits(k % n, plan.rowBytes, plan.blockBytes);
    DivUnique(k % n * plan.rowBytes, plan.rowBytes, k % n, 0);
    DivModSum(rows - 1, n);
    if k / n + 1 < BlocksFor(plan.rowBytes, plan.blockBytes, rows) {
      MulMono(k / n + 1, (rows - 1) / n, n);
      MulNext(k / n, n);
    }
    MulMono(0, k / n, n);
  }

  /** Planning succeeds exactly when the geometry is sound and every traced row exists. */
  lemma PlanningSucceeds(
    rowCount: u64, rowBytes: u32, blockBytes: u32, trace: Trace, r: Result<LayoutPlan, LayoutError>)
    requires IsPlanningResult(rowCount, rowBytes, blockBytes, trace, r)
    ensures r.Ok? <==>
            && 0 < rowCount <= U32_SPACE && 0 < rowBytes <= blockBytes
            && forall b: nat, row: u32 :: b < |trace| && row in trace[b] ==> row < rowCount
  {
    if r.Ok? {
      forall b: nat, row: u32 | b < |trace| && row in trace[b] ensures row < rowCount {
        assert Traced(trace, row);
      }
    } else if r.error.TraceRowOutOfRange? {
      assert r.error.row in trace[FirstBatch(trace, r.error.row)];
    }
  }
}
