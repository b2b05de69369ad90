/** What the writer produces for planned layouts: no arithmetic failure but one, and framed rows. */
module WriterTheorems {
  import opened Machine
  import opened DivMod
  import opened Sequences
  import opened Sorting
  import opened PackFormat
  import opened DiskFormat
  import opened RowSources
  import opened Layout
  import opened LayoutTheorems
  import opened Writer

  // ----- arithmetic of planned layouts

  /** Overlay bytes of a planned layout: whole blocks, just enough of them. */
  function OverlaySize(plan: LayoutPlan): nat
    requires 0 < plan.rowBytes <= plan.blockBytes
  {
    var blocks := BlocksFor(plan.rowBytes, plan.blockBytes, |plan.hotPhysicalOrder|);
    MulMono(0, blocks, plan.blockBytes);
    blocks * plan.blockBytes
  }

  /** First block boundary at or after the end of the index. */
  function DataStart(plan: LayoutPlan): nat
    requires plan.blockBytes > 0 && |plan.hotPhysicalOrder| <= U32_SPACE
  {
    AlignUp(128 + 12 * |plan.hotPhysicalOrder|, plan.blockBytes).value
  }

  /** `starts[k]` is where the k-th row lies in the overlay: computed without overflow, in order,
      apart, inside its block and inside the region. */
  ghost predicate Starts(plan: LayoutPlan, starts: seq<nat>, size: nat) {
    && 0 < plan.rowBytes <= plan.blockBytes
    && |starts| == |plan.hotOverlayPlacements|
    && (forall k, fault :: 0 <= k < |starts| ==>
          OverlayOffset(plan, plan.hotOverlayPlacements[k], fault) == Ok(starts[k]))
    && Apart(starts, plan.rowBytes, size)
    && (forall k :: 0 <= k < |starts| ==> starts[k] % plan.blockBytes + plan.rowBytes <= plan.blockBytes)
  }

  ghost predicate Apart(starts: seq<nat>, rowBytes: nat, size: nat) {
    && (forall k :: 0 <= k < |starts| ==> starts[k] + rowBytes <= size)
    && (forall j, k :: 0 <= j < k < |starts| ==> starts[j] + rowBytes <= starts[k])
  }

  lemma OverlaySizeBound(plan: LayoutPlan, trace: Trace)
    requires Planned(plan, trace)
    ensures OverlaySize(plan) <= U32_SPACE * plan.blockBytes <= U64_SPACE - U32_SPACE
    ensures OverlaySize(plan) % plan.blockBytes == 0
    ensures OverlayStorageBytes(plan) == Ok(OverlaySize(plan))
  {
    HotRowsDistinct(plan, trace);
    var rows := |plan.hotPhysicalOrder|;
    var n := RowsPerBlock(plan.rowBytes, plan.blockBytes);
    var blocks := BlocksFor(plan.rowBytes, plan.blockBytes, rows);
    if rows > 0 {
      DivModSum(rows - 1, n);
      MulMono(1, n, (rows - 1) / n);
    }
    MulMono(blocks, U32_SPACE, plan.blockBytes);
    DivUnique(blocks * plan.blockBytes, plan.blockBytes, blocks, 0);
  }

  lemma StartOf(plan: LayoutPlan, trace: Trace, k: nat, fault: FormatFault)
    requires Planned(plan, trace) && k < |plan.hotPhysicalOrder|
    ensures var start := SlotOffset(plan.rowBytes, plan.blockBytes, k);
      && OverlayOffset(plan, plan.hotOverlayPlacements[k], fault) == Ok(start)
      && start + plan.rowBytes <= OverlaySize(plan)
      && start % plan.blockBytes + plan.rowBytes <= plan.blockBytes
  {
    OverlaySizeBound(plan, trace);
    SlotInBlock(plan.rowBytes, plan.blockBytes, k);
    var n := RowsPerBlock(plan.rowBytes, plan.blockBytes);
    var blocks := BlocksFor(plan.rowBytes, plan.blockBytes, |plan.hotPhysicalOrder|);
    QuotientMono(k, |plan.hotPhysicalOrder| - 1, n);
    MulMono(k / n + 1, blocks, plan.blockBytes);
    MulNext(k / n, plan.blockBytes);
  }

  lemma QuotientMono(a: nat, b: nat, n: nat)
    requires n > 0 && a <= b
    ensures 0 <= a / n <= b / n
  {
    DivModSum(a, n);
    DivAtLeast(b, n, a / n);
  }

  ghost function RowStarts(plan: LayoutPlan): seq<nat>
    requires 0 < plan.rowBytes <= plan.blockBytes
  {
    seq(|plan.hotPhysicalOrder|, k requires 0 <= k => SlotOffset(plan.rowBytes, plan.blockBytes, k))
  }

  lemma PlannedStarts(plan: LayoutPlan, trace: Trace)
    requires Planned(plan, trace)
    ensures Starts(plan, RowStarts(plan), OverlaySize(plan))
  {
    var starts := RowStarts(plan);
    forall k, fault | 0 <= k < |starts|
      ensures OverlayOffset(plan, plan.hotOverlayPlacements[k], fault) == Ok(starts[k])
      ensures starts[k] + plan.rowBytes <= OverlaySize(plan)
      ensures starts[k] % plan.blockBytes + plan.rowBytes <= plan.blockBytes
    {
      StartOf(plan, trace, k, fault);
    }
    forall k | 0 <= k < |starts|
      ensures starts[k] + plan.rowBytes <= OverlaySize(plan)
      ensures starts[k] % plan.blockBytes + plan.rowBytes <= plan.blockBytes
    {
      StartOf(plan, trace, k, OverlayOffsetOverflow);
    }
    forall j, k | 0 <= j < k < |starts| ensures starts[j] + plan.rowBytes <= starts[k] {
      SlotsInOrder(plan.rowBytes, plan.blockBytes, j, k);
    }
  }

  // ----- the index

  function EntryAt(plan: LayoutPlan, starts: seq<nat>, k: nat): IndexEntry
    requires k < |starts| == |plan.hotOverlayPlacements| && starts[k] < U64_SPACE
  {
    IndexEntry(plan.hotOverlayPlacements[k].logicalRow, starts[k])
  }

  lemma {:induction false} PlannedEntries(plan: LayoutPlan, starts: seq<nat>, size: nat, n: nat)
    requires Starts(plan, starts, size) && n <= |starts|
    requires forall k :: 0 <= k < |starts| ==> starts[k] < U64_SPACE
    ensures var r := EntriesUpTo(plan, n);
      r.Ok? && forall k :: 0 <= k < n ==> r.value[k] == EntryAt(plan, starts, k)
  {
    if n > 0 {
      PlannedEntries(plan, starts, size, n - 1);
      assert OverlayOffset(plan, plan.hotOverlayPlacements[n - 1], OverlayOffsetOverflow) == Ok(starts[n - 1]);
    }
  }

  /** Sorting entries of distinct rows by row gives strictly ascending rows. */
  lemma SortedRowsAscend(entries: seq<IndexEntry>)
    requires forall i, j :: 0 <= i < j < |entries| ==> entries[i].logicalRow != entries[j].logicalRow
    ensures var sorted := SortBy(ByRow, entries);
      && |sorted| == |entries| && (forall e :: e in sorted <==> e in entries)
      && forall i, j :: 0 <= i < j < |sorted| ==> sorted[i].logicalRow < sorted[j].logicalRow
  {
    var sorted := SortBy(ByRow, entries);
    SortPermutes(ByRow, entries);
    SameElements(sorted, entries);
    SortSorts(ByRow, entries);
    DistinctAsSet(entries);
    SubMultisetDistinct(sorted, entries);
    forall i, j | 0 <= i < j < |sorted| ensures sorted[i].logicalRow < sorted[j].logicalRow {
      assert ByRow(sorted[i], sorted[j]);
      assert sorted[i] in entries && sorted[j] in entries;
      assert sorted[i] != sorted[j];
    }
  }

  lemma DistinctAsSet(entries: seq<IndexEntry>)
    requires forall i, j :: 0 <= i < j < |entries| ==> entries[i].logicalRow != entries[j].logicalRow
    ensures Distinct(entries)
  {
  }

  /** For a planned layout the index is built, sorted and accepted as unique. */
  lemma PlannedIndex(plan: LayoutPlan, trace: Trace)
    requires Planned(plan, trace)
    ensures var starts := RowStarts(plan);
      var r := SortedEntries(plan);
      && r.Ok? && |r.value| == |plan.hotPhysicalOrder|
      && (forall i, j :: 0 <= i < j < |r.value| ==> r.value[i].logicalRow < r.value[j].logicalRow)
      && (forall k :: 0 <= k < |starts| ==> starts[k] < U64_SPACE && EntryAt(plan, starts, k) in r.value)
      && (forall e :: e in r.value ==> exists k :: 0 <= k < |starts| && e == EntryAt(plan, starts, k))
  {
    var starts := RowStarts(plan);
    PlannedStarts(plan, trace);
    OverlaySizeBound(plan, trace);
    HotRowsDistinct(plan, trace);
    PlannedEntries(plan, starts, OverlaySize(plan), |starts|);
    var entries := EntriesUpTo(plan, |starts|).value;
    forall i, j | 0 <= i < j < |entries| ensures entries[i].logicalRow != entries[j].logicalRow {
      assert entries[i] == EntryAt(plan, starts, i) && entries[j] == EntryAt(plan, starts, j);
    }
    SortedRowsAscend(entries);
    forall k | 0 <= k < |starts| ensures EntryAt(plan, starts, k) in entries {
      assert entries[k] == EntryAt(plan, starts, k);
    }
  }

  lemma {:induction false} EntryRows(plan: LayoutPlan, n: nat)
    requires n <= |plan.hotOverlayPlacements| && EntriesUpTo(plan, n).Ok?
    ensures forall k :: 0 <= k < n ==>
      EntriesUpTo(plan, n).value[k].logicalRow == plan.hotOverlayPlacements[k].logicalRow
  {
    if n > 0 {
      EntryRows(plan, n - 1);
    }
  }

  lemma {:induction false} StrictRowsDiffer(entries: seq<IndexEntry>, i: nat, j: nat)
    requires RowsStrictlyAscend(entries) && i < j < |entries|
    ensures entries[i].logicalRow < entries[j].logicalRow
  {
    if i < j - 1 {
      StrictRowsDiffer(entries, i, j - 1);
    }
  }

  /** For any plan, planned or not, whose offsets fit: the index is accepted exactly when no two
      placements name the same row, and a repeated row is the only fault reported. */
  lemma UniqueRowsAccepted(plan: LayoutPlan)
    requires EntriesUpTo(plan, |plan.hotOverlayPlacements|).Ok?
    ensures var placements := plan.hotOverlayPlacements;
      SortedEntries(plan).Ok? <==>
      forall i, j :: 0 <= i < j < |placements| ==> placements[i].logicalRow != placements[j].logicalRow
    ensures SortedEntries(plan).Err? ==> SortedEntries(plan) == Err(Format(OverlayRowsNotUnique))
  {
    var n := |plan.hotOverlayPlacements|;
    var entries := EntriesUpTo(plan, n).value;
    EntryRows(plan, n);
    if SortedEntries(plan).Ok? {
      var sorted := SortBy(ByRow, entries);
      SortPermutes(ByRow, entries);
      SameElements(sorted, entries);
      forall i, j | 0 <= i < j < |sorted| ensures sorted[i].logicalRow < sorted[j].logicalRow {
        StrictRowsDiffer(sorted, i, j);
      }
      SubMultisetDistinct(entries, sorted);
      forall i, j | 0 <= i < j < n ensures entries[i].logicalRow != entries[j].logicalRow {
        assert entries[i] in sorted && entries[j] in sorted;
      }
    }
    if forall i, j :: 0 <= i < j < n ==> entries[i].logicalRow != entries[j].logicalRow {
      SortedRowsAscend(entries);
    }
  }

  // ----- the header

  /** The header a writer computes from its geometry. */
  function HeaderFor(
    sha: Sha256, source: RowSource, plan: LayoutPlan, entries: seq<IndexEntry>, dataOffset: u64, overlayBytes: u64)
    : DiskHeader
    requires |entries| * 12 < U64_SPACE
  {
    DiskHeader(
      PlePackHeader(
        PLEPACK_MAGIC, PLEPACK_VERSION, source.digest, plan.rowCount, plan.rowBytes, plan.blockBytes,
        sha(Payload(entries))),
      |entries|, |entries| * 12, dataOffset, overlayBytes)
  }

  lemma HeaderComputed(
    sha: Sha256, source: RowSource, plan: LayoutPlan, entries: seq<IndexEntry>, dataOffset: u64, overlayBytes: u64)
    requires source.rowCount == plan.rowCount && source.rowBytes == plan.rowBytes
    requires 0 < plan.rowCount <= U32_SPACE && 0 < plan.rowBytes <= plan.blockBytes
    requires 128 + |entries| * 12 < U64_SPACE
    requires AlignUp(128 + |entries| * 12, plan.blockBytes) == Ok(dataOffset)
    requires OverlayStorageBytes(plan) == Ok(overlayBytes) && overlayBytes % plan.blockBytes == 0
    ensures PlanHeader(sha, source, plan, entries) ==
      if dataOffset + overlayBytes >= U64_SPACE then Err(Format(FileSizeOverflow))
      else Ok(HeaderFor(sha, source, plan, entries, dataOffset, overlayBytes))
  {
    var logical := HeaderFor(sha, source, plan, entries, dataOffset, overlayBytes).logical;
    assert NewPackHeader(source.digest, source.rowCount, source.rowBytes, plan.blockBytes, sha(Payload(entries)))
        == Ok(logical);
    assert NewDiskHeader(logical, |entries|, |entries| * 12, dataOffset, overlayBytes).Ok?;
  }

  /** The source has the rows the plan was made for. */
  ghost predicate Matches(source: RowSource, plan: LayoutPlan) {
    source.rowCount == plan.rowCount && source.rowBytes == plan.rowBytes
  }

  /** For a planned layout every size is computed without overflow, and only their sum can exceed u64. */
  lemma PlannedHeader(sha: Sha256, source: RowSource, plan: LayoutPlan, trace: Trace, entries: seq<IndexEntry>)
    requires Planned(plan, trace) && Matches(source, plan)
    requires |entries| == |plan.hotPhysicalOrder|
    ensures |plan.hotPhysicalOrder| <= U32_SPACE && DataStart(plan) < U64_SPACE && OverlaySize(plan) < U64_SPACE
    ensures PlanHeader(sha, source, plan, entries) ==
      if DataStart(plan) + OverlaySize(plan) >= U64_SPACE then Err(Format(FileSizeOverflow))
      else Ok(HeaderFor(sha, source, plan, entries, DataStart(plan), OverlaySize(plan)))
  {
    HotRowsDistinct(plan, trace);
    OverlaySizeBound(plan, trace);
    HeaderComputed(sha, source, plan, entries, DataStart(plan), OverlaySize(plan));
  }

  // ----- the rows

  ghost predicate InsideRow(starts: seq<nat>, rowBytes: nat, n: nat, position: int)
    requires n <= |starts|
  {
    exists k :: 0 <= k < n && starts[k] <= position < starts[k] + rowBytes
  }

  /** `image` is `empty` with exactly the first n of `rows` written into the region at `dataOffset`. */
  ghost predicate Framed(
    rows: seq<Result<seq<u8>, IoError>>, starts: seq<nat>, rowBytes: nat, dataOffset: nat, n: nat,
    empty: seq<u8>, image: seq<u8>)
    requires n <= |starts| == |rows| && dataOffset <= |empty| && Apart(starts, rowBytes, |empty| - dataOffset)
  {
    && |image| == |empty|
    && (forall k :: 0 <= k < n ==>
          rows[k] == Ok(image[dataOffset + starts[k]..dataOffset + starts[k] + rowBytes]))
    && (forall p :: 0 <= p < |image| && !InsideRow(starts, rowBytes, n, p - dataOffset) ==> image[p] == empty[p])
  }

  lemma OverwriteInside(s: seq<u8>, at: nat, data: seq<u8>)
    requires at + |data| <= |s|
    ensures |Overwrite(s, at, data)| == |s|
    ensures Overwrite(s, at, data)[at..at + |data|] == data
    ensures forall p :: 0 <= p < |s| && !(at <= p < at + |data|) ==> Overwrite(s, at, data)[p] == s[p]
  {
  }

  /** Writing row n leaves the rows before it, and everything that is no row, as they were. */
  lemma FrameStep(
    rows: seq<Result<seq<u8>, IoError>>, starts: seq<nat>, rowBytes: nat, dataOffset: nat, n: nat,
    empty: seq<u8>, image: seq<u8>)
    requires n < |starts| == |rows| && dataOffset <= |empty| && Apart(starts, rowBytes, |empty| - dataOffset)
    requires Framed(rows, starts, rowBytes, dataOffset, n, empty, image)
    requires rows[n].Ok? && |rows[n].value| == rowBytes
    ensures Framed(
      rows, starts, rowBytes, dataOffset, n + 1, empty, Overwrite(image, dataOffset + starts[n], rows[n].value))
  {
    var at := dataOffset + starts[n];
    var next := Overwrite(image, at, rows[n].value);
    OverwriteInside(image, at, rows[n].value);
    forall k | 0 <= k < n ensures rows[k] == Ok(next[dataOffset + starts[k]..dataOffset + starts[k] + rowBytes]) {
      var from := dataOffset + starts[k];
      assert next[from..from + rowBytes] == image[from..from + rowBytes];
    }
    forall p | 0 <= p < |next| && !InsideRow(starts, rowBytes, n + 1, p - dataOffset)
      ensures next[p] == empty[p]
    {
      assert !(starts[n] <= p - dataOffset < starts[n] + rowBytes);
      assert !InsideRow(starts, rowBytes, n, p - dataOffset);
    }
  }

  /** Entry k is the first, of the first n, that failed. */
  ghost predicate FirstFailed(rows: seq<Result<seq<u8>, IoError>>, n: nat, k: nat, e: IoError)
    requires n <= |rows|
  {
    && k < n && rows[k] == Err(e)
    && forall j :: 0 <= j < k ==> rows[j].Ok?
  }

  /** Writing the first n rows either framed them all or stopped at the first that failed. */
  ghost predicate FramedOrFailed(
    rows: seq<Result<seq<u8>, IoError>>, starts: seq<nat>, rowBytes: nat, dataOffset: nat, n: nat,
    empty: seq<u8>, outcome: Result<seq<u8>, IoError>)
    requires n <= |starts| == |rows| && dataOffset <= |empty| && Apart(starts, rowBytes, |empty| - dataOffset)
  {
    match outcome
    case Ok(image) => Framed(rows, starts, rowBytes, dataOffset, n, empty, image)
    case Err(e) => exists k :: FirstFailed(rows, n, k, e)
  }

  lemma FramedOrFailedStep(
    rows: seq<Result<seq<u8>, IoError>>, starts: seq<nat>, rowBytes: nat, dataOffset: nat, n: nat,
    empty: seq<u8>, before: Result<seq<u8>, IoError>, after: Result<seq<u8>, IoError>)
    requires n < |starts| == |rows| && dataOffset <= |empty| && Apart(starts, rowBytes, |empty| - dataOffset)
    requires FramedOrFailed(rows, starts, rowBytes, dataOffset, n, empty, before)
    requires rows[n].Ok? ==> |rows[n].value| == rowBytes
    requires before.Err? ==> after == before
    requires before.Ok? && rows[n].Err? ==> after == rows[n]
    requires before.Ok? && rows[n].Ok? ==> after == Ok(Overwrite(before.value, dataOffset + starts[n], rows[n].value))
    ensures FramedOrFailed(rows, starts, rowBytes, dataOffset, n + 1, empty, after)
  {
    if before.Err? {
      var k :| FirstFailed(rows, n, k, before.error);
      assert FirstFailed(rows, n + 1, k, before.error);
    } else if rows[n].Err? {
      forall j | 0 <= j < n ensures rows[j].Ok? {
      }
      assert FirstFailed(rows, n + 1, n, rows[n].error);
    } else {
      FrameStep(rows, starts, rowBytes, dataOffset, n, empty, before.value);
    }
  }

  /** The row writes either stop at the first unreadable row or frame all rows. */
  lemma {:induction false} RowsFramed(
    rows: seq<Result<seq<u8>, IoError>>, targets: seq<Result<u64, IoError>>, starts: seq<nat>, rowBytes: nat,
    dataOffset: nat, n: nat, empty: seq<u8>)
    requires n <= |rows| == |targets| == |starts| && dataOffset <= |empty| < U64_SPACE
    requires Apart(starts, rowBytes, |empty| - dataOffset)
    requires forall k :: 0 <= k < |rows| ==> targets[k] == Ok(dataOffset + starts[k])
    requires forall k :: 0 <= k < |rows| && rows[k].Ok? ==> |rows[k].value| == rowBytes
    ensures FramedOrFailed(
      rows, starts, rowBytes, dataOffset, n, empty, WriteRows(rows, targets, n, empty))
  {
    if n > 0 {
      RowsFramed(rows, targets, starts, rowBytes, dataOffset, n - 1, empty);
      FramedOrFailedStep(
        rows, starts, rowBytes, dataOffset, n - 1, empty,
        WriteRows(rows, targets, n - 1, empty), WriteRows(rows, targets, n, empty));
    }
  }

  lemma PlannedTargets(plan: LayoutPlan, starts: seq<nat>, size: nat, dataOffset: u64)
    requires Starts(plan, starts, size) && dataOffset + size < U64_SPACE
    ensures forall k :: 0 <= k < |starts| ==> Targets(plan, dataOffset)[k] == Ok(dataOffset + starts[k])
  {
    forall k | 0 <= k < |starts| ensures Targets(plan, dataOffset)[k] == Ok(dataOffset + starts[k]) {
      assert OverlayOffset(plan, plan.hotOverlayPlacements[k], WriteOffsetOverflow) == Ok(starts[k]);
    }
  }
}
