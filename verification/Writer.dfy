/** The hot-overlay sidecar writer. */
module Writer {
  import opened Machine
  import opened DivMod
  import opened PackFormat
  import opened DiskFormat
  import opened RowSources
  import opened Layout
  import opened Sorting

  datatype WriteReport = WriteReport(
    hotRows: u64, indexOffset: u64, indexBytes: u64, overlayBytes: u64, fileBytes: u64)

  /** A successful write: the report and the complete bytes of the published file. */
  datatype Sidecar = Sidecar(report: WriteReport, header: DiskHeader, image: seq<u8>)

  // ----- files

  function Zeros(n: nat): seq<u8> {
    seq(n, _ => 0)
  }

  /** A positioned write: overwrites in place and extends the file, zero-filled, when it must. */
  function Overwrite(s: seq<u8>, at: nat, data: seq<u8>): seq<u8> {
    if at + |data| <= |s| then s[..at] + data + s[at + |data|..]
    else if at <= |s| then s[..at] + data
    else s + Zeros(at - |s|) + data
  }

  /** After a positioned write anywhere: the data is there, what it did not cover is as before, and a gap
      past the old end is zero. */
  lemma OverwriteAnywhere(s: seq<u8>, at: nat, data: seq<u8>)
    ensures var r := Overwrite(s, at, data);
      && |r| == (if at + |data| <= |s| then |s| else at + |data|)
      && r[at..at + |data|] == data
      && (forall p :: 0 <= p < |s| && !(at <= p < at + |data|) ==> r[p] == s[p])
      && (forall p :: |s| <= p < at ==> r[p] == 0)
  {
  }

  class TempFile {
    var bytes: seq<u8>
    var cursor: nat

    constructor ()
      ensures bytes == [] && cursor == 0
    {
      bytes, cursor := [], 0;
    }

    method SetLen(n: nat)
      modifies this`bytes
      ensures bytes == if n <= |old(bytes)| then old(bytes)[..n] else old(bytes) + Zeros(n - |old(bytes)|)
    {
      bytes := if n <= |bytes| then bytes[..n] else bytes + Zeros(n - |bytes|);
    }

    method Seek(at: nat)
      modifies this`cursor
      ensures cursor == at
    {
      cursor := at;
    }

    method WriteAll(data: seq<u8>)
      modifies this
      ensures bytes == Overwrite(old(bytes), old(cursor), data)
      ensures cursor == old(cursor) + |data|
    {
      bytes, cursor := Overwrite(bytes, cursor, data), cursor + |data|;
    }
  }

  /** A path in the filesystem: the file published under it, if any. */
  class SidecarPath {
    var published: Option<seq<u8>>

    constructor ()
      ensures published == None
    {
      published := None;
    }
  }

  // ----- pure checks

  function ValidateSourcePlan(source: RowSource, plan: LayoutPlan): (r: Result<(), IoError>)
    ensures r.Ok? <==> source.rowCount == plan.rowCount > 0 && source.rowBytes == plan.rowBytes > 0
    ensures source.rowCount == plan.rowCount && source.rowBytes == plan.rowBytes && r.Err? ==>
            r == Err(Format(SourceGeometryEmpty))
  {
    if source.rowCount != plan.rowCount then Err(Format(SourcePlanRowCountsDiffer))
    else if source.rowBytes != plan.rowBytes then Err(Format(SourcePlanRowWidthsDiffer))
    else if source.rowCount == 0 || source.rowBytes == 0 then Err(Format(SourceGeometryEmpty))
    else Ok(())
  }

  function OverlayOffset(plan: LayoutPlan, p: HotOverlayPlacement, fault: FormatFault): Result<u64, IoError> {
    var base :- MulOr(p.blockId, plan.blockBytes, Format(fault));
    AddOr(base, p.offsetInBlock, Format(fault))
  }

  function OverlayStorageBytes(plan: LayoutPlan): Result<u64, IoError> {
    var n := |plan.hotOverlayPlacements|;
    if n == 0 then Ok(0) else
    var blocks :- AddOr(plan.hotOverlayPlacements[n - 1].blockId, 1, Format(OverlayStorageOverflow));
    MulOr(blocks, plan.blockBytes, Format(OverlayStorageOverflow))
  }

  /** The least multiple of `alignment` not below `value`; an error exactly when none fits u64. */
  function AlignUp(value: u64, alignment: u64): (r: Result<u64, IoError>)
    ensures alignment == 0 ==> r == Err(Format(ZeroAlignment))
    ensures r.Ok? ==> alignment > 0 && value <= r.value < value + alignment && r.value % alignment == 0
    ensures alignment > 0 && value + alignment <= U64_SPACE ==> r.Ok?
    ensures alignment > 0 && r.Err? ==>
            r.error == Format(AlignmentOverflow) && value + (alignment - value % alignment) >= U64_SPACE
            && value % alignment > 0
  {
    if alignment == 0 then Err(Format(ZeroAlignment)) else
    var remainder := value % alignment;
    DivModSum(value, alignment);
    MulNext(value / alignment, alignment);
    if remainder == 0 then Ok(value) else
    var q := value / alignment;
    DivUnique(value + (alignment - remainder), alignment, q + 1, 0);
    AddOr(value, alignment - remainder, Format(AlignmentOverflow))
  }

  // ----- specification

  /** Index entries of the first k placements, in physical order. */
  function EntriesUpTo(plan: LayoutPlan, k: nat): (r: Result<seq<IndexEntry>, IoError>)
    requires k <= |plan.hotOverlayPlacements|
    ensures r.Ok? ==> |r.value| == k
  {
    if k == 0 then Ok([]) else
    var front :- EntriesUpTo(plan, k - 1);
    var p := plan.hotOverlayPlacements[k - 1];
    var offset :- OverlayOffset(plan, p, OverlayOffsetOverflow);
    Ok(front + [IndexEntry(p.logicalRow, offset)])
  }

  predicate ByRow(a: IndexEntry, b: IndexEntry) {
    a.logicalRow <= b.logicalRow
  }

  predicate RowsStrictlyAscend(entries: seq<IndexEntry>) {
    forall i :: 0 < i < |entries| ==> entries[i - 1].logicalRow < entries[i].logicalRow
  }

  function Payload(entries: seq<IndexEntry>): (bytes: seq<u8>)
    ensures |bytes| == |entries| * 12
  {
    if entries == [] then []
    else Payload(entries[..|entries| - 1]) + EntryBytes(entries[|entries| - 1])
  }

  /** Header of the file to be written, or the reason there can be none. */
  function PlanHeader(sha: Sha256, source: RowSource, plan: LayoutPlan, entries: seq<IndexEntry>)
    : (r: Result<DiskHeader, IoError>)
    ensures r.Ok? ==> r.value.Valid() && r.value.dataOffset + r.value.overlayBytes < U64_SPACE
  {
    if |entries| * 12 >= U64_SPACE then Err(Format(IndexAllocationOverflow)) else
    var payload := Payload(entries);
    var indexBytes := |payload|;
    var indexEnd :- AddOr(DISK_HEADER_BYTES, indexBytes, Format(WriterIndexEndOverflow));
    var dataOffset :- AlignUp(indexEnd, plan.blockBytes);
    var overlayBytes :- OverlayStorageBytes(plan);
    match NewPackHeader(source.digest, source.rowCount, source.rowBytes, plan.blockBytes, sha(payload))
    case Err(e) => Err(Layout(e))
    case Ok(logical) =>
      match NewDiskHeader(logical, |entries|, indexBytes, dataOffset, overlayBytes)
      case Err(e) => Err(e)
      case Ok(disk) =>
        if dataOffset + overlayBytes >= U64_SPACE then Err(Format(FileSizeOverflow)) else Ok(disk)
  }

  /** The file before any row is written: header, index, zeros. */
  function EmptyImage(disk: DiskHeader, entries: seq<IndexEntry>): seq<u8> {
    Overwrite(
      Overwrite(Zeros(disk.dataOffset + disk.overlayBytes), 0, HeaderBytes(disk)),
      DISK_HEADER_BYTES, Payload(entries))
  }

  /** What the source returns for the row of one placement. */
  function HotRow(source: RowSource, p: HotOverlayPlacement): Result<seq<u8>, IoError> {
    source.read(p.logicalRow, source.rowBytes)
  }

  function HotRows(source: RowSource, plan: LayoutPlan): (rows: seq<Result<seq<u8>, IoError>>)
    ensures |rows| == |plan.hotOverlayPlacements|
  {
    seq(|plan.hotOverlayPlacements|, k requires 0 <= k < |plan.hotOverlayPlacements| =>
      HotRow(source, plan.hotOverlayPlacements[k]))
  }

  /** Where in the file the row of one placement goes. */
  function Target(plan: LayoutPlan, dataOffset: u64, p: HotOverlayPlacement): Result<u64, IoError> {
    var offset :- OverlayOffset(plan, p, WriteOffsetOverflow);
    AddOr(dataOffset, offset, Format(WriteAbsoluteOffsetOverflow))
  }

  function Targets(plan: LayoutPlan, dataOffset: u64): (targets: seq<Result<u64, IoError>>)
    ensures |targets| == |plan.hotOverlayPlacements|
  {
    seq(|plan.hotOverlayPlacements|, k requires 0 <= k < |plan.hotOverlayPlacements| =>
      Target(plan, dataOffset, plan.hotOverlayPlacements[k]))
  }

  /** Write one row into the image, unless it could not be read or has no place. */
  function WriteRow(row: Result<seq<u8>, IoError>, target: Result<u64, IoError>, image: seq<u8>)
    : Result<seq<u8>, IoError>
  {
    var bytes :- row;
    var at :- target;
    Ok(Overwrite(image, at, bytes))
  }

  /** Write the first n rows, in physical order. */
  function WriteRows(
    rows: seq<Result<seq<u8>, IoError>>, targets: seq<Result<u64, IoError>>, n: nat, image: seq<u8>)
    : Result<seq<u8>, IoError>
    requires n <= |rows| == |targets|
  {
    if n == 0 then Ok(image) else
    var written :- WriteRows(rows, targets, n - 1, image);
    WriteRow(rows[n - 1], targets[n - 1], written)
  }

  function SortedEntries(plan: LayoutPlan): Result<seq<IndexEntry>, IoError> {
    var entries :- EntriesUpTo(plan, |plan.hotOverlayPlacements|);
    var sorted := SortBy(ByRow, entries);
    if !RowsStrictlyAscend(sorted) then Err(Format(OverlayRowsNotUnique)) else Ok(sorted)
  }

  /** The outcome of a write for any source and any plan, planned or not. */
  function WriteOutcome(sha: Sha256, source: RowSource, plan: LayoutPlan): Result<Sidecar, IoError> {
    var _ :- ValidateSourcePlan(source, plan);
    var entries :- SortedEntries(plan);
    var disk :- PlanHeader(sha, source, plan, entries);
    var image :- WriteRows(
      HotRows(source, plan), Targets(plan, disk.dataOffset), |plan.hotOverlayPlacements|,
      EmptyImage(disk, entries));
    Ok(SidecarOf(disk, image))
  }

  function SidecarOf(disk: DiskHeader, image: seq<u8>): Sidecar
    requires disk.dataOffset + disk.overlayBytes < U64_SPACE
  {
    Sidecar(
      WriteReport(
        disk.hotRowCount, DISK_HEADER_BYTES, disk.indexBytes, disk.overlayBytes,
        disk.dataOffset + disk.overlayBytes),
      disk, image)
  }

  // ----- the writer

  method BuildEntries(plan: LayoutPlan) returns (r: Result<seq<IndexEntry>, IoError>)
    ensures r == SortedEntries(plan)
  {
    var entries: seq<IndexEntry> := [];
    var k := 0;
    while k < |plan.hotOverlayPlacements|
      invariant 0 <= k <= |plan.hotOverlayPlacements|
      invariant EntriesUpTo(plan, k) == Ok(entries)
    {
      var p := plan.hotOverlayPlacements[k];
      match OverlayOffset(plan, p, OverlayOffsetOverflow) {
        case Err(e) =>
          EntriesFail(plan, k + 1, |plan.hotOverlayPlacements|);
          return Err(e);
        case Ok(offset) =>
          entries := entries + [IndexEntry(p.logicalRow, offset)];
      }
      k := k + 1;
    }
    entries := SortBy(ByRow, entries);
    var i := 1;
    while i < |entries|
      invariant 1 <= i
      invariant forall j :: 0 < j < i && j < |entries| ==> entries[j - 1].logicalRow < entries[j].logicalRow
    {
      if entries[i - 1].logicalRow >= entries[i].logicalRow {
        return Err(Format(OverlayRowsNotUnique));
      }
      i := i + 1;
    }
    return Ok(entries);
  }

  lemma {:induction false} EntriesFail(plan: LayoutPlan, k: nat, n: nat)
    requires k <= n <= |plan.hotOverlayPlacements|
    requires EntriesUpTo(plan, k).Err?
    ensures EntriesUpTo(plan, n) == EntriesUpTo(plan, k)
  {
    if k < n {
      EntriesFail(plan, k, n - 1);
    }
  }

  lemma {:induction false} WritesFail(
    rows: seq<Result<seq<u8>, IoError>>, targets: seq<Result<u64, IoError>>, k: nat, n: nat, image: seq<u8>)
    requires k <= n <= |rows| == |targets|
    requires WriteRows(rows, targets, k, image).Err?
    ensures WriteRows(rows, targets, n, image) == WriteRows(rows, targets, k, image)
  {
    if k < n {
      WritesFail(rows, targets, k, n - 1, image);
    }
  }

  method SerializeIndex(entries: seq<IndexEntry>) returns (payload: seq<u8>)
    ensures payload == Payload(entries)
  {
    payload := [];
    for i := 0 to |entries|
      invariant payload == Payload(entries[..i])
    {
      var bytes := EncodeIndexEntry(entries[i]);
      payload := payload + bytes[..];
      assert entries[..i + 1][..i] == entries[..i];
    }
    assert entries[..|entries|] == entries;
  }

  /** Read one hot row into the buffer and write it at its place. */
  method WriteOneRow(
    file: TempFile, source: RowSource, plan: LayoutPlan, dataOffset: u64, p: HotOverlayPlacement, row: array<u8>)
    returns (r: Result<(), IoError>)
    requires row.Length == source.rowBytes
    modifies file, row
    ensures match WriteRow(HotRow(source, p), Target(plan, dataOffset, p), old(file.bytes))
            case Err(e) => r == Err(e)
            case Ok(image) => r == Ok(()) && file.bytes == image
  {
    var read := ReadInto(source, p.logicalRow, row);
    if read.Err? {
      return Err(read.error);
    }
    var offset := OverlayOffset(plan, p, WriteOffsetOverflow);
    if offset.Err? {
      return Err(offset.error);
    }
    var absolute := AddOr(dataOffset, offset.value, Format(WriteAbsoluteOffsetOverflow));
    if absolute.Err? {
      return Err(absolute.error);
    }
    file.Seek(absolute.value);
    file.WriteAll(row[..]);
    return Ok(());
  }

  /** Write every hot row at its place, reusing one row buffer. */
  method WriteHotRows(file: TempFile, source: RowSource, plan: LayoutPlan, dataOffset: u64)
    returns (r: Result<(), IoError>)
    modifies file
    ensures match WriteRows(
              HotRows(source, plan), Targets(plan, dataOffset), |plan.hotOverlayPlacements|, old(file.bytes))
            case Err(e) => r == Err(e)
            case Ok(image) => r == Ok(()) && file.bytes == image
  {
    ghost var rows, targets, empty := HotRows(source, plan), Targets(plan, dataOffset), file.bytes;
    var row := new u8[source.rowBytes](_ => 0);
    var n := |plan.hotOverlayPlacements|;
    for k := 0 to n
      invariant WriteRows(rows, targets, k, empty) == Ok(file.bytes)
    {
      var written := WriteOneRow(file, source, plan, dataOffset, plan.hotOverlayPlacements[k], row);
      if written.Err? {
        WritesFail(rows, targets, k + 1, n, empty);
        return written;
      }
    }
    return Ok(());
  }

  /** A temporary file of the final length holding the header and the index. */
  method CreateTempFile(disk: DiskHeader, payload: seq<u8>, ghost entries: seq<IndexEntry>)
    returns (file: TempFile)
    requires payload == Payload(entries)
    ensures fresh(file) && file.bytes == EmptyImage(disk, entries)
  {
    var header := EncodeHeader(disk);
    file := new TempFile();
    file.SetLen(disk.dataOffset + disk.overlayBytes);
    assert file.bytes == Zeros(disk.dataOffset + disk.overlayBytes);
    file.Seek(0);
    file.WriteAll(header[..]);
    file.Seek(DISK_HEADER_BYTES);
    file.WriteAll(payload);
  }

  /** Build a sidecar in a temporary file and publish it at `path` only when it is complete. */
  method WriteOverlay(sha: Sha256, path: SidecarPath, source: RowSource, plan: LayoutPlan)
    returns (r: Result<WriteReport, IoError>)
    modifies path
    ensures match WriteOutcome(sha, source, plan)
            case Err(e) => r == Err(e) && path.published == old(path.published)
            case Ok(sidecar) => r == Ok(sidecar.report) && path.published == Some(sidecar.image)
  {
    var valid := ValidateSourcePlan(source, plan);
    if valid.Err? {
      return Err(valid.error);
    }
    var built := BuildEntries(plan);
    if built.Err? {
      return Err(built.error);
    }
    var entries := built.value;
    var payload := SerializeIndex(entries);
    var planned := PlanHeader(sha, source, plan, entries);
    if planned.Err? {
      return Err(planned.error);
    }
    var disk := planned.value;
    var file := CreateTempFile(disk, payload, entries);
    var rows := WriteHotRows(file, source, plan, disk.dataOffset);
    if rows.Err? {
      return Err(rows.error);
    }
    path.published := Some(file.bytes);
    return Ok(WriteReport(
      disk.hotRowCount, DISK_HEADER_BYTES, disk.indexBytes, disk.overlayBytes,
      disk.dataOffset + disk.overlayBytes));
  }
}
