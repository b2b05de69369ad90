/** End-to-end theorems about planning, writing, opening, reading and verifying a hot overlay. */
module Exactness {
  import opened Machine
  import opened DivMod
  import opened Sequences
  import opened PackFormat
  import opened DiskFormat
  import opened RowSources
  import opened Layout
  import opened LayoutTheorems
  import opened Writer
  import opened WriterTheorems
  import opened Reader

  // ----- verification of any accepted sidecar

  /** Row `row` is served exactly as the immutable source serves it, error or bytes. */
  ghost predicate ServedExactly(rd: PlePackReader, row: u32)
    requires rd.Valid()
  {
    rd.ReadOutcome(row, rd.header.rowBytes) == rd.source.read(row, rd.header.rowBytes)
  }

  /** The verdict on entry k is good exactly when the row it names is served exactly. */
  lemma VerdictMeansServed(rd: PlePackReader, k: nat)
    requires rd.Valid() && k < rd.hotRowCount
    ensures rd.VerifyEntry(k).Ok? <==> ServedExactly(rd, rd.Entries()[k].logicalRow)
  {
    EntriesReadable(rd, k);
    ScanHits(rd.Entries(), k);
  }

  lemma {:induction false} ScanNames(entries: seq<IndexEntry>, row: u32) returns (k: nat)
    requires Scan(entries, row).Some?
    ensures k < |entries| && entries[k].logicalRow == row
  {
    if entries[0].logicalRow == row {
      k := 0;
    } else {
      var j := ScanNames(entries[1..], row);
      k := j + 1;
    }
  }

  /** Verification is sound and complete on every accepted byte string and every source: it succeeds
      exactly when every logical row is served as the source serves it. */
  lemma VerificationIsExact(rd: PlePackReader)
    requires rd.Valid()
    ensures FirstError(rd.Verdicts()) == None <==>
            forall row: u32 :: row < rd.header.rowCount ==> ServedExactly(rd, row)
  {
    if FirstError(rd.Verdicts()) == None {
      forall row: u32 | row < rd.header.rowCount ensures ServedExactly(rd, row) {
        if Scan(rd.Entries(), row).Some? {
          var k := ScanNames(rd.Entries(), row);
          VerdictMeansServed(rd, k);
          assert rd.Verdicts()[k].Ok?;
        }
      }
    }
    if forall row: u32 :: row < rd.header.rowCount ==> ServedExactly(rd, row) {
      forall k | 0 <= k < rd.hotRowCount ensures rd.Verdicts()[k].Ok? {
        VerdictMeansServed(rd, k);
        EntriesReadable(rd, k);
      }
    }
  }

  /** A reported mismatch names a hot row that is not served exactly, and the least such row. */
  lemma MismatchNamesLeastRow(rd: PlePackReader, bad: u32)
    requires rd.Valid() && FirstError(rd.Verdicts()) == Some(OverlayDataMismatch(bad))
    requires forall k :: 0 <= k < rd.hotRowCount ==> rd.source.read(rd.Entries()[k].logicalRow, rd.header.rowBytes).Ok?
    ensures rd.Hot(bad) && !ServedExactly(rd, bad)
    ensures forall row: u32 :: row < bad && row < rd.header.rowCount ==> ServedExactly(rd, row)
  {
    var verdicts, entries := rd.Verdicts(), rd.Entries();
    var k := FirstErrorIndex(verdicts);
    EntriesReadable(rd, k);
    assert verdicts[k] == rd.VerifyEntry(k);
    assert entries[k].logicalRow == bad;
    VerdictMeansServed(rd, k);
    ScanHits(entries, k);
    forall row: u32 | row < bad && row < rd.header.rowCount ensures ServedExactly(rd, row) {
      if Scan(entries, row).Some? {
        var j := ScanNames(entries, row);
        assert j < k;
        assert verdicts[j].Ok?;
        VerdictMeansServed(rd, j);
      }
    }
  }

  lemma {:induction false} FirstErrorIndex(verdicts: seq<Result<(), IoError>>) returns (k: nat)
    requires FirstError(verdicts).Some?
    ensures k < |verdicts| && verdicts[k] == Err(FirstError(verdicts).value)
    ensures forall j :: 0 <= j < k ==> verdicts[j].Ok?
  {
    if verdicts[0].Err? {
      k := 0;
    } else {
      var j := FirstErrorIndex(verdicts[1..]);
      k := j + 1;
    }
  }

  // ----- what opening accepts

  /** A sidecar for this source: an encoded valid header that matches it, and an index that fits. */
  ghost predicate SidecarFor(sha: Sha256, mmap: Mapping, source: RowSource, disk: DiskHeader) {
    && disk.Valid() && HeaderMatches(sha, mmap, source, disk)
    && mmap[..128] == HeaderBytes(disk)
    && IndexFits(EntriesIn(IndexOfFile(mmap, disk), disk.hotRowCount), disk.logical, disk.overlayBytes)
  }

  function IndexOfFile(mmap: Mapping, disk: DiskHeader): (index: seq<u8>)
    requires 128 + disk.hotRowCount * 12 <= |mmap|
    ensures |index| == disk.hotRowCount * 12
  {
    mmap[128..128 + disk.hotRowCount * 12]
  }

  /** Scanning the index of a matching header accepts exactly fitting indexes. */
  lemma ScanOutcome(mmap: Mapping, source: RowSource, disk: DiskHeader)
    requires disk.Valid() && disk.dataOffset + disk.overlayBytes == |mmap|
    requires disk.logical.rowCount == source.rowCount && disk.logical.rowBytes == source.rowBytes
    ensures var r := ScanIndex(mmap, source, disk);
      && (r.Ok? ==> r == Ok(ReaderOf(mmap, source, disk)))
      && (r.Ok? <==>
            IndexFits(EntriesIn(IndexOfFile(mmap, disk), disk.hotRowCount), disk.logical, disk.overlayBytes))
  {
    ValidationAccepts(IndexOfFile(mmap, disk), disk.hotRowCount, disk);
  }

  lemma OpenedHeader(sha: Sha256, mmap: Mapping, source: RowSource) returns (disk: DiskHeader)
    requires CheckSidecar(sha, mmap, source).Ok?
    ensures CheckSidecar(sha, mmap, source) == Ok(disk) && disk.Valid() && HeaderMatches(sha, mmap, source, disk)
    ensures mmap[..128] == HeaderBytes(disk)
  {
    EncodeDecodedHeader(mmap);
    disk := DecodeHeader(mmap).value;
  }

  lemma MatchingHeaderChecks(sha: Sha256, mmap: Mapping, source: RowSource, disk: DiskHeader)
    requires disk.Valid() && |mmap| >= 128 && mmap[..128] == HeaderBytes(disk)
    ensures CheckSidecar(sha, mmap, source) == CheckHeader(sha, mmap, source, disk)
  {
    DecodeEncodedHeader(disk, mmap);
  }

  /** Opening accepts exactly the sidecars for its source, and yields what their header says. */
  lemma OpensExactly(sha: Sha256, mmap: Mapping, source: RowSource, rd: PlePackReader)
    ensures OpenOutcome(sha, mmap, source) == Ok(rd) <==>
            exists disk :: SidecarFor(sha, mmap, source, disk) && rd == PlePackReader(
              mmap, source, disk.logical, disk.hotRowCount, 128, disk.dataOffset, disk.overlayBytes)
  {
    if OpenOutcome(sha, mmap, source) == Ok(rd) {
      var disk := OpenedHeader(sha, mmap, source);
      ScanOutcome(mmap, source, disk);
    }
    if disk :| SidecarFor(sha, mmap, source, disk) && rd == PlePackReader(
        mmap, source, disk.logical, disk.hotRowCount, 128, disk.dataOffset, disk.overlayBytes) {
      SidecarOpens(sha, mmap, source, disk);
    }
  }

  lemma SidecarOpens(sha: Sha256, mmap: Mapping, source: RowSource, disk: DiskHeader)
    requires SidecarFor(sha, mmap, source, disk)
    ensures OpenOutcome(sha, mmap, source) == Ok(ReaderOf(mmap, source, disk))
  {
    MatchingHeaderChecks(sha, mmap, source, disk);
    ScanOutcome(mmap, source, disk);
  }

  /** Why a file is refused: the first of these that applies, and no other reason precedes it. */
  lemma OpenRefusals(sha: Sha256, mmap: Mapping, source: RowSource, disk: DiskHeader)
    requires disk.Valid() && |mmap| >= 128 && mmap[..128] == HeaderBytes(disk)
    ensures var r, header := OpenOutcome(sha, mmap, source), disk.logical;
      if header.sourceDigest != source.digest then r == Err(SourceDigestMismatch)
      else if header.rowCount != source.rowCount then r == Err(Format(SidecarRowCountsDiffer))
      else if header.rowBytes != source.rowBytes then r == Err(Format(SidecarRowWidthsDiffer))
      else if disk.dataOffset + disk.overlayBytes >= U64_SPACE then r == Err(Format(FileLengthOverflow))
      else if |mmap| != disk.dataOffset + disk.overlayBytes then r == Err(Format(FileLengthMismatch))
      else if header.indexDigest != sha(IndexOfFile(mmap, disk)) then r == Err(IndexDigestMismatch)
      else r.Err? <==> !SidecarFor(sha, mmap, source, disk)
  {
    MatchingHeaderChecks(sha, mmap, source, disk);
    if HeaderMatches(sha, mmap, source, disk) {
      ScanOutcome(mmap, source, disk);
    }
  }

  // ----- what a write produces

  /** The file before its rows are written: header, index, zeros. */
  lemma EmptyImageContents(disk: DiskHeader, entries: seq<IndexEntry>)
    requires disk.Valid() && disk.indexBytes == |entries| * 12
    ensures var image := EmptyImage(disk, entries);
      var indexEnd := 128 + |entries| * 12;
      && |image| == disk.dataOffset + disk.overlayBytes
      && indexEnd <= disk.dataOffset
      && image[..128] == HeaderBytes(disk)
      && image[128..indexEnd] == Payload(entries)
      && forall p :: indexEnd <= p < |image| ==> image[p] == 0
  {
    var zeros := Zeros(disk.dataOffset + disk.overlayBytes);
    var headed := Overwrite(zeros, 0, HeaderBytes(disk));
    OverwriteInside(zeros, 0, HeaderBytes(disk));
    OverwriteInside(headed, 128, Payload(entries));
    assert EmptyImage(disk, entries)[..128] == headed[..128] == headed[0..128];
  }

  lemma WriteSteps(sha: Sha256, source: RowSource, plan: LayoutPlan, entries: seq<IndexEntry>)
    requires Matches(source, plan) && plan.rowCount > 0 && plan.rowBytes > 0
    requires SortedEntries(plan) == Ok(entries)
    ensures WriteOutcome(sha, source, plan) ==
      match PlanHeader(sha, source, plan, entries)
      case Err(e) => Err(e)
      case Ok(disk) =>
        match WriteRows(
          HotRows(source, plan), Targets(plan, disk.dataOffset), |plan.hotOverlayPlacements|, EmptyImage(disk, entries))
        case Err(e) => Err(e)
        case Ok(image) => Ok(SidecarOf(disk, image))
  {
  }

  /** The rows of a planned layout are framed, or the first unreadable one stops the write. */
  lemma PlannedRowsFramed(source: RowSource, plan: LayoutPlan, trace: Trace, dataOffset: u64, empty: seq<u8>)
    requires Planned(plan, trace) && source.rowBytes == plan.rowBytes
    requires dataOffset + OverlaySize(plan) == |empty| < U64_SPACE
    ensures |RowStarts(plan)| == |HotRows(source, plan)|
    ensures Apart(RowStarts(plan), plan.rowBytes, |empty| - dataOffset)
    ensures FramedOrFailed(
      HotRows(source, plan), RowStarts(plan), plan.rowBytes, dataOffset, |plan.hotOverlayPlacements|, empty,
      WriteRows(HotRows(source, plan), Targets(plan, dataOffset), |plan.hotOverlayPlacements|, empty))
  {
    var starts, size := RowStarts(plan), OverlaySize(plan);
    PlannedStarts(plan, trace);
    PlannedTargets(plan, starts, size, dataOffset);
    RowsFramed(
      HotRows(source, plan), Targets(plan, dataOffset), starts, plan.rowBytes, dataOffset,
      |plan.hotOverlayPlacements|, empty);
  }

  /** The header, the index and every row of a planned layout, framed in an otherwise zero file. */
  ghost predicate HoldsPlan(sha: Sha256, source: RowSource, plan: LayoutPlan, entries: seq<IndexEntry>, sidecar: Sidecar)
    requires 0 < plan.rowBytes <= plan.blockBytes && |entries| == |plan.hotPhysicalOrder| <= U32_SPACE
    requires DataStart(plan) + OverlaySize(plan) < U64_SPACE
  {
    var disk := HeaderFor(sha, source, plan, entries, DataStart(plan), OverlaySize(plan));
    var rows, starts, empty := HotRows(source, plan), RowStarts(plan), EmptyImage(disk, entries);
    && disk.Valid()
    && sidecar == SidecarOf(disk, sidecar.image)
    && |rows| == |starts|
    && DataStart(plan) <= |empty|
    && Apart(starts, plan.rowBytes, |empty| - DataStart(plan))
    && Framed(rows, starts, plan.rowBytes, DataStart(plan), |rows|, empty, sidecar.image)
  }

  /** A planned write fails only when the source has other rows than planned, when the file would not
      fit u64, or at the first hot row the source cannot read; otherwise it produces the header, the
      sorted index and every row, framed. */
  lemma PlannedWrite(sha: Sha256, source: RowSource, plan: LayoutPlan, trace: Trace, entries: seq<IndexEntry>)
    requires Planned(plan, trace) && SortedEntries(plan) == Ok(entries)
    ensures |entries| == |plan.hotPhysicalOrder| <= U32_SPACE
    ensures var total := DataStart(plan) + OverlaySize(plan);
      match WriteOutcome(sha, source, plan)
      case Err(e) =>
        if source.rowCount != plan.rowCount then e == Format(SourcePlanRowCountsDiffer)
        else if source.rowBytes != plan.rowBytes then e == Format(SourcePlanRowWidthsDiffer)
        else if total >= U64_SPACE then e == Format(FileSizeOverflow)
        else exists k :: FirstFailed(HotRows(source, plan), |HotRows(source, plan)|, k, e)
      case Ok(sidecar) =>
        Matches(source, plan) && total < U64_SPACE && HoldsPlan(sha, source, plan, entries, sidecar)
  {
    PlannedIndex(plan, trace);
    if Matches(source, plan) {
      MatchedWrite(sha, source, plan, trace, entries);
    } else {
      HotRowsDistinct(plan, trace);
    }
  }

  lemma MatchedWrite(sha: Sha256, source: RowSource, plan: LayoutPlan, trace: Trace, entries: seq<IndexEntry>)
    requires Planned(plan, trace) && SortedEntries(plan) == Ok(entries) && Matches(source, plan)
    requires |entries| == |plan.hotPhysicalOrder|
    ensures |entries| <= U32_SPACE
    ensures var total := DataStart(plan) + OverlaySize(plan);
      match WriteOutcome(sha, source, plan)
      case Err(e) =>
        if total >= U64_SPACE then e == Format(FileSizeOverflow)
        else exists k :: FirstFailed(HotRows(source, plan), |HotRows(source, plan)|, k, e)
      case Ok(sidecar) => total < U64_SPACE && HoldsPlan(sha, source, plan, entries, sidecar)
  {
    HotRowsDistinct(plan, trace);
    WriteSteps(sha, source, plan, entries);
    PlannedHeader(sha, source, plan, trace, entries);
    if DataStart(plan) + OverlaySize(plan) < U64_SPACE {
      var disk := HeaderFor(sha, source, plan, entries, DataStart(plan), OverlaySize(plan));
      assert PlanHeader(sha, source, plan, entries) == Ok(disk);
      EmptyImageContents(disk, entries);
      PlannedRowsFramed(source, plan, trace, DataStart(plan), EmptyImage(disk, entries));
    }
  }

  // ----- what opening a written sidecar yields

  lemma {:induction false} PayloadEntry(entries: seq<IndexEntry>, k: nat)
    requires k < |entries|
    ensures Payload(entries)[k * 12..(k + 1) * 12] == EntryBytes(entries[k])
  {
    var n := |entries| - 1;
    var front := Payload(entries[..n]);
    assert Payload(entries) == front + EntryBytes(entries[n]);
    if k < n {
      PayloadEntry(entries[..n], k);
      assert Payload(entries)[k * 12..(k + 1) * 12] == front[k * 12..(k + 1) * 12];
    }
  }

  /** Decoding a serialized index gives its entries back. */
  lemma PayloadDecodes(entries: seq<IndexEntry>)
    ensures EntriesIn(Payload(entries), |entries|) == entries
  {
    forall k | 0 <= k < |entries| ensures EntriesIn(Payload(entries), |entries|)[k] == entries[k] {
      EntriesInAt(Payload(entries), |entries|, k);
      PayloadEntry(entries, k);
      IndexEntryCodec(entries[k], EntryBytes(entries[k]));
    }
  }

  lemma FramedPrefix(
    rows: seq<Result<seq<u8>, IoError>>, starts: seq<nat>, rowBytes: nat, dataOffset: nat, n: nat,
    empty: seq<u8>, image: seq<u8>)
    requires n <= |starts| == |rows| && dataOffset <= |empty| && Apart(starts, rowBytes, |empty| - dataOffset)
    requires Framed(rows, starts, rowBytes, dataOffset, n, empty, image)
    ensures image[..dataOffset] == empty[..dataOffset]
  {
    forall p | 0 <= p < dataOffset ensures image[p] == empty[p] {
      assert !InsideRow(starts, rowBytes, n, p - dataOffset);
    }
  }

  /** The image starts with an encoded valid header that matches the source, then the payload. */
  ghost predicate WellFormedImage(
    sha: Sha256, image: Mapping, source: RowSource, disk: DiskHeader, payload: seq<u8>)
  {
    && disk.Valid() && HeaderMatches(sha, image, source, disk)
    && image[..128] == HeaderBytes(disk) && IndexOfFile(image, disk) == payload
  }

  /** A well-formed image whose index decodes to fitting entries opens to exactly those. */
  lemma OpensTo(
    sha: Sha256, image: Mapping, source: RowSource, disk: DiskHeader, payload: seq<u8>, entries: seq<IndexEntry>)
    requires WellFormedImage(sha, image, source, disk, payload)
    requires disk.hotRowCount == |entries| && |payload| == |entries| * 12
    requires EntriesIn(payload, |entries|) == entries
    requires IndexFits(entries, disk.logical, disk.overlayBytes)
    ensures OpenOutcome(sha, image, source) == Ok(ReaderOf(image, source, disk))
    ensures ReaderOf(image, source, disk).Entries() == entries
  {
    SidecarOpens(sha, image, source, disk);
    ReaderEntries(image, source, disk);
  }

  lemma ReaderEntries(image: Mapping, source: RowSource, disk: DiskHeader)
    requires 128 + disk.hotRowCount * 12 <= |image|
    ensures ReaderOf(image, source, disk).Entries() == EntriesIn(IndexOfFile(image, disk), disk.hotRowCount)
  {
  }

  lemma PlannedIndexFits(plan: LayoutPlan, trace: Trace, entries: seq<IndexEntry>, disk: DiskHeader)
    requires Planned(plan, trace) && SortedEntries(plan) == Ok(entries)
    requires disk.logical.rowCount == plan.rowCount
    requires disk.logical.rowBytes == plan.rowBytes && disk.logical.blockBytes == plan.blockBytes
    requires disk.overlayBytes == OverlaySize(plan)
    ensures IndexFits(entries, disk.logical, disk.overlayBytes)
  {
    PlannedIndex(plan, trace);
    PlannedStarts(plan, trace);
    var starts := RowStarts(plan);
    forall j: nat | j < |entries|
      ensures EntryFits(entries[j], disk.logical, disk.overlayBytes) && StaysInBlock(entries, j, disk.logical)
    {
      assert entries[j] in entries;
      var k :| 0 <= k < |starts| && entries[j] == EntryAt(plan, starts, k);
      assert plan.hotPhysicalOrder[k] in plan.hotPhysicalOrder;
    }
  }

  lemma PrefixOfImage(a: seq<u8>, b: seq<u8>, n: nat, from: nat, to: nat)
    requires from <= to <= n <= |a| && n <= |b| && a[..n] == b[..n]
    ensures a[from..to] == b[from..to]
  {
    assert a[from..to] == a[..n][from..to];
    assert b[from..to] == b[..n][from..to];
  }

  /** An image that agrees with the empty one up to the data region holds the header and the index. */
  lemma FrontOfImage(disk: DiskHeader, entries: seq<IndexEntry>, image: seq<u8>)
    requires disk.Valid() && disk.hotRowCount == |entries| && disk.dataOffset + disk.overlayBytes == |image|
    requires disk.dataOffset <= |EmptyImage(disk, entries)|
    requires image[..disk.dataOffset] == EmptyImage(disk, entries)[..disk.dataOffset]
    ensures image[..128] == HeaderBytes(disk) && image[128..128 + |entries| * 12] == Payload(entries)
  {
    var empty := EmptyImage(disk, entries);
    EmptyImageContents(disk, entries);
    PrefixOfImage(image, empty, disk.dataOffset, 0, 128);
    PrefixOfImage(image, empty, disk.dataOffset, 128, 128 + |entries| * 12);
  }

  lemma HeldFront(
    sha: Sha256, source: RowSource, plan: LayoutPlan, entries: seq<IndexEntry>, sidecar: Sidecar)
    requires 0 < plan.rowBytes <= plan.blockBytes && |entries| == |plan.hotPhysicalOrder| <= U32_SPACE
    requires DataStart(plan) + OverlaySize(plan) < U64_SPACE
    requires HoldsPlan(sha, source, plan, entries, sidecar)
    ensures sidecar.header == HeaderFor(sha, source, plan, entries, DataStart(plan), OverlaySize(plan))
    ensures sidecar.header.Valid() && sidecar.header.dataOffset == DataStart(plan)
    ensures |sidecar.image| == |EmptyImage(sidecar.header, entries)| >= DataStart(plan)
    ensures sidecar.image[..DataStart(plan)] == EmptyImage(sidecar.header, entries)[..DataStart(plan)]
  {
    FramedPrefix(
      HotRows(source, plan), RowStarts(plan), plan.rowBytes, DataStart(plan), |HotRows(source, plan)|,
      EmptyImage(sidecar.header, entries), sidecar.image);
  }

  lemma HeldPlanIsWellFormed(
    sha: Sha256, source: RowSource, plan: LayoutPlan, entries: seq<IndexEntry>, sidecar: Sidecar)
    requires 0 < plan.rowBytes <= plan.blockBytes && |entries| == |plan.hotPhysicalOrder| <= U32_SPACE
    requires DataStart(plan) + OverlaySize(plan) < U64_SPACE
    requires HoldsPlan(sha, source, plan, entries, sidecar) && Matches(source, plan)
    ensures |sidecar.image| < U64_SPACE
    ensures WellFormedImage(sha, sidecar.image, source, sidecar.header, Payload(entries))
  {
    var disk := sidecar.header;
    HeldFront(sha, source, plan, entries, sidecar);
    FrontIsWellFormed(sha, source, entries, disk, sidecar.image);
  }

  lemma FrontIsWellFormed(
    sha: Sha256, source: RowSource, entries: seq<IndexEntry>, disk: DiskHeader, image: seq<u8>)
    requires disk.Valid() && disk.hotRowCount == |entries|
    requires disk.logical.sourceDigest == source.digest && disk.logical.indexDigest == sha(Payload(entries))
    requires disk.logical.rowCount == source.rowCount && disk.logical.rowBytes == source.rowBytes
    requires |image| == |EmptyImage(disk, entries)| >= disk.dataOffset
    requires image[..disk.dataOffset] == EmptyImage(disk, entries)[..disk.dataOffset]
    requires disk.dataOffset + disk.overlayBytes < U64_SPACE
    ensures |image| < U64_SPACE && WellFormedImage(sha, image, source, disk, Payload(entries))
  {
    EmptyImageContents(disk, entries);
    FrontOfImage(disk, entries, image);
    IndexDigested(sha, image, disk, Payload(entries));
  }

  lemma IndexDigested(sha: Sha256, image: Mapping, disk: DiskHeader, payload: seq<u8>)
    requires 128 + disk.hotRowCount * 12 <= |image| && |payload| == disk.hotRowCount * 12
    requires image[128..128 + |payload|] == payload && disk.logical.indexDigest == sha(payload)
    ensures disk.logical.indexDigest == sha(image[128..128 + disk.hotRowCount * 12])
  {
  }

  /** Opening what a planned write published always succeeds, with the sorted entries as index. */
  lemma WrittenOpens(
    sha: Sha256, source: RowSource, plan: LayoutPlan, trace: Trace, entries: seq<IndexEntry>, sidecar: Sidecar)
    requires Planned(plan, trace) && SortedEntries(plan) == Ok(entries)
    requires WriteOutcome(sha, source, plan) == Ok(sidecar)
    ensures Matches(source, plan) && |entries| == |plan.hotPhysicalOrder| <= U32_SPACE
    ensures DataStart(plan) + OverlaySize(plan) < U64_SPACE && HoldsPlan(sha, source, plan, entries, sidecar)
    ensures |sidecar.image| < U64_SPACE
    ensures OpenOutcome(sha, sidecar.image, source) == Ok(ReaderOf(sidecar.image, source, sidecar.header))
    ensures ReaderOf(sidecar.image, source, sidecar.header).Entries() == entries
  {
    PlannedWrite(sha, source, plan, trace, entries);
    HeldPlanIsWellFormed(sha, source, plan, entries, sidecar);
    PlannedIndexFits(plan, trace, entries, sidecar.header);
    PayloadDecodes(entries);
    OpensTo(sha, sidecar.image, source, sidecar.header, Payload(entries), entries);
  }

  /** The reader over what a planned write published. */
  function WrittenReader(source: RowSource, sidecar: Sidecar): PlePackReader
    requires |sidecar.image| < U64_SPACE
  {
    ReaderOf(sidecar.image, source, sidecar.header)
  }

  /** An indexed row whose stored bytes are the source's is hot and served exactly. */
  lemma IndexedRowServed(rd: PlePackReader, j: nat, row: u32, offset: u64)
    requires rd.Valid() && j < rd.hotRowCount && rd.Entries()[j] == IndexEntry(row, offset)
    requires offset + rd.header.rowBytes <= rd.overlayBytes
    requires rd.source.read(row, rd.header.rowBytes) == Ok(rd.RowAt(offset))
    ensures rd.Hot(row) && ServedExactly(rd, row)
  {
    ScanHits(rd.Entries(), j);
    EntriesReadable(rd, j);
  }

  /** The index names exactly the rows of `order`, each at its start. */
  ghost predicate IndexOf(entries: seq<IndexEntry>, order: seq<u32>, starts: seq<nat>) {
    && |starts| == |order|
    && (forall k :: 0 <= k < |order| ==> starts[k] < U64_SPACE && IndexEntry(order[k], starts[k]) in entries)
    && (forall e :: e in entries ==> e.logicalRow in order)
  }

  /** The region holds, at its start, what the source returns for each row of `order`. */
  ghost predicate RegionHolds(rd: PlePackReader, order: seq<u32>, starts: seq<nat>) {
    && |starts| == |order|
    && rd.dataOffset + rd.overlayBytes == |rd.mmap|
    && forall k :: 0 <= k < |order| ==>
         && starts[k] + rd.header.rowBytes <= rd.overlayBytes
         && rd.source.read(order[k], rd.header.rowBytes) == Ok(rd.RowAt(starts[k]))
  }

  /** A reader whose index and region agree with the source is exact, and hot on those rows alone. */
  lemma AgreeingReaderServes(rd: PlePackReader, order: seq<u32>, starts: seq<nat>, row: u32)
    requires rd.Valid() && IndexOf(rd.Entries(), order, starts) && RegionHolds(rd, order, starts)
    ensures rd.Hot(row) <==> row in order
    ensures row < rd.header.rowCount ==> ServedExactly(rd, row)
  {
    var entries := rd.Entries();
    if row in order {
      var k :| 0 <= k < |order| && order[k] == row;
      var e := IndexEntry(order[k], starts[k]);
      assert e in entries;
      var j :| 0 <= j < |entries| && entries[j] == e;
      IndexedRowServed(rd, j, row, starts[k]);
    } else if rd.Hot(row) {
      var j := ScanNames(entries, row);
    }
  }

  lemma PlannedIndexOf(plan: LayoutPlan, trace: Trace, entries: seq<IndexEntry>)
    requires Planned(plan, trace) && SortedEntries(plan) == Ok(entries)
    ensures IndexOf(entries, plan.hotPhysicalOrder, RowStarts(plan))
  {
    PlannedIndex(plan, trace);
    var order, starts := plan.hotPhysicalOrder, RowStarts(plan);
    forall k | 0 <= k < |order| ensures starts[k] < U64_SPACE && IndexEntry(order[k], starts[k]) in entries {
      assert EntryAt(plan, starts, k) in entries;
    }
    forall e | e in entries ensures e.logicalRow in order {
      var k :| 0 <= k < |starts| && e == EntryAt(plan, starts, k);
    }
  }

  lemma FramedRegion(
    rd: PlePackReader, order: seq<u32>, rows: seq<Result<seq<u8>, IoError>>, starts: seq<nat>, empty: seq<u8>)
    requires |order| == |rows| == |starts| && rd.dataOffset <= |empty|
    requires rd.dataOffset + rd.overlayBytes == |empty|
    requires Apart(starts, rd.header.rowBytes, |empty| - rd.dataOffset)
    requires Framed(rows, starts, rd.header.rowBytes, rd.dataOffset, |rows|, empty, rd.mmap)
    requires forall k :: 0 <= k < |order| ==> rows[k] == rd.source.read(order[k], rd.header.rowBytes)
    ensures RegionHolds(rd, order, starts)
  {
  }

  lemma HeldRegion(
    sha: Sha256, source: RowSource, plan: LayoutPlan, entries: seq<IndexEntry>, sidecar: Sidecar)
    requires 0 < plan.rowBytes <= plan.blockBytes && |entries| == |plan.hotPhysicalOrder| <= U32_SPACE
    requires source.rowBytes == plan.rowBytes && IsPacked(plan)
    requires DataStart(plan) + OverlaySize(plan) < U64_SPACE
    requires HoldsPlan(sha, source, plan, entries, sidecar) && |sidecar.image| < U64_SPACE
    ensures RegionHolds(WrittenReader(source, sidecar), plan.hotPhysicalOrder, RowStarts(plan))
  {
    EmptyImageContents(sidecar.header, entries);
    var rows := HotRows(source, plan);
    PackedRowsRead(source, plan);
    FramedRegion(
      WrittenReader(source, sidecar), plan.hotPhysicalOrder, rows, RowStarts(plan),
      EmptyImage(sidecar.header, entries));
  }

  lemma PackedRowsRead(source: RowSource, plan: LayoutPlan)
    requires 0 < plan.rowBytes <= plan.blockBytes && IsPacked(plan)
    ensures forall k :: 0 <= k < |plan.hotPhysicalOrder| ==>
      HotRows(source, plan)[k] == source.read(plan.hotPhysicalOrder[k], source.rowBytes)
  {
    var rows := HotRows(source, plan);
    forall k | 0 <= k < |rows| ensures rows[k] == source.read(plan.hotPhysicalOrder[k], source.rowBytes) {
      assert plan.hotOverlayPlacements[k].logicalRow == plan.hotPhysicalOrder[k];
    }
  }

  /** The reader serves every logical row exactly as the source does, its hot rows are the traced
      rows, and verification succeeds. */
  ghost predicate ServesTrace(rd: PlePackReader, source: RowSource, trace: Trace) {
    && rd.Valid() && rd.source == source
    && (forall row: u32 :: row < rd.header.rowCount ==> ServedExactly(rd, row))
    && (forall row: u32 :: rd.Hot(row) <==> Traced(trace, row))
    && FirstError(rd.Verdicts()) == None
  }

  lemma AgreeingReaderServesTrace(rd: PlePackReader, order: seq<u32>, starts: seq<nat>, trace: Trace)
    requires rd.Valid() && IndexOf(rd.Entries(), order, starts) && RegionHolds(rd, order, starts)
    requires forall row: u32 :: row in order <==> Traced(trace, row)
    ensures ServesTrace(rd, rd.source, trace)
  {
    forall row: u32
      ensures rd.Hot(row) <==> row in order
      ensures row < rd.header.rowCount ==> ServedExactly(rd, row)
    {
      AgreeingReaderServes(rd, order, starts, row);
    }
    VerificationIsExact(rd);
  }

  /** End-to-end exactness. Whenever a trace was planned and its plan written, for any source: opening
      the published bytes with that source succeeds; every logical row reads exactly as the source
      serves it; a row is hot exactly when the trace touched it; and verification succeeds, counting
      each traced row once. */
  lemma EndToEndExactness(sha: Sha256, source: RowSource, plan: LayoutPlan, trace: Trace, sidecar: Sidecar)
    requires Planned(plan, trace)
    requires WriteOutcome(sha, source, plan) == Ok(sidecar)
    ensures |sidecar.image| < U64_SPACE
    ensures OpenOutcome(sha, sidecar.image, source) == Ok(WrittenReader(source, sidecar))
    ensures ServesTrace(WrittenReader(source, sidecar), source, trace)
    ensures WrittenReader(source, sidecar).hotRowCount == sidecar.report.hotRows == |plan.hotPhysicalOrder|
  {
    PlannedIndex(plan, trace);
    var entries := SortedEntries(plan).value;
    WrittenOpens(sha, source, plan, trace, entries, sidecar);
    PlannedIndexOf(plan, trace, entries);
    HeldRegion(sha, source, plan, entries, sidecar);
    AgreeingReaderServesTrace(WrittenReader(source, sidecar), plan.hotPhysicalOrder, RowStarts(plan), trace);
  }

  lemma WrittenHolds(sha: Sha256, source: RowSource, plan: LayoutPlan, trace: Trace, sidecar: Sidecar)
    returns (entries: seq<IndexEntry>)
    requires Planned(plan, trace) && WriteOutcome(sha, source, plan) == Ok(sidecar)
    ensures SortedEntries(plan) == Ok(entries) && |entries| == |plan.hotPhysicalOrder| <= U32_SPACE
    ensures 0 < plan.rowBytes <= plan.blockBytes && DataStart(plan) + OverlaySize(plan) < U64_SPACE
    ensures Matches(source, plan) && HoldsPlan(sha, source, plan, entries, sidecar)
  {
    PlannedIndex(plan, trace);
    entries := SortedEntries(plan).value;
    PlannedWrite(sha, source, plan, trace, entries);
  }

  /** A planned sidecar opens for its own source only: one with another digest is refused as such. */
  lemma ForeignSourceRefused(
    sha: Sha256, source: RowSource, other: RowSource, plan: LayoutPlan, trace: Trace, sidecar: Sidecar)
    requires Planned(plan, trace) && WriteOutcome(sha, source, plan) == Ok(sidecar)
    requires other.digest != source.digest
    ensures |sidecar.image| < U64_SPACE
    ensures OpenOutcome(sha, sidecar.image, other) == Err(SourceDigestMismatch)
  {
    var entries := WrittenHolds(sha, source, plan, trace, sidecar);
    HeldPlanIsWellFormed(sha, source, plan, entries, sidecar);
    OpenRefusals(sha, sidecar.image, other, sidecar.header);
  }

  lemma TracedMeansPlaced(plan: LayoutPlan, trace: Trace, row: u32) returns (k: nat)
    requires Planned(plan, trace) && Traced(trace, row)
    ensures k < |plan.hotPhysicalOrder| && plan.hotPhysicalOrder[k] == row
  {
    assert row in plan.hotPhysicalOrder;
    k :| 0 <= k < |plan.hotPhysicalOrder| && plan.hotPhysicalOrder[k] == row;
  }

  /** The report of a planned write measures the published file: its length, where the index lies and
      what it holds, and how many bytes at its end are overlay. */
  lemma ReportDescribesFile(sha: Sha256, source: RowSource, plan: LayoutPlan, trace: Trace, sidecar: Sidecar)
    requires Planned(plan, trace)
    requires WriteOutcome(sha, source, plan) == Ok(sidecar)
    ensures var report, image := sidecar.report, sidecar.image;
      && report.fileBytes == |image|
      && report.indexBytes == report.hotRows * 12
      && report.indexOffset + report.indexBytes <= |image| - report.overlayBytes
      && image[report.indexOffset..report.indexOffset + report.indexBytes] == Payload(SortedEntries(plan).value)
      && report.overlayBytes == OverlaySize(plan)
  {
    var entries := WrittenHolds(sha, source, plan, trace, sidecar);
    HeldReport(sha, source, plan, entries, sidecar);
    HeldIndex(sha, source, plan, entries, sidecar);
  }

  lemma HeldIndex(sha: Sha256, source: RowSource, plan: LayoutPlan, entries: seq<IndexEntry>, sidecar: Sidecar)
    requires 0 < plan.rowBytes <= plan.blockBytes && |entries| == |plan.hotPhysicalOrder| <= U32_SPACE
    requires DataStart(plan) + OverlaySize(plan) < U64_SPACE
    requires HoldsPlan(sha, source, plan, entries, sidecar) && Matches(source, plan)
    ensures |sidecar.image| == DataStart(plan) + OverlaySize(plan)
    ensures 128 + |entries| * 12 <= DataStart(plan)
    ensures sidecar.image[128..128 + |entries| * 12] == Payload(entries)
  {
    HeldPlanIsWellFormed(sha, source, plan, entries, sidecar);
    HeldReport(sha, source, plan, entries, sidecar);
    assert IndexOfFile(sidecar.image, sidecar.header) == Payload(entries);
  }

  lemma HeldReport(sha: Sha256, source: RowSource, plan: LayoutPlan, entries: seq<IndexEntry>, sidecar: Sidecar)
    requires 0 < plan.rowBytes <= plan.blockBytes && |entries| == |plan.hotPhysicalOrder| <= U32_SPACE
    requires DataStart(plan) + OverlaySize(plan) < U64_SPACE
    requires HoldsPlan(sha, source, plan, entries, sidecar)
    ensures sidecar.report == WriteReport(
      |entries|, 128, |entries| * 12, OverlaySize(plan), DataStart(plan) + OverlaySize(plan))
    ensures sidecar.header.dataOffset == DataStart(plan) && sidecar.header.overlayBytes == OverlaySize(plan)
    ensures sidecar.header.indexBytes == |entries| * 12
  {
  }

  /** Every planned row can be read exactly when every traced row can. */
  lemma HotRowsReadable(source: RowSource, plan: LayoutPlan, trace: Trace)
    requires Planned(plan, trace)
    ensures (forall k :: 0 <= k < |HotRows(source, plan)| ==> HotRows(source, plan)[k].Ok?) <==>
            forall row: u32 :: Traced(trace, row) ==> source.read(row, source.rowBytes).Ok?
  {
    var rows := HotRows(source, plan);
    if forall k :: 0 <= k < |rows| ==> rows[k].Ok? {
      forall row: u32 | Traced(trace, row) ensures source.read(row, source.rowBytes).Ok? {
        var k := TracedMeansPlaced(plan, trace, row);
        assert rows[k].Ok?;
      }
    }
    forall k | 0 <= k < |rows| && !rows[k].Ok? ensures Traced(trace, plan.hotPhysicalOrder[k]) {
      assert plan.hotPhysicalOrder[k] in plan.hotPhysicalOrder;
    }
  }

  lemma FramedRowsRead(
    rows: seq<Result<seq<u8>, IoError>>, starts: seq<nat>, rowBytes: nat, dataOffset: nat, n: nat,
    empty: seq<u8>, image: seq<u8>)
    requires n == |starts| == |rows| && dataOffset <= |empty| && Apart(starts, rowBytes, |empty| - dataOffset)
    requires Framed(rows, starts, rowBytes, dataOffset, n, empty, image)
    ensures forall k :: 0 <= k < |rows| ==> rows[k].Ok?
  {
  }

  /** Exactly when a planned write succeeds: the source has the planned row count and width, the file
      fits u64, and every traced row can be read. So of all arithmetic checks of the writer only the
      final size check can ever fail. */
  lemma PlannedWriteSucceeds(sha: Sha256, source: RowSource, plan: LayoutPlan, trace: Trace)
    requires Planned(plan, trace)
    ensures |plan.hotPhysicalOrder| <= U32_SPACE
    ensures WriteOutcome(sha, source, plan).Ok? <==>
            && source.rowCount == plan.rowCount && source.rowBytes == plan.rowBytes
            && DataStart(plan) + OverlaySize(plan) < U64_SPACE
            && forall row: u32 :: Traced(trace, row) ==> source.read(row, plan.rowBytes).Ok?
  {
    PlannedIndex(plan, trace);
    var entries, rows := SortedEntries(plan).value, HotRows(source, plan);
    HotRowsReadable(source, plan, trace);
    PlannedWrite(sha, source, plan, trace, entries);
    var outcome := WriteOutcome(sha, source, plan);
    if outcome.Ok? {
      FramedRowsRead(
        rows, RowStarts(plan), plan.rowBytes, DataStart(plan), |rows|,
        EmptyImage(outcome.value.header, entries), outcome.value.image);
    }
  }

  /** Over a flat file a planned write succeeds exactly when the file holds the planned rows and the
      sidecar fits u64. */
  lemma RawWriteSucceeds(sha: Sha256, file: Mapping, source: RowSource, plan: LayoutPlan, trace: Trace)
    requires OpenRaw(sha, file, plan.rowBytes) == Ok(source) && Planned(plan, trace)
    ensures |plan.hotPhysicalOrder| <= U32_SPACE
    ensures WriteOutcome(sha, source, plan).Ok? <==>
            |file| == plan.rowCount * plan.rowBytes && DataStart(plan) + OverlaySize(plan) < U64_SPACE
  {
    RawRows(sha, file, plan.rowBytes, 0, 0);
    if |file| == plan.rowCount * plan.rowBytes {
      DivUnique(|file|, plan.rowBytes, plan.rowCount, 0);
      DivUnique(|file|, plan.rowBytes, source.rowCount, 0);
    }
    if source.rowCount == plan.rowCount {
      forall row: u32 | Traced(trace, row) ensures source.read(row, plan.rowBytes).Ok? {
        RawRows(sha, file, plan.rowBytes, row, plan.rowBytes);
      }
    }
    PlannedWriteSucceeds(sha, source, plan, trace);
  }

  /** Read through its overlay, a flat file yields for every row the bytes at its cold base offset, and
      for every other row ID the planner's own refusal. */
  lemma RawFileServed(sha: Sha256, file: Mapping, rd: PlePackReader, plan: LayoutPlan, trace: Trace, row: u32)
    requires OpenRaw(sha, file, plan.rowBytes) == Ok(rd.source)
    requires ServesTrace(rd, rd.source, trace)
    requires plan.rowCount == rd.source.rowCount
    ensures match plan.BaseOffset(row)
            case Ok(base) =>
              && row < plan.rowCount && base + plan.rowBytes <= |file|
              && rd.ReadOutcome(row, plan.rowBytes) == Ok(file[base..base + plan.rowBytes])
            case Err(refusal) =>
              && row >= plan.rowCount && refusal == LogicalRowOutOfRange(row, plan.rowCount)
              && rd.ReadOutcome(row, plan.rowBytes) == Err(Layout(refusal))
  {
    RawRows(sha, file, plan.rowBytes, row, plan.rowBytes);
    ColdOffsets(plan, row);
    MulNext(row, plan.rowBytes);
    if row < plan.rowCount {
      assert ServedExactly(rd, row);
    }
  }

  /** On any accepted byte string the only errors a read can return are its own argument checks and,
      for a row with no overlay entry, the source's error. Every indexed row reads. */
  lemma AcceptedReadsAreTotal(rd: PlePackReader, row: u32, width: nat)
    requires rd.Valid()
    ensures rd.Hot(row) ==> row < rd.header.rowCount && rd.ReadOutcome(row, rd.header.rowBytes).Ok?
    ensures rd.ReadOutcome(row, width).Err? ==>
            || row >= rd.header.rowCount || width != rd.header.rowBytes
            || (!rd.Hot(row) && rd.ReadOutcome(row, width) == rd.source.read(row, width))
  {
    if rd.Hot(row) {
      var k := ScanNames(rd.Entries(), row);
      ScanHits(rd.Entries(), k);
      EntriesReadable(rd, k);
    }
  }

  /** The one arithmetic failure is real: a trace touching all 2^32 rows, each as wide as a block of
      2^32 - 1 bytes, plans a file that does not fit u64. */
  lemma FileSizeCanOverflow(plan: LayoutPlan, trace: Trace)
    requires Planned(plan, trace) && forall row: u32 :: Traced(trace, row)
    requires plan.rowBytes == plan.blockBytes == 0xFFFF_FFFF
    ensures |plan.hotPhysicalOrder| == U32_SPACE
    ensures DataStart(plan) + OverlaySize(plan) >= U64_SPACE
  {
    HotRowsDistinct(plan, trace);
    forall row: int | 0 <= row < U32_SPACE ensures row in plan.hotPhysicalOrder {
      assert Traced(trace, row);
    }
    Covering(plan.hotPhysicalOrder, U32_SPACE);
    DivUnique(plan.blockBytes, plan.rowBytes, 1, 0);
    assert RowsPerBlock(plan.rowBytes, plan.blockBytes) == 1;
    DivUnique(U32_SPACE - 1, 1, U32_SPACE - 1, 0);
    assert BlocksFor(plan.rowBytes, plan.blockBytes, U32_SPACE) == U32_SPACE;
    assert DataStart(plan) >= 128 + 12 * U32_SPACE;
  }
}
