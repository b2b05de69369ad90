/** The mapped sidecar reader with cold-source fallback. */
module Reader {
  import opened Machine
  import opened PackFormat
  import opened DiskFormat
  import opened RowSources

  // ----- index entries and their validation

  /** The k-th entry of serialized index bytes. */
  function EntryIn(index: seq<u8>, k: nat): IndexEntry
    requires (k + 1) * 12 <= |index|
  {
    DecodeIndexEntry(index[k * 12..(k + 1) * 12]).value
  }

  function EntriesIn(index: seq<u8>, n: nat): (entries: seq<IndexEntry>)
    requires n * 12 <= |index|
    ensures |entries| == n
  {
    if n == 0 then [] else EntriesIn(index, n - 1) + [EntryIn(index, n - 1)]
  }

  lemma {:induction false} EntriesInAt(index: seq<u8>, n: nat, k: nat)
    requires k < n && n * 12 <= |index|
    ensures EntriesIn(index, n)[k] == EntryIn(index, k)
  {
    if k < n - 1 {
      EntriesInAt(index, n - 1, k);
    }
  }

  /** The checks made on one entry, in their order, given the row of the entry before it. */
  function CheckEntry(e: IndexEntry, previousRow: Option<u32>, header: PlePackHeader, overlayBytes: u64)
    : (r: Result<(), IoError>)
    requires header.blockBytes > 0
    ensures r.Ok? <==>
            && EntryFits(e, header, overlayBytes) && InOneBlock(e.overlayOffset, header)
            && (previousRow.Some? ==> previousRow.value < e.logicalRow)
    ensures r == Err(Format(IndexRowOutsideSource)) <==> e.logicalRow >= header.rowCount
    ensures r == Err(Format(IndexNotStrictlySorted)) <==>
            e.logicalRow < header.rowCount && previousRow.Some? && previousRow.value >= e.logicalRow
    ensures e.logicalRow < header.rowCount && (previousRow.Some? ==> previousRow.value < e.logicalRow) ==>
      && (r == Err(Format(IndexRowEndOverflow)) <==> e.overlayOffset + header.rowBytes >= U64_SPACE)
      && (r == Err(Format(IndexRowExceedsRegion)) <==> overlayBytes < e.overlayOffset + header.rowBytes < U64_SPACE)
      && (r == Err(Format(RowCrossesBlock)) <==>
            EntryFits(e, header, overlayBytes) && !InOneBlock(e.overlayOffset, header))
  {
    if e.logicalRow >= header.rowCount then Err(Format(IndexRowOutsideSource)) else
    if previousRow.Some? && previousRow.value >= e.logicalRow then Err(Format(IndexNotStrictlySorted)) else
    match AddOr(e.overlayOffset, header.rowBytes, Format(IndexRowEndOverflow))
    case Err(fault) => Err(fault)
    case Ok(rowEnd) =>
      if rowEnd > overlayBytes then Err(Format(IndexRowExceedsRegion)) else
      match AddOr(e.overlayOffset % header.blockBytes, header.rowBytes, Format(BlockBoundaryOverflow))
      case Err(fault) => Err(fault)
      case Ok(inBlock) =>
        if inBlock > header.blockBytes then Err(Format(RowCrossesBlock)) else Ok(())
  }

  /** A good entry names a source row and lies in the overlay region. */
  ghost predicate EntryFits(e: IndexEntry, header: PlePackHeader, overlayBytes: u64) {
    && e.logicalRow < header.rowCount
    && e.overlayOffset + header.rowBytes <= overlayBytes
  }

  ghost predicate InOneBlock(overlayOffset: u64, header: PlePackHeader)
    requires header.blockBytes > 0
  {
    overlayOffset % header.blockBytes + header.rowBytes <= header.blockBytes
  }

  function RowBefore(entries: seq<IndexEntry>, k: nat): Option<u32>
    requires k <= |entries|
  {
    if k == 0 then None else Some(entries[k - 1].logicalRow)
  }

  ghost predicate RowsAscend(entries: seq<IndexEntry>) {
    forall i, j :: 0 <= i < j < |entries| ==> entries[i].logicalRow < entries[j].logicalRow
  }

  ghost predicate StaysInBlock(entries: seq<IndexEntry>, k: nat, header: PlePackHeader)
    requires k < |entries| && header.blockBytes > 0
  {
    InOneBlock(entries[k].overlayOffset, header)
  }

  /** A good index: ascending rows, every entry good and inside one block. */
  ghost predicate IndexFits(entries: seq<IndexEntry>, header: PlePackHeader, overlayBytes: u64)
    requires header.blockBytes > 0
  {
    && RowsAscend(entries)
    && (forall k :: 0 <= k < |entries| ==> EntryFits(entries[k], header, overlayBytes))
    && (forall k: nat :: k < |entries| ==> StaysInBlock(entries, k, header))
  }

  /** What the scan finds for each of the first n entries, in order. */
  function IndexVerdicts(entries: seq<IndexEntry>, n: nat, disk: DiskHeader): (verdicts: seq<Result<(), IoError>>)
    requires n <= |entries| && disk.logical.blockBytes > 0
    ensures |verdicts| == n
  {
    if n == 0 then []
    else IndexVerdicts(entries, n - 1, disk) + [EntryVerdict(entries, n - 1, disk)]
  }

  function EntryVerdict(entries: seq<IndexEntry>, k: nat, disk: DiskHeader): Result<(), IoError>
    requires k < |entries| && disk.logical.blockBytes > 0
  {
    CheckEntry(entries[k], RowBefore(entries, k), disk.logical, disk.overlayBytes)
  }

  lemma {:induction false} VerdictAt(entries: seq<IndexEntry>, n: nat, disk: DiskHeader, k: nat)
    requires k < n <= |entries| && disk.logical.blockBytes > 0
    ensures IndexVerdicts(entries, n, disk)[k] == EntryVerdict(entries, k, disk)
  {
    if k < n - 1 {
      VerdictAt(entries, n - 1, disk, k);
    }
  }

  function FirstError(verdicts: seq<Result<(), IoError>>): (first: Option<IoError>)
    ensures first == None <==> forall k :: 0 <= k < |verdicts| ==> verdicts[k].Ok?
  {
    if verdicts == [] then None
    else if verdicts[0].Err? then Some(verdicts[0].error)
    else FirstError(verdicts[1..])
  }

  lemma {:induction false} FirstErrorAt(verdicts: seq<Result<(), IoError>>, k: nat)
    requires k < |verdicts| && verdicts[k].Err?
    requires forall j :: 0 <= j < k ==> verdicts[j].Ok?
    ensures FirstError(verdicts) == Some(verdicts[k].error)
  {
    if k > 0 {
      FirstErrorAt(verdicts[1..], k - 1);
    }
  }

  function ValidateOutcome(index: seq<u8>, hotRowCount: u64, disk: DiskHeader): Result<(), IoError>
    requires disk.logical.blockBytes > 0
  {
    if hotRowCount * 12 >= U64_SPACE then Err(Format(ValidationSizeOverflow)) else
    if |index| != hotRowCount * 12 then Err(Format(IndexLengthMismatch)) else
    match FirstError(IndexVerdicts(EntriesIn(index, hotRowCount), hotRowCount, disk))
    case Some(e) => Err(e)
    case None => Ok(())
  }

  ghost predicate AllVerdictsGood(entries: seq<IndexEntry>, n: nat, disk: DiskHeader)
    requires n <= |entries| && disk.logical.blockBytes > 0
  {
    forall k: nat :: k < n ==> EntryVerdict(entries, k, disk).Ok?
  }

  lemma NoErrorMeansAllGood(entries: seq<IndexEntry>, n: nat, disk: DiskHeader)
    requires n <= |entries| && disk.logical.blockBytes > 0
    ensures FirstError(IndexVerdicts(entries, n, disk)) == None <==> AllVerdictsGood(entries, n, disk)
  {
    var verdicts := IndexVerdicts(entries, n, disk);
    forall k: nat | k < n ensures verdicts[k] == EntryVerdict(entries, k, disk) {
      VerdictAt(entries, n, disk, k);
    }
    if FirstError(verdicts) == None {
      forall k: nat | k < n ensures EntryVerdict(entries, k, disk).Ok? {
        assert verdicts[k].Ok?;
      }
    }
  }

  lemma GoodVerdict(entries: seq<IndexEntry>, k: nat, disk: DiskHeader)
    requires k < |entries| && disk.logical.blockBytes > 0
    ensures EntryVerdict(entries, k, disk).Ok? <==>
            && EntryFits(entries[k], disk.logical, disk.overlayBytes)
            && StaysInBlock(entries, k, disk.logical)
            && (k > 0 ==> entries[k - 1].logicalRow < entries[k].logicalRow)
  {
  }

  lemma GoodVerdictsFit(entries: seq<IndexEntry>, disk: DiskHeader)
    requires disk.logical.blockBytes > 0
    ensures AllVerdictsGood(entries, |entries|, disk) <==> IndexFits(entries, disk.logical, disk.overlayBytes)
  {
    if AllVerdictsGood(entries, |entries|, disk) {
      forall k: nat | k < |entries|
        ensures EntryFits(entries[k], disk.logical, disk.overlayBytes) && StaysInBlock(entries, k, disk.logical)
        ensures k > 0 ==> entries[k - 1].logicalRow < entries[k].logicalRow
      {
        assert EntryVerdict(entries, k, disk).Ok?;
        GoodVerdict(entries, k, disk);
      }
      AdjacentAscend(entries, |entries|);
      assert entries[..|entries|] == entries;
    }
    if IndexFits(entries, disk.logical, disk.overlayBytes) {
      forall k: nat | k < |entries| ensures EntryVerdict(entries, k, disk).Ok? {
        assert StaysInBlock(entries, k, disk.logical);
        GoodVerdict(entries, k, disk);
      }
    }
  }

  /** An index is accepted exactly when it fits. */
  lemma ValidationAccepts(index: seq<u8>, hotRowCount: u64, disk: DiskHeader)
    requires disk.logical.blockBytes > 0
    requires |index| == hotRowCount * 12 < U64_SPACE
    ensures ValidateOutcome(index, hotRowCount, disk).Ok? <==>
            IndexFits(EntriesIn(index, hotRowCount), disk.logical, disk.overlayBytes)
  {
    var entries := EntriesIn(index, hotRowCount);
    assert |entries| == hotRowCount;
    NoErrorMeansAllGood(entries, hotRowCount, disk);
    GoodVerdictsFit(entries, disk);
  }

  lemma {:induction false} AdjacentAscend(entries: seq<IndexEntry>, n: nat)
    requires n <= |entries|
    requires forall k :: 0 < k < |entries| ==> entries[k - 1].logicalRow < entries[k].logicalRow
    ensures RowsAscend(entries[..n])
  {
    if n > 1 {
      AdjacentAscend(entries, n - 1);
      var front := entries[..n - 1];
      assert entries[..n] == front + [entries[n - 1]];
      assert front[n - 2] == entries[n - 2];
    }
  }

  method ValidateIndex(index: seq<u8>, hotRowCount: u64, disk: DiskHeader) returns (r: Result<(), IoError>)
    requires disk.logical.blockBytes > 0
    ensures r == ValidateOutcome(index, hotRowCount, disk)
  {
    if hotRowCount * INDEX_ENTRY_BYTES >= U64_SPACE {
      return Err(Format(ValidationSizeOverflow));
    }
    if |index| != hotRowCount * INDEX_ENTRY_BYTES {
      return Err(Format(IndexLengthMismatch));
    }
    ghost var entries := EntriesIn(index, hotRowCount);
    ghost var verdicts := IndexVerdicts(entries, hotRowCount, disk);
    var previousRow: Option<u32> := None;
    for ordinal := 0 to hotRowCount
      invariant forall k :: 0 <= k < ordinal ==> verdicts[k].Ok?
      invariant previousRow == RowBefore(entries, ordinal)
    {
      var checked, row := ValidateEntry(index, hotRowCount, ordinal, previousRow, disk, entries);
      if checked.Err? {
        FirstErrorAt(verdicts, ordinal);
        return checked;
      }
      previousRow := Some(row);
    }
    return Ok(());
  }

  /** Decode the entry at an ordinal inside the index; its offsets never overflow. */
  function ScanEntry(index: seq<u8>, ordinal: u64): (r: Result<IndexEntry, IoError>)
    requires (ordinal + 1) * 12 <= |index| < U64_SPACE
    ensures r == Ok(EntryIn(index, ordinal))
  {
    match MulOr(ordinal, INDEX_ENTRY_BYTES, Format(ScanOffsetOverflow))
    case Err(e) => Err(e)
    case Ok(start) =>
      match AddOr(start, INDEX_ENTRY_BYTES, Format(ScanEndOverflow))
      case Err(e) => Err(e)
      case Ok(end) => DecodeIndexEntry(index[start..end])
  }

  /** Decode and check one entry of the index. */
  method ValidateEntry(
    index: seq<u8>, hotRowCount: u64, ordinal: u64, previousRow: Option<u32>, disk: DiskHeader,
    ghost entries: seq<IndexEntry>)
    returns (checked: Result<(), IoError>, row: u32)
    requires disk.logical.blockBytes > 0 && ordinal < hotRowCount && |index| == hotRowCount * 12 < U64_SPACE
    requires entries == EntriesIn(index, hotRowCount) && previousRow == RowBefore(entries, ordinal)
    ensures checked == IndexVerdicts(entries, hotRowCount, disk)[ordinal] && row == entries[ordinal].logicalRow
  {
    EntriesInAt(index, hotRowCount, ordinal);
    VerdictAt(entries, hotRowCount, disk, ordinal);
    var e := ScanEntry(index, ordinal).value;
    checked := CheckEntry(e, previousRow, disk.logical, disk.overlayBytes);
    row := e.logicalRow;
  }

  /** Linear scan: the offset of the first entry naming the row. */
  function Scan(entries: seq<IndexEntry>, logicalRow: u32): Option<u64> {
    if entries == [] then None
    else if entries[0].logicalRow == logicalRow then Some(entries[0].overlayOffset)
    else Scan(entries[1..], logicalRow)
  }

  /** On ascending rows a scan returns the entry naming the row, wherever it is. */
  lemma {:induction false} ScanHits(entries: seq<IndexEntry>, k: nat)
    requires RowsAscend(entries) && k < |entries|
    ensures Scan(entries, entries[k].logicalRow) == Some(entries[k].overlayOffset)
  {
    if k > 0 {
      ScanHits(entries[1..], k - 1);
    }
  }

  lemma {:induction false} ScanMisses(entries: seq<IndexEntry>, logicalRow: u32)
    requires forall k :: 0 <= k < |entries| ==> entries[k].logicalRow != logicalRow
    ensures Scan(entries, logicalRow) == None
  {
    if entries != [] {
      ScanMisses(entries[1..], logicalRow);
    }
  }

  // ----- the reader

  datatype PlePackReader = PlePackReader(
    mmap: Mapping,
    source: RowSource,
    header: PlePackHeader,
    hotRowCount: u64,
    indexOffset: u64,
    dataOffset: u64,
    overlayBytes: u64)
  {
    /** What `Open` establishes for every byte string it accepts, whoever wrote it. */
    ghost predicate Valid() {
      && header.Valid()
      && header.rowCount == source.rowCount && header.rowBytes == source.rowBytes
      && indexOffset == DISK_HEADER_BYTES
      && indexOffset + hotRowCount * 12 <= dataOffset
      && dataOffset + overlayBytes == |mmap|
      && IndexFits(Entries(), header, overlayBytes)
    }

    /** The decoded index. */
    function Entries(): (entries: seq<IndexEntry>)
      requires indexOffset + hotRowCount * 12 <= |mmap|
      ensures |entries| == hotRowCount
    {
      EntriesIn(mmap[indexOffset..indexOffset + hotRowCount * 12], hotRowCount)
    }

    function IndexEntry(ordinal: u64): Result<IndexEntry, IoError> {
      if ordinal >= hotRowCount then Err(Format(OrdinalOutOfRange)) else
      match MulOr(ordinal, INDEX_ENTRY_BYTES, Format(EntryOffsetOverflow))
      case Err(e) => Err(e)
      case Ok(relative) =>
        match AddOr(indexOffset, relative, Format(EntryOffsetOverflow))
        case Err(e) => Err(e)
        case Ok(start) =>
          match AddOr(start, INDEX_ENTRY_BYTES, Format(EntryEndOverflow))
          case Err(e) => Err(e)
          case Ok(end) =>
            if end > |mmap| then Err(Format(EntryOutsideSidecar)) else DecodeIndexEntry(mmap[start..end])
    }

    /** The stored bytes at an offset into the overlay region. */
    function RowAt(overlayOffset: u64): seq<u8>
      requires dataOffset + overlayOffset + header.rowBytes <= |mmap|
    {
      mmap[dataOffset + overlayOffset..dataOffset + overlayOffset + header.rowBytes]
    }

    function OverlayRow(overlayOffset: u64): Result<seq<u8>, IoError> {
      match AddOr(overlayOffset, header.rowBytes, Format(OverlayRowEndOverflow))
      case Err(e) => Err(e)
      case Ok(relativeEnd) =>
        if relativeEnd > overlayBytes then Err(Format(OverlayRowExceedsRegion)) else
        match AddOr(dataOffset, overlayOffset, Format(OverlayAbsoluteOverflow))
        case Err(e) => Err(e)
        case Ok(start) =>
          match AddOr(start, header.rowBytes, Format(OverlaySliceEndOverflow))
          case Err(e) => Err(e)
          case Ok(end) =>
            if end > |mmap| then Err(Format(OverlayRowOutsideSidecar)) else Ok(mmap[start..end])
    }

    predicate Hot(logicalRow: u32)
      requires indexOffset + hotRowCount * 12 <= |mmap|
    {
      Scan(Entries(), logicalRow).Some?
    }

    /** The outcome of reading a row into a buffer of `width` bytes. */
    function ReadOutcome(logicalRow: u32, width: nat): Result<seq<u8>, IoError>
      requires indexOffset + hotRowCount * 12 <= |mmap|
    {
      if logicalRow >= header.rowCount then Err(Layout(LogicalRowOutOfRange(logicalRow, header.rowCount))) else
      if width != header.rowBytes then Err(RowBufferWidth(header.rowBytes, width)) else
      match Scan(Entries(), logicalRow)
      case Some(offset) => OverlayRow(offset)
      case None => source.read(logicalRow, width)
    }

    /** What verification finds for each hot row, in index order. */
    function Verdicts(): (verdicts: seq<Result<(), IoError>>)
      requires indexOffset + hotRowCount * 12 <= |mmap|
      ensures |verdicts| == hotRowCount
    {
      seq(hotRowCount, k requires 0 <= k < hotRowCount => VerifyEntry(k))
    }

    function VerifyEntry(k: nat): Result<(), IoError>
      requires indexOffset + hotRowCount * 12 <= |mmap| && k < hotRowCount
    {
      var e := Entries()[k];
      match source.read(e.logicalRow, header.rowBytes)
      case Err(fault) => Err(fault)
      case Ok(expected) =>
        match OverlayRow(e.overlayOffset)
        case Err(fault) => Err(fault)
        case Ok(actual) => if actual != expected then Err(OverlayDataMismatch(e.logicalRow)) else Ok(())
    }
  }

  // ----- opening

  /** A header that carries the source's digest and geometry, accounts for every byte of the file, and
      records the digest of the index in it. */
  ghost predicate HeaderMatches(sha: Sha256, mmap: Mapping, source: RowSource, disk: DiskHeader)
    requires disk.Valid()
  {
    && disk.logical.sourceDigest == source.digest
    && disk.logical.rowCount == source.rowCount && disk.logical.rowBytes == source.rowBytes
    && disk.dataOffset + disk.overlayBytes == |mmap|
    && disk.logical.indexDigest == sha(mmap[128..128 + disk.hotRowCount * 12])
  }

  /** The checks of `open` before the index is scanned. */
  function CheckSidecar(sha: Sha256, mmap: Mapping, source: RowSource): (r: Result<DiskHeader, IoError>)
    ensures r.Ok? ==> r.value.Valid() && HeaderMatches(sha, mmap, source, r.value)
  {
    var disk :- DecodeHeader(mmap);
    CheckHeader(sha, mmap, source, disk)
  }

  /** The checks of a decoded header against the source and the file, in their order. */
  function CheckHeader(sha: Sha256, mmap: Mapping, source: RowSource, disk: DiskHeader): (r: Result<DiskHeader, IoError>)
    requires disk.Valid() && |mmap| >= 128
    ensures r == Ok(disk) <==> HeaderMatches(sha, mmap, source, disk)
    ensures r.Ok? ==> r.value == disk
  {
    if disk.logical.sourceDigest != source.digest then Err(SourceDigestMismatch) else
    if disk.logical.rowCount != source.rowCount then Err(Format(SidecarRowCountsDiffer)) else
    if disk.logical.rowBytes != source.rowBytes then Err(Format(SidecarRowWidthsDiffer)) else
    var expected :- AddOr(disk.dataOffset, disk.overlayBytes, Format(FileLengthOverflow));
    if |mmap| != expected then Err(Format(FileLengthMismatch)) else
    match AddOr(DISK_HEADER_BYTES, disk.indexBytes, Format(ReaderIndexEndOverflow))
    case Err(e) => Err(e)
    case Ok(indexEnd) =>
      if indexEnd > |mmap| then Err(Format(IndexOutsideSidecar))
      else if sha(mmap[DISK_HEADER_BYTES..indexEnd]) != disk.logical.indexDigest then Err(IndexDigestMismatch)
      else Ok(disk)
  }

  function ReaderOf(mmap: Mapping, source: RowSource, disk: DiskHeader): PlePackReader {
    PlePackReader(
      mmap, source, disk.logical, disk.hotRowCount, DISK_HEADER_BYTES, disk.dataOffset, disk.overlayBytes)
  }

  /** The index scan that completes opening, once the sidecar has passed its checks. */
  function ScanIndex(mmap: Mapping, source: RowSource, disk: DiskHeader): (r: Result<PlePackReader, IoError>)
    requires disk.Valid() && disk.dataOffset + disk.overlayBytes == |mmap|
    requires disk.logical.rowCount == source.rowCount && disk.logical.rowBytes == source.rowBytes
    ensures r.Ok? ==> r.value.Valid() && r.value.mmap == mmap && r.value.source == source
    ensures r.Ok? ==> r.value.header == disk.logical && r.value.hotRowCount == disk.hotRowCount
  {
    var index := mmap[DISK_HEADER_BYTES..DISK_HEADER_BYTES + disk.indexBytes];
    ValidationAccepts(index, disk.hotRowCount, disk);
    match ValidateOutcome(index, disk.hotRowCount, disk)
    case Err(e) => Err(e)
    case Ok(_) => Ok(ReaderOf(mmap, source, disk))
  }

  function OpenOutcome(sha: Sha256, mmap: Mapping, source: RowSource): (r: Result<PlePackReader, IoError>)
    ensures r.Ok? ==> r.value.Valid() && r.value.mmap == mmap && r.value.source == source
    ensures r.Ok? ==> r.value.header.sourceDigest == source.digest
    ensures r.Ok? ==> r.value.header.indexDigest == sha(mmap[128..128 + r.value.hotRowCount * 12])
  {
    match CheckSidecar(sha, mmap, source)
    case Err(e) => Err(e)
    case Ok(disk) => ScanIndex(mmap, source, disk)
  }

  method Open(sha: Sha256, mmap: Mapping, source: RowSource) returns (r: Result<PlePackReader, IoError>)
    ensures r == OpenOutcome(sha, mmap, source)
  {
    var checked := CheckSidecar(sha, mmap, source);
    if checked.Err? {
      return Err(checked.error);
    }
    var disk := checked.value;
    var valid := ValidateIndex(
      mmap[DISK_HEADER_BYTES..DISK_HEADER_BYTES + disk.indexBytes], disk.hotRowCount, disk);
    if valid.Err? {
      return Err(valid.error);
    }
    return Ok(ReaderOf(mmap, source, disk));
  }

  // ----- lookups

  /** Reads of indexed entries never fail, on any accepted byte string. */
  lemma EntriesReadable(rd: PlePackReader, k: nat)
    requires rd.Valid() && k < rd.hotRowCount
    ensures rd.IndexEntry(k) == Ok(rd.Entries()[k])
    ensures var e := rd.Entries()[k];
      && e.logicalRow < rd.header.rowCount
      && e.overlayOffset + rd.header.rowBytes <= rd.overlayBytes
      && rd.OverlayRow(e.overlayOffset) == Ok(rd.RowAt(e.overlayOffset))
  {
    var start := rd.indexOffset + k * 12;
    var index := rd.mmap[rd.indexOffset..rd.indexOffset + rd.hotRowCount * 12];
    SliceOfSlice(rd.mmap, rd.indexOffset, rd.indexOffset + rd.hotRowCount * 12, k * 12, (k + 1) * 12);
    assert index[k * 12..(k + 1) * 12] == rd.mmap[start..start + 12];
    EntriesInAt(index, rd.hotRowCount, k);
  }

  lemma SliceOfSlice(s: seq<u8>, from: nat, to: nat, i: nat, j: nat)
    requires from <= to <= |s| && i <= j <= to - from
    ensures s[from..to][i..j] == s[from + i..from + j]
  {
    var part := s[from..to];
    forall k | 0 <= k < j - i ensures part[i..j][k] == s[from + i..from + j][k] {
      assert part[i..j][k] == part[i + k];
    }
  }

  method ReadEntry(rd: PlePackReader, ordinal: u64) returns (r: Result<IndexEntry, IoError>)
    requires rd.Valid() && ordinal < rd.hotRowCount
    ensures r == Ok(rd.Entries()[ordinal])
  {
    EntriesReadable(rd, ordinal);
    r := rd.IndexEntry(ordinal);
  }

  /** Binary search: no error, and exactly what the linear scan finds. */
  method FindOverlayOffset(rd: PlePackReader, logicalRow: u32) returns (r: Result<Option<u64>, IoError>)
    requires rd.Valid()
    ensures r == Ok(Scan(rd.Entries(), logicalRow))
  {
    ghost var entries := rd.Entries();
    var low: u64 := 0;
    var high: u64 := rd.hotRowCount;
    while low < high
      invariant low <= high <= rd.hotRowCount
      invariant forall k :: 0 <= k < low ==> entries[k].logicalRow < logicalRow
      invariant forall k :: high <= k < |entries| ==> entries[k].logicalRow > logicalRow
    {
      var middle: u64 := low + (high - low) / 2;
      var entry := ReadEntry(rd, middle);
      var e := entry.value;
      if e.logicalRow < logicalRow {
        low := middle + 1;
      } else if e.logicalRow > logicalRow {
        high := middle;
      } else {
        ScanHits(entries, middle);
        return Ok(Some(e.overlayOffset));
      }
    }
    ScanMisses(entries, logicalRow);
    return Ok(None);
  }

  method HasHotOverlay(rd: PlePackReader, logicalRow: u32) returns (hot: bool)
    requires rd.Valid()
    ensures hot == rd.Hot(logicalRow)
  {
    var found := FindOverlayOffset(rd, logicalRow);
    hot := found.Ok? && found.value.Some?;
  }

  method ReadExactRow(rd: PlePackReader, logicalRow: u32, dst: array<u8>) returns (r: Result<(), IoError>)
    requires rd.Valid()
    modifies dst
    ensures match rd.ReadOutcome(logicalRow, dst.Length)
            case Ok(bytes) => r == Ok(()) && dst[..] == bytes
            case Err(e) => r == Err(e)
  {
    if logicalRow >= rd.header.rowCount {
      return Err(Layout(LogicalRowOutOfRange(logicalRow, rd.header.rowCount)));
    }
    if dst.Length != rd.header.rowBytes {
      return Err(RowBufferWidth(rd.header.rowBytes, dst.Length));
    }
    var found := FindOverlayOffset(rd, logicalRow);
    match found.value
    case None =>
      r := ReadInto(rd.source, logicalRow, dst);
    case Some(offset) =>
      var row := rd.OverlayRow(offset);
      if row.Err? {
        return Err(row.error);
      }
      CopyBytes(dst, row.value);
      return Ok(());
  }

  method VerifyRow(rd: PlePackReader, ordinal: u64, expected: array<u8>) returns (r: Result<(), IoError>)
    requires rd.Valid() && ordinal < rd.hotRowCount && expected.Length == rd.header.rowBytes
    modifies expected
    ensures r == rd.VerifyEntry(ordinal)
  {
    var entry := ReadEntry(rd, ordinal);
    var e := entry.value;
    var read := ReadInto(rd.source, e.logicalRow, expected);
    if read.Err? {
      return read;
    }
    var actual := rd.OverlayRow(e.overlayOffset);
    if actual.Err? {
      return Err(actual.error);
    }
    if actual.value != expected[..] {
      return Err(OverlayDataMismatch(e.logicalRow));
    }
    return Ok(());
  }

  method VerifyHotOverlay(rd: PlePackReader) returns (r: Result<u64, IoError>)
    requires rd.Valid()
    ensures r == match FirstError(rd.Verdicts())
                 case Some(e) => Err(e)
                 case None => Ok(rd.hotRowCount)
  {
    var expected := new u8[rd.header.rowBytes](_ => 0);
    ghost var verdicts := rd.Verdicts();
    for ordinal := 0 to rd.hotRowCount
      invariant forall k :: 0 <= k < ordinal ==> verdicts[k].Ok?
    {
      var verdict := VerifyRow(rd, ordinal, expected);
      if verdict.Err? {
        FirstErrorAt(verdicts, ordinal);
        return Err(verdict.error);
      }
    }
    return Ok(rd.hotRowCount);
  }
}
