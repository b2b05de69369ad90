/** PLEPack metadata and failures shared by the planner, writer and reader. */
module PackFormat {
  import opened Machine

  // "GB10XPLE"
  const PLEPACK_MAGIC: seq<u8> := [0x47, 0x42, 0x31, 0x30, 0x58, 0x50, 0x4C, 0x45]
  const PLEPACK_VERSION: u32 := 1

  datatype GeometryFault =
    | RowCountZero
    | RowBytesZero
    | BlockBytesZero
    | BlockTooSmall
    | RowSpaceExceedsU32
    | NoCompleteRowsPerBlock

  datatype LayoutError =
    | InvalidGeometry(fault: GeometryFault)
    | TraceRowOutOfRange(row: u32, rowCount: u64)
    | LogicalRowOutOfRange(row: u32, rowCount: u64)
    | ColdRowOffsetOverflow
    | BlockOffsetOverflow
    | BlockOffsetU32Overflow

  /** One constructor per distinct "invalid PLEPack sidecar" reason. */
  datatype FormatFault =
    // disk header and index codec
    | IndexByteCountOverflow | IndexByteCountMismatch | HeaderIndexEndOverflow
    | DataOverlapsIndex | DataOffsetUnaligned | OverlayLengthUnaligned
    | ShorterThanHeader | MagicMismatch | VersionMismatch | UnsupportedFlags
    | IndexEntryWidth | U32OffsetOverflow | TruncatedU32 | U64OffsetOverflow | TruncatedU64
    // writer
    | SourcePlanRowCountsDiffer | SourcePlanRowWidthsDiffer | SourceGeometryEmpty
    | OverlayOffsetOverflow | OverlayRowsNotUnique | IndexAllocationOverflow | WriterIndexEndOverflow
    | ZeroAlignment | AlignmentOverflow | OverlayStorageOverflow | FileSizeOverflow
    | WriteOffsetOverflow | WriteAbsoluteOffsetOverflow
    // reader
    | SidecarRowCountsDiffer | SidecarRowWidthsDiffer | FileLengthOverflow | FileLengthMismatch
    | ReaderIndexEndOverflow | IndexOutsideSidecar
    | ValidationSizeOverflow | IndexLengthMismatch | ScanOffsetOverflow | ScanEndOverflow
    | IndexRowOutsideSource | IndexNotStrictlySorted | IndexRowEndOverflow | IndexRowExceedsRegion
    | BlockBoundaryOverflow | RowCrossesBlock
    | OrdinalOutOfRange | EntryOffsetOverflow | EntryEndOverflow | EntryOutsideSidecar
    | OverlayRowEndOverflow | OverlayRowExceedsRegion | OverlayAbsoluteOverflow
    | OverlaySliceEndOverflow | OverlayRowOutsideSidecar
    // raw flat-file source
    | RawWidthZero | RawEmpty | RawLengthIndivisible | RawRowSpaceExceedsU32
    | RawRowOffsetOverflow | RawRowEndOverflow | RawRowOutsideMapping

  datatype IoError =
    | Layout(layout: LayoutError)
    | Format(fault: FormatFault)
    | Source(reason: nat)
    | RowBufferWidth(expected: nat, actual: nat)
    | SourceDigestMismatch
    | IndexDigestMismatch
    | OverlayDataMismatch(logicalRow: u32)

  datatype PlePackHeader = PlePackHeader(
    magic: seq<u8>,
    version: u32,
    sourceDigest: Digest,
    rowCount: u64,
    rowBytes: u32,
    blockBytes: u32,
    indexDigest: Digest)
  {
    /** What every header built by `NewPackHeader` satisfies. */
    ghost predicate Valid() {
      && magic == PLEPACK_MAGIC && version == PLEPACK_VERSION
      && 0 < rowCount <= U32_SPACE
      && 0 < rowBytes <= blockBytes
    }
  }

  function NewPackHeader(
    sourceDigest: Digest, rowCount: u64, rowBytes: u32, blockBytes: u32, indexDigest: Digest)
    : (r: Result<PlePackHeader, LayoutError>)
    ensures r.Ok? <==> 0 < rowCount <= U32_SPACE && 0 < rowBytes <= blockBytes
    ensures r.Ok? ==> r.value.Valid()
    ensures r.Ok? ==> r.value.sourceDigest == sourceDigest && r.value.indexDigest == indexDigest
    ensures r.Ok? ==> (r.value.rowCount, r.value.rowBytes, r.value.blockBytes) == (rowCount, rowBytes, blockBytes)
    ensures r == Err(InvalidGeometry(RowCountZero)) <==> rowCount == 0
    ensures r == Err(InvalidGeometry(RowBytesZero)) <==> rowCount > 0 && rowBytes == 0
    ensures r == Err(InvalidGeometry(BlockBytesZero)) <==> rowCount > 0 && rowBytes > 0 == blockBytes
    ensures r == Err(InvalidGeometry(BlockTooSmall)) <==> rowCount > 0 && 0 < blockBytes < rowBytes
    ensures r == Err(InvalidGeometry(RowSpaceExceedsU32)) <==> 0 < rowBytes <= blockBytes && rowCount > U32_SPACE
  {
    if rowCount == 0 then Err(InvalidGeometry(RowCountZero))
    else if rowBytes == 0 then Err(InvalidGeometry(RowBytesZero))
    else if blockBytes == 0 then Err(InvalidGeometry(BlockBytesZero))
    else if blockBytes < rowBytes then Err(InvalidGeometry(BlockTooSmall))
    else if rowCount > U32_SPACE then Err(InvalidGeometry(RowSpaceExceedsU32))
    else Ok(PlePackHeader(
      PLEPACK_MAGIC, PLEPACK_VERSION, sourceDigest, rowCount, rowBytes, blockBytes, indexDigest))
  }
}
