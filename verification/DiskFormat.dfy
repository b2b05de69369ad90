/** The 128-byte sidecar header and the 12-byte index entries. */
module DiskFormat {
  import opened Machine
  import opened LittleEndian
  import opened PackFormat

  const DISK_HEADER_BYTES: u64 := 128
  const INDEX_ENTRY_BYTES: u64 := 12
  const EXACT_OVERLAY_FLAGS: u32 := 1

  datatype DiskHeader = DiskHeader(
    logical: PlePackHeader,
    hotRowCount: u64,
    indexBytes: u64,
    dataOffset: u64,
    overlayBytes: u64)
  {
    /** What every header built by `NewDiskHeader` from a validated logical header satisfies. */
    ghost predicate Valid() {
      && logical.Valid()
      && indexBytes == hotRowCount * INDEX_ENTRY_BYTES
      && DISK_HEADER_BYTES + indexBytes <= dataOffset
      && dataOffset % logical.blockBytes == 0
      && overlayBytes % logical.blockBytes == 0
    }
  }

  /** Accepts exactly the consistent geometries. */
  function NewDiskHeader(
    logical: PlePackHeader, hotRowCount: u64, indexBytes: u64, dataOffset: u64, overlayBytes: u64)
    : (r: Result<DiskHeader, IoError>)
    requires logical.Valid()
    ensures r.Ok? <==> DiskHeader(logical, hotRowCount, indexBytes, dataOffset, overlayBytes).Valid()
    ensures r.Ok? ==> r.value == DiskHeader(logical, hotRowCount, indexBytes, dataOffset, overlayBytes)
    ensures r == Err(Format(IndexByteCountOverflow)) <==> hotRowCount * 12 >= U64_SPACE
    ensures r == Err(Format(IndexByteCountMismatch)) <==> indexBytes != hotRowCount * 12 < U64_SPACE
    ensures r == Err(Format(HeaderIndexEndOverflow)) <==> indexBytes == hotRowCount * 12 && 128 + indexBytes >= U64_SPACE
    ensures r == Err(Format(DataOverlapsIndex)) <==>
            indexBytes == hotRowCount * 12 && dataOffset < 128 + indexBytes < U64_SPACE
    ensures r == Err(Format(DataOffsetUnaligned)) <==>
            && indexBytes == hotRowCount * 12 && 128 + indexBytes <= dataOffset
            && dataOffset % logical.blockBytes != 0
    ensures r.Err? && r.error !in {
              Format(IndexByteCountOverflow), Format(IndexByteCountMismatch), Format(HeaderIndexEndOverflow),
              Format(DataOverlapsIndex), Format(DataOffsetUnaligned)} ==>
            r.error == Format(OverlayLengthUnaligned)
  {
    var expectedIndexBytes :- MulOr(hotRowCount, INDEX_ENTRY_BYTES, Format(IndexByteCountOverflow));
    if indexBytes != expectedIndexBytes then Err(Format(IndexByteCountMismatch)) else
    var minimumDataOffset :- AddOr(DISK_HEADER_BYTES, indexBytes, Format(HeaderIndexEndOverflow));
    if dataOffset < minimumDataOffset then Err(Format(DataOverlapsIndex))
    else if dataOffset % logical.blockBytes != 0 then Err(Format(DataOffsetUnaligned))
    else if overlayBytes % logical.blockBytes != 0 then Err(Format(OverlayLengthUnaligned))
    else Ok(DiskHeader(logical, hotRowCount, indexBytes, dataOffset, overlayBytes))
  }

  function IdentityBytes(h: DiskHeader): (bytes: seq<u8>)
    ensures |bytes| == 48
  {
    PLEPACK_MAGIC + ToLe(4, PLEPACK_VERSION) + ToLe(4, EXACT_OVERLAY_FLAGS) + h.logical.sourceDigest
  }

  function GeometryBytes(h: DiskHeader): (bytes: seq<u8>)
    ensures |bytes| == 48
  {
    ToLe(8, h.logical.rowCount) + ToLe(4, h.logical.rowBytes) + ToLe(4, h.logical.blockBytes)
    + ToLe(8, h.hotRowCount) + ToLe(8, h.indexBytes) + ToLe(8, h.dataOffset) + ToLe(8, h.overlayBytes)
  }

  /** The on-disk bytes of a header. */
  function HeaderBytes(h: DiskHeader): (bytes: seq<u8>)
    ensures |bytes| == 128
  {
    IdentityBytes(h) + GeometryBytes(h) + h.logical.indexDigest
  }

  /** `bytes[at..at + |field|].copy_from_slice(field)`, where `done` is what precedes `at`. */
  method CopyField(bytes: array<u8>, at: nat, field: seq<u8>, ghost done: seq<u8>)
    returns (ghost written: seq<u8>)
    requires at + |field| <= bytes.Length
    requires bytes[..at] == done
    modifies bytes
    ensures bytes[..at + |field|] == written == done + field
  {
    for i := 0 to |field|
      invariant bytes[..at] == done
      invariant bytes[at..at + i] == field[..i]
    {
      bytes[at + i] := field[i];
    }
    assert bytes[..at + |field|] == bytes[..at] + bytes[at..at + |field|];
    written := done + field;
  }

  method EncodeIdentity(h: DiskHeader, bytes: array<u8>)
    requires bytes.Length == 128
    modifies bytes
    ensures bytes[..48] == IdentityBytes(h)
  {
    ghost var done := CopyField(bytes, 0, PLEPACK_MAGIC, []);
    done := CopyField(bytes, 8, ToLe(4, PLEPACK_VERSION), done);
    done := CopyField(bytes, 12, ToLe(4, EXACT_OVERLAY_FLAGS), done);
    done := CopyField(bytes, 16, h.logical.sourceDigest, done);
    assert done == IdentityBytes(h);
  }

  method EncodeGeometry(h: DiskHeader, bytes: array<u8>)
    requires bytes.Length == 128
    modifies bytes
    ensures bytes[..96] == old(bytes[..48]) + GeometryBytes(h)
  {
    ghost var identity := bytes[..48];
    ghost var done := CopyField(bytes, 48, ToLe(8, h.logical.rowCount), identity);
    done := CopyField(bytes, 56, ToLe(4, h.logical.rowBytes), done);
    done := CopyField(bytes, 60, ToLe(4, h.logical.blockBytes), done);
    done := CopyField(bytes, 64, ToLe(8, h.hotRowCount), done);
    done := CopyField(bytes, 72, ToLe(8, h.indexBytes), done);
    done := CopyField(bytes, 80, ToLe(8, h.dataOffset), done);
    done := CopyField(bytes, 88, ToLe(8, h.overlayBytes), done);
    assert done == identity + GeometryBytes(h);
  }

  method EncodeHeader(h: DiskHeader) returns (bytes: array<u8>)
    ensures fresh(bytes) && bytes[..] == HeaderBytes(h)
  {
    bytes := new u8[128](_ => 0);
    EncodeIdentity(h, bytes);
    EncodeGeometry(h, bytes);
    ghost var done := CopyField(bytes, 96, h.logical.indexDigest, bytes[..96]);
    assert bytes[..] == bytes[..128];
  }

  function ReadU32(bytes: seq<u8>, offset: u64): Result<u32, IoError> {
    var end :- AddOr(offset, 4, Format(U32OffsetOverflow));
    if end > |bytes| then Err(Format(TruncatedU32)) else Ok(U32FromLe(bytes[offset..end]))
  }

  function ReadU64(bytes: seq<u8>, offset: u64): Result<u64, IoError> {
    var end :- AddOr(offset, 8, Format(U64OffsetOverflow));
    if end > |bytes| then Err(Format(TruncatedU64)) else Ok(U64FromLe(bytes[offset..end]))
  }

  function DecodeHeader(bytes: seq<u8>): (r: Result<DiskHeader, IoError>)
    ensures r.Ok? ==> |bytes| >= 128 && r.value.Valid()
  {
    if |bytes| < DISK_HEADER_BYTES then Err(Format(ShorterThanHeader)) else
    if bytes[0..8] != PLEPACK_MAGIC then Err(Format(MagicMismatch)) else
    match ReadU32(bytes, 8) case Err(e) => Err(e) case Ok(version) =>
    if version != PLEPACK_VERSION then Err(Format(VersionMismatch)) else
    match ReadU32(bytes, 12) case Err(e) => Err(e) case Ok(flags) =>
    if flags != EXACT_OVERLAY_FLAGS then Err(Format(UnsupportedFlags)) else
    var sourceDigest: Digest := bytes[16..48];
    match ReadU64(bytes, 48) case Err(e) => Err(e) case Ok(rowCount) =>
    match ReadU32(bytes, 56) case Err(e) => Err(e) case Ok(rowBytes) =>
    match ReadU32(bytes, 60) case Err(e) => Err(e) case Ok(blockBytes) =>
    match ReadU64(bytes, 64) case Err(e) => Err(e) case Ok(hotRowCount) =>
    match ReadU64(bytes, 72) case Err(e) => Err(e) case Ok(indexBytes) =>
    match ReadU64(bytes, 80) case Err(e) => Err(e) case Ok(dataOffset) =>
    match ReadU64(bytes, 88) case Err(e) => Err(e) case Ok(overlayBytes) =>
    var indexDigest: Digest := bytes[96..128];
    match NewPackHeader(sourceDigest, rowCount, rowBytes, blockBytes, indexDigest)
    case Err(e) => Err(Layout(e))
    case Ok(logical) => NewDiskHeader(logical, hotRowCount, indexBytes, dataOffset, overlayBytes)
  }

  /** Where each field lies in the encoding. */
  lemma HeaderFields(h: DiskHeader, b: seq<u8>)
    requires |b| >= 128 && b[..128] == HeaderBytes(h)
    ensures b[0..8] == PLEPACK_MAGIC
    ensures b[8..12] == ToLe(4, PLEPACK_VERSION) && b[12..16] == ToLe(4, EXACT_OVERLAY_FLAGS)
    ensures b[16..48] == h.logical.sourceDigest && b[96..128] == h.logical.indexDigest
    ensures b[48..56] == ToLe(8, h.logical.rowCount)
    ensures b[56..60] == ToLe(4, h.logical.rowBytes) && b[60..64] == ToLe(4, h.logical.blockBytes)
    ensures b[64..72] == ToLe(8, h.hotRowCount) && b[72..80] == ToLe(8, h.indexBytes)
    ensures b[80..88] == ToLe(8, h.dataOffset) && b[88..96] == ToLe(8, h.overlayBytes)
  {
    var e := b[..128];
    assert b[0..8] == e[0..8] && b[8..12] == e[8..12] && b[12..16] == e[12..16];
    assert b[16..48] == e[16..48] && b[48..56] == e[48..56] && b[56..60] == e[56..60];
    assert b[60..64] == e[60..64] && b[64..72] == e[64..72] && b[72..80] == e[72..80];
    assert b[80..88] == e[80..88] && b[88..96] == e[88..96] && b[96..128] == e[96..128];
  }

  /** Every header starts with the same sixteen bytes: "GB10XPLE", version 1, flags 1. */
  lemma HeaderPreamble(h: DiskHeader)
    ensures HeaderBytes(h)[..16] ==
            [0x47, 0x42, 0x31, 0x30, 0x58, 0x50, 0x4C, 0x45, 1, 0, 0, 0, 1, 0, 0, 0]
  {
    LittleEndianOne();
    assert HeaderBytes(h)[..16] == PLEPACK_MAGIC + ToLe(4, PLEPACK_VERSION) + ToLe(4, EXACT_OVERLAY_FLAGS);
  }

  lemma LittleEndianOne()
    ensures ToLe(4, 1) == [1, 0, 0, 0] && U32FromLe([1, 0, 0, 0]) == 1
  {
    Radices();
    assert ToLe(1, 0) == [0] && ToLe(2, 0) == [0, 0] && ToLe(3, 0) == [0, 0, 0];
    FromLeToLe(4, 1);
  }

  /** Which byte strings are refused before their geometry is looked at, and why. */
  lemma PreambleFaults(bytes: seq<u8>)
    ensures |bytes| < 128 ==> DecodeHeader(bytes) == Err(Format(ShorterThanHeader))
    ensures |bytes| >= 128 ==>
      var magic, one := [0x47, 0x42, 0x31, 0x30, 0x58, 0x50, 0x4C, 0x45], [1, 0, 0, 0];
      && (DecodeHeader(bytes) == Err(Format(MagicMismatch)) <==> bytes[..8] != magic)
      && (DecodeHeader(bytes) == Err(Format(VersionMismatch)) <==> bytes[..8] == magic && bytes[8..12] != one)
      && (DecodeHeader(bytes) == Err(Format(UnsupportedFlags)) <==>
            bytes[..8] == magic && bytes[8..12] == one && bytes[12..16] != one)
  {
    if |bytes| >= 128 {
      LittleEndianOne();
      U32Codec(bytes, 8);
      U32Codec(bytes, 12);
    }
  }

  /** Decoding encoded fields, consistent or not, gives exactly what validating them anew gives. */
  lemma DecodeRevalidates(h: DiskHeader, bytes: seq<u8>)
    requires |bytes| >= 128 && bytes[..128] == HeaderBytes(h)
    ensures var l := h.logical;
      DecodeHeader(bytes) ==
      match NewPackHeader(l.sourceDigest, l.rowCount, l.rowBytes, l.blockBytes, l.indexDigest)
      case Err(e) => Err(Layout(e))
      case Ok(logical) => NewDiskHeader(logical, h.hotRowCount, h.indexBytes, h.dataOffset, h.overlayBytes)
  {
    HeaderFields(h, bytes);
    Radices();
    FromLeToLe(4, PLEPACK_VERSION);
    FromLeToLe(4, EXACT_OVERLAY_FLAGS);
    FromLeToLe(8, h.logical.rowCount);
    FromLeToLe(4, h.logical.rowBytes);
    FromLeToLe(4, h.logical.blockBytes);
    FromLeToLe(8, h.hotRowCount);
    FromLeToLe(8, h.indexBytes);
    FromLeToLe(8, h.dataOffset);
    FromLeToLe(8, h.overlayBytes);
  }

  /** Decoding any byte string that starts with an encoded valid header gives that header back. */
  lemma DecodeEncodedHeader(h: DiskHeader, bytes: seq<u8>)
    requires h.Valid()
    requires |bytes| >= 128 && bytes[..128] == HeaderBytes(h)
    ensures DecodeHeader(bytes) == Ok(h)
  {
    DecodeRevalidates(h, bytes);
  }

  lemma U32Codec(bytes: seq<u8>, offset: nat)
    requires offset + 4 <= |bytes| && offset + 4 < U64_SPACE
    ensures ReadU32(bytes, offset).Ok?
    ensures ToLe(4, ReadU32(bytes, offset).value) == bytes[offset..offset + 4]
  {
    ToLeFromLe(bytes[offset..offset + 4]);
  }

  lemma U64Codec(bytes: seq<u8>, offset: nat)
    requires offset + 8 <= |bytes| && offset + 8 < U64_SPACE
    ensures ReadU64(bytes, offset).Ok?
    ensures ToLe(8, ReadU64(bytes, offset).value) == bytes[offset..offset + 8]
  {
    ToLeFromLe(bytes[offset..offset + 8]);
  }

  lemma IdentityOfDecoded(bytes: seq<u8>)
    requires DecodeHeader(bytes).Ok?
    ensures IdentityBytes(DecodeHeader(bytes).value) == bytes[..48]
  {
    U32Codec(bytes, 8);
    U32Codec(bytes, 12);
    assert bytes[..48] == bytes[0..8] + bytes[8..12] + bytes[12..16] + bytes[16..48];
  }

  lemma GeometryOfDecoded(bytes: seq<u8>)
    requires DecodeHeader(bytes).Ok?
    ensures GeometryBytes(DecodeHeader(bytes).value) == bytes[48..96]
  {
    U64Codec(bytes, 48);
    U32Codec(bytes, 56);
    U32Codec(bytes, 60);
    U64Codec(bytes, 64);
    U64Codec(bytes, 72);
    U64Codec(bytes, 80);
    U64Codec(bytes, 88);
    assert bytes[48..96] == bytes[48..56] + bytes[56..60] + bytes[60..64] + bytes[64..72]
      + bytes[72..80] + bytes[80..88] + bytes[88..96];
  }

  /** Every accepted byte string carries exactly the encoding of the header it decodes to. */
  lemma EncodeDecodedHeader(bytes: seq<u8>)
    requires DecodeHeader(bytes).Ok?
    ensures HeaderBytes(DecodeHeader(bytes).value) == bytes[..128]
  {
    IdentityOfDecoded(bytes);
    GeometryOfDecoded(bytes);
    AssembleHeader(DecodeHeader(bytes).value, bytes);
  }

  lemma AssembleHeader(h: DiskHeader, bytes: seq<u8>)
    requires |bytes| >= 128 && bytes[96..128] == h.logical.indexDigest
    requires IdentityBytes(h) == bytes[..48] && GeometryBytes(h) == bytes[48..96]
    ensures HeaderBytes(h) == bytes[..128]
  {
    assert bytes[..128] == bytes[..48] + bytes[48..96] + bytes[96..128];
  }

  datatype IndexEntry = IndexEntry(logicalRow: u32, overlayOffset: u64)

  function EntryBytes(e: IndexEntry): (bytes: seq<u8>)
    ensures |bytes| == 12
  {
    ToLe(4, e.logicalRow) + ToLe(8, e.overlayOffset)
  }

  method EncodeIndexEntry(e: IndexEntry) returns (bytes: array<u8>)
    ensures fresh(bytes) && bytes[..] == EntryBytes(e)
  {
    bytes := new u8[12](_ => 0);
    ghost var done := CopyField(bytes, 0, ToLe(4, e.logicalRow), []);
    done := CopyField(bytes, 4, ToLe(8, e.overlayOffset), done);
    assert bytes[..] == bytes[..12];
  }

  function DecodeIndexEntry(bytes: seq<u8>): (r: Result<IndexEntry, IoError>)
    ensures r.Ok? <==> |bytes| == 12
  {
    if |bytes| != INDEX_ENTRY_BYTES then Err(Format(IndexEntryWidth)) else
    match ReadU32(bytes, 0) case Err(e) => Err(e) case Ok(logicalRow) =>
    match ReadU64(bytes, 4) case Err(e) => Err(e) case Ok(overlayOffset) =>
    Ok(IndexEntry(logicalRow, overlayOffset))
  }

  /** The index-entry codec is a bijection between 12-byte strings and (u32, u64) pairs. */
  lemma IndexEntryCodec(e: IndexEntry, bytes: seq<u8>)
    requires |bytes| == 12
    ensures DecodeIndexEntry(EntryBytes(e)) == Ok(e)
    ensures EntryBytes(DecodeIndexEntry(bytes).value) == bytes
  {
    Radices();
    FromLeToLe(4, e.logicalRow);
    FromLeToLe(8, e.overlayOffset);
    assert EntryBytes(e)[0..4] == ToLe(4, e.logicalRow);
    assert EntryBytes(e)[4..12] == ToLe(8, e.overlayOffset);
    ToLeFromLe(bytes[0..4]);
    ToLeFromLe(bytes[4..12]);
    assert bytes == bytes[0..4] + bytes[4..12];
  }
}
