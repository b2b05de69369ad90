/** The immutable exact row provider under a hot overlay, and its flat-file instance. */
module RowSources {
  import opened Machine
  import opened DivMod
  import opened PackFormat

  /** `read(row, width)` is the outcome of reading `row` into a buffer of `width` bytes: on success,
      what the buffer then holds. Being a function, it cannot change between two reads. */
  datatype RowSourceFields = RowSource(
    rowCount: u64,
    rowBytes: u32,
    digest: Digest,
    read: (u32, nat) -> Result<seq<u8>, IoError>)

  ghost predicate FillsBuffer(s: RowSourceFields) {
    forall row: u32, width: nat :: s.read(row, width).Ok? ==> |s.read(row, width).value| == width
  }

  type RowSource = s: RowSourceFields | FillsBuffer(s)
    witness RowSource(0, 0, seq(32, _ => 0), (row, width) => Err(Source(0)))

  /** `source.read_exact_row(row, &mut dst)`. */
  method ReadInto(source: RowSource, row: u32, dst: array<u8>) returns (r: Result<(), IoError>)
    modifies dst
    ensures match source.read(row, dst.Length)
            case Ok(bytes) => r == Ok(()) && dst[..] == bytes
            case Err(e) => r == Err(e)
  {
    match source.read(row, dst.Length)
    case Err(e) =>
      return Err(e);
    case Ok(bytes) =>
      CopyBytes(dst, bytes);
      return Ok(());
  }

  /** `dst.copy_from_slice(bytes)`. */
  method CopyBytes(dst: array<u8>, bytes: seq<u8>)
    requires dst.Length == |bytes|
    modifies dst
    ensures dst[..] == bytes
  {
    for i := 0 to |bytes|
      invariant dst[..i] == bytes[..i]
    {
      dst[i] := bytes[i];
    }
  }

  function RawRead(file: Mapping, rowCount: u64, rowBytes: u32, row: u32, width: nat)
    : (r: Result<seq<u8>, IoError>)
    ensures r.Ok? ==> |r.value| == width
  {
    if row >= rowCount then Err(Layout(LogicalRowOutOfRange(row, rowCount))) else
    if width != rowBytes then Err(RowBufferWidth(rowBytes, width)) else
    var start :- MulOr(row, rowBytes, Format(RawRowOffsetOverflow));
    var end :- AddOr(start, rowBytes, Format(RawRowEndOverflow));
    if end > |file| then Err(Format(RawRowOutsideMapping)) else Ok(file[start..end])
  }

  function OpenRaw(sha: Sha256, file: Mapping, rowBytes: u32): (r: Result<RowSource, IoError>)
    ensures r.Ok? <==>
            && rowBytes > 0 && |file| > 0 && |file| % rowBytes == 0
            && |file| / rowBytes <= U32_SPACE
    ensures r == Err(Format(RawWidthZero)) <==> rowBytes == 0
    ensures r == Err(Format(RawEmpty)) <==> rowBytes > 0 && |file| == 0
    ensures r == Err(Format(RawLengthIndivisible)) <==> rowBytes > 0 && |file| % rowBytes != 0
    ensures r == Err(Format(RawRowSpaceExceedsU32)) <==>
            rowBytes > 0 && |file| % rowBytes == 0 && |file| / rowBytes > U32_SPACE
  {
    if rowBytes == 0 then Err(Format(RawWidthZero)) else
    if |file| == 0 then Err(Format(RawEmpty)) else
    if |file| % rowBytes != 0 then Err(Format(RawLengthIndivisible)) else
    var rowCount := |file| / rowBytes;
    if rowCount > U32_SPACE then Err(Format(RawRowSpaceExceedsU32)) else
    Ok(RowSource(
      rowCount, rowBytes, sha(file),
      (row: u32, width: nat) => RawRead(file, rowCount, rowBytes, row, width)))
  }

  /** A flat file is exactly its rows: each is read from its arithmetic offset, none is missing. */
  lemma RawRows(sha: Sha256, file: Mapping, rowBytes: u32, row: u32, width: nat)
    requires OpenRaw(sha, file, rowBytes).Ok?
    ensures var s := OpenRaw(sha, file, rowBytes).value;
            && s.rowCount * s.rowBytes == |file| && s.rowBytes == rowBytes && s.rowCount > 0
            && s.digest == sha(file)
            && (row < s.rowCount ==> (row + 1) * rowBytes <= |file|)
            && s.read(row, width) ==
               if row >= s.rowCount then Err(Layout(LogicalRowOutOfRange(row, s.rowCount)))
               else if width != rowBytes then Err(RowBufferWidth(rowBytes, width))
               else Ok(file[row * rowBytes..(row + 1) * rowBytes])
  {
    var rowCount := |file| / rowBytes;
    DivModSum(|file|, rowBytes);
    MulNext(row, rowBytes);
    if row < rowCount {
      MulMono(row + 1, rowCount, rowBytes);
    }
  }
}
