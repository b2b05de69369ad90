# Verified model of the GB10X storage, hashing and cache-planning core

This Dafny project models three parts of GB10X and proves what they promise.

**PLEPack hot overlays** (`crates/gb10x-ple`). A trace of row batches is planned into hot-row
placements; a writer lays out a header, a sorted index and block-packed rows in a byte file; a reader
decodes and validates arbitrary bytes, binary-searches the index and falls back to the immutable cold
source. `LittleEndian`, `PackFormat` and `DiskFormat` hold the format and its codecs, `RowSources` the
row provider and its flat-file instance, `Layout` the planner, `Writer` the writer over a temporary
file with positioned writes, `Reader` the reader. `LayoutTheorems`, `WriterTheorems` and `Exactness`
build up to the end-to-end theorem: whatever was planned and written opens, and then serves every row
exactly as the source does.

**PLE hashing and the speculative token window** (`crates/gb10x-core/src/ple_hash.rs`). `PleHash`
models the hash plan and the window object; `Speculation` proves that for any operation sequence the
two-token window behaves as the full token histories would, and that speculation is invisible.

**CPU cache fabric and PLE-Hydra** (`crates/gb10x-runtime`). `CacheFabric` derives owners from a
topology, `HotPlanning` models the density sort and the greedy budget, `GreedyTheorems` proves how
close greedy plans are to optimal and what they conserve, `PleHydra` resolves keys to tiers.

`Machine`, `DivMod`, `Sequences` and `Sorting` hold fixed-width integers, division facts, facts about
ordered and duplicate-free sequences, and the standard library's sort by what it promises.

## Reading the model

- Integers are bounded subset types (`u8`, `u32`, `u64`, `u128`); `usize` is 64 bits wide, so
  conversions between `u64` and `usize` cannot fail and are not written out. Checked additions and
  multiplications keep their error branches.
- A mapped file is a byte string shorter than 2^64. SHA-256 is a parameter: any function from bytes
  to 32 bytes.
- A source is a function from row and buffer width to bytes or an error, so it cannot change between
  reads; nothing is assumed about which reads succeed.
- Values with private fields built by one constructor (hash plans, readers, fabrics) are required to
  satisfy what that constructor establishes. Layout plans can also be deserialized, so the writer
  accepts every plan, and the theorems about planned layouts say `Planned`.
- `WriteOutcome`, `OpenOutcome`, `PlanOf` and the `…State` functions are the specifications the
  methods are proved against; the lemmas say what those specifications mean.
- Sorting is by a comparator; where the source uses an unstable sort, either the keys are distinct or
  the outcome is an error whichever order results.
- `commit_append_prefix` is documented as committing a prefix of the staged tokens. The code replays
  whatever tokens it is given, staged or not, and the model follows the code; `RunRefines` covers any
  such tokens and `SpeculationIsTransparent` the documented use.

## Model

| member | source | states |
|---|---|---|
| `PackFormat.NewPackHeader` | crates/gb10x-ple/src/format.rs:96-132 | accepts exactly nonempty geometries whose rows fit a block and whose row IDs fit u32; each refusal names the first check that fails |
| `DiskFormat.NewDiskHeader` | crates/gb10x-ple/src/disk.rs:19-57 | accepts exactly the headers whose index size, data offset and overlay length are consistent and block aligned; each refusal names the first check that fails |
| `DiskFormat.EncodeHeader` | crates/gb10x-ple/src/disk.rs:59-74 | filling the 128-byte array field by field yields exactly the header's encoding |
| `LittleEndian.ToLeByte` | crates/gb10x-ple/src/disk.rs:59-74 | byte i of an encoded integer is value / 256^i % 256 |
| `DiskFormat.HeaderPreamble` | crates/gb10x-ple/src/disk.rs:59-63 | every header starts with the sixteen literal bytes of magic, version 1 and flags 1 |
| `DiskFormat.PreambleFaults` | crates/gb10x-ple/src/disk.rs:76-88 | short input, wrong magic, version or flags are refused exactly when those literal bytes differ, in that order |
| `DiskFormat.DecodeRevalidates` | crates/gb10x-ple/src/disk.rs:76-116 | decoding encoded fields, consistent or not, gives the outcome of validating them anew |
| `DiskFormat.DecodeEncodedHeader` | crates/gb10x-ple/src/disk.rs:59-116 | any bytes starting with an encoded valid header decode to that header |
| `DiskFormat.EncodeDecodedHeader` | crates/gb10x-ple/src/disk.rs:76-116 | any accepted bytes start with the encoding of the header they decode to |
| `DiskFormat.EncodeIndexEntry` | crates/gb10x-ple/src/disk.rs:119-124 | filling the 12-byte array yields the entry's encoding |
| `DiskFormat.IndexEntryCodec` | crates/gb10x-ple/src/disk.rs:119-131 | index entries and 12-byte strings are in bijection through the codec |
| `RowSources.ReadInto` | crates/gb10x-ple/src/source.rs:13-25 | a successful read leaves exactly the source's bytes in the caller's buffer |
| `RowSources.OpenRaw` | crates/gb10x-ple/src/source.rs:40-78 | accepts exactly nonempty files of whole rows whose count fits the row space; each refusal has its exact condition |
| `RowSources.RawRows` | crates/gb10x-ple/src/source.rs:94-124 | a flat file is exactly its rows and its digest is that of its bytes; reads fail only on the row or width check, never on arithmetic |
| `Layout.ColdOffsets` | crates/gb10x-ple/src/layout.rs:37-47 | the cold offset of an existing row never overflows; every other row is refused |
| `Layout.RowsPerBlock` | crates/gb10x-ple/src/layout.rs:100-105 | the greatest number of whole rows that fit a block |
| `Layout.CollectRows` | crates/gb10x-ple/src/layout.rs:107-122 | the physical order lists each traced row once, by first batch and then row ID; an error names the first out-of-range row in that order |
| `Layout.PlaceRow` | crates/gb10x-ple/src/layout.rs:126-146 | block and offset of an ordinal; none of the overflow checks fires |
| `Layout.PackRows` | crates/gb10x-ple/src/layout.rs:124-141 | every row is placed by its ordinal |
| `Layout.PlanExactLayout` | crates/gb10x-ple/src/layout.rs:77-150 | the complete outcome of planning, with overflow errors excluded |
| `Layout.HotOrderSize` | crates/gb10x-ple/src/layout.rs:118-121 | pigeonhole: no row is placed twice, so at most row_count rows are hot |
| `Writer.ValidateSourcePlan` | crates/gb10x-ple/src/writer.rs:154-172 | accepts exactly a source of the planned nonzero row count and width |
| `LayoutTheorems.PlanningSucceeds` | crates/gb10x-ple/src/layout.rs:83-128 | planning succeeds exactly for sound geometry and existing rows |
| `LayoutTheorems.PlanningIsCanonical` | crates/gb10x-ple/src/layout.rs:70-150 | the result, including the row an error names, depends only on the sequence of batch sets |
| `LayoutTheorems.PlacementsExtend` | crates/gb10x-ple/src/layout.rs:110-141 | appending batches extends the old placements as a prefix |
| `LayoutTheorems.HotRowsDistinct` | crates/gb10x-ple/src/layout.rs:107-122 | hot rows are distinct and at most 2^32 |
| `LayoutTheorems.SlotsInOrder` | crates/gb10x-ple/src/layout.rs:124-141 | a later row starts after an earlier one ends |
| `LayoutTheorems.PackingIsTight` | crates/gb10x-ple/src/layout.rs:124-141 | a placement determines its ordinal, rows stay in their block, every block but the last is full |
| `Writer.AlignUp` | crates/gb10x-ple/src/writer.rs:184-195 | the least aligned offset not below the value, or an error exactly when it does not fit u64 |
| `Writer.OverwriteAnywhere` | crates/gb10x-ple/src/writer.rs:107-112 | a positioned write covers exactly its interval, extends the file when it must and zero-fills gaps |
| `Writer.BuildEntries` | crates/gb10x-ple/src/writer.rs:42-58 | the loop builds, sorts and checks exactly the specified index, with its first error |
| `Writer.SerializeIndex` | crates/gb10x-ple/src/writer.rs:60-68 | the payload is the concatenation of the entry encodings |
| `Writer.CreateTempFile` | crates/gb10x-ple/src/writer.rs:103-112 | sizing, seeking and writing give the header and index over zeros |
| `Writer.WriteOneRow` | crates/gb10x-ple/src/writer.rs:116-129 | one row is read into the reused buffer and written at its place, or its error returned |
| `Writer.WriteHotRows` | crates/gb10x-ple/src/writer.rs:114-130 | all rows are written in physical order, stopping at the first error |
| `Writer.WriteOverlay` | crates/gb10x-ple/src/writer.rs:34-151 | the published bytes and report are the specified ones; a failed write leaves the path as it was |
| `WriterTheorems.OverlaySizeBound` | crates/gb10x-ple/src/writer.rs:174-182 | the overlay is exactly ceil(n / rows per block) blocks and fits u64 |
| `WriterTheorems.PlannedStarts` | crates/gb10x-ple/src/writer.rs:42-50 | planned offsets never overflow, are disjoint, stay in their block and in the region |
| `WriterTheorems.PlannedIndex` | crates/gb10x-ple/src/writer.rs:42-58 | sorting a planned index succeeds and keeps exactly one entry per placement, pointing at its offset |
| `WriterTheorems.UniqueRowsAccepted` | crates/gb10x-ple/src/writer.rs:42-58 | for any plan, planned or not, the index is accepted if and only if no two placements name the same row |
| `WriterTheorems.PlannedHeader` | crates/gb10x-ple/src/writer.rs:60-96 | for a planned layout and a source of its row count and width every size and header check passes; only data_offset + overlay_bytes can overflow |
| `WriterTheorems.FrameStep` | crates/gb10x-ple/src/writer.rs:114-130 | writing a row leaves earlier rows, header, index and padding untouched |
| `WriterTheorems.RowsFramed` | crates/gb10x-ple/src/writer.rs:114-130 | the row writes frame every row, or stop at the first unreadable one |
| `Exactness.PlannedWrite` | crates/gb10x-ple/src/writer.rs:34-151 | the exact outcome of writing a planned layout from any source: header, index, framed rows, or which of four failures |
| `Exactness.PlannedWriteSucceeds` | crates/gb10x-ple/src/writer.rs:34-151 | a planned write succeeds if and only if the source has the planned row count and width, the file fits u64 and every traced row is readable |
| `Exactness.FileSizeCanOverflow` | crates/gb10x-ple/src/writer.rs:94-96 | the remaining overflow is reachable: all 2^32 rows in blocks of 2^32 - 1 bytes |
| `Exactness.PayloadDecodes` | crates/gb10x-ple/src/writer.rs:66-68 | scanning a serialized index decodes to its entries |
| `Exactness.WrittenOpens` | crates/gb10x-ple/src/reader.rs:23-88 | what a planned write published opens, with the sorted entries as index |
| `Exactness.ForeignSourceRefused` | crates/gb10x-ple/src/reader.rs:28-32 | a planned sidecar opened with a source of another digest is refused for that reason |
| `Exactness.EndToEndExactness` | crates/gb10x-ple/src/reader.rs:23-143 | after plan and write, opening succeeds, every row reads as the source serves it, hot rows are the traced rows, verification counts each once |
| `Exactness.ReportDescribesFile` | crates/gb10x-ple/src/writer.rs:137-144 | the report gives the file's length, its index's place and contents, and its overlay bytes |
| `Exactness.VerificationIsExact` | crates/gb10x-ple/src/reader.rs:103-143 | on any accepted bytes and any source, verification succeeds if and only if every logical row is served exactly |
| `Exactness.MismatchNamesLeastRow` | crates/gb10x-ple/src/reader.rs:107-114 | a reported mismatch names the least row that is not served exactly |
| `Exactness.AcceptedReadsAreTotal` | crates/gb10x-ple/src/reader.rs:121-188 | on any accepted bytes indexed rows always read; other errors are argument checks or the source's own |
| `Exactness.RawWriteSucceeds` | crates/gb10x-ple/src/source.rs:94-124 | over a flat file a planned write succeeds if and only if the file is the planned rows and the sidecar fits u64 |
| `Exactness.RawFileServed` | crates/gb10x-ple/src/layout.rs:37-47 | through the overlay a flat file yields every row's bytes at its cold base offset, and the planner's refusal for every other row |
| `Reader.CheckEntry` | crates/gb10x-ple/src/reader.rs:249-278 | an entry passes exactly if it names a source row, follows its predecessor and lies in the region and one block; each refusal has its exact condition |
| `Reader.ValidateIndex` | crates/gb10x-ple/src/reader.rs:224-281 | the scan returns the first fault of the index in its order of checks |
| `Reader.ValidationAccepts` | crates/gb10x-ple/src/reader.rs:224-281 | an index is accepted if and only if rows ascend and every entry fits |
| `Reader.CheckSidecar` | crates/gb10x-ple/src/reader.rs:28-70 | accepted headers are consistent, carry the source's digest and geometry, account for every byte of the file and record the digest of its index |
| `Reader.Open` | crates/gb10x-ple/src/reader.rs:23-88 | opening returns the specified reader or error for any bytes |
| `Reader.OpenOutcome` | crates/gb10x-ple/src/reader.rs:23-88 | every reader that opens is valid over those bytes and that source, carries its digest and the digest of its index |
| `Exactness.OpensExactly` | crates/gb10x-ple/src/reader.rs:23-88 | a file opens if and only if it is an encoded valid header matching source, length and index digest, with a fitting index; the reader holds what the header says |
| `Exactness.OpenRefusals` | crates/gb10x-ple/src/reader.rs:28-70 | for a file with an encoded valid header, which error opening returns and exactly when |
| `Reader.EntriesReadable` | crates/gb10x-ple/src/reader.rs:145-222 | on any accepted bytes index_entry and overlay_row never fail for indexed entries |
| `Reader.ScanHits` | crates/gb10x-ple/src/reader.rs:190-203 | on ascending rows a linear scan returns the entry naming the row, wherever it is |
| `Reader.FindOverlayOffset` | crates/gb10x-ple/src/reader.rs:190-203 | the binary search terminates without error and returns what a linear scan would |
| `Reader.HasHotOverlay` | crates/gb10x-ple/src/reader.rs:96-101 | true exactly for indexed rows |
| `Reader.ReadExactRow` | crates/gb10x-ple/src/reader.rs:121-143 | the caller's buffer ends up with the overlay row or the cold row, or the specified error is returned |
| `Reader.VerifyHotOverlay` | crates/gb10x-ple/src/reader.rs:104-118 | returns the hot row count, or the first failing entry's error |
| `PleHash.NewPlan` | crates/gb10x-core/src/ple_hash.rs:43-100 | accepts exactly three multipliers and sixteen adjacent nonempty tables below 2^32; shape errors have their exact condition |
| `PleHash.FindPlanFault` | crates/gb10x-core/src/ple_hash.rs:70-92 | reports the first metadata fault, the head checks by first bad head |
| `PleHash.TableRow` | crates/gb10x-core/src/ple_hash.rs:142-143 | the head's offset plus the hash modulo the table size, inside the table; neither the addition nor the u32 conversion can fail |
| `PleHash.RowsInTables` | crates/gb10x-core/src/ple_hash.rs:128-145 | every emitted row is in its table and the sixteen rows strictly increase |
| `PleHash.XorIsBitwise` | crates/gb10x-core/src/ple_hash.rs:130-133 | bit k of the exclusive or is set if and only if bits k of the operands differ |
| `PleHash.RowsInClosedForm` | crates/gb10x-core/src/ple_hash.rs:126-145 | heads 0 to 7 emit the bigram hash, heads 8 to 15 the trigram hash, with products modulo 2^64, each modulo its table size plus its offset |
| `PleHash.XorInvolutive` | crates/gb10x-core/src/ple_hash.rs:130-133 | the modelled exclusive or undoes itself |
| `PleHash.MixTokens` | crates/gb10x-core/src/ple_hash.rs:129-133 | the mixing loop computes the n-gram hash |
| `PleHash.HashOrder` | crates/gb10x-core/src/ple_hash.rs:128-145 | the head loop fills exactly the rows of one n-gram order and returns no error |
| `PleHash.RowsForToken` | crates/gb10x-core/src/ple_hash.rs:116-149 | emits the rows of the token in closed form for the closed-form context, then appends it; a mismatched window is refused and left alone |
| `PleHash.PushAllExtendsContext` | crates/gb10x-core/src/ple_hash.rs:231-238 | pushing tokens turns the closed form of a history into that of the extended history |
| `PleHash.EosForgets` | crates/gb10x-core/src/ple_hash.rs:231-235 | the context after an EOS depends only on the tokens after it |
| `PleHash.PleTokenWindow.New` | crates/gb10x-core/src/ple_hash.rs:165-174 | an empty window padded with EOS, for n-gram size 3 only |
| `PleHash.PleTokenWindow.BeginAppend` | crates/gb10x-core/src/ple_hash.rs:177-185 | opens a transaction unless one is active, changing no history |
| `PleHash.PleTokenWindow.CommitAppend` | crates/gb10x-core/src/ple_hash.rs:188-193 | the staged history becomes committed |
| `PleHash.PleTokenWindow.CommitAppendPrefix` | crates/gb10x-core/src/ple_hash.rs:199-209 | the replay loop leaves the committed history extended by exactly the accepted tokens |
| `PleHash.PleTokenWindow.AbortAppend` | crates/gb10x-core/src/ple_hash.rs:212-219 | the staged history is dropped |
| `PleHash.PleTokenWindow.Snapshot` | crates/gb10x-core/src/ple_hash.rs:222-229 | a fresh equal window, refused inside a transaction |
| `PleHash.PleTokenWindow.PushToken` | crates/gb10x-core/src/ple_hash.rs:231-238 | `previous` stays the closed form of the extended history |
| `Speculation.RunRefines` | crates/gb10x-core/src/ple_hash.rs:116-219 | for every operation sequence the window's emissions, errors and final state are those of the full histories |
| `Speculation.PrefixExtremes` | crates/gb10x-core/src/ple_hash.rs:188-219 | committing all staged tokens as a prefix is committing, committing none is aborting |
| `Speculation.RoundIsStraightLine` | crates/gb10x-core/src/ple_hash.rs:177-219 | one speculative round acts and emits as hashing just its surviving tokens |
| `Speculation.SpeculationIsTransparent` | crates/gb10x-core/src/ple_hash.rs:116-219 | any sequence of rounds equals the straight-line run over the surviving tokens, in state and in rows |
| `Speculation.StraightLineRows` | crates/gb10x-core/src/ple_hash.rs:116-149 | the i-th rows are the closed-form hash of the i-th token in the closed-form context of the tokens before it |
| `Speculation.SpeculativeRows` | crates/gb10x-core/src/ple_hash.rs:116-219 | from an empty window, the final window and the i-th surviving rows in closed form over the surviving tokens |
| `CacheFabric.PrivateL2` | crates/gb10x-runtime/src/cache_fabric.rs:137-146 | the size of the largest private data-capable L2 of a CPU, if it has one |
| `CacheFabric.OwnerRefusal` | crates/gb10x-runtime/src/cache_fabric.rs:137-153 | a CPU is refused exactly when no private L2 of its own holds the budget, and the error says whether it has one and how large |
| `CacheFabric.FindDuplicate` | crates/gb10x-runtime/src/cache_fabric.rs:129-134 | finds the least repeated CPU |
| `CacheFabric.BuildOwners` | crates/gb10x-runtime/src/cache_fabric.rs:135-158 | one owner per CPU, or the error of the least CPU that cannot carry the budget |
| `CacheFabric.FromTopology` | crates/gb10x-runtime/src/cache_fabric.rs:119-160 | the complete outcome: ascending owners with the budget within their private L2, or the least offender |
| `CacheFabric.TopologyOutcome` | crates/gb10x-runtime/src/cache_fabric.rs:119-160 | accepted if and only if CPUs are nonempty, distinct and each has a private data-capable L2 of at least the budget; what every error says of caches and CPUs |
| `CacheFabric.TopologyIsCanonical` | crates/gb10x-runtime/src/cache_fabric.rs:119-160 | fabric and errors do not depend on the order of caches or compute CPUs |
| `CacheFabric.FabricDetermined` | crates/gb10x-runtime/src/cache_fabric.rs:163-176 | owner CPUs and budget determine a canonical fabric |
| `CacheFabric.RoutingRotates` | crates/gb10x-runtime/src/cache_fabric.rs:168-171 | consecutive keys are dealt to the owners in turn, from the first |
| `HotPlanning.DensityTransitive` | crates/gb10x-runtime/src/cache_fabric.rs:210-211 | cross-multiplied densities compare transitively for nonzero sizes |
| `HotPlanning.DensityOrder` | crates/gb10x-runtime/src/cache_fabric.rs:209-217 | the comparator is a strict total order on valid candidates: greater savings per byte first, then smaller key |
| `HotPlanning.ProductBound` | crates/gb10x-runtime/src/cache_fabric.rs:210-211 | a density product of two u64 values fits u128 |
| `HotPlanning.CheckCandidates` | crates/gb10x-runtime/src/cache_fabric.rs:186-195 | reports the first zero-sized candidate, else the first repeated key |
| `HotPlanning.FilterOwned` | crates/gb10x-runtime/src/cache_fabric.rs:205-208 | exactly the CPU's candidates, in input order |
| `HotPlanning.FillBudget` | crates/gb10x-runtime/src/cache_fabric.rs:219-233 | the greedy loop's placements and remaining bytes |
| `HotPlanning.PlanHotCandidates` | crates/gb10x-runtime/src/cache_fabric.rs:179-242 | the complete outcome of planning for any fabric and candidates |
| `GreedyTheorems.PlanningAccepts` | crates/gb10x-runtime/src/cache_fabric.rs:179-195 | planning succeeds if and only if there are owners, no candidate is empty and no key repeats |
| `GreedyTheorems.SortingRanks` | crates/gb10x-runtime/src/cache_fabric.rs:209-217 | the sort yields a strictly ranked permutation |
| `GreedyTheorems.RankedByDensityThenKey` | crates/gb10x-runtime/src/cache_fabric.rs:209-217 | an owner's candidates are tried by cross-multiplied density, ties by smaller key |
| `GreedyTheorems.PlanIsCanonical` | crates/gb10x-runtime/src/cache_fabric.rs:179-242 | a successful plan is identical for every permutation of the candidates |
| `GreedyTheorems.PlacedExactlyIfFits` | crates/gb10x-runtime/src/cache_fabric.rs:220-233 | a worthwhile candidate is placed if and only if it fits what the earlier placements leave |
| `GreedyTheorems.Exchange` | crates/gb10x-runtime/src/cache_fabric.rs:204-233 | against the density of a candidate no choice beats the candidates ranked before it |
| `GreedyTheorems.GreedyNearOptimal` | crates/gb10x-runtime/src/cache_fabric.rs:204-233 | every choice within budget saves strictly less than the placements before the first rejection plus the rejected candidate |
| `GreedyTheorems.GreedyCanBeBeaten` | crates/gb10x-runtime/src/cache_fabric.rs:220-233 | two entries for which greedy is not optimal, so the bound is needed |
| `GreedyTheorems.GreedyOptimalWhenAllFit` | crates/gb10x-runtime/src/cache_fabric.rs:204-233 | with no rejection no choice saves more |
| `GreedyTheorems.GreedyOptimalForEqualSizes` | crates/gb10x-runtime/src/cache_fabric.rs:204-233 | with equal sizes greedy attains the maximum savings within budget |
| `GreedyTheorems.OwnerPlanNearOptimal` | crates/gb10x-runtime/src/cache_fabric.rs:204-233 | the three guarantees for the savings the finished plan places on each owner's CPU, against every set of its candidates in caller order |
| `GreedyTheorems.PlanPlacesAccepted` | crates/gb10x-runtime/src/cache_fabric.rs:204-233 | the finished plan places on each owner's CPU exactly what its greedy loop accepted, in order |
| `GreedyTheorems.DominatingPlaced` | crates/gb10x-runtime/src/cache_fabric.rs:209-233 | a candidate no larger and no less worthwhile than a placed one of the same owner is placed, at equal size and savings the smaller key |
| `GreedyTheorems.OwnersPartition` | crates/gb10x-runtime/src/cache_fabric.rs:205-208 | every candidate is considered by exactly one owner |
| `GreedyTheorems.PlanIsSound` | crates/gb10x-runtime/src/cache_fabric.rs:204-234 | no key is placed twice; every placement is a worthwhile candidate on the owner of its key |
| `GreedyTheorems.PlanConservesBudget` | crates/gb10x-runtime/src/cache_fabric.rs:102-108 | for each owner CPU placed bytes and reported remaining bytes make up the budget |
| `GreedyTheorems.OthersHaveNoBudget` | crates/gb10x-runtime/src/cache_fabric.rs:102-108 | no remaining budget is reported for a CPU that is no owner |
| `PleHydra.PleHydraTierCounts.Record` | crates/gb10x-runtime/src/ple_hydra.rs:58-73 | counts one lookup of its tier, saturating |
| `PleHydra.FromHotCachePlanWithMode` | crates/gb10x-runtime/src/ple_hydra.rs:157-207 | the complete outcome for any plan, misplaced entries reported by the first |
| `PleHydra.SimulateTrace` | crates/gb10x-runtime/src/ple_hydra.rs:234-250 | one access per key in order, and the tier counts of the trace |
| `PleHydra.SimulationMatchesPlan` | crates/gb10x-runtime/src/ple_hydra.rs:234-250 | each access names its key and the tier the plan and warm lists give it; tier counts are counts of reported accesses |
| `PleHydra.PlannedNeverMisplaced` | crates/gb10x-runtime/src/ple_hydra.rs:171-200 | a plan passing the owner and budget check came from this fabric, so no placement mismatch can follow |
| `PleHydra.TierMatchesPlan` | crates/gb10x-runtime/src/ple_hydra.rs:215-231 | a key is owner-hot if and only if the plan placed it; other keys go to the first warm tier listing them |
| `PleHydra.SimulationsAdd` | crates/gb10x-runtime/src/ple_hydra.rs:234-250 | below 2^64 lookups counters are exact, sum to the trace length and add over concatenation |
| `PleHydra.CountsArePositions` | crates/gb10x-runtime/src/ple_hydra.rs:57-73 | a tier's count is the number of trace positions it serves |

## Left out

- Filesystem work: temporary file names, directory creation, syncing, renaming and mapping calls, and their I/O errors. A published file is its final bytes; an empty file is a byte string the header check refuses.
- SHA-256 itself and collision reasoning; digests are compared, never assumed collision-free.
- Error message texts and the context strings of `overlay_row`; errors are constructors, one per distinct reason.
- `crates/gb10x-core/src/qwen38.rs`, `crates/gb10x-runtime/src/validate.rs`, `crates/gb10x-telemetry` and `crates/gb10x-runtime/src/linux_probe.rs`: flat field checks and text parsing, which would add only easy members.
- Command-line tools, JSON rendering and accessors that only return a field.
- PLE-Hydra mode labels beyond whether the label is blank.
- Readers, fabrics, hydras and plans are values, because the source never updates them after construction; the token window, the tier counters, the written file and the caller's buffers are objects and arrays.
- What a source leaves in the caller's buffer when it returns an error is not specified.
