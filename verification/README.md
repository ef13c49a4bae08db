# A verified model of oxih5's format core

A Dafny model of the parts of oxih5, a Rust reader and writer for HDF5 files,
where the arithmetic and the recursion are: strided selections and chunked
assembly, virtual-dataset selections, the global heap, the value decoder, the
filters, the fractal heap, object headers, datatype messages and two chunk
indexes. Loops of the source are methods proved against functions; what the
source promises is proved about those functions.

The modules follow the source files.

- `Grid`, `Hyperslab`, `ChunkedHyperslab`, `Vds`, `VdsBlocks`, `DatasetSlice`,
  `FixedArray`: four readers of a selection and the chunk grid. The readers
  agree exactly when the selection lies in the dataset and its blocks do not
  overlap.
- `ChunkedWriter`, `ChunkIndex`, `ChunkIndexReads`, `ChunkedFile`: the dataset
  writer's tiles, filters, chunk B-tree and file places. Together with the
  readers: whatever chunking and filters a dataset is written with, reading any
  selection of disjoint blocks from the file succeeds, as if gathered from the
  written data.
- `GlobalHeap`, `GlobalHeapWriter`, `Values`, `VlenRoundTrip`: packing is
  optimal, serialization is undone by parsing at any alignment, caching does not
  show, strings come back.
- `Fletcher32`, `BitPacking`, `Filters`: the checksum's closed form and what it
  detects, bit packing, and reading as the inverse of writing.
- `FractalHeap`, `FractalHeapFlat`, `FractalHeapHeader`: the doubling table as a
  flat address space, and exactly when reading it ends, in builds with overflow
  checks and without.
- `ObjectHeader`, `ObjectHeaderV1`: how messages are spread over blocks does not
  matter.
- `Dtypes`, `Datatype`, `DatatypeEncoding`: a self-delimiting parser that reads
  every encoded datatype back.
- `DatatypeWriter`, `WrittenDatatypes`: the dataset writer's own datatype
  messages, and exactly what of them the parser gives back.
- `BTreeV1`: a faithful, always ending tree traversal.
- `Arithmetic`, `Powers`, `Common`, `Elements`: shared facts and vocabulary.

Addresses, lengths and element counts are unbounded naturals. The 32-bit
accumulators of the checksum, the 64-bit words of the bit unpacker, the
shifts, products and saturating sums of the doubling table and the 16- and
32-bit index casts of the heap writer are modelled as they are. Error kinds are kept, error
texts are not; `Panic` marks what aborts instead of returning in a checked build:
a slice out of range, a shift by the word's width, an overflowing 64-bit product
in the doubling table, a division by a zero chunk dimension. The doubling table
is modelled for a build without overflow checks as well, where such a product
wraps.

Where the code and its documentation differ, the model follows the code:

- `DimSelection::contains` and the documented set part ways when a block is
  longer than its stride, which `validate` accepts. `ContainsIsDocumented` and
  `ReadersAgreeExactlyWhenDisjoint` give the exact condition.
- `fold_regular_blocks` and the single-block case of the version-1 parser are
  correct for the documented set, and so for the enumeration; a folded dimension
  of stride 1, count 1 and block above 1 is one the membership test reads
  differently.
- The offsets of `selection_element_offsets` are sorted only under the condition
  of `OffsetsSortedExactlyWhen`.
- A collection built as one block with more than 65535 objects does not read
  back (`ParseUndoesSerialize`); strings that contain NUL are cut there
  (`StringsRoundTrip`).
- A tracked-creation-order main header block reads four or five stray bytes
  before its checksum as a record when they look like one:
  `HeaderReadExactlyWhenGapHarmless` gives the exact condition, `StrayMessage` an
  input.
- Reading an object of a fractal heap does not end on every image. It does
  exactly when the table has no rows, no columns or no 8-byte entries, or its
  starting block size is positive and direct, or is 0 with at most 65 rows or
  with every size direct (`ReadEndsExactlyWhen`). A build with overflow checks
  also ends, by aborting, where a starting size that is not direct overflows
  with the width, and where a starting size of 0 has a width of at least 2.
- A compound datatype is written with a record size that the parser drops: the
  reader takes the end of the furthest member instead (`StrideReadsBack`,
  `PaddedRecord`). A UTF-8 string member or base is read back as ASCII
  (`CompoundReadsBack`, `MemberKept`).

## Model

| member | source | states |
|---|---|---|
| `Grid.RowMajorStrides` | crates/oxih5-format/src/hyperslab.rs:261-271 | stride d is the product of the later dimensions, for every rank including 0 |
| `Grid.FlatToCoords` | crates/oxih5-format/src/hyperslab.rs:273-282 | the division loop yields the mixed-radix coordinates of a flat position, zero strides included |
| `Grid.UnravelInBox` | crates/oxih5-format/src/hyperslab.rs:261-282 | coordinates of a position below the product lie in the box and lead back to the position |
| `Grid.UnravelRavel` | crates/oxih5-format/src/hyperslab.rs:261-282 | a coordinate of the box is recovered from its flat position, so positions and coordinates are in bijection |
| `Grid.OdometerStep` | crates/oxih5-core/src/lib.rs:517-549 | incrementing one digit and wrapping the full digits after it moves the flat position by exactly one |
| `Hyperslab.ContainsIsDocumented` | crates/oxih5-format/src/hyperslab.rs:5-64 | the division test accepts exactly the documented set {start + k*stride + j} if and only if the selection is empty or block <= stride |
| `Hyperslab.ContainedRoundTrip` | crates/oxih5-format/src/hyperslab.rs:51-64 | a contained coordinate is not past the last element, has an output coordinate within the selection, and the gather arithmetic leads back to it |
| `Hyperslab.ReachedRoundTrip` | crates/oxih5-format/src/hyperslab.rs:157-255 | an output coordinate is reached by the scatter exactly through a contained coordinate that maps back to it |
| `Hyperslab.SourceInBounds` | crates/oxih5-format/src/hyperslab.rs:91-102 | every selected coordinate lies in the bounding ranges |
| `Hyperslab.OutFlatOfContained` | crates/oxih5-format/src/hyperslab.rs:157-255 | contained coordinates map into the output, to a reached position whose source they are |
| `Hyperslab.SourceOfReached` | crates/oxih5-format/src/hyperslab.rs:157-255 | the converse: each reached output position comes from its contained source |
| `Hyperslab.ScatterChunkHyperslab` | crates/oxih5-format/src/hyperslab.rs:157-255 | the in-place scatter succeeds exactly for matching ranks and a valid selection; then the buffer, of any length and for any output shape, is the old one after one guarded element copy per visit to a contained coordinate of the overlap; on error nothing changes |
| `Hyperslab.ScatterElems` | crates/oxih5-format/src/hyperslab.rs:157-255 | with the selection's own output shape and a buffer of that many elements, every output element is the chunk element of its source when the chunk contributes to it, and unchanged otherwise |
| `ChunkedHyperslab.GatherHyperslabContiguous` | crates/oxih5-format/src/chunked_hyperslab.rs:283-350 | errors, the empty selection, and otherwise the buffer whose f-th element is the dataset element at the row-major position of the f-th selected coordinate |
| `ChunkedHyperslab.BuildChunkMap` | crates/oxih5-format/src/chunked_hyperslab.rs:138-144 | the map finds, for every origin, the last record listed with that origin; records of too low rank are ignored |
| `ChunkedHyperslab.InOneCell` | crates/oxih5-format/src/chunked_hyperslab.rs:160-171 | a coordinate lies in the chunk of its own grid cell and in no other |
| `ChunkedHyperslab.CoveredExactlyOnce` | crates/oxih5-format/src/chunked_hyperslab.rs:160-275 | exactly one of the enumerated overlapping chunks holds the source of an output element |
| `ChunkedHyperslab.ReadChunkedHyperslab` | crates/oxih5-format/src/chunked_hyperslab.rs:31-276 | rejections, the empty selection, the error of the first overlapping chunk that cannot be decoded, and otherwise the buffer read element by element from the owning chunks, fill or zeros where a chunk is absent; resolved records are an input |
| `ChunkedHyperslab.ChunkedReadRefinesGather` | crates/oxih5-format/src/chunked_hyperslab.rs:159-350 | for disjoint blocks inside the dataset and chunks that tile it, every overlapping chunk can be read and the assembled bytes equal the flat gather |
| `ChunkedHyperslab.ReaderReturnsGather` | crates/oxih5-format/src/chunked_hyperslab.rs:31-350 | the results themselves: on a tiled dataset the chunked reader succeeds and returns what the flat gather returns, for every selection of disjoint blocks inside it, empty ones included, and every accepted form of the chunk dimensions |
| `ChunkedHyperslab.ReadersAgreeExactlyWhenDisjoint` | crates/oxih5-format/src/chunked_hyperslab.rs:31-350 | for a non-empty selection and any chunking, the two readers return the same, errors included, on all datasets if and only if the selection lies inside the dataset and no block is longer than its stride |
| `ChunkedWriter.ChunkOrigins` | crates/oxih5/src/write/chunked.rs:303-321 | the writer lists one origin per grid cell, in the order in which the fixed-array reader derives them |
| `ChunkedWriter.CutTile` | crates/oxih5/src/write/payload.rs:199-236 | element by element: the tile is the dataset inside the shape and zero where it hangs over the edge |
| `ChunkedWriter.WholeTileIsDataset` | crates/oxih5/src/write/payload.rs:103-122 | borrowing the dataset instead of cutting its only tile gives the same bytes |
| `ChunkedWriter.Build` | crates/oxih5/src/write/payload.rs:101-125 | one image per origin, in order, each the filtered tile; the first filter error is returned |
| `ChunkedWriter.WrittenChunksTile` | crates/oxih5/src/write/payload.rs:82-126 | whatever the chunking and filters, the written chunks, read back through the inverse filters, tile the dataset |
| `ChunkedWriter.LayoutChunkDims` | crates/oxih5/src/write/chunked.rs:162-172 | the chunk shape followed by the element size, or an error when one does not fit 32 bits |
| `ChunkedWriter.WrittenDataReadsBack` | crates/oxih5-format/src/chunked_hyperslab.rs:31-276 | from the writer's images and layout dimensions to the reader: the read of any selection of disjoint blocks succeeds and returns what the gather returns on the data that was written |
| `ChunkIndex.WriteNode` | crates/oxih5/src/write/chunked.rs:405-498 | refuses too many children and keys of the wrong rank; else the buffer holds the node image at the address: header, siblings, keys with their children, the closing key, zeros to the fixed width |
| `ChunkIndex.Plan` | crates/oxih5/src/write/chunked.rs:517-546 | the node counts of all levels; over 2^24 chunks is an error, and the cap of 8 levels never binds |
| `ChunkIndex.ChunkTree.Assign` | crates/oxih5/src/write/chunked.rs:554-564 | levels are placed one after another, leaves first, and the root address is the last level's |
| `ChunkIndex.ChunkTree.Write` | crates/oxih5/src/write/chunked.rs:588-691 | succeeds exactly for the planned number of entries of the right rank; then the buffer holds the image of all levels from the base on |
| `ChunkIndexReads.TreeRepresented` | crates/oxih5-format/src/btree_v1_chunk.rs:56-160 | a written tree represents an abstract tree with the same in-order records |
| `ChunkIndexReads.IndexReadsBack` | crates/oxih5-format/src/btree_v1_chunk.rs:46-160 | for any number of entries the traversal of the written index returns them in order, whatever the closing key and the bytes around |
| `ChunkedFile.Reserve` | crates/oxih5/src/write/payload.rs:168-180 | images are placed one after another, each padded to 8 bytes |
| `ChunkedFile.CopyImages` | crates/oxih5/src/write/build.rs:227-242 | copies every image to its place, keeping those before it, and lists the entries; an image of 2^32 bytes or more is an error |
| `ChunkedFile.WriteDataset` | crates/oxih5/src/write/build.rs:217-258 | succeeds exactly within the limits; then the index and every image stand in the file, and the root address is returned |
| `ChunkedFile.FileYieldsRecords` | crates/oxih5-format/src/chunked_hyperslab.rs:123-144 | from such a file the reader recovers, in order, the records with the images behind them |
| `ChunkedFile.FileReadsBack` | crates/oxih5-format/src/chunked_hyperslab.rs:31-276 | from raw data through the file and back: whatever the chunking and filters, reading a selection of disjoint blocks from the file succeeds with what the gather gives on the written data |
| `ChunkedWriter.PaddingNeverLeaks` | crates/oxih5-format/src/chunked_hyperslab.rs:234-275 | chunk contents beyond the dataset edge never influence a read |
| `Vds.Increment` | crates/oxih5-format/src/vds.rs:228-239 | one odometer step is the next multi-index, or the end when all digits are full |
| `Vds.SelectionElementOffsets` | crates/oxih5-format/src/vds.rs:160-243 | none, all, and a hyperslab: errors for wrong rank and out-of-range coordinates, empty for an empty dimension, else one offset per output position in row-major order |
| `Vds.InBoundsIsDocumented` | crates/oxih5-format/src/vds.rs:199-210 | enumeration succeeds exactly when every documented coordinate lies in the dataspace |
| `Vds.OffsetsAreDocumented` | crates/oxih5-format/src/vds.rs:160-243 | the listed offsets are exactly the row-major indices of the documented coordinates, overlapping blocks included |
| `Vds.OffsetsSortedExactlyWhen` | crates/oxih5-format/src/vds.rs:160-243 | the offsets are strictly increasing if and only if each dimension has count <= 1 or block <= stride |
| `VdsBlocks.EquallySpaced` | crates/oxih5-format/src/vds.rs:418-482 | the window test decides whether consecutive starts differ by the stride |
| `VdsBlocks.FoldRegularBlocks` | crates/oxih5-format/src/vds.rs:418-482 | folds exactly the block lists that are regular along one dimension, and into the matching hyperslab |
| `VdsBlocks.FoldPreservesSet` | crates/oxih5-format/src/vds.rs:418-482 | a coordinate is in some block exactly when each component is in the documented set of the folded selection |
| `VdsBlocks.Reader.U32` | crates/oxih5-format/src/vds.rs:504-524 | the bounds-checked cursor advances by four bytes and yields the field, or stays and fails |
| `VdsBlocks.ParseHyperslabV1Blocks` | crates/oxih5-format/src/vds.rs:344-413 | rank and count guards, the single block, regular lists folded, irregular lists refused |
| `VdsBlocks.BoxSlabIsBlock` | crates/oxih5-format/src/vds.rs:390-402 | the selection made from a single block selects exactly that block |
| `VdsBlocks.BlocksRoundTrip` | crates/oxih5-format/src/vds.rs:369-388 | reading an encoded block list gives the list back |
| `DatasetSlice.Slice` | crates/oxih5-core/src/lib.rs:476-561 | the odometer copy: errors, empty boxes, and otherwise every output element from its shifted coordinate |
| `DatasetSlice.ReadersNameSameElement` | crates/oxih5-core/src/lib.rs:517-549 | the slicer, the gather on the contiguous selection and the selection enumeration name the same source element for every output position |
| `DatasetSlice.SliceIsGather` | crates/oxih5-core/src/lib.rs:476-561 | slicing a non-empty box is gathering its contiguous selection |
| `DatasetSlice.SliceOfSlice` | crates/oxih5-core/src/lib.rs:476-561 | slicing a slice equals one slice with shifted ranges |
| `FixedArray.ElementOriginInside` | crates/oxih5-format/src/fa_index.rs:220-297 | every element position below the chunk count yields a chunk-aligned origin inside the dataset |
| `FixedArray.OriginsBijection` | crates/oxih5-format/src/fa_index.rs:220-297 | element positions and chunk-aligned origins inside the dataset are in bijection |
| `FixedArray.TilesDataset` | crates/oxih5-format/src/fa_index.rs:331-349 | each dataset coordinate lies in the chunk box of one element position and no other |
| `FixedArray.ComputeGridDims` | crates/oxih5-format/src/fa_index.rs:331-349 | exact counts when the ranks agree, the fallback grid otherwise, none without elements or chunk dimensions; a zero chunk dimension aborts |
| `FixedArray.ParseOffsets` | crates/oxih5-format/src/fa_index.rs:352-390 | inline offsets of 1, 2, 4 or 8 bytes, one per dimension; other widths are an error |
| `FixedArray.ParseFixedArray` | crates/oxih5-format/src/fa_index.rs:75-319 | for every rank and whatever dimensions are known: header and data-block checks, then the records of the elements in order with computed or inline offsets, undefined addresses skipped, or the first failure |
| `FixedArray.OriginsDistinct` | crates/oxih5-format/src/fa_index.rs:220-297 | different element positions, however many, have different origins |
| `FixedArray.RecordPosition` | crates/oxih5-format/src/fa_index.rs:220-319 | whatever element count the header claims, every parsed record carries the origin of its own element, and no two records share one |
| `FixedArray.OwnerOfElement` | crates/oxih5-format/src/chunked_hyperslab.rs:138-144 | the chunked reader finds at an element's origin that element's record, and nothing for an empty slot |
| `FixedArray.ReaderFindsElements` | crates/oxih5-format/src/chunked_hyperslab.rs:234-262 | at every aligned origin inside the dataset the chunked reader gets the resolved bytes of the element at that origin's position, or the fill for an empty or missing one |
| `GlobalHeap.Parse` | crates/oxih5-format/src/global_heap.rs:51-183 | the scanning loop: signature and version checks, 8-byte alignment relative to the collection, and where it stops |
| `GlobalHeap.IndexRange` | crates/oxih5-format/src/global_heap.rs:108-183 | parsed object indices are 16-bit and never zero |
| `GlobalHeapWriter.Writer.WriteBytes` | crates/oxih5-format/src/global_heap_writer.rs:131-134 | appends the object and returns its 1-based ordinal |
| `GlobalHeapWriter.Writer.BuildCollections` | crates/oxih5-format/src/global_heap_writer.rs:166-200 | serialized collections of the greedy split, and a location for every object |
| `GlobalHeapWriter.PackIsSplit` | crates/oxih5-format/src/global_heap_writer.rs:166-200 | the greedy collections are non-empty, keep the order, and each is a single object or within 64 KiB |
| `GlobalHeapWriter.GreedyStaysAhead` | crates/oxih5-format/src/global_heap_writer.rs:166-200 | from any point on, no admissible split of the remaining objects needs fewer collections than the greedy packer |
| `GlobalHeapWriter.PackingIsOptimal` | crates/oxih5-format/src/global_heap_writer.rs:166-200 | the greedy packer uses the fewest collections of any admissible in-order split |
| `GlobalHeapWriter.ObjectCapNeverBinds` | crates/oxih5-format/src/global_heap_writer.rs:173-186 | an admissible collection holds at most 4095 objects, so the 65535 cap and the 16-bit index never bind |
| `GlobalHeapWriter.LocationsAreExact` | crates/oxih5-format/src/global_heap_writer.rs:166-200 | each object is found in the collection and at the 1-based index its location names, at its own position in insertion order |
| `GlobalHeapWriter.LocationsAreOnto` | crates/oxih5-format/src/global_heap_writer.rs:166-200 | every slot of every collection is the location of one object; with exactness the location map is a bijection |
| `GlobalHeapWriter.DeclaredSizeIsLeast` | crates/oxih5-format/src/global_heap_writer.rs:292-304 | the declared size is a multiple of 8, at least 4096, and the least power of two that fits up to 65536, tight beyond |
| `GlobalHeapWriter.SerializeCollection` | crates/oxih5-format/src/global_heap_writer.rs:238-286 | header, padded entries, and the free-space object, eight bytes or nothing for the leftover |
| `GlobalHeapWriter.ParsesWhereStored` | crates/oxih5-format/src/global_heap.rs:51-183 | a collection stored anywhere, aligned or not, parses to its objects at indices 1..n and nothing else |
| `GlobalHeapWriter.ParseUndoesSerialize` | crates/oxih5-format/src/global_heap.rs:51-183 | with arbitrary bytes around it, parsing gives the objects back if and only if there are at most 65535 |
| `Values.HeapCache.ObjectBytes` | crates/oxih5-format/src/values.rs:129-143 | the cached lookup returns what a fresh parse returns, keeps every entry equal to a fresh parse, and adds at most the address asked for |
| `Values.HeapCache.DecodeOne` | crates/oxih5-format/src/values.rs:437-840 | for every datatype and depth the caching decoder returns what the uncached one returns, floats as bit patterns, and keeps the cache valid |
| `Values.HeapCache.DecodeVarLen` | crates/oxih5-format/src/values.rs:800-835 | the same for the sequence behind a variable-length reference |
| `Values.HeapCache.DecodeCompoundElement` | crates/oxih5-format/src/values.rs:329-360 | the same for the fields of a compound element, at their offsets |
| `Values.ShallowerDecodes` | crates/oxih5-format/src/values.rs:437-840 | a value decoded at some depth decodes the same at any smaller depth |
| `Values.DecodeVlenStrings` | crates/oxih5-format/src/values.rs:156-198 | the batch is the map of the uncached single decode, or its first error |
| `Values.DecodeVlenSequences` | crates/oxih5-format/src/values.rs:208-291 | the batch is the map of the uncached single decode, or its first error |
| `Values.BatchIsMap` | crates/oxih5-format/src/values.rs:208-291 | whenever each reference decodes at depth 0 as a variable-length value, the batch succeeds and is exactly that list |
| `VlenRoundTrip.ObjectFound` | crates/oxih5-format/src/values.rs:97-143 | the reference filled in from the location map leads to its object, whatever precedes and follows the collections |
| `VlenRoundTrip.StringsRoundTrip` | crates/oxih5-format/src/values.rs:156-198 | packing, storing and referencing a list of strings and decoding it gives the list back if and only if no string contains NUL |
| `Filters.Shuffle` | crates/oxih5-format/src/filters.rs:353-374 | the nested loops transpose the byte grid, and refuse sizes that do not divide |
| `Filters.Unshuffle` | crates/oxih5-format/src/filters.rs:389-410 | the nested loops transpose it back, with the same refusals |
| `Filters.ShuffleInverse` | crates/oxih5-format/src/filters.rs:353-410 | shuffle and unshuffle are inverse permutations in both orders |
| `Filters.ApplyOneInverse` | crates/oxih5-format/src/filters.rs:109-200 | which inverse each filter id and client data selects, with its errors |
| `Filters.ApplyPipelineSized` | crates/oxih5-format/src/filters.rs:89-106 | unmasked stages are undone from the last to the first; stages from 32 on have no mask bit |
| `Filters.ReadInvertsWrite` | crates/oxih5-format/src/filters.rs:89-106 | for every list of stages, every mask and all data the forward stages accept, reading gives the data back |
| `Filters.ApplyWritePipeline` | crates/oxih5/src/write/payload.rs:145-164 | shuffle, then deflate, then checksum, with the first error |
| `Filters.StoredTileReadsBack` | crates/oxih5/src/write/pipeline.rs:87-114 | what the dataset writer stores is undone by the reader given the stages the writer records |
| `Filters.ScaleOffsetChunkReadsBack` | crates/oxih5-format/src/filters.rs:150-181 | a scale-offset chunk of packed values decodes to the values plus the minimum |
| `Fletcher32.BlockNeverWraps` | crates/oxih5-format/src/filters.rs:468-496 | within 360 words no 32-bit addition can wrap, whatever came before |
| `Fletcher32.Compute` | crates/oxih5-format/src/filters.rs:468-496 | the wrapping, deferred-carry loop computes the closed form: canonical residues of the sum and of the sum of prefix sums |
| `Fletcher32.VerifyFletcher32` | crates/oxih5-format/src/filters.rs:433-453 | too short, mismatch, or the payload |
| `Fletcher32.VerifiesExactly` | crates/oxih5-format/src/filters.rs:433-453 | a payload with a 32-bit checksum verifies exactly when the checksum is its own |
| `Fletcher32.VerifyUndoesAppend` | crates/oxih5-format/src/filters.rs:420-453 | verifying undoes appending |
| `Fletcher32.OneWordChange` | crates/oxih5-format/src/filters.rs:433-496 | exactly which single-word changes go unnoticed |
| `Fletcher32.IncongruentWordRejected` | crates/oxih5-format/src/filters.rs:433-496 | replacing a word by one not congruent modulo 65535 is always rejected |
| `Fletcher32.WordExchange` | crates/oxih5-format/src/filters.rs:433-496 | exactly which exchanges of two words go unnoticed |
| `BitPacking.UnpackNBit` | crates/oxih5-format/src/filters.rs:524-578 | parameter errors, the abort of shifts by 64 or more, and otherwise each field most significant bit first, shifted into place |
| `BitPacking.DecodeScaleOffsetInt` | crates/oxih5-format/src/filters.rs:606-672 | pass-through, unpacking errors, and each element sign-extended, offset by the minimum (missing bytes zero) and truncated |
| `BitPacking.WordOfPacked` | crates/oxih5-format/src/filters.rs:524-578 | unpacking an MSB-first packing gives each value back at its bit offset, across byte boundaries |
| `BitPacking.ScaleOffsetInvertsPacking` | crates/oxih5-format/src/filters.rs:606-672 | decoding succeeds and its first elements are the packed values plus the minimum modulo the element range |
| `FractalHeap.Heap.NumDirectRows` | crates/oxih5-format/src/fractal_heap.rs:401-411 | the count of leading rows whose blocks are direct |
| `FractalHeap.Heap.ComputeIndirectNrows` | crates/oxih5-format/src/fractal_heap.rs:579-591 | the first row count, at most 256, that covers the size; a row width beyond 64 bits aborts a checked build and wraps in any other |
| `FractalHeap.Heap.ReadFromIndirectBlock` | crates/oxih5-format/src/fractal_heap.rs:494-572 | the loops find the first entry that holds the offset and follow it; errors for signatures, entries and unallocated blocks; where a 64-bit product overflows a checked build aborts and any other goes on with it wrapped |
| `FractalHeap.SubRowsBound` | crates/oxih5-format/src/fractal_heap.rs:579-591 | while no row width wraps, a block of some row needs no more rows than its own row number, even where sizes lose bits or saturate |
| `FractalHeap.LookupTerminates` | crates/oxih5-format/src/fractal_heap.rs:494-572 | on every image the lookup ends, for every table that satisfies the condition: within rows + 1 nested calls in a checked build, within offset + 1 in any other |
| `FractalHeap.LookupDiverges` | crates/oxih5-format/src/fractal_heap.rs:494-572 | for every other table, any image whose indirect block names itself in the entry that holds offset 0 sends the lookup into endless recursion |
| `FractalHeapHeader.HeaderReads` | crates/oxih5-format/src/fractal_heap.rs:81-218 | a stored heap header parses to its table fields, root and row count |
| `FractalHeapHeader.ReadEndsExactlyWhen` | crates/oxih5-format/src/fractal_heap.rs:81-334 | for a build with overflow checks and for one without: reading an object ends on every parsable heap of a table, within the call bound, exactly when the table satisfies the condition; for any other table some image, header included, makes it recurse forever |
| `FractalHeapFlat.IntervalsCover` | crates/oxih5-format/src/fractal_heap.rs:524-531 | the entry intervals cover exactly [0, width * start * 2^(rows-1)) |
| `FractalHeapFlat.IntervalsDisjoint` | crates/oxih5-format/src/fractal_heap.rs:524-531 | the entry intervals do not overlap |
| `FractalHeapFlat.SubTable` | crates/oxih5-format/src/fractal_heap.rs:556-591 | the sub-table of an entry is smaller, regular and covers its block |
| `FractalHeapFlat.LookupReadsFlat` | crates/oxih5-format/src/fractal_heap.rs:494-572 | for every offset and size, the lookup is reading the flat address space, which concatenates the entries recursively |
| `FractalHeapFlat.ObjectIsFlatSlice` | crates/oxih5-format/src/fractal_heap.rs:494-572 | an object inside one allocated direct block is returned as flat[off..off+size] |
| `ObjectHeader.Parser.ParseV2Block` | crates/oxih5-format/src/header.rs:289-454 | the first block by its signature, main or continuation: version, optional fields, size width, and its records with continuations expanded in place; any other signature is refused |
| `ObjectHeader.Parser.ParseV2OchkBlock` | crates/oxih5-format/src/header.rs:468-578 | a continuation block: depth, main-block and revisit errors, signature, and its records; the shared lists grow accordingly |
| `ObjectHeader.ScanExpandsOnce` | crates/oxih5-format/src/header.rs:289-578 | on arbitrary bytes no block address is expanded twice and the main block never again |
| `ObjectHeader.LayoutParses` | crates/oxih5-format/src/header.rs:398-578 | a stored layout scans to its in-place expansion, exactly when blocks are distinct and nested at most 256 deep |
| `ObjectHeader.HeaderParses` | crates/oxih5-format/src/header.rs:289-578 | the same from the header start, for every flag combination |
| `ObjectHeader.SplittingIsInvisible` | crates/oxih5-format/src/header.rs:289-578 | two headers with the same expansion parse alike, however they are split over blocks and fillers |
| `ObjectHeader.GapUnnoticedExactlyWhenHarmless` | crates/oxih5-format/src/header.rs:398-454 | exactly which gaps shorter than a record header are not read as a record |
| `ObjectHeader.HeaderReadExactlyWhenGapHarmless` | crates/oxih5-format/src/header.rs:289-454 | for a header with any gap shorter than a record header: the parse finds the layout's messages and blocks if and only if the gap is harmless, which its bytes tell before the parse; its messages alone also when the gap is a pointer and what it points at parses to no message, which only reading that block tells |
| `ObjectHeader.PointerSilentExactlyWhen` | crates/oxih5-format/src/header.rs:398-578 | when the gap's pointer leads to a stored block: it goes unheard exactly when the layout below holds no message, uses no block twice and is nested at most 256 deep |
| `ObjectHeader.StrayMessage` | crates/oxih5-format/src/header.rs:398-454 | a concrete header whose four gap bytes are read as a message |
| `ObjectHeaderV1.Parser.ParseV1MessageBlock` | crates/oxih5-format/src/header.rs:176-236 | one version-1 block: messages and continuations appended in order, padding skipped |
| `ObjectHeaderV1.ParseObjectHeader` | crates/oxih5-format/src/header.rs:82-173 | the signature selects the version; version 1 follows its queue of continuations, at most 256 |
| `ObjectHeaderV1.HeaderV2Parses` | crates/oxih5-format/src/header.rs:82-98 | a stored version-2 header is recognised by its signature and parses to its expansion |
| `ObjectHeaderV1.HeaderV1Parses` | crates/oxih5-format/src/header.rs:104-236 | blocks that name each other in reading order yield their messages block by block, exactly when at most 256 continuation blocks are involved |
| `Datatype.ParseDatatypeConsuming` | crates/oxih5-format/src/datatype.rs:25-458 | the recursive parser over every class, with its loops for members, names, values and dimensions |
| `Datatype.ConsumesHeader` | crates/oxih5-format/src/datatype.rs:25-233 | every parsed datatype takes at least its 8-byte header |
| `DatatypeEncoding.RoundTrip` | crates/oxih5-format/src/datatype.rs:25-458 | every datatype the message format can express, however nested and in every message version, is read back exactly from its encoding, with its length |
| `DatatypeEncoding.NestedParses` | crates/oxih5-format/src/datatype.rs:239-422 | an encoded datatype embedded anywhere is read where it stands, whatever follows |
| `DatatypeEncoding.NameReads` | crates/oxih5-format/src/datatype.rs:430-458 | a NUL-terminated, possibly padded name reads back with the bytes it takes |
| `DatatypeEncoding.ValueReads` | crates/oxih5-format/src/datatype.rs:461-474 | an enumeration value in two's complement reads back |
| `Datatype.ParseLocal` | crates/oxih5-format/src/datatype.rs:25-458 | a successful parse depends only on the bytes it reports as consumed |
| `Datatype.ExtensionParsesAlike` | crates/oxih5-format/src/datatype.rs:25-458 | appending bytes changes neither the datatype nor the length |
| `Datatype.TruncationParsesAlike` | crates/oxih5-format/src/datatype.rs:25-458 | cutting after the consumed bytes changes neither the datatype nor the length |
| `DatatypeWriter.MemberKept` | crates/oxih5/src/write/dtype.rs:93-109 | a member type the writer accepts has the size a reader computes and is kept, except that UTF-8 text is marked as ASCII |
| `DatatypeWriter.WriteDatatypeBody` | crates/oxih5/src/write/elem.rs:417-707 | the five encoders overwrite exactly their span of the buffer, each field patched into zeros, with the message of the element type |
| `DatatypeWriter.WriteNestedDatatypeBody` | crates/oxih5/src/write/elem.rs:371-386 | only the unpadded message is copied; what stands behind it is kept |
| `DatatypeWriter.MarkMember` | crates/oxih5/src/write/dtype.rs:186-194 | with the map of occupied bytes, a member is refused exactly when it shares a byte with one before it |
| `DatatypeWriter.CheckMembers` | crates/oxih5/src/write/dtype.rs:154-197 | accepts exactly the lists of named, distinct, writable members inside the record that share no byte |
| `DatatypeWriter.Compound` | crates/oxih5/src/write/dtype.rs:129-242 | an error, or the message: header with the member count, then name, offset, empty dimension block and type of every member at its computed place |
| `DatatypeWriter.VlenSequence` | crates/oxih5/src/write/dtype.rs:259-283 | refuses variable-length bases; else the header and the base message |
| `DatatypeWriter.ArrayExtent` | crates/oxih5/src/write/dtype.rs:314-324 | the product of the extents, or an error for a zero extent or a product beyond 64 bits |
| `DatatypeWriter.Array` | crates/oxih5/src/write/dtype.rs:302-359 | an error, or the version-2 message: rank, extents, the identity permutation written beside them, and the base message |
| `DatatypeWriter.Opaque` | crates/oxih5/src/write/dtype.rs:376-410 | an error, or the message with the tag padded by at least one zero |
| `DatatypeWriter.Bitfield` | crates/oxih5/src/write/dtype.rs:422-448 | 1 to 8 bytes with their order and precision, or an error |
| `WrittenDatatypes.NestedReads` | crates/oxih5-format/src/datatype.rs:25-233 | the parser reads the nested message of every element type, the boolean enumeration included, as that type and takes all of it |
| `WrittenDatatypes.BodyReads` | crates/oxih5-format/src/datatype.rs:25-233 | the padded message of a dataset reads the same, without its padding |
| `WrittenDatatypes.CompoundReadsBack` | crates/oxih5-format/src/datatype.rs:239-298 | every record the writer accepts is read back with its members in order and at their offsets; as it was described exactly when no member is UTF-8 text |
| `WrittenDatatypes.StrideReadsBack` | crates/oxih5-core/src/lib.rs:161-188 | the record size a reader computes is the declared one exactly when some member ends there |
| `WrittenDatatypes.PaddedRecord` | crates/oxih5-core/src/lib.rs:161-188 | a concrete record of 8 bytes that the reader takes for 4 |
| `WrittenDatatypes.ArrayReadsBack` | crates/oxih5-format/src/datatype.rs:375-422 | every array the writer accepts is read back with its extents and base |
| `WrittenDatatypes.ArrayStrideReadsBack` | crates/oxih5-core/src/lib.rs:161-188 | and with the element size the writer declared |
| `WrittenDatatypes.SequenceReadsBack` | crates/oxih5-format/src/datatype.rs:25-233 | a variable-length sequence is read back with its base |
| `WrittenDatatypes.OpaqueReadsBack` | crates/oxih5-format/src/datatype.rs:25-233 | an opaque type is read back with its size and tag, padding cut off |
| `WrittenDatatypes.BitfieldReadsBack` | crates/oxih5-format/src/datatype.rs:25-233 | a bit field is read back with its size and order |
| `BTreeV1.Collector.Collect` | crates/oxih5-format/src/btree_v1_chunk.rs:56-160 | appends, in order, every record below a node, or fails with the first error; ends on every image |
| `BTreeV1.Parse` | crates/oxih5-format/src/btree_v1_chunk.rs:46-54 | the records collected from the root |
| `BTreeV1.KeyReads` | crates/oxih5-format/src/btree_v1_chunk.rs:163-214 | a stored chunk key reads back as its record |
| `BTreeV1.TraversalIsFaithful` | crates/oxih5-format/src/btree_v1_chunk.rs:56-160 | an image of an abstract tree yields its in-order records with undefined addresses dropped, exactly when it is at most 65 nodes deep |
| `BTreeV1.ParseRecoversTree` | crates/oxih5-format/src/btree_v1_chunk.rs:46-160 | the same from the root: up to 64 edges |
| `BTreeV1.CyclesAreRejected` | crates/oxih5-format/src/btree_v1_chunk.rs:56-160 | a cycle of nodes is an error, however the bytes are arranged |

## Left out

- The parallel chunk reader: it computes the same result as the sequential path.
- Deflate: the compressor is a parameter of which only losslessness is used.
- `Filters.ApplyOneInverse`: szip as in a build without the feature, where the filter is unsupported.
- File opening, mapping, links, groups, attributes and everything above the format layer.
- `ChunkedHyperslab.ReadChunkedHyperslab`: takes resolved records; which index a layout uses and the record cache are not modelled. `ChunkedFile` and `FixedArray` resolve them from a B-tree and a fixed array.
- `Values.HeapCache.DecodeOne`: floats keep their bits instead of being converted; UTF-8 validity is an abstract predicate; `decode_compound` and `decode_object_refs` repeat the single-element decoder.
- `FixedArray.ComputeGridDims`: the floating-point root of the fallback grid is a parameter.
- `FixedArray.ParseFixedArray`: the floating-point root of the fallback grid is a parameter; paged data blocks are not modelled, as in the source.
- `Vds`: selection kinds other than none, all and hyperslab, and the version-2 and version-3 encodings of a hyperslab, which are fixed-width field reads.
- `FractalHeap.SubRowsBound`: while row widths fit 64 bits or the build is checked; in a wrapping build nested calls are bounded by the offset instead.
- `FractalHeap.Heap.ReadFromIndirectBlock`: takes a bound on nested calls, None when it is exhausted, because the source can recurse without end; addresses added to a block's position are unbounded.
- `FractalHeapFlat.LookupReadsFlat`: covers tables whose address space fits 64 bits and whose starting size is positive and direct.
- `FractalHeapHeader`: heap-ID parsing, fixed-offset reads; the filter pipeline message parser is a parameter.
- The capacity estimate of the version-2 header parser.
- `ObjectHeader.ScanExpandsOnce`: speaks of scans that succeed; a failing scan returns at the first revisited block.
- `DatatypeWriter.Compound`: without the label kept for diagnostics; the fixed types of attributes and the messages around a datatype are not modelled.
- `WrittenDatatypes.NestedReads`: the text predicate must accept the two ASCII names of the boolean enumeration, as UTF-8 does.
- `DatatypeEncoding.RoundTrip`: about the encoding with unused flag and property bytes zero; the layout is the one the code reads, whose conformance to the standard is not a claim.
- `BTreeV1`: node signatures and keys of the chunk index only; the group B-tree, version-2 B-trees and the extensible array are not part of this model.
- `ChunkedWriter.Build`: contiguous and variable-length payloads and the completion of a short chunk shape; the raw bytes are as many as the shape needs, and chunk dimensions are positive, which the shape check ensures.
- `ChunkIndex.ChunkTree.Write`: the closing key's offsets are the caller's; the reader never looks at them.
- The on-disk encoding of the filter pipeline and layout messages; of the latter the chunk dimensions are modelled.
