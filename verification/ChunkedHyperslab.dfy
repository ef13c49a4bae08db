// Two readers of a strided selection: the flat gather and the chunk-by-chunk
// assembly, and the theorem that they agree.

module ChunkedHyperslab {
  import opened Arithmetic
  import opened Common
  import opened Elements
  import opened Grid
  import opened Hyperslab

  // ------------------------------------------------------------------
  // Gathering from a flat dataset
  // ------------------------------------------------------------------

  /** Output element `f` of the gather; an out-of-range source leaves zeros. */
  function GatheredElem(full: seq<Byte>, dims: seq<nat>, h: Hyperslab, es: nat, f: nat): (e: seq<Byte>)
    requires h.Proper() && |dims| == |h.dims|
    ensures |e| == es
  {
    hide Fits, Elem;
    var src := Ravel(dims, h.Source(f));
    if Fits(full, src, es) then Elem(full, src, es) else Zeros(es)
  }

  function GatheredElems(full: seq<Byte>, dims: seq<nat>, h: Hyperslab, es: nat): (p: seq<seq<Byte>>)
    requires h.Proper() && |dims| == |h.dims|
    ensures |p| == Product(h.OutputShape())
    ensures forall f :: 0 <= f < |p| ==> p[f] == GatheredElem(full, dims, h, es, f)
  {
    seq(Product(h.OutputShape()), f requires 0 <= f => GatheredElem(full, dims, h, es, f))
  }

  function Gathered(full: seq<Byte>, dims: seq<nat>, h: Hyperslab, es: nat): seq<Byte>
    requires h.Proper() && |dims| == |h.dims|
  {
    Concat(GatheredElems(full, dims, h, es))
  }

  /** Accumulate the source position one dimension at a time. */
  method SourceFlat(outCoords: seq<nat>, h: Hyperslab, dims: seq<nat>, strides: seq<nat>)
    returns (srcFlat: nat)
    requires h.Proper() && |outCoords| == |h.dims| == |dims| && strides == Strides(dims)
    ensures srcFlat == Ravel(dims, h.Global(outCoords))
  {
    srcFlat := 0;
    ghost var g := h.Global(outCoords);
    assert g[0..] == g && strides[0..] == strides;
    for d := 0 to |dims|
      invariant srcFlat + Dot(g[d..], strides[d..]) == Dot(g, strides)
    {
      var sel := h.dims[d];
      var blockIdx := outCoords[d] / sel.block;
      var inBlock := outCoords[d] % sel.block;
      var globalD := sel.start + blockIdx * sel.stride + inBlock;
      assert g[d..][1..] == g[d + 1..] && strides[d..][1..] == strides[d + 1..];
      srcFlat := srcFlat + globalD * strides[d];
    }
    DotIsRavel(dims, g);
  }

  /** What the flat gather returns. */
  function GatherResult(full: seq<Byte>, dims: seq<nat>, selection: Hyperslab, es: nat): Result<seq<Byte>> {
    if |selection.dims| != |dims| || !selection.Valid() then Err(Format)
    else if selection.IsEmpty() then Ok([])
    else if |full| != Product(dims) * es then Err(Format)
    else Ok(Gathered(full, dims, selection, es))
  }

  method GatherHyperslabContiguous(full: seq<Byte>, dims: seq<nat>, selection: Hyperslab, es: nat)
    returns (r: Result<seq<Byte>>)
    ensures r == GatherResult(full, dims, selection, es)
  {
    hide Fits, Elem, Copied, Ravel, Unravel, Product;
    var ndims := |dims|;
    if |selection.dims| != ndims {
      return Err(Format);
    }
    var v := selection.Validate();
    if v.IsFailure() {
      return v.PropagateFailure();
    }
    if selection.IsEmpty() {
      return Ok([]);
    }
    var outShape := selection.OutputShape();
    var outElems := Product(outShape);
    if |full| != Product(dims) * es {
      return Err(Format);
    }
    var datasetStrides := RowMajorStrides(dims);
    var outStrides := RowMajorStrides(outShape);
    var output := ZeroBuffer(outElems, es);
    for outFlat := 0 to outElems
      invariant forall f: nat :: f < outElems ==>
        Elem(output[..], f, es) == if f < outFlat then GatheredElem(full, dims, selection, es, f) else Zeros(es)
    {
      var outCoords := FlatToCoords(outFlat, outShape, outStrides);
      var srcFlat := SourceFlat(outCoords, selection, dims, datasetStrides);
      ghost var now := output[..];
      ElemFits(now, outFlat, outElems, es);
      CopyElem(output, outFlat, full, srcFlat, es);
      forall f: nat | f < outElems
        ensures Elem(output[..], f, es)
          == if f < outFlat + 1 then GatheredElem(full, dims, selection, es, f) else Zeros(es)
      {
        CopiedElem(now, outFlat, full, srcFlat, es, f);
      }
    }
    ConcatUnique(output[..], GatheredElems(full, dims, selection, es), es);
    return Ok(output[..]);
  }

  // ------------------------------------------------------------------
  // Chunk records
  // ------------------------------------------------------------------

  /** An index record; `decoded` is the outcome of reading and unfiltering its
      bytes, which happens only when the chunk is needed. */
  datatype ChunkRecord = ChunkRecord(offsets: seq<nat>, decoded: Result<seq<Byte>>)

  predicate HasOrigin(rec: ChunkRecord, ndims: nat, origin: seq<nat>) {
    |rec.offsets| >= ndims && rec.offsets[..ndims] == origin
  }

  /** The record that owns an origin: the last one listed. */
  function Owner(records: seq<ChunkRecord>, ndims: nat, origin: seq<nat>): (i: Option<nat>)
    ensures i.Some? ==> i.value < |records| && HasOrigin(records[i.value], ndims, origin)
  {
    if records == [] then None
    else
      var n := |records| - 1;
      if HasOrigin(records[n], ndims, origin) then Some(n) else Owner(records[..n], ndims, origin)
  }

  method BuildChunkMap(records: seq<ChunkRecord>, ndims: nat) returns (m: map<seq<nat>, nat>)
    ensures forall o :: Owner(records, ndims, o) == if o in m then Some(m[o]) else None
  {
    m := map[];
    for i := 0 to |records|
      invariant forall o :: Owner(records[..i], ndims, o) == if o in m then Some(m[o]) else None
    {
      assert records[..i + 1][..i] == records[..i];
      if |records[i].offsets| >= ndims {
        m := m[records[i].offsets[..ndims] := i];
      }
    }
    assert records[..|records|] == records;
  }

  /** Contents of an absent chunk: the fill value repeated, or zeros. */
  function SparseFill(fill: Option<seq<Byte>>, n: nat, es: nat): (b: seq<Byte>)
    ensures |b| == n * es
  {
    if fill.Some? && |fill.value| == es && es > 0
    then seq(n * es, i requires 0 <= i => fill.value[i % es])
    else Zeros(n * es)
  }

  function ChunkBytes(records: seq<ChunkRecord>, fill: Option<seq<Byte>>, chunkDims: seq<nat>,
                      es: nat, origin: seq<nat>): Result<seq<Byte>>
  {
    match Owner(records, |chunkDims|, origin)
    case Some(i) => records[i].decoded
    case None => Ok(SparseFill(fill, Product(chunkDims), es))
  }

  // ------------------------------------------------------------------
  // The chunk grid
  // ------------------------------------------------------------------

  predicate PositiveDims(chunkDims: seq<nat>) {
    forall d :: 0 <= d < |chunkDims| ==> chunkDims[d] > 0
  }

  /** Grid cell and origin of the chunk that contains a coordinate. */
  function CellOf(g: seq<nat>, chunkDims: seq<nat>): (c: seq<nat>)
    requires |g| == |chunkDims| && PositiveDims(chunkDims)
    ensures |c| == |g|
  {
    seq(|g|, d requires 0 <= d < |g| => g[d] / chunkDims[d])
  }

  function OriginOf(cell: seq<nat>, chunkDims: seq<nat>): (o: seq<nat>)
    requires |cell| == |chunkDims|
    ensures |o| == |cell|
  {
    seq(|cell|, d requires 0 <= d < |cell| => cell[d] * chunkDims[d])
  }

  /** Chunks tile space: a coordinate lies in exactly one cell's box. */
  lemma InOneCell(g: seq<nat>, cell: seq<nat>, chunkDims: seq<nat>)
    requires |g| == |cell| == |chunkDims| && PositiveDims(chunkDims)
    ensures InChunk(g, OriginOf(cell, chunkDims), chunkDims) <==> cell == CellOf(g, chunkDims)
  {
    if InChunk(g, OriginOf(cell, chunkDims), chunkDims) {
      forall d | 0 <= d < |g| ensures cell[d] == CellOf(g, chunkDims)[d] {
        DivModUnique(g[d], chunkDims[d], cell[d], g[d] - cell[d] * chunkDims[d]);
      }
    }
    forall d | 0 <= d < |g| && cell == CellOf(g, chunkDims)
      ensures OriginOf(cell, chunkDims)[d] <= g[d] < OriginOf(cell, chunkDims)[d] + chunkDims[d]
    {
      assert g[d] == (g[d] / chunkDims[d]) * chunkDims[d] + g[d] % chunkDims[d];
    }
  }

  function FirstCell(h: Hyperslab, chunkDims: seq<nat>): (c: seq<nat>)
    requires |chunkDims| == |h.dims| && PositiveDims(chunkDims)
    ensures |c| == |h.dims|
  {
    hide Hyperslab.BoundingRanges;
    seq(|h.dims|, d requires 0 <= d < |h.dims| => h.BoundingRanges()[d].start / chunkDims[d])
  }

  function LastCell(h: Hyperslab, chunkDims: seq<nat>): (c: seq<nat>)
    requires |chunkDims| == |h.dims| && PositiveDims(chunkDims)
    ensures |c| == |h.dims|
  {
    hide Hyperslab.BoundingRanges;
    seq(|h.dims|, d requires 0 <= d < |h.dims| => Max(h.BoundingRanges()[d].end - 1, 0) / chunkDims[d])
  }

  lemma CellsOrdered(h: Hyperslab, chunkDims: seq<nat>)
    requires h.Proper() && |chunkDims| == |h.dims| && PositiveDims(chunkDims)
    ensures forall d :: 0 <= d < |h.dims| ==> FirstCell(h, chunkDims)[d] <= LastCell(h, chunkDims)[d]
  {
    forall d | 0 <= d < |h.dims| ensures FirstCell(h, chunkDims)[d] <= LastCell(h, chunkDims)[d] {
      DivMonotone(h.BoundingRanges()[d].start, h.BoundingRanges()[d].end - 1, chunkDims[d]);
    }
  }

  /** Cells per dimension that overlap the bounding box. */
  function CellCounts(h: Hyperslab, chunkDims: seq<nat>): (c: seq<nat>)
    requires h.Proper() && |chunkDims| == |h.dims| && PositiveDims(chunkDims)
    ensures |c| == |h.dims|
  {
    CellsOrdered(h, chunkDims);
    seq(|h.dims|, d requires 0 <= d < |h.dims| => LastCell(h, chunkDims)[d] - FirstCell(h, chunkDims)[d] + 1)
  }

  function NthCell(h: Hyperslab, chunkDims: seq<nat>, i: nat): (c: seq<nat>)
    requires h.Proper() && |chunkDims| == |h.dims| && PositiveDims(chunkDims)
    ensures |c| == |h.dims|
  {
    var rel := Unravel(CellCounts(h, chunkDims), i);
    seq(|h.dims|, d requires 0 <= d < |h.dims| => FirstCell(h, chunkDims)[d] + rel[d])
  }

  function NthOrigin(h: Hyperslab, chunkDims: seq<nat>, i: nat): (o: seq<nat>)
    requires h.Proper() && |chunkDims| == |h.dims| && PositiveDims(chunkDims)
    ensures |o| == |h.dims|
  {
    OriginOf(NthCell(h, chunkDims, i), chunkDims)
  }

  lemma SourceCellInGrid(h: Hyperslab, chunkDims: seq<nat>, f: nat)
    requires h.Proper() && |chunkDims| == |h.dims| && PositiveDims(chunkDims)
    requires f < Product(h.OutputShape())
    ensures forall d :: 0 <= d < |h.dims| ==>
      FirstCell(h, chunkDims)[d] <= CellOf(h.Source(f), chunkDims)[d] <= LastCell(h, chunkDims)[d]
  {
    SourceInBounds(h, f);
    forall d | 0 <= d < |h.dims|
      ensures FirstCell(h, chunkDims)[d] <= CellOf(h.Source(f), chunkDims)[d] <= LastCell(h, chunkDims)[d]
    {
      DivMonotone(h.BoundingRanges()[d].start, h.Source(f)[d], chunkDims[d]);
      DivMonotone(h.Source(f)[d], h.BoundingRanges()[d].end - 1, chunkDims[d]);
    }
  }

  /** Enumeration index of the cell that holds output element `f`. */
  ghost function CellIndex(h: Hyperslab, chunkDims: seq<nat>, f: nat): (i: nat)
    requires h.Proper() && |chunkDims| == |h.dims| && PositiveDims(chunkDims)
    requires f < Product(h.OutputShape())
    ensures i < Product(CellCounts(h, chunkDims))
    ensures NthCell(h, chunkDims, i) == CellOf(h.Source(f), chunkDims)
  {
    hide Product, Ravel, Unravel;
    SourceCellInGrid(h, chunkDims, f);
    var rel := Sub(CellOf(h.Source(f), chunkDims), FirstCell(h, chunkDims));
    RavelBound(CellCounts(h, chunkDims), rel);
    UnravelRavel(CellCounts(h, chunkDims), rel);
    Ravel(CellCounts(h, chunkDims), rel)
  }

  /** Every output element is covered by one enumerated chunk and no other. */
  lemma CoveredExactlyOnce(h: Hyperslab, chunkDims: seq<nat>, f: nat, i: nat)
    requires h.Proper() && |chunkDims| == |h.dims| && PositiveDims(chunkDims)
    requires f < Product(h.OutputShape()) && i < Product(CellCounts(h, chunkDims))
    ensures InChunk(h.Source(f), NthOrigin(h, chunkDims, i), chunkDims) <==> i == CellIndex(h, chunkDims, f)
  {
    hide Ravel, Unravel, Product, InChunk;
    InOneCell(h.Source(f), NthCell(h, chunkDims, i), chunkDims);
    if NthCell(h, chunkDims, i) == NthCell(h, chunkDims, CellIndex(h, chunkDims, f)) {
      NthCellInjective(h, chunkDims, i, CellIndex(h, chunkDims, f));
    }
  }

  lemma NthCellInjective(h: Hyperslab, chunkDims: seq<nat>, i: nat, j: nat)
    requires h.Proper() && |chunkDims| == |h.dims| && PositiveDims(chunkDims)
    requires i < Product(CellCounts(h, chunkDims)) && j < Product(CellCounts(h, chunkDims))
    requires NthCell(h, chunkDims, i) == NthCell(h, chunkDims, j)
    ensures i == j
  {
    hide Ravel, Product;
    var counts := CellCounts(h, chunkDims);
    var a, b := Unravel(counts, i), Unravel(counts, j);
    forall d | 0 <= d < |a| ensures a[d] == b[d] {
      assert NthCell(h, chunkDims, i)[d] == NthCell(h, chunkDims, j)[d];
    }
    assert a == b;
    UnravelInBox(counts, i);
    UnravelInBox(counts, j);
  }

  // ------------------------------------------------------------------
  // Reading chunk by chunk
  // ------------------------------------------------------------------

  /** Element of the chunked dataset at coordinate `g`, if its chunk holds it. */
  function StoredElem(records: seq<ChunkRecord>, fill: Option<seq<Byte>>, chunkDims: seq<nat>,
                      es: nat, g: seq<nat>): (e: Option<seq<Byte>>)
    requires |g| == |chunkDims| && PositiveDims(chunkDims)
    ensures e.Some? ==> |e.value| == es
  {
    var o := OriginOf(CellOf(g, chunkDims), chunkDims);
    InOneCell(g, CellOf(g, chunkDims), chunkDims);
    var bytes := ChunkBytes(records, fill, chunkDims, es, o);
    var p := Ravel(chunkDims, Sub(g, o));
    if bytes.Ok? && Fits(bytes.value, p, es) then Some(Elem(bytes.value, p, es)) else None
  }

  /** Output element `f` of the chunked read.  Positions the scatter cannot
      reach, and elements missing from a short chunk, stay zero. */
  function ReadElem(records: seq<ChunkRecord>, fill: Option<seq<Byte>>, chunkDims: seq<nat>,
                    h: Hyperslab, es: nat, f: nat): (e: seq<Byte>)
    requires h.Proper() && |chunkDims| == |h.dims| && PositiveDims(chunkDims)
    ensures |e| == es
  {
    var stored := StoredElem(records, fill, chunkDims, es, h.Source(f));
    if h.Reached(Unravel(h.OutputShape(), f)) && stored.Some? then stored.value else Zeros(es)
  }

  function ReadElems(records: seq<ChunkRecord>, fill: Option<seq<Byte>>, chunkDims: seq<nat>,
                     h: Hyperslab, es: nat): (p: seq<seq<Byte>>)
    requires h.Proper() && |chunkDims| == |h.dims| && PositiveDims(chunkDims)
    ensures |p| == Product(h.OutputShape())
    ensures forall f :: 0 <= f < |p| ==> p[f] == ReadElem(records, fill, chunkDims, h, es, f)
  {
    seq(Product(h.OutputShape()), f requires 0 <= f => ReadElem(records, fill, chunkDims, h, es, f))
  }

  function ChunkedRead(records: seq<ChunkRecord>, fill: Option<seq<Byte>>, chunkDims: seq<nat>,
                       h: Hyperslab, es: nat): seq<Byte>
    requires h.Proper() && |chunkDims| == |h.dims| && PositiveDims(chunkDims)
  {
    Concat(ReadElems(records, fill, chunkDims, h, es))
  }

  /** Reading the first `n` overlapping chunks, or the first failure among them. */
  function CellsRead(records: seq<ChunkRecord>, fill: Option<seq<Byte>>, chunkDims: seq<nat>,
                     h: Hyperslab, es: nat, n: nat): Result<()>
    requires h.Proper() && |chunkDims| == |h.dims| && PositiveDims(chunkDims)
  {
    if n == 0 then Ok(())
    else
      var before :- CellsRead(records, fill, chunkDims, h, es, n - 1);
      var bytes :- ChunkBytes(records, fill, chunkDims, es, NthOrigin(h, chunkDims, n - 1));
      Ok(())
  }

  /** Reading all of them. */
  function AllCellsRead(records: seq<ChunkRecord>, fill: Option<seq<Byte>>, chunkDims: seq<nat>,
                        h: Hyperslab, es: nat): Result<()>
    requires h.Proper() && |chunkDims| == |h.dims| && PositiveDims(chunkDims)
  {
    CellsRead(records, fill, chunkDims, h, es, Product(CellCounts(h, chunkDims)))
  }

  lemma {:induction false} CellsFail(records: seq<ChunkRecord>, fill: Option<seq<Byte>>, chunkDims: seq<nat>,
                                     h: Hyperslab, es: nat, k: nat, n: nat)
    requires h.Proper() && |chunkDims| == |h.dims| && PositiveDims(chunkDims)
    requires k <= n && CellsRead(records, fill, chunkDims, h, es, k).Err?
    ensures CellsRead(records, fill, chunkDims, h, es, n) == CellsRead(records, fill, chunkDims, h, es, k)
  {
    hide ChunkBytes, NthOrigin;
    if k < n {
      CellsFail(records, fill, chunkDims, h, es, k, n - 1);
    }
  }

  predicate InDataset(h: Hyperslab, dims: seq<nat>)
    requires |dims| == |h.dims|
  {
    forall d :: 0 <= d < |dims| ==> h.BoundingRanges()[d].end <= dims[d]
  }

  /** Chunk dimensions without the trailing element-size slot some layouts carry. */
  function RealChunkDims(layoutDims: seq<nat>, ndims: nat): Result<seq<nat>> {
    if |layoutDims| == ndims + 1 then Ok(layoutDims[..ndims])
    else if |layoutDims| == ndims then Ok(layoutDims)
    else Err(Format)
  }

  /** The guards that run before any chunk is touched. */
  predicate Accepted(dims: seq<nat>, layoutDims: seq<nat>, h: Hyperslab) {
    && |h.dims| == |dims|
    && h.Proper()
    && InDataset(h, dims)
    && RealChunkDims(layoutDims, |dims|).Ok?
    && PositiveDims(RealChunkDims(layoutDims, |dims|).value)
  }

  /** Bounding box inside the dataset, chunk rank compatible, no zero chunk dimension. */
  method CheckLayout(dims: seq<nat>, layoutDims: seq<nat>, selection: Hyperslab) returns (r: Result<seq<nat>>)
    requires |selection.dims| == |dims| && selection.Proper()
    ensures r == if Accepted(dims, layoutDims, selection) then RealChunkDims(layoutDims, |dims|) else Err(Format)
  {
    if !InDataset(selection, dims) {
      return Err(Format);
    }
    var realDims := RealChunkDims(layoutDims, |dims|);
    if realDims.IsFailure() {
      return realDims.PropagateFailure();
    }
    var chunkDims := realDims.Extract();
    if exists d :: 0 <= d < |dims| && chunkDims[d] == 0 {
      return Err(Format);
    }
    return Ok(chunkDims);
  }

  /** Dataset-space origin of the cell enumerated at `cellFlat`. */
  method CellOrigin(h: Hyperslab, chunkDims: seq<nat>, ciCounts: seq<nat>, ciStrides: seq<nat>, cellFlat: nat)
    returns (origin: seq<nat>)
    requires h.Proper() && |chunkDims| == |h.dims| && PositiveDims(chunkDims)
    requires ciCounts == CellCounts(h, chunkDims) && ciStrides == Strides(ciCounts)
    ensures origin == NthOrigin(h, chunkDims, cellFlat)
  {
    hide Unravel;
    var firstCi := FirstCell(h, chunkDims);
    var ciRel := FlatToCoords(cellFlat, ciCounts, ciStrides);
    origin := seq(|chunkDims|, d requires 0 <= d < |chunkDims| => (firstCi[d] + ciRel[d]) * chunkDims[d]);
  }

  /** The bytes of the chunk at `origin`, or the fill when no record owns it. */
  method ChunkData(records: seq<ChunkRecord>, chunkMap: map<seq<nat>, nat>, fill: Option<seq<Byte>>,
                   chunkDims: seq<nat>, es: nat, origin: seq<nat>)
    returns (r: Result<seq<Byte>>)
    requires forall o :: Owner(records, |chunkDims|, o) == if o in chunkMap then Some(chunkMap[o]) else None
    ensures r == ChunkBytes(records, fill, chunkDims, es, origin)
  {
    if origin in chunkMap {
      assert Owner(records, |chunkDims|, origin) == Some(chunkMap[origin]);
      return records[chunkMap[origin]].decoded;
    } else {
      return Ok(SparseFill(fill, Product(chunkDims), es));
    }
  }

  /** What the chunked reader returns: the guards' errors, the index's, that of
      the first overlapping chunk that cannot be read, or the assembled bytes. */
  function ReadResult(dims: seq<nat>, layoutDims: seq<nat>, selection: Hyperslab, es: nat,
                      fill: Option<seq<Byte>>, index: Result<seq<ChunkRecord>>): Result<seq<Byte>>
  {
    if |selection.dims| != |dims| || !selection.Valid() then Err(Format)
    else if selection.IsEmpty() then Ok([])
    else if !Accepted(dims, layoutDims, selection) then Err(Format)
    else
      var chunkDims := RealChunkDims(layoutDims, |dims|).value;
      var records :- index;
      var cells :- AllCellsRead(records, fill, chunkDims, selection, es);
      Ok(ChunkedRead(records, fill, chunkDims, selection, es))
  }

  method ReadChunkedHyperslab(dims: seq<nat>, layoutDims: seq<nat>, selection: Hyperslab, es: nat,
                              fill: Option<seq<Byte>>, index: Result<seq<ChunkRecord>>)
    returns (r: Result<seq<Byte>>)
    ensures r == ReadResult(dims, layoutDims, selection, es, fill, index)
  {
    hide Fits, Elem, Copied, Ravel, Unravel, Product;
    var ndims := |dims|;
    if |selection.dims| != ndims {
      return Err(Format);
    }
    var v := selection.Validate();
    if v.IsFailure() {
      return v.PropagateFailure();
    }
    if selection.IsEmpty() {
      return Ok([]);
    }
    var outShape := selection.OutputShape();
    var outElems := Product(outShape);
    var checkedDims := CheckLayout(dims, layoutDims, selection);
    if checkedDims.IsFailure() {
      return checkedDims.PropagateFailure();
    }
    var chunkDims := checkedDims.Extract();
    if index.IsFailure() {
      return index.PropagateFailure();
    }
    var records := index.Extract();
    var chunkMap := BuildChunkMap(records, ndims);
    var output := ZeroBuffer(outElems, es);
    var scattered := ScatterCells(output, records, chunkMap, fill, chunkDims, selection, es);
    if scattered.IsFailure() {
      return scattered.PropagateFailure();
    }
    ConcatUnique(output[..], ReadElems(records, fill, chunkDims, selection, es), es);
    return Ok(output[..]);
  }

  /** Output element `f` after the first `cells` cells have been scattered. */
  ghost function ElemAfter(records: seq<ChunkRecord>, fill: Option<seq<Byte>>, chunkDims: seq<nat>, h: Hyperslab,
                           es: nat, cells: nat, f: nat): seq<Byte>
    requires h.Proper() && |chunkDims| == |h.dims| && PositiveDims(chunkDims)
    requires f < Product(h.OutputShape())
  {
    hide Product, Ravel, Unravel;
    if CellIndex(h, chunkDims, f) < cells then ReadElem(records, fill, chunkDims, h, es, f) else Zeros(es)
  }

  /** Scatter the chunk of one cell. */
  method ScatterCell(output: array<Byte>, chunkData: seq<Byte>, origin: seq<nat>, ghost records: seq<ChunkRecord>,
                     ghost fill: Option<seq<Byte>>, chunkDims: seq<nat>, h: Hyperslab, es: nat, ghost i: nat)
    requires h.Proper() && |chunkDims| == |h.dims| && PositiveDims(chunkDims)
    requires i < Product(CellCounts(h, chunkDims)) && origin == NthOrigin(h, chunkDims, i)
    requires ChunkBytes(records, fill, chunkDims, es, origin) == Ok(chunkData)
    requires output.Length == Product(h.OutputShape()) * es
    requires forall f: nat :: f < Product(h.OutputShape()) ==>
      Elem(output[..], f, es) == ElemAfter(records, fill, chunkDims, h, es, i, f)
    modifies output
    ensures forall f: nat :: f < Product(h.OutputShape()) ==>
      Elem(output[..], f, es) == ElemAfter(records, fill, chunkDims, h, es, i + 1, f)
  {
    hide Fits, Elem, Ravel, Unravel, Product, ElemAfter, AfterScatter, Scattered;
    ghost var now := output[..];
    var outShape := h.OutputShape();
    var s := ScatterChunkHyperslab(output, chunkData, origin, chunkDims, h, outShape, es);
    assert s.Ok?;
    forall f: nat | f < Product(outShape)
      ensures Elem(output[..], f, es) == ElemAfter(records, fill, chunkDims, h, es, i + 1, f)
    {
      ScatterElems(now, chunkData, origin, chunkDims, h, es, f);
      ScatterIsRead(now, records, fill, chunkDims, h, es, f, i, chunkData);
    }
  }

  /** The loop over all grid cells that overlap the bounding box. */
  method ScatterCells(output: array<Byte>, records: seq<ChunkRecord>, chunkMap: map<seq<nat>, nat>,
                      fill: Option<seq<Byte>>, chunkDims: seq<nat>, h: Hyperslab, es: nat)
    returns (r: Result<()>)
    requires h.Proper() && |chunkDims| == |h.dims| && PositiveDims(chunkDims)
    requires forall o :: Owner(records, |chunkDims|, o) == if o in chunkMap then Some(chunkMap[o]) else None
    requires output.Length == Product(h.OutputShape()) * es
    requires forall f: nat :: f < Product(h.OutputShape()) ==> Elem(output[..], f, es) == Zeros(es)
    modifies output
    ensures r == AllCellsRead(records, fill, chunkDims, h, es)
    ensures r.Ok? ==> forall f: nat :: f < Product(h.OutputShape()) ==>
      Elem(output[..], f, es) == ReadElem(records, fill, chunkDims, h, es, f)
  {
    hide Fits, Elem, Copied, Ravel, Unravel, Product, ElemAfter;
    var outShape := h.OutputShape();
    var ciCounts := CellCounts(h, chunkDims);
    var totalCells := Product(ciCounts);
    var ciStrides := RowMajorStrides(ciCounts);
    forall f: nat | f < Product(outShape)
      ensures ElemAfter(records, fill, chunkDims, h, es, 0, f) == Zeros(es)
      ensures ElemAfter(records, fill, chunkDims, h, es, totalCells, f) == ReadElem(records, fill, chunkDims, h, es, f)
    {
      AfterAllCells(records, fill, chunkDims, h, es, f);
    }
    for cellFlat := 0 to totalCells
      invariant CellsRead(records, fill, chunkDims, h, es, cellFlat) == Ok(())
      invariant output.Length == Product(outShape) * es
      invariant forall f: nat :: f < Product(outShape) ==>
        Elem(output[..], f, es) == ElemAfter(records, fill, chunkDims, h, es, cellFlat, f)
    {
      var origin := CellOrigin(h, chunkDims, ciCounts, ciStrides, cellFlat);
      var chunk := ChunkData(records, chunkMap, fill, chunkDims, es, origin);
      if chunk.IsFailure() {
        CellsFail(records, fill, chunkDims, h, es, cellFlat + 1, totalCells);
        return chunk.PropagateFailure();
      }
      var chunkData := chunk.Extract();
      ScatterCell(output, chunkData, origin, records, fill, chunkDims, h, es, cellFlat);
    }
    return Ok(());
  }

  lemma AfterAllCells(records: seq<ChunkRecord>, fill: Option<seq<Byte>>, chunkDims: seq<nat>, h: Hyperslab,
                      es: nat, f: nat)
    requires h.Proper() && |chunkDims| == |h.dims| && PositiveDims(chunkDims)
    requires f < Product(h.OutputShape())
    ensures ElemAfter(records, fill, chunkDims, h, es, 0, f) == Zeros(es)
    ensures ElemAfter(records, fill, chunkDims, h, es, Product(CellCounts(h, chunkDims)), f)
         == ReadElem(records, fill, chunkDims, h, es, f)
  {
    hide Product, Ravel, Unravel;
  }

  /** Scattering the f-th element's own chunk produces its final value. */
  lemma ScatterIsRead(now: seq<Byte>, records: seq<ChunkRecord>, fill: Option<seq<Byte>>, chunkDims: seq<nat>,
                      h: Hyperslab, es: nat, f: nat, i: nat, chunkData: seq<Byte>)
    requires h.Proper() && |chunkDims| == |h.dims| && PositiveDims(chunkDims)
    requires f < Product(h.OutputShape()) && i < Product(CellCounts(h, chunkDims))
    requires ChunkBytes(records, fill, chunkDims, es, NthOrigin(h, chunkDims, i)) == Ok(chunkData)
    requires Elem(now, f, es) == ElemAfter(records, fill, chunkDims, h, es, i, f)
    ensures Scattered(now, chunkData, NthOrigin(h, chunkDims, i), chunkDims, h, es, f)
         == ElemAfter(records, fill, chunkDims, h, es, i + 1, f)
  {
    hide Product, Ravel, Unravel, Elem, Fits;
    CoveredExactlyOnce(h, chunkDims, f, i);
    InOneCell(h.Source(f), NthCell(h, chunkDims, i), chunkDims);
  }

  // ------------------------------------------------------------------
  // The two readers agree
  // ------------------------------------------------------------------

  /** `full` is the row-major dataset the chunks (and fill) tile: it agrees with
      them on every coordinate of the dataset; what chunks hold beyond the
      dataset's edge is unconstrained. */
  ghost predicate Tiles(full: seq<Byte>, dims: seq<nat>, records: seq<ChunkRecord>,
                        fill: Option<seq<Byte>>, chunkDims: seq<nat>, es: nat)
    requires |chunkDims| == |dims| && PositiveDims(chunkDims)
  {
    && |full| == Product(dims) * es
    && forall g :: InBox(g, dims) ==>
         StoredElem(records, fill, chunkDims, es, g) == Some(Elem(full, Ravel(dims, g), es))
  }

  lemma SourceInDataset(h: Hyperslab, dims: seq<nat>, f: nat)
    requires h.Proper() && |dims| == |h.dims| && InDataset(h, dims)
    requires f < Product(h.OutputShape())
    ensures InBox(h.Source(f), dims)
  {
    SourceInBounds(h, f);
  }

  /** With blocks no longer than their stride, every output position is reached. */
  lemma DisjointReachesAll(h: Hyperslab, f: nat)
    requires h.Proper() && h.Disjoint() && f < Product(h.OutputShape())
    ensures h.Reached(Unravel(h.OutputShape(), f))
  {
    var o := Unravel(h.OutputShape(), f);
    forall d | 0 <= d < |h.dims| ensures h.dims[d].Reached(o[d]) {
      assert o[d] % h.dims[d].block < h.dims[d].block;
    }
  }

  /** A point of the bounding box in the `n`-th overlapping cell. */
  ghost function CellPoint(h: Hyperslab, chunkDims: seq<nat>, n: nat): (g: seq<nat>)
    requires h.Proper() && |chunkDims| == |h.dims| && PositiveDims(chunkDims)
    ensures |g| == |h.dims|
  {
    seq(|h.dims|, d requires 0 <= d < |h.dims| =>
      Max(NthCell(h, chunkDims, n)[d] * chunkDims[d], h.BoundingRanges()[d].start))
  }

  /** A cell between those of a range's ends meets the range. */
  lemma CellMeetsRange(start: nat, end: nat, c: nat, cell: nat)
    requires start < end && c > 0 && start / c <= cell <= (end - 1) / c
    ensures Max(cell * c, start) / c == cell && Max(cell * c, start) < end
  {
    if cell * c >= start {
      DivModUnique(cell * c, c, cell, 0);
      MulMonotone(cell, (end - 1) / c, c);
    } else {
      DivMonotone(cell * c, start, c);
      DivModUnique(cell * c, c, cell, 0);
    }
  }

  lemma NthCellInGrid(h: Hyperslab, chunkDims: seq<nat>, n: nat)
    requires h.Proper() && |chunkDims| == |h.dims| && PositiveDims(chunkDims)
    requires n < Product(CellCounts(h, chunkDims))
    ensures forall d :: 0 <= d < |h.dims| ==>
      FirstCell(h, chunkDims)[d] <= NthCell(h, chunkDims, n)[d] <= LastCell(h, chunkDims)[d]
  {
    hide Product, Ravel, FirstCell, LastCell;
    UnravelInBox(CellCounts(h, chunkDims), n);
  }

  lemma CellPointInDataset(h: Hyperslab, dims: seq<nat>, chunkDims: seq<nat>, n: nat)
    requires h.Proper() && |chunkDims| == |dims| == |h.dims| && PositiveDims(chunkDims)
    requires InDataset(h, dims) && n < Product(CellCounts(h, chunkDims))
    ensures InBox(CellPoint(h, chunkDims, n), dims)
    ensures CellOf(CellPoint(h, chunkDims, n), chunkDims) == NthCell(h, chunkDims, n)
  {
    hide Product, NthCell, CellCounts;
    NthCellInGrid(h, chunkDims, n);
    forall d | 0 <= d < |dims|
      ensures CellPoint(h, chunkDims, n)[d] < dims[d]
      ensures CellPoint(h, chunkDims, n)[d] / chunkDims[d] == NthCell(h, chunkDims, n)[d]
    {
      var range := h.BoundingRanges()[d];
      CellMeetsRange(range.start, range.end, chunkDims[d], NthCell(h, chunkDims, n)[d]);
    }
  }

  /** Every overlapping chunk of a tiled dataset can be read. */
  lemma {:induction false} TiledCellsRead(full: seq<Byte>, dims: seq<nat>, records: seq<ChunkRecord>,
                                          fill: Option<seq<Byte>>, chunkDims: seq<nat>, h: Hyperslab, es: nat, n: nat)
    requires h.Proper() && |chunkDims| == |dims| == |h.dims| && PositiveDims(chunkDims)
    requires InDataset(h, dims) && Tiles(full, dims, records, fill, chunkDims, es)
    requires n <= Product(CellCounts(h, chunkDims))
    ensures CellsRead(records, fill, chunkDims, h, es, n) == Ok(())
  {
    hide Product, NthCell, CellCounts, CellPoint, CellOf, ChunkBytes, InDataset;
    if n > 0 {
      TiledCellsRead(full, dims, records, fill, chunkDims, h, es, n - 1);
      CellPointInDataset(h, dims, chunkDims, n - 1);
      assert StoredElem(records, fill, chunkDims, es, CellPoint(h, chunkDims, n - 1)).Some?;
    }
  }

  /** Assembling chunk by chunk succeeds and equals gathering from the flat
      dataset, for every chunking of it. */
  lemma ChunkedReadRefinesGather(full: seq<Byte>, dims: seq<nat>, records: seq<ChunkRecord>,
                                 fill: Option<seq<Byte>>, chunkDims: seq<nat>, h: Hyperslab, es: nat)
    requires h.Proper() && h.Disjoint() && |chunkDims| == |dims| == |h.dims| && PositiveDims(chunkDims)
    requires InDataset(h, dims) && Tiles(full, dims, records, fill, chunkDims, es)
    ensures AllCellsRead(records, fill, chunkDims, h, es) == Ok(())
    ensures ChunkedRead(records, fill, chunkDims, h, es) == Gathered(full, dims, h, es)
  {
    hide Product, CellCounts, Tiles, InDataset, StoredElem;
    TiledCellsRead(full, dims, records, fill, chunkDims, h, es, Product(CellCounts(h, chunkDims)));
    var a, b := ReadElems(records, fill, chunkDims, h, es), GatheredElems(full, dims, h, es);
    forall f: nat | f < |a| ensures a[f] == b[f] {
      SameElement(full, dims, records, fill, chunkDims, h, es, f);
    }
    assert a == b;
  }

  lemma SameElement(full: seq<Byte>, dims: seq<nat>, records: seq<ChunkRecord>,
                    fill: Option<seq<Byte>>, chunkDims: seq<nat>, h: Hyperslab, es: nat, f: nat)
    requires h.Proper() && h.Disjoint() && |chunkDims| == |dims| == |h.dims| && PositiveDims(chunkDims)
    requires InDataset(h, dims) && Tiles(full, dims, records, fill, chunkDims, es)
    requires f < Product(h.OutputShape())
    ensures ReadElem(records, fill, chunkDims, h, es, f) == GatheredElem(full, dims, h, es, f)
  {
    hide Fits, Elem, Ravel, Unravel, Product, StoredElem;
    SourceInDataset(h, dims, f);
    RavelBound(dims, h.Source(f));
    ElemFits(full, Ravel(dims, h.Source(f)), Product(dims), es);
    DisjointReachesAll(h, f);
  }

  /** Layout dimensions the reader accepts for a dataset of rank `ndims`. */
  predicate Chunking(layoutDims: seq<nat>, ndims: nat) {
    RealChunkDims(layoutDims, ndims).Ok? && PositiveDims(RealChunkDims(layoutDims, ndims).value)
  }

  /** Main result: on a dataset its chunks tile, the chunked reader returns what
      the flat gather returns, for every selection of disjoint blocks in it. */
  lemma ReaderReturnsGather(full: seq<Byte>, dims: seq<nat>, layoutDims: seq<nat>, records: seq<ChunkRecord>,
                            fill: Option<seq<Byte>>, h: Hyperslab, es: nat)
    requires |h.dims| == |dims| && h.Valid() && h.Disjoint() && InDataset(h, dims)
    requires Chunking(layoutDims, |dims|)
    requires Tiles(full, dims, records, fill, RealChunkDims(layoutDims, |dims|).value, es)
    ensures ReadResult(dims, layoutDims, h, es, fill, Ok(records)) == GatherResult(full, dims, h, es)
    ensures ReadResult(dims, layoutDims, h, es, fill, Ok(records)).Ok?
  {
    hide Product, CellCounts, InDataset, StoredElem, AllCellsRead, ChunkedRead, Gathered;
    if !h.IsEmpty() {
      ChunkedReadRefinesGather(full, dims, records, fill, RealChunkDims(layoutDims, |dims|).value, h, es);
    }
  }

  /** An input on which the two readers can be compared. */
  datatype Scenario = Scenario(full: seq<Byte>, records: seq<ChunkRecord>, fill: Option<seq<Byte>>)

  /** If the chunks tile the dataset, both readers return the same. */
  ghost predicate Agree(s: Scenario, dims: seq<nat>, layoutDims: seq<nat>, h: Hyperslab, es: nat)
    requires |h.dims| == |dims| && Chunking(layoutDims, |dims|)
  {
    Tiles(s.full, dims, s.records, s.fill, RealChunkDims(layoutDims, |dims|).value, es) ==>
      ReadResult(dims, layoutDims, h, es, s.fill, Ok(s.records)) == GatherResult(s.full, dims, h, es)
  }

  /** A dataset of ones with every chunk absent and a fill value of ones. */
  lemma OnesTile(dims: seq<nat>, chunkDims: seq<nat>, es: nat)
    requires |chunkDims| == |dims| && PositiveDims(chunkDims) && es > 0
    ensures Tiles(seq(Product(dims) * es, i => 1), dims, [], Some(seq(es, i => 1)), chunkDims, es)
  {
    var full: seq<Byte> := seq(Product(dims) * es, i => 1);
    var fill: Option<seq<Byte>> := Some(seq(es, i => 1));
    forall g | InBox(g, dims)
      ensures StoredElem([], fill, chunkDims, es, g) == Some(Elem(full, Ravel(dims, g), es))
    {
      hide *;
      OnesElem(dims, chunkDims, es, g);
    }
  }

  lemma OnesElem(dims: seq<nat>, chunkDims: seq<nat>, es: nat, g: seq<nat>)
    requires |chunkDims| == |dims| && PositiveDims(chunkDims) && es > 0 && InBox(g, dims)
    ensures StoredElem([], Some(seq(es, i => 1)), chunkDims, es, g)
      == Some(Elem(seq(Product(dims) * es, i => 1), Ravel(dims, g), es))
  {
    hide Fits, Elem, Ravel, Product, InChunk, SparseFill;
    var o := OriginOf(CellOf(g, chunkDims), chunkDims);
    InOneCell(g, CellOf(g, chunkDims), chunkDims);
    RavelBound(chunkDims, Sub(g, o));
    OnesFilled(Product(chunkDims), es, Ravel(chunkDims, Sub(g, o)));
    RavelBound(dims, g);
    OnesFlat(Product(dims), es, Ravel(dims, g));
  }

  lemma OnesFlat(n: nat, es: nat, f: nat)
    requires f < n
    ensures Fits(seq(n * es, i => 1), f, es)
    ensures Elem(seq(n * es, i => 1), f, es) == seq(es, i => 1)
  {
    ElemFits(seq(n * es, i => 1), f, n, es);
    OnesSlice(n * es, f * es, es);
  }

  lemma OnesSlice(len: nat, lo: nat, es: nat)
    requires lo + es <= len
    ensures seq(len, i => 1)[lo..lo + es] == seq(es, i => 1)
  {
  }

  lemma OnesFilled(n: nat, es: nat, f: nat)
    requires f < n && es > 0
    ensures Fits(SparseFill(Some(seq(es, i => 1)), n, es), f, es)
    ensures Elem(SparseFill(Some(seq(es, i => 1)), n, es), f, es) == seq(es, i => 1)
  {
    var b := SparseFill(Some(seq(es, i => 1)), n, es);
    assert b == seq(n * es, i => 1);
    OnesFlat(n, es, f);
  }

  /** The output position `stride` elements into the first block of dimension
      `d` is never written when that block is longer than its stride. */
  lemma UnreachedPosition(h: Hyperslab, d: nat) returns (f: nat)
    requires h.Proper() && d < |h.dims| && h.dims[d].block > h.dims[d].stride
    ensures f < Product(h.OutputShape()) && !h.Reached(Unravel(h.OutputShape(), f))
  {
    var s := h.dims[d];
    var o := seq(|h.dims|, e => if e == d then s.stride else 0);
    forall e | 0 <= e < |o| ensures o[e] < h.OutputShape()[e] {
      MulMonotone(1, h.dims[e].count, h.dims[e].block);
    }
    RavelBound(h.OutputShape(), o);
    UnravelRavel(h.OutputShape(), o);
    f := Ravel(h.OutputShape(), o);
    DivModUnique(s.stride, s.block, 0, s.stride);
    assert !h.dims[d].Reached(o[d]);
  }

  lemma DifferentPieces(a: seq<seq<Byte>>, b: seq<seq<Byte>>, f: nat, es: nat)
    requires |a| == |b| && f < |a| && a[f] != b[f]
    requires forall i :: 0 <= i < |a| ==> |a[i]| == es && |b[i]| == es
    ensures Concat(a) != Concat(b)
  {
    hide Elem, Fits;
    ConcatElems(a, es);
    ConcatElems(b, es);
    assert Elem(Concat(a), f, es) != Elem(Concat(b), f, es);
  }

  lemma OverlapDisagrees(dims: seq<nat>, layoutDims: seq<nat>, h: Hyperslab, es: nat)
    requires |h.dims| == |dims| && h.Proper() && InDataset(h, dims) && es > 0 && !h.Disjoint()
    requires Chunking(layoutDims, |dims|)
    ensures exists s :: !Agree(s, dims, layoutDims, h, es)
  {
    hide Fits, Elem, Ravel, Unravel, Product, StoredElem, InDataset, CellCounts;
    var chunkDims := RealChunkDims(layoutDims, |dims|).value;
    var s := Scenario(seq(Product(dims) * es, i => 1), [], Some(seq(es, i => 1)));
    OnesTile(dims, chunkDims, es);
    TiledCellsRead(s.full, dims, s.records, s.fill, chunkDims, h, es, Product(CellCounts(h, chunkDims)));
    var d :| 0 <= d < |h.dims| && !h.dims[d].Disjoint();
    var f := UnreachedPosition(h, d);
    SourceInDataset(h, dims, f);
    RavelBound(dims, h.Source(f));
    OnesFlat(Product(dims), es, Ravel(dims, h.Source(f)));
    assert ReadElem(s.records, s.fill, chunkDims, h, es, f)[0] == 0;
    assert GatheredElem(s.full, dims, h, es, f)[0] == 1;
    DifferentPieces(ReadElems(s.records, s.fill, chunkDims, h, es),
                    GatheredElems(s.full, dims, h, es), f, es);
    assert !Agree(s, dims, layoutDims, h, es);
  }

  /** The gather takes a selection that leaves the dataset, the chunked reader refuses it. */
  lemma OutsideDisagrees(dims: seq<nat>, layoutDims: seq<nat>, h: Hyperslab, es: nat)
    requires |h.dims| == |dims| && h.Proper() && es > 0 && !InDataset(h, dims)
    requires Chunking(layoutDims, |dims|)
    ensures exists s :: !Agree(s, dims, layoutDims, h, es)
  {
    hide InDataset, Product, Tiles, Gathered;
    var s := Scenario(seq(Product(dims) * es, i => 1), [], Some(seq(es, i => 1)));
    OnesTile(dims, RealChunkDims(layoutDims, |dims|).value, es);
    assert !Agree(s, dims, layoutDims, h, es);
  }

  /** Exactly when: for a non-empty selection and any chunking, the readers agree
      on every dataset if and only if the selection lies in the dataset and no
      block exceeds its stride. */
  lemma ReadersAgreeExactlyWhenDisjoint(dims: seq<nat>, layoutDims: seq<nat>, h: Hyperslab, es: nat)
    requires |h.dims| == |dims| && h.Proper() && es > 0
    requires Chunking(layoutDims, |dims|)
    ensures InDataset(h, dims) && h.Disjoint() <==> forall s :: Agree(s, dims, layoutDims, h, es)
  {
    hide InDataset, ReadResult, GatherResult, Tiles;
    if !InDataset(h, dims) {
      OutsideDisagrees(dims, layoutDims, h, es);
    } else if !h.Disjoint() {
      OverlapDisagrees(dims, layoutDims, h, es);
    } else {
      forall s ensures Agree(s, dims, layoutDims, h, es) {
        if Tiles(s.full, dims, s.records, s.fill, RealChunkDims(layoutDims, |dims|).value, es) {
          ReaderReturnsGather(s.full, dims, layoutDims, s.records, s.fill, h, es);
        }
      }
    }
  }
}
