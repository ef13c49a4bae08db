// Writing a chunked dataset: chunk origins, tiles and filters, and the theorem
// that any selection read back chunk by chunk is the one gathered from the data.

module ChunkedWriter {
  import opened Arithmetic
  import opened Common
  import opened Grid
  import opened Elements
  import opened Hyperslab
  import opened ChunkedHyperslab
  import opened FixedArray
  import opened Filters

  // ------------------------------------------------------------------
  // Chunk origins
  // ------------------------------------------------------------------

  function Origins(shape: seq<nat>, chunkShape: seq<nat>): (o: seq<seq<nat>>)
    requires |chunkShape| == |shape| && PositiveDims(chunkShape)
    ensures |o| == Product(GridDims(chunkShape, shape))
    ensures forall i :: 0 <= i < |o| ==> o[i] == ElementOrigin(chunkShape, shape, i)
  {
    seq(Product(GridDims(chunkShape, shape)), i requires 0 <= i => ElementOrigin(chunkShape, shape, i))
  }

  /** Digits of `flat` from the last dimension to the first, scaled. */
  method OriginOfFlat(flat: nat, counts: seq<nat>, chunkShape: seq<nat>) returns (origin: seq<nat>)
    requires |counts| == |chunkShape| && flat < Product(counts)
    requires forall d :: 0 <= d < |counts| ==> counts[d] > 0
    ensures origin == OriginOf(Unravel(counts, flat), chunkShape)
  {
    hide Product, Ravel, Unravel;
    var n := |counts|;
    var rest: nat := flat;
    origin := seq(n, i => 0);
    ghost var cell: seq<nat> := [];
    assert |counts[n..]| == 0;
    RavelNothing();
    for d := n downto 0
      invariant |origin| == n && |cell| == n - d && InBox(cell, counts[d..])
      invariant forall k :: d <= k < n ==> origin[k] == cell[k - d] * chunkShape[k]
      invariant flat == rest * Product(counts[d..]) + Ravel(counts[d..], cell)
    {
      var digit: nat := rest % counts[d];
      DigitStep(counts, d, rest, cell);
      origin := origin[d := digit * chunkShape[d]];
      cell := [digit] + cell;
      rest := rest / counts[d];
    }
    assert counts[0..] == counts;
    RavelBound(counts, cell);
    NothingLeft(rest, Product(counts), Ravel(counts, cell), flat);
    UnravelRavel(counts, cell);
  }

  lemma RavelNothing()
    ensures Product([]) == 1 && Ravel([], []) == 0
  {
  }

  lemma NothingLeft(rest: nat, p: nat, r: nat, flat: nat)
    requires flat == rest * p + r && flat < p
    ensures r == flat
  {
    if rest > 0 {
      MulAtLeast(rest, p);
    }
  }

  /** Taking one more digit keeps the positional value. */
  lemma DigitStep(counts: seq<nat>, d: nat, rest: nat, cell: seq<nat>)
    requires d < |counts| && counts[d] > 0 && |cell| == |counts| - d - 1 && InBox(cell, counts[d + 1..])
    ensures var digit := rest % counts[d];
      InBox([digit] + cell, counts[d..])
      && rest * Product(counts[d + 1..]) + Ravel(counts[d + 1..], cell)
         == rest / counts[d] * Product(counts[d..]) + Ravel(counts[d..], [digit] + cell)
  {
    var digit := rest % counts[d];
    var p := Product(counts[d + 1..]);
    assert counts[d..][1..] == counts[d + 1..] && ([digit] + cell)[1..] == cell;
    assert Product(counts[d..]) == counts[d] * p;
    assert Ravel(counts[d..], [digit] + cell) == digit * p + Ravel(counts[d + 1..], cell);
    hide Product, Ravel;
    Regrouped(rest / counts[d], counts[d], digit, p, rest);
  }

  lemma Regrouped(q: nat, c: nat, digit: nat, p: nat, rest: nat)
    requires rest == q * c + digit
    ensures rest * p == q * (c * p) + digit * p
  {
    assert (q * c + digit) * p == q * c * p + digit * p;
    assert q * c * p == q * (c * p);
  }

  method ChunkOrigins(shape: seq<nat>, chunkShape: seq<nat>) returns (origins: seq<seq<nat>>)
    requires |chunkShape| == |shape| && PositiveDims(chunkShape)
    ensures origins == Origins(shape, chunkShape)
  {
    hide Product, Unravel, GridCoords, CeilDiv;
    var counts := GridDims(chunkShape, shape);
    if exists d :: 0 <= d < |counts| && counts[d] == 0 {
      ghost var d :| 0 <= d < |counts| && counts[d] == 0;
      ZeroProduct(counts, d);
      return [];
    }
    origins := [];
    for flat := 0 to Product(counts)
      invariant |origins| == flat
      invariant forall i :: 0 <= i < flat ==> origins[i] == ElementOrigin(chunkShape, shape, i)
    {
      var origin := OriginOfFlat(flat, counts, chunkShape);
      GridCoordsIsUnravel(counts, flat);
      origins := origins + [origin];
    }
  }

  // ------------------------------------------------------------------
  // Tiles
  // ------------------------------------------------------------------

  /** Dataset coordinate of element `f` of the tile at `origin`. */
  function TileCoord(chunkShape: seq<nat>, origin: seq<nat>, f: nat): (g: seq<nat>)
    requires |origin| == |chunkShape|
    ensures |g| == |origin|
  {
    var local := Unravel(chunkShape, f);
    seq(|origin|, d requires 0 <= d < |origin| => origin[d] + local[d])
  }

  /** Element `f` of a tile: zero where it hangs over the edge. */
  function TileElem(raw: seq<Byte>, shape: seq<nat>, chunkShape: seq<nat>, origin: seq<nat>, es: nat, f: nat)
    : (e: seq<Byte>)
    requires |origin| == |chunkShape| == |shape|
    ensures |e| == es
  {
    hide Fits, Elem, Ravel;
    var g := TileCoord(chunkShape, origin, f);
    if InBox(g, shape) && Fits(raw, Ravel(shape, g), es) then Elem(raw, Ravel(shape, g), es) else Zeros(es)
  }

  function TileElems(raw: seq<Byte>, shape: seq<nat>, chunkShape: seq<nat>, origin: seq<nat>, es: nat)
    : (p: seq<seq<Byte>>)
    requires |origin| == |chunkShape| == |shape|
    ensures |p| == Product(chunkShape)
    ensures forall f :: 0 <= f < |p| ==> p[f] == TileElem(raw, shape, chunkShape, origin, es, f)
  {
    seq(Product(chunkShape), f requires 0 <= f => TileElem(raw, shape, chunkShape, origin, es, f))
  }

  function Tile(raw: seq<Byte>, shape: seq<nat>, chunkShape: seq<nat>, origin: seq<nat>, es: nat): seq<Byte>
    requires |origin| == |chunkShape| == |shape|
  {
    Concat(TileElems(raw, shape, chunkShape, origin, es))
  }

  /** Source position of a tile element, giving up at the first dimension that
      lies outside the dataset. */
  method TileSource(shape: seq<nat>, chunkShape: seq<nat>, origin: seq<nat>, flat: nat,
                    datasetStrides: seq<nat>, chunkStrides: seq<nat>)
    returns (inside: bool, source: nat)
    requires |origin| == |chunkShape| == |shape| && PositiveDims(chunkShape)
    requires datasetStrides == Strides(shape) && chunkStrides == Strides(chunkShape)
    ensures inside <==> InBox(TileCoord(chunkShape, origin, flat), shape)
    ensures inside ==> source == Ravel(shape, TileCoord(chunkShape, origin, flat))
  {
    hide Product, Unravel, Ravel, Dot;
    var rest: nat := flat;
    source := 0;
    inside := true;
    ghost var local, g := Unravel(chunkShape, flat), TileCoord(chunkShape, origin, flat);
    assert chunkShape[0..] == chunkShape && local[0..] == local;
    assert g[0..] == g && datasetStrides[0..] == datasetStrides;
    for d := 0 to |chunkShape|
      invariant inside && local[d..] == Unravel(chunkShape[d..], rest)
      invariant forall k :: 0 <= k < d ==> g[k] < shape[k]
      invariant source + Dot(g[d..], datasetStrides[d..]) == Dot(g, datasetStrides)
    {
      LocalDigit(chunkShape, local, d, rest);
      var digit := rest / chunkStrides[d];
      rest := rest % chunkStrides[d];
      var absolute := origin[d] + digit;
      if absolute >= shape[d] {
        return false, source;
      }
      DotStep(g, datasetStrides, d);
      source := source + absolute * datasetStrides[d];
    }
    DotStep(g, datasetStrides, |g|);
    DotIsRavel(shape, g);
  }

  lemma LocalDigit(chunkShape: seq<nat>, local: seq<nat>, d: nat, rest: nat)
    requires d < |chunkShape| == |local| && PositiveDims(chunkShape)
    requires local[d..] == Unravel(chunkShape[d..], rest)
    ensures var p := Strides(chunkShape)[d];
      p > 0 && local[d] == rest / p && local[d + 1..] == Unravel(chunkShape[d + 1..], rest % p)
  {
    UnravelStep(chunkShape, d, rest);
    PositiveProduct(chunkShape[d + 1..]);
    hide Product, Unravel;
    assert local[d] == local[d..][0] && local[d + 1..] == local[d..][1..];
  }

  lemma DotStep(c: seq<nat>, strides: seq<nat>, d: nat)
    requires |c| == |strides| && d <= |c|
    ensures d < |c| ==> Dot(c[d..], strides[d..]) == c[d] * strides[d] + Dot(c[d + 1..], strides[d + 1..])
    ensures d == |c| ==> Dot(c[d..], strides[d..]) == 0
  {
    if d < |c| {
      assert c[d..][1..] == c[d + 1..] && strides[d..][1..] == strides[d + 1..];
    }
  }

  method CutTile(raw: seq<Byte>, shape: seq<nat>, chunkShape: seq<nat>, origin: seq<nat>, es: nat)
    returns (bytes: seq<Byte>)
    requires |origin| == |chunkShape| == |shape| && PositiveDims(chunkShape)
    ensures bytes == Tile(raw, shape, chunkShape, origin, es)
  {
    hide Product, Unravel, Ravel, Fits, Elem, Copied, Concat;
    var volume := Product(chunkShape);
    var tile := ZeroBuffer(volume, es);
    var datasetStrides := RowMajorStrides(shape);
    var chunkStrides := RowMajorStrides(chunkShape);
    for flat := 0 to volume
      invariant forall f: nat :: f < volume ==>
        (Elem(tile[..], f, es)
          == if f < flat then TileElem(raw, shape, chunkShape, origin, es, f) else Zeros(es))
    {
      var inside, source := TileSource(shape, chunkShape, origin, flat, datasetStrides, chunkStrides);
      if !inside {
        continue;
      }
      ghost var now := tile[..];
      ElemFits(now, flat, volume, es);
      CopyElem(tile, flat, raw, source, es);
      forall f: nat | f < volume
        ensures Elem(tile[..], f, es)
          == if f < flat + 1 then TileElem(raw, shape, chunkShape, origin, es, f) else Zeros(es)
      {
        CopiedElem(now, flat, raw, source, es, f);
      }
    }
    ConcatUnique(tile[..], TileElems(raw, shape, chunkShape, origin, es), es);
    bytes := tile[..];
  }

  /** A tile the size of the dataset is the dataset: borrowing it instead of
      cutting it changes nothing. */
  lemma WholeTileIsDataset(raw: seq<Byte>, shape: seq<nat>, es: nat)
    requires |raw| == Product(shape) * es && PositiveDims(shape)
    ensures Tile(raw, shape, shape, ElementOrigin(shape, shape, 0), es) == raw
  {
    hide Product, Unravel, Ravel, Fits, Elem, Concat, GridCoords, CeilDiv;
    var origin := ElementOrigin(shape, shape, 0);
    FirstOrigin(shape, shape);
    var pieces := TileElems(raw, shape, shape, origin, es);
    forall f: nat | f < Product(shape) ensures pieces[f] == Elem(raw, f, es) && |pieces[f]| == es {
      assert TileCoord(shape, origin, f) == Unravel(shape, f);
      UnravelInBox(shape, f);
      ElemFits(raw, f, Product(shape), es);
    }
    ConcatUnique(raw, pieces, es);
  }

  lemma FirstOrigin(chunkShape: seq<nat>, shape: seq<nat>)
    requires |chunkShape| == |shape| && PositiveDims(chunkShape)
    ensures forall d :: 0 <= d < |shape| ==> ElementOrigin(chunkShape, shape, 0)[d] == 0
  {
    FirstCoords(GridDims(chunkShape, shape));
  }

  lemma {:induction false} FirstCoords(grid: seq<nat>)
    ensures forall d :: 0 <= d < |grid| ==> GridCoords(grid, 0)[d] == 0
  {
    if grid != [] {
      FirstCoords(grid[1..]);
    }
  }

  // ------------------------------------------------------------------
  // The payload
  // ------------------------------------------------------------------

  datatype ChunkImage = ChunkImage(offsets: seq<nat>, bytes: seq<Byte>)

  /** The stored bytes of one tile. */
  function Filtered(codec: Codec, tile: seq<Byte>, filter: Option<Filter>, es: nat): Result<seq<Byte>> {
    if filter.None? then Ok(tile) else Stored(codec, tile, filter.value, es)
  }

  /** The images of the first `n` chunks. */
  function ImagesUpTo(codec: Codec, raw: seq<Byte>, shape: seq<nat>, chunkShape: seq<nat>, es: nat,
                      filter: Option<Filter>, n: nat): (r: Result<seq<ChunkImage>>)
    requires |chunkShape| == |shape| && PositiveDims(chunkShape)
    ensures r.Ok? ==> |r.value| == n
  {
    if n == 0 then Ok([])
    else
      var before :- ImagesUpTo(codec, raw, shape, chunkShape, es, filter, n - 1);
      var origin := ElementOrigin(chunkShape, shape, n - 1);
      var bytes :- Filtered(codec, Tile(raw, shape, chunkShape, origin, es), filter, es);
      Ok(before + [ChunkImage(origin, bytes)])
  }

  function Images(codec: Codec, raw: seq<Byte>, shape: seq<nat>, chunkShape: seq<nat>, es: nat,
                  filter: Option<Filter>): Result<seq<ChunkImage>>
    requires |chunkShape| == |shape| && PositiveDims(chunkShape)
  {
    ImagesUpTo(codec, raw, shape, chunkShape, es, filter, Product(GridDims(chunkShape, shape)))
  }

  lemma {:induction false} ImagesFail(codec: Codec, raw: seq<Byte>, shape: seq<nat>, chunkShape: seq<nat>, es: nat,
                                      filter: Option<Filter>, k: nat, n: nat)
    requires |chunkShape| == |shape| && PositiveDims(chunkShape) && k <= n
    requires ImagesUpTo(codec, raw, shape, chunkShape, es, filter, k).Err?
    ensures ImagesUpTo(codec, raw, shape, chunkShape, es, filter, n)
         == ImagesUpTo(codec, raw, shape, chunkShape, es, filter, k)
    decreases n
  {
    hide Filtered, Tile, ElementOrigin;
    if k < n {
      ImagesFail(codec, raw, shape, chunkShape, es, filter, k, n - 1);
    }
  }

  /** Chunked storage of a dataset whose raw bytes have its shape. */
  method Build(codec: Codec, raw: seq<Byte>, shape: seq<nat>, chunkShape: seq<nat>, es: nat, filter: Option<Filter>)
    returns (r: Result<seq<ChunkImage>>)
    requires |chunkShape| == |shape| && PositiveDims(chunkShape) && |raw| == Product(shape) * es
    ensures r == Images(codec, raw, shape, chunkShape, es, filter)
  {
    hide Product, Tile, ElementOrigin, Stored;
    var origins := ChunkOrigins(shape, chunkShape);
    var verbatim := |origins| == 1 && chunkShape == shape;
    var images: seq<ChunkImage> := [];
    for i := 0 to |origins|
      invariant ImagesUpTo(codec, raw, shape, chunkShape, es, filter, i) == Ok(images)
    {
      var tile: seq<Byte>;
      if verbatim {
        tile := raw;
        WholeTileIsDataset(raw, shape, es);
      } else {
        tile := CutTile(raw, shape, chunkShape, origins[i], es);
      }
      var bytes: Result<seq<Byte>> := Ok(tile);
      if filter.Some? {
        bytes := ApplyWritePipeline(codec, tile, filter.value, es);
      }
      if bytes.IsFailure() {
        ImagesFail(codec, raw, shape, chunkShape, es, filter, i + 1, |origins|);
        return bytes.PropagateFailure();
      }
      images := images + [ChunkImage(origins[i], bytes.Extract())];
    }
    return Ok(images);
  }

  // ------------------------------------------------------------------
  // Reading back
  // ------------------------------------------------------------------

  /** What the reader makes of stored chunk bytes. */
  function Unfiltered(codec: Codec, bytes: seq<Byte>, filter: Option<Filter>, es: nat): Result<seq<Byte>> {
    if filter.None? then Ok(bytes) else Inverted(codec, Descriptors(filter.value, es), 0, es, bytes)
  }

  /** The index records of the written chunks, as the reader resolves them. */
  function RecordsOf(codec: Codec, images: seq<ChunkImage>, filter: Option<Filter>, es: nat): (r: seq<ChunkRecord>)
    ensures |r| == |images|
  {
    seq(|images|, i requires 0 <= i < |images| =>
      ChunkRecord(images[i].offsets, Unfiltered(codec, images[i].bytes, filter, es)))
  }

  lemma FilteredReadsBack(codec: Codec, tile: seq<Byte>, filter: Option<Filter>, es: nat)
    requires codec.Lossless() && Filtered(codec, tile, filter, es).Ok?
    ensures Unfiltered(codec, Filtered(codec, tile, filter, es).value, filter, es) == Ok(tile)
  {
    hide Stored, Inverted, Descriptors;
    if filter.Some? {
      StoredTileReadsBack(codec, tile, filter.value, es);
    }
  }

  lemma {:induction false} ImageAt(codec: Codec, raw: seq<Byte>, shape: seq<nat>, chunkShape: seq<nat>, es: nat,
                                   filter: Option<Filter>, n: nat, i: nat)
    requires |chunkShape| == |shape| && PositiveDims(chunkShape) && i < n
    requires ImagesUpTo(codec, raw, shape, chunkShape, es, filter, n).Ok?
    ensures var image := ImagesUpTo(codec, raw, shape, chunkShape, es, filter, n).value[i];
      var origin := ElementOrigin(chunkShape, shape, i);
      image.offsets == origin
      && Filtered(codec, Tile(raw, shape, chunkShape, origin, es), filter, es) == Ok(image.bytes)
    decreases n
  {
    hide Filtered, Tile, ElementOrigin;
    if i < n - 1 {
      ImageAt(codec, raw, shape, chunkShape, es, filter, n - 1, i);
    }
  }

  /** Each record decodes to the tile of its own origin. */
  lemma RecordHoldsTile(codec: Codec, raw: seq<Byte>, shape: seq<nat>, chunkShape: seq<nat>, es: nat,
                        filter: Option<Filter>, i: nat)
    requires |chunkShape| == |shape| && PositiveDims(chunkShape) && codec.Lossless()
    requires Images(codec, raw, shape, chunkShape, es, filter).Ok? && i < Product(GridDims(chunkShape, shape))
    ensures var origin := ElementOrigin(chunkShape, shape, i);
      RecordsOf(codec, Images(codec, raw, shape, chunkShape, es, filter).value, filter, es)[i]
      == ChunkRecord(origin, Ok(Tile(raw, shape, chunkShape, origin, es)))
  {
    hide Filtered, Tile, ElementOrigin, ImagesUpTo, Unfiltered, GridDims, Product;
    ImageAt(codec, raw, shape, chunkShape, es, filter, Product(GridDims(chunkShape, shape)), i);
    FilteredReadsBack(codec, Tile(raw, shape, chunkShape, ElementOrigin(chunkShape, shape, i), es), filter, es);
  }

  /** The owner of an origin that one record alone carries is that record. */
  lemma {:induction false} OwnerIs(records: seq<ChunkRecord>, ndims: nat, origin: seq<nat>, p: nat)
    requires p < |records|
    requires forall i :: 0 <= i < |records| ==> (HasOrigin(records[i], ndims, origin) <==> i == p)
    ensures Owner(records, ndims, origin) == Some(p)
    decreases |records|
  {
    hide HasOrigin;
    var n := |records| - 1;
    if p < n {
      OwnerIs(records[..n], ndims, origin, p);
    }
  }

  /** The written chunks tile the dataset. */
  lemma WrittenChunksTile(codec: Codec, raw: seq<Byte>, shape: seq<nat>, chunkShape: seq<nat>, es: nat,
                          filter: Option<Filter>, fill: Option<seq<Byte>>)
    requires |chunkShape| == |shape| && PositiveDims(chunkShape) && codec.Lossless()
    requires |raw| == Product(shape) * es && Images(codec, raw, shape, chunkShape, es, filter).Ok?
    ensures Tiles(raw, shape, RecordsOf(codec, Images(codec, raw, shape, chunkShape, es, filter).value, filter, es),
                  fill, chunkShape, es)
  {
    var records := RecordsOf(codec, Images(codec, raw, shape, chunkShape, es, filter).value, filter, es);
    forall g | InBox(g, shape)
      ensures StoredElem(records, fill, chunkShape, es, g) == Some(Elem(raw, Ravel(shape, g), es))
    {
      hide *;
      ElementStored(codec, raw, shape, chunkShape, es, filter, fill, g);
    }
  }

  lemma ElementStored(codec: Codec, raw: seq<Byte>, shape: seq<nat>, chunkShape: seq<nat>, es: nat,
                      filter: Option<Filter>, fill: Option<seq<Byte>>, g: seq<nat>)
    requires |chunkShape| == |shape| && PositiveDims(chunkShape) && codec.Lossless()
    requires |raw| == Product(shape) * es && Images(codec, raw, shape, chunkShape, es, filter).Ok?
    requires InBox(g, shape)
    ensures StoredElem(RecordsOf(codec, Images(codec, raw, shape, chunkShape, es, filter).value, filter, es),
                       fill, chunkShape, es, g)
         == Some(Elem(raw, Ravel(shape, g), es))
  {
    hide Images, RecordsOf, Owner, HasOrigin, GridDims, ElementOrigin, Fits, Elem, Ravel, Product, Tile, PositionOf;
    var records := RecordsOf(codec, Images(codec, raw, shape, chunkShape, es, filter).value, filter, es);
    var o := OriginOf(CellOf(g, chunkShape), chunkShape);
    var p := OwnPosition(codec, raw, shape, chunkShape, es, filter, g);
    RecordHoldsTile(codec, raw, shape, chunkShape, es, filter, p);
    InOneCell(g, CellOf(g, chunkShape), chunkShape);
    TileHolds(raw, shape, chunkShape, o, es, g);
  }

  /** The record that holds coordinate `g`. */
  lemma OwnPosition(codec: Codec, raw: seq<Byte>, shape: seq<nat>, chunkShape: seq<nat>, es: nat,
                    filter: Option<Filter>, g: seq<nat>) returns (p: nat)
    requires |chunkShape| == |shape| && PositiveDims(chunkShape) && codec.Lossless() && InBox(g, shape)
    requires Images(codec, raw, shape, chunkShape, es, filter).Ok?
    ensures p < Product(GridDims(chunkShape, shape))
    ensures ElementOrigin(chunkShape, shape, p) == OriginOf(CellOf(g, chunkShape), chunkShape)
    ensures Owner(RecordsOf(codec, Images(codec, raw, shape, chunkShape, es, filter).value, filter, es),
                  |chunkShape|, OriginOf(CellOf(g, chunkShape), chunkShape)) == Some(p)
  {
    hide Owner, GridDims, ElementOrigin, Product, Tile, PositionOf, ImagesUpTo;
    var records := RecordsOf(codec, Images(codec, raw, shape, chunkShape, es, filter).value, filter, es);
    var o := OriginOf(CellOf(g, chunkShape), chunkShape);
    OwnOrigin(chunkShape, shape, g);
    p := PositionOf(chunkShape, shape, o);
    OriginsBijection(chunkShape, shape, p, o);
    forall i | 0 <= i < |records| ensures HasOrigin(records[i], |chunkShape|, o) <==> i == p {
      RecordHoldsTile(codec, raw, shape, chunkShape, es, filter, i);
      OriginsBijection(chunkShape, shape, i, o);
    }
    OwnerIs(records, |chunkShape|, o, p);
  }

  /** The origin of a coordinate's chunk is aligned and inside the dataset. */
  lemma OwnOrigin(chunkShape: seq<nat>, shape: seq<nat>, g: seq<nat>)
    requires |chunkShape| == |shape| && PositiveDims(chunkShape) && InBox(g, shape)
    ensures var o := OriginOf(CellOf(g, chunkShape), chunkShape);
      InBox(o, shape) && Aligned(o, chunkShape) && PositiveDims(shape)
  {
    var o := OriginOf(CellOf(g, chunkShape), chunkShape);
    forall d | 0 <= d < |g| ensures o[d] < shape[d] && o[d] % chunkShape[d] == 0 {
      var q := g[d] / chunkShape[d];
      assert q * chunkShape[d] <= g[d];
      DivModUnique(q * chunkShape[d], chunkShape[d], q, 0);
    }
  }

  /** A tile holds each dataset element of its box where the reader looks for it. */
  lemma TileHolds(raw: seq<Byte>, shape: seq<nat>, chunkShape: seq<nat>, o: seq<nat>, es: nat, g: seq<nat>)
    requires |o| == |chunkShape| == |shape| == |g| && |raw| == Product(shape) * es
    requires InBox(g, shape) && InChunk(g, o, chunkShape)
    ensures var p := Ravel(chunkShape, Sub(g, o));
      Fits(Tile(raw, shape, chunkShape, o, es), p, es)
      && Elem(Tile(raw, shape, chunkShape, o, es), p, es) == Elem(raw, Ravel(shape, g), es)
  {
    hide Product, Ravel, Unravel, Fits, Elem, Concat;
    var local := Sub(g, o);
    RavelBound(chunkShape, local);
    UnravelRavel(chunkShape, local);
    var p := Ravel(chunkShape, local);
    var pieces := TileElems(raw, shape, chunkShape, o, es);
    ConcatElems(pieces, es);
    ElemFits(Concat(pieces), p, |pieces|, es);
    assert TileCoord(chunkShape, o, p) == g;
    RavelBound(shape, g);
    ElemFits(raw, Ravel(shape, g), Product(shape), es);
  }

  // ------------------------------------------------------------------
  // The layout message's dimensions
  // ------------------------------------------------------------------

  predicate FitsLayout(chunkShape: seq<nat>, es: nat) {
    (forall d :: 0 <= d < |chunkShape| ==> chunkShape[d] < 0x1_0000_0000) && es < 0x1_0000_0000
  }

  /** The chunk shape followed by the element size, each in a 32-bit field. */
  method LayoutChunkDims(chunkShape: seq<nat>, es: nat) returns (r: Result<seq<nat>>)
    ensures r == if FitsLayout(chunkShape, es) then Ok(chunkShape + [es]) else Err(Format)
  {
    var dims: seq<nat> := [];
    for d := 0 to |chunkShape|
      invariant dims == chunkShape[..d]
      invariant forall e :: 0 <= e < d ==> chunkShape[e] < 0x1_0000_0000
    {
      if chunkShape[d] >= 0x1_0000_0000 {
        return Err(Format);
      }
      dims := dims + [chunkShape[d]];
    }
    if es >= 0x1_0000_0000 {
      return Err(Format);
    }
    assert dims == chunkShape;
    return Ok(dims + [es]);
  }

  /** The reader takes the written layout dimensions for the chunk shape. */
  lemma LayoutDimsRead(chunkShape: seq<nat>, es: nat)
    ensures RealChunkDims(chunkShape + [es], |chunkShape|) == Ok(chunkShape)
  {
    assert (chunkShape + [es])[..|chunkShape|] == chunkShape;
  }

  /** Main result, from the writer through the filters to the reader: whatever
      chunking and filters were used, the chunked reader given the written
      layout dimensions and records returns what the gather returns on the
      written data, for every selection of disjoint blocks in it. */
  lemma WrittenDataReadsBack(codec: Codec, raw: seq<Byte>, shape: seq<nat>, chunkShape: seq<nat>, es: nat,
                             filter: Option<Filter>, fill: Option<seq<Byte>>, h: Hyperslab)
    requires |chunkShape| == |shape| == |h.dims| && PositiveDims(chunkShape) && codec.Lossless()
    requires |raw| == Product(shape) * es && Images(codec, raw, shape, chunkShape, es, filter).Ok?
    requires h.Valid() && h.Disjoint() && InDataset(h, shape)
    ensures var records := RecordsOf(codec, Images(codec, raw, shape, chunkShape, es, filter).value, filter, es);
      ReadResult(shape, chunkShape + [es], h, es, fill, Ok(records))
      == Ok(if h.IsEmpty() then [] else Gathered(raw, shape, h, es))
  {
    hide Images, RecordsOf, Tiles, ReadResult, Gathered, InDataset, Product;
    LayoutDimsRead(chunkShape, es);
    WrittenChunksTile(codec, raw, shape, chunkShape, es, filter, fill);
    ReaderReturnsGather(raw, shape, chunkShape + [es],
                        RecordsOf(codec, Images(codec, raw, shape, chunkShape, es, filter).value, filter, es),
                        fill, h, es);
  }

  /** Edge padding never leaks: only what chunks hold inside the dataset matters. */
  lemma PaddingNeverLeaks(dims: seq<nat>, a: seq<ChunkRecord>, b: seq<ChunkRecord>, fill: Option<seq<Byte>>,
                          chunkShape: seq<nat>, h: Hyperslab, es: nat)
    requires |chunkShape| == |dims| == |h.dims| && PositiveDims(chunkShape)
    requires h.Proper() && InDataset(h, dims)
    requires forall g :: InBox(g, dims) ==>
      StoredElem(a, fill, chunkShape, es, g) == StoredElem(b, fill, chunkShape, es, g)
    ensures ChunkedRead(a, fill, chunkShape, h, es) == ChunkedRead(b, fill, chunkShape, h, es)
  {
    hide StoredElem, Product, Unravel;
    var x, y := ReadElems(a, fill, chunkShape, h, es), ReadElems(b, fill, chunkShape, h, es);
    forall f: nat | f < |x| ensures x[f] == y[f] {
      SourceInDataset(h, dims, f);
    }
    assert x == y;
  }
}
