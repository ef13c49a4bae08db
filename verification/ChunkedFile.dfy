// A chunked dataset on disk: the writer places the index and the chunk images
// in the file, the reader finds the records and reads the chunks behind them.

module ChunkedFile {
  import opened Arithmetic
  import opened Common
  import opened Grid
  import opened Elements
  import opened Hyperslab
  import opened ChunkedHyperslab
  import opened FixedArray
  import opened Filters
  import opened ChunkedWriter
  import opened ChunkIndex
  import opened ChunkIndexReads
  import BTreeV1

  // ------------------------------------------------------------------
  // Places
  // ------------------------------------------------------------------

  /** Chunk images one after another, each padded to 8 bytes. */
  function Places(start: nat, images: seq<ChunkImage>): (a: seq<nat>)
    ensures |a| == |images|
    decreases images
  {
    if images == [] then [] else [start] + Places(start + Align8(|images[0].bytes|), images[1..])
  }

  function PlacesEnd(start: nat, images: seq<ChunkImage>): (e: nat)
    ensures e >= start
    decreases images
  {
    if images == [] then start else PlacesEnd(start + Align8(|images[0].bytes|), images[1..])
  }

  method Reserve(images: seq<ChunkImage>, start: nat) returns (addrs: seq<nat>, current: nat)
    ensures addrs == Places(start, images) && current == PlacesEnd(start, images)
  {
    var at: nat := start;
    addrs := [];
    assert images[0..] == images;
    for i := 0 to |images|
      invariant Places(start, images) == addrs + Places(at, images[i..])
      invariant PlacesEnd(start, images) == PlacesEnd(at, images[i..])
    {
      assert images[i..][0] == images[i] && images[i..][1..] == images[i + 1..];
      addrs := addrs + [at];
      at := at + Align8(|images[i].bytes|);
    }
    current := at;
  }

  /** Places are ordered and do not overlap. */
  lemma {:induction false} PlacesApart(start: nat, images: seq<ChunkImage>, i: nat)
    requires i < |images|
    ensures start <= Places(start, images)[i]
    ensures Places(start, images)[i] + |images[i].bytes| <= PlacesEnd(start, images)
    ensures forall j :: i < j < |images| ==> Places(start, images)[i] + |images[i].bytes| <= Places(start, images)[j]
    decreases i
  {
    var next := start + Align8(|images[0].bytes|);
    if i > 0 {
      PlacesApart(next, images[1..], i - 1);
    } else {
      forall j | 0 < j < |images| ensures start + |images[0].bytes| <= Places(start, images)[j] {
        PlaceAfter(next, images[1..], j - 1);
      }
    }
  }

  lemma {:induction false} PlaceAfter(start: nat, images: seq<ChunkImage>, j: nat)
    requires j < |images|
    ensures start <= Places(start, images)[j]
    decreases j
  {
    if j > 0 {
      PlaceAfter(start + Align8(|images[0].bytes|), images[1..], j - 1);
    }
  }

  /** The index entries of the placed images. */
  function Entries(images: seq<ChunkImage>, addrs: seq<nat>): (e: seq<Record>)
    requires |addrs| == |images|
    ensures |e| == |images|
  {
    seq(|images|, i requires 0 <= i < |images| => Record(addrs[i], |images[i].bytes|, 0, images[i].offsets))
  }

  // ------------------------------------------------------------------
  // Writing
  // ------------------------------------------------------------------

  predicate ShortImages(images: seq<ChunkImage>) {
    forall i :: 0 <= i < |images| ==> |images[i].bytes| < 0x1_0000_0000
  }

  /** The index and every image stand in the file. */
  ghost predicate Stored(file: seq<Byte>, base: nat, ndims: nat, elemSize: nat, images: seq<ChunkImage>,
                         addrs: seq<nat>, endOffsets: seq<nat>)
    requires |addrs| == |images|
  {
    var l := Leaves(base, ndims, elemSize, Entries(images, addrs), endOffsets);
    && l.Valid() && FitsAbove(l) && At(file, base, TreeImage(l))
    && forall i :: 0 <= i < |images| ==> At(file, addrs[i], images[i].bytes)
  }

  lemma PatchKeeps(before: seq<Byte>, at: nat, x: seq<Byte>, addr: nat, y: seq<Byte>)
    requires at + |x| <= |before| && At(before, addr, y) && (addr + |y| <= at || at + |x| <= addr)
    ensures At(Patch(before, at, x), addr, y)
  {
    var now := Patch(before, at, x);
    assert now[addr..addr + |y|] == before[addr..addr + |y|];
  }

  lemma PatchStores(before: seq<Byte>, at: nat, x: seq<Byte>)
    requires at + |x| <= |before|
    ensures At(Patch(before, at, x), at, x)
  {
    assert Patch(before, at, x)[at..at + |x|] == x;
  }

  /** Copy the images to their places and list their index entries. */
  method CopyImages(buf: array<Byte>, images: seq<ChunkImage>, addrs: seq<nat>, ghost start: nat)
    returns (r: Result<seq<Record>>)
    requires addrs == Places(start, images) && PlacesEnd(start, images) <= buf.Length
    modifies buf
    ensures r == if ShortImages(images) then Ok(Entries(images, addrs)) else Err(Format)
    ensures r.Ok? ==> forall i :: 0 <= i < |images| ==> At(buf[..], addrs[i], images[i].bytes)
  {
    hide At, Patch, Places, PlacesEnd;
    var entries: seq<Record> := [];
    for i := 0 to |images|
      invariant |entries| == i
      invariant forall j :: 0 <= j < i ==>
        (|images[j].bytes| < 0x1_0000_0000 && entries[j] == Record(addrs[j], |images[j].bytes|, 0, images[j].offsets))
      invariant forall j :: 0 <= j < i ==> At(buf[..], addrs[j], images[j].bytes)
    {
      PlacesApart(start, images, i);
      ghost var before := buf[..];
      CopyBytes(buf, addrs[i], images[i].bytes);
      forall j | 0 <= j < i ensures At(buf[..], addrs[j], images[j].bytes) {
        PlacesApart(start, images, j);
        PatchKeeps(before, addrs[i], images[i].bytes, addrs[j], images[j].bytes);
      }
      PatchStores(before, addrs[i], images[i].bytes);
      if |images[i].bytes| >= 0x1_0000_0000 {
        return Err(Format);
      }
      entries := entries + [Record(addrs[i], |images[i].bytes|, 0, images[i].offsets)];
    }
    assert entries == Entries(images, addrs);
    return Ok(entries);
  }

  /** Plan and emit one chunked dataset from `base` on: the index, then the
      images.  The root address is what the layout message points at. */
  method WriteDataset(buf: array<Byte>, base: nat, ndims: nat, elemSize: nat, images: seq<ChunkImage>,
                      endOffsets: seq<nat>)
    returns (r: Result<nat>)
    requires PlacesEnd(base + TreeSize(ndims, |images|), images) <= buf.Length
    modifies buf
    ensures var addrs := Places(base + TreeSize(ndims, |images|), images);
      && (r.Ok? <==> |images| <= MAX_CHUNKS && ShortImages(images)
                     && RightRank(ndims, Entries(images, addrs), endOffsets))
      && (r.Ok? ==> Stored(buf[..], base, ndims, elemSize, images, addrs, endOffsets))
      && (r.Ok? ==> r.value == RootAddress(Leaves(base, ndims, elemSize, Entries(images, addrs), endOffsets)))
  {
    hide TreeSize, TreeImage, Places, PlacesEnd, RootAddress, LevelCounts, LevelAddresses, NodeSize, At, Patch;
    var levels := Plan(|images|);
    if levels.IsFailure() {
      return Err(Format);
    }
    var tree := new ChunkTree(ndims, elemSize, |images|, levels.value);
    tree.Assign(base);
    var data := base + TreeSize(ndims, |images|);
    var addrs, end := Reserve(images, data);
    var entries := CopyImages(buf, images, addrs, data);
    if entries.IsFailure() {
      return Err(Format);
    }
    ghost var before := buf[..];
    var wrote := tree.Write(buf, base, entries.value, endOffsets);
    if wrote.IsFailure() {
      return Err(Format);
    }
    ghost var l := Leaves(base, ndims, elemSize, entries.value, endOffsets);
    IndexThenImages(buf[..], before, base, l, images, addrs, data);
    RootIsLastLevel(l);
    return Ok(tree.rootAddr);
  }

  /** Writing the index before the images leaves them in place. */
  lemma IndexThenImages(now: seq<Byte>, before: seq<Byte>, base: nat, l: Level, images: seq<ChunkImage>,
                        addrs: seq<nat>, data: nat)
    requires Emitted(now, before, base, l) && data == base + TreeSize(l.ndims, |l.children|)
    requires addrs == Places(data, images) && forall i :: 0 <= i < |images| ==> At(before, addrs[i], images[i].bytes)
    ensures At(now, base, TreeImage(l))
    ensures forall i :: 0 <= i < |images| ==> At(now, addrs[i], images[i].bytes)
  {
    hide TreeSize, TreeImage, Places, At, Patch;
    PatchStores(before, base, TreeImage(l));
    forall i | 0 <= i < |images| ensures At(now, addrs[i], images[i].bytes) {
      PlacesApart(data, images, i);
      PatchKeeps(before, base, TreeImage(l), addrs[i], images[i].bytes);
    }
  }

  // ------------------------------------------------------------------
  // Reading
  // ------------------------------------------------------------------

  /** The bytes of one record's chunk, unfiltered; the recorded stages, if any,
      are undone under the record's own mask. */
  function ChunkOf(codec: Codec, file: seq<Byte>, filter: Option<Filter>, es: nat, rec: Record): Result<seq<Byte>> {
    match Get(file, rec.address, rec.address + rec.size)
    case None => Err(Format)
    case Some(bytes) =>
      if filter.None? then Ok(bytes)
      else Inverted(codec, Descriptors(filter.value, es), rec.filterMask, es, bytes)
  }

  /** What the chunked reader works on: the records of the index at `root`, each
      with its chunk. */
  function ReadRecords(codec: Codec, file: seq<Byte>, ndims: nat, root: nat, filter: Option<Filter>, es: nat)
    : Result<seq<ChunkRecord>>
  {
    var records :- BTreeV1.Collected(file, ndims, root, 0);
    Ok(Resolved(records, rec => ChunkOf(codec, file, filter, es, rec)))
  }

  lemma StoredImageReads(codec: Codec, file: seq<Byte>, filter: Option<Filter>, es: nat, image: ChunkImage, addr: nat)
    requires At(file, addr, image.bytes)
    ensures ChunkOf(codec, file, filter, es, Record(addr, |image.bytes|, 0, image.offsets))
         == Unfiltered(codec, image.bytes, filter, es)
  {
    hide Inverted;
  }

  /** The offsets the writer stores fit the key's fields. */
  lemma OriginsEncodable(shape: seq<nat>, chunkShape: seq<nat>, i: nat)
    requires |chunkShape| == |shape| && PositiveDims(chunkShape) && i < Product(GridDims(chunkShape, shape))
    requires forall d :: 0 <= d < |shape| ==> shape[d] <= U64_MAX
    ensures forall d :: 0 <= d < |shape| ==> ElementOrigin(chunkShape, shape, i)[d] <= U64_MAX
  {
    hide Product, GridCoords, ElementOrigin, CeilDiv;
    forall d | 0 <= d < |shape| ensures shape[d] > 0 {
      if shape[d] == 0 {
        NoChunks(shape, chunkShape, d);
      }
    }
    ElementOriginInside(chunkShape, shape, i);
  }

  lemma NoChunks(shape: seq<nat>, chunkShape: seq<nat>, d: nat)
    requires |chunkShape| == |shape| && PositiveDims(chunkShape) && d < |shape| && shape[d] == 0
    ensures Product(GridDims(chunkShape, shape)) == 0
  {
    ZeroProduct(GridDims(chunkShape, shape), d);
  }

  /** The reader recovers the records the writer had, with the tiles behind them. */
  lemma FileYieldsRecords(codec: Codec, file: seq<Byte>, base: nat, raw: seq<Byte>, shape: seq<nat>,
                          chunkShape: seq<nat>, es: nat, filter: Option<Filter>, addrs: seq<nat>, endOffsets: seq<nat>)
    requires |chunkShape| == |shape| && PositiveDims(chunkShape)
    requires forall d :: 0 <= d < |shape| ==> shape[d] <= U64_MAX
    requires Images(codec, raw, shape, chunkShape, es, filter).Ok? && |file| < U64_MAX
    requires var images := Images(codec, raw, shape, chunkShape, es, filter).value;
      |images| <= MAX_CHUNKS && ShortImages(images) && |addrs| == |images|
      && Stored(file, base, |shape|, es, images, addrs, endOffsets)
    ensures var images := Images(codec, raw, shape, chunkShape, es, filter).value;
      var root := RootAddress(Leaves(base, |shape|, es, Entries(images, addrs), endOffsets));
      ReadRecords(codec, file, |shape|, root, filter, es) == Ok(RecordsOf(codec, images, filter, es))
  {
    hide TreeImage, RootAddress, BTreeV1.Collected, ImagesUpTo, GridDims, Product, Unfiltered, ChunkOf, ElementOrigin;
    var images := Images(codec, raw, shape, chunkShape, es, filter).value;
    var entries := Entries(images, addrs);
    var l := Leaves(base, |shape|, es, entries, endOffsets);
    forall k | 0 <= k < |entries|
      ensures BTreeV1.Encodable(entries[k], |shape|) && entries[k].address != BTreeV1.UNDEF
    {
      ImageAt(codec, raw, shape, chunkShape, es, filter, |images|, k);
      OriginsEncodable(shape, chunkShape, k);
      AddressInFile(file, addrs[k], images[k].bytes);
    }
    IndexReadsBack(file, base, |shape|, es, entries, endOffsets);
    var resolved := Resolved(entries, rec => ChunkOf(codec, file, filter, es, rec));
    var expected := RecordsOf(codec, images, filter, es);
    forall k | 0 <= k < |resolved| ensures resolved[k] == expected[k] {
      StoredImageReads(codec, file, filter, es, images[k], addrs[k]);
    }
    assert resolved == expected;
  }

  lemma AddressInFile(file: seq<Byte>, addr: nat, bytes: seq<Byte>)
    requires At(file, addr, bytes)
    ensures addr <= |file|
  {
  }

  /** What reading selection `h` of the dataset in the file returns, given its
      layout: the root address of its index and the layout dimensions. */
  function FileReadResult(codec: Codec, file: seq<Byte>, shape: seq<nat>, layoutDims: seq<nat>, root: nat,
                          filter: Option<Filter>, es: nat, fill: Option<seq<Byte>>, h: Hyperslab): Result<seq<Byte>>
  {
    ReadResult(shape, layoutDims, h, es, fill, ReadRecords(codec, file, |shape|, root, filter, es))
  }

  /** Main result, from raw data through the file and back: whatever the chunking
      and filters, and wherever the index and the images were put, the read of
      every selection of disjoint blocks from the file succeeds with what
      gathering it from the written data gives. */
  lemma FileReadsBack(codec: Codec, file: seq<Byte>, base: nat, raw: seq<Byte>, shape: seq<nat>, chunkShape: seq<nat>,
                      es: nat, filter: Option<Filter>, addrs: seq<nat>, endOffsets: seq<nat>,
                      fill: Option<seq<Byte>>, h: Hyperslab)
    requires |chunkShape| == |shape| == |h.dims| && PositiveDims(chunkShape) && codec.Lossless()
    requires forall d :: 0 <= d < |shape| ==> shape[d] <= U64_MAX
    requires |raw| == Product(shape) * es && Images(codec, raw, shape, chunkShape, es, filter).Ok? && |file| < U64_MAX
    requires var images := Images(codec, raw, shape, chunkShape, es, filter).value;
      |images| <= MAX_CHUNKS && ShortImages(images) && |addrs| == |images|
      && Stored(file, base, |shape|, es, images, addrs, endOffsets)
    requires h.Valid() && h.Disjoint() && InDataset(h, shape)
    ensures var images := Images(codec, raw, shape, chunkShape, es, filter).value;
      var root := RootAddress(Leaves(base, |shape|, es, Entries(images, addrs), endOffsets));
      FileReadResult(codec, file, shape, chunkShape + [es], root, filter, es, fill, h)
      == Ok(if h.IsEmpty() then [] else Gathered(raw, shape, h, es))
  {
    hide Images, Stored, ReadRecords, RecordsOf, ReadResult, Gathered, RootAddress, Product, InDataset;
    FileYieldsRecords(codec, file, base, raw, shape, chunkShape, es, filter, addrs, endOffsets);
    WrittenDataReadsBack(codec, raw, shape, chunkShape, es, filter, fill, h);
  }
}
