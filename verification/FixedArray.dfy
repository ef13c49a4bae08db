// The fixed-array chunk index: element positions mapped to chunk origins.

module FixedArray {
  import opened Arithmetic
  import opened Common
  import opened Grid
  import opened Hyperslab
  import opened ChunkedHyperslab
  import Elements

  const FAHD: seq<Byte> := [0x46, 0x41, 0x48, 0x44]
  const FADB: seq<Byte> := [0x46, 0x41, 0x44, 0x42]
  const MAX_ELEMENTS: nat := 0x100_0000

  function CeilDiv(a: nat, b: nat): nat
    requires b > 0
  {
    if a % b == 0 then a / b else a / b + 1
  }

  /** `compute_grid_dims`, exact branch: chunks per dimension. */
  function GridDims(chunkDims: seq<nat>, dims: seq<nat>): (g: seq<nat>)
    requires |chunkDims| == |dims| && PositiveDims(chunkDims)
    ensures |g| == |dims|
  {
    seq(|dims|, d requires 0 <= d < |dims| => CeilDiv(dims[d], chunkDims[d]))
  }

  /** Grid coordinates of an element position; a zero stride clears the rest. */
  function GridCoords(grid: seq<nat>, i: nat): (c: seq<nat>)
    ensures |c| == |grid|
  {
    if grid == [] then []
    else
      var p := Product(grid[1..]);
      if p == 0 then [0] + GridCoords(grid[1..], 0)
      else [i / p] + GridCoords(grid[1..], i % p)
  }

  /** Chunk origin derived from element position `i`. */
  function ElementOrigin(chunkDims: seq<nat>, dims: seq<nat>, i: nat): (o: seq<nat>)
    requires |chunkDims| == |dims| && PositiveDims(chunkDims)
    ensures |o| == |dims|
  {
    OriginOf(GridCoords(GridDims(chunkDims, dims), i), chunkDims)
  }

  // ------------------------------------------------------------------
  // Tiling
  // ------------------------------------------------------------------

  lemma CeilDivCovers(c: nat, p: nat, n: nat)
    requires p > 0
    ensures c < CeilDiv(n, p) <==> c * p < n
  {
    var q := n / p;
    assert n == q * p + n % p;
    if c < q {
      MulMonotone(c + 1, q, p);
    } else if c > q {
      MulMonotone(q + 1, c, p);
    }
  }

  lemma {:induction false} GridCoordsIsUnravel(grid: seq<nat>, i: nat)
    requires forall d :: 0 <= d < |grid| ==> grid[d] > 0
    ensures GridCoords(grid, i) == Unravel(grid, i)
  {
    if grid != [] {
      var p := Product(grid[1..]);
      PositiveProduct(grid[1..]);
      GridCoordsIsUnravel(grid[1..], i % p);
    }
  }

  lemma GridPositive(chunkDims: seq<nat>, dims: seq<nat>)
    requires |chunkDims| == |dims| && PositiveDims(chunkDims) && PositiveDims(dims)
    ensures PositiveDims(GridDims(chunkDims, dims))
  {
    forall d | 0 <= d < |dims| ensures GridDims(chunkDims, dims)[d] > 0 {
      CeilDivCovers(0, chunkDims[d], dims[d]);
    }
  }

  predicate Aligned(o: seq<nat>, chunkDims: seq<nat>)
    requires |o| == |chunkDims| && PositiveDims(chunkDims)
  {
    forall d :: 0 <= d < |o| ==> o[d] % chunkDims[d] == 0
  }

  /** Each element position names a chunk-aligned origin inside the dataset. */
  lemma ElementOriginInside(chunkDims: seq<nat>, dims: seq<nat>, i: nat)
    requires |chunkDims| == |dims| && PositiveDims(chunkDims) && PositiveDims(dims)
    requires i < Product(GridDims(chunkDims, dims))
    ensures InBox(ElementOrigin(chunkDims, dims, i), dims)
    ensures Aligned(ElementOrigin(chunkDims, dims, i), chunkDims)
    ensures CellOf(ElementOrigin(chunkDims, dims, i), chunkDims) == Unravel(GridDims(chunkDims, dims), i)
  {
    hide Product, Ravel, Unravel, GridCoords, CeilDiv;
    var grid := GridDims(chunkDims, dims);
    GridPositive(chunkDims, dims);
    GridCoordsIsUnravel(grid, i);
    UnravelInBox(grid, i);
    var c, o := Unravel(grid, i), ElementOrigin(chunkDims, dims, i);
    forall d | 0 <= d < |dims|
      ensures o[d] < dims[d] && o[d] % chunkDims[d] == 0 && o[d] / chunkDims[d] == c[d]
    {
      CeilDivCovers(c[d], chunkDims[d], dims[d]);
      DivModUnique(o[d], chunkDims[d], c[d], 0);
    }
  }

  /** Element position of an aligned origin inside the dataset. */
  function PositionOf(chunkDims: seq<nat>, dims: seq<nat>, o: seq<nat>): nat
    requires |chunkDims| == |dims| == |o| && PositiveDims(chunkDims)
  {
    Ravel(GridDims(chunkDims, dims), CellOf(o, chunkDims))
  }

  lemma CellInGrid(chunkDims: seq<nat>, dims: seq<nat>, g: seq<nat>)
    requires |chunkDims| == |dims| && PositiveDims(chunkDims) && InBox(g, dims)
    ensures InBox(CellOf(g, chunkDims), GridDims(chunkDims, dims))
  {
    forall d | 0 <= d < |g| ensures CellOf(g, chunkDims)[d] < GridDims(chunkDims, dims)[d] {
      CeilDivCovers(g[d] / chunkDims[d], chunkDims[d], dims[d]);
    }
  }

  /** Positions and aligned origins inside the dataset are in bijection. */
  lemma OriginsBijection(chunkDims: seq<nat>, dims: seq<nat>, i: nat, o: seq<nat>)
    requires |chunkDims| == |dims| == |o| && PositiveDims(chunkDims) && PositiveDims(dims)
    requires InBox(o, dims) && Aligned(o, chunkDims)
    ensures PositionOf(chunkDims, dims, o) < Product(GridDims(chunkDims, dims))
    ensures i < Product(GridDims(chunkDims, dims)) ==>
      (ElementOrigin(chunkDims, dims, i) == o <==> i == PositionOf(chunkDims, dims, o))
  {
    hide Product, Ravel, Unravel, GridCoords, CeilDiv;
    var grid := GridDims(chunkDims, dims);
    CellInGrid(chunkDims, dims, o);
    RavelBound(grid, CellOf(o, chunkDims));
    var p := PositionOf(chunkDims, dims, o);
    ElementOriginInside(chunkDims, dims, p);
    UnravelRavel(grid, CellOf(o, chunkDims));
    AlignedFromCell(o, ElementOrigin(chunkDims, dims, p), chunkDims);
    if i < Product(grid) && ElementOrigin(chunkDims, dims, i) == o {
      ElementOriginInside(chunkDims, dims, i);
      UnravelInBox(grid, i);
    }
  }

  lemma AlignedFromCell(a: seq<nat>, b: seq<nat>, chunkDims: seq<nat>)
    requires |a| == |b| == |chunkDims| && PositiveDims(chunkDims)
    requires Aligned(a, chunkDims) && Aligned(b, chunkDims) && CellOf(a, chunkDims) == CellOf(b, chunkDims)
    ensures a == b
  {
    forall d | 0 <= d < |a| ensures a[d] == b[d] {
      assert CellOf(a, chunkDims)[d] == CellOf(b, chunkDims)[d];
    }
  }

  /** The index tiles the dataset: each coordinate lies in the chunk box of one
      element position and no other. */
  lemma TilesDataset(chunkDims: seq<nat>, dims: seq<nat>, g: seq<nat>, i: nat)
    requires |chunkDims| == |dims| && PositiveDims(chunkDims) && InBox(g, dims)
    requires i < Product(GridDims(chunkDims, dims))
    ensures PositionOf(chunkDims, dims, g) < Product(GridDims(chunkDims, dims))
    ensures InChunk(g, ElementOrigin(chunkDims, dims, i), chunkDims) <==> i == PositionOf(chunkDims, dims, g)
  {
    hide Product, Ravel, Unravel, GridCoords, CeilDiv;
    var grid := GridDims(chunkDims, dims);
    CellInGrid(chunkDims, dims, g);
    RavelBound(grid, CellOf(g, chunkDims));
    GridPositive(chunkDims, dims);
    GridCoordsIsUnravel(grid, i);
    InOneCell(g, Unravel(grid, i), chunkDims);
    UnravelRavel(grid, CellOf(g, chunkDims));
    UnravelInBox(grid, i);
  }

  // ------------------------------------------------------------------
  // Distinct origins
  // ------------------------------------------------------------------

  /** Every dimension but the first has some extent: the strides are positive. */
  predicate PositiveTail(dims: seq<nat>) { forall d :: 1 <= d < |dims| ==> dims[d] > 0 }

  lemma TailPositive(grid: seq<nat>)
    requires |grid| > 1 && PositiveTail(grid)
    ensures PositiveTail(grid[1..])
  {
  }

  lemma {:induction false} GridCoordsInjective(grid: seq<nat>, i: nat, j: nat)
    requires grid != [] && PositiveTail(grid) && i != j
    ensures GridCoords(grid, i) != GridCoords(grid, j)
  {
    var p := Product(grid[1..]);
    assert forall d :: 0 <= d < |grid[1..]| ==> grid[1..][d] == grid[d + 1];
    PositiveProduct(grid[1..]);
    assert |grid| == 1 ==> p == 1;
    hide Product, PositiveTail;
    DivModDiffer(i, j, p);
    assert GridCoords(grid, i)[0] == i / p && GridCoords(grid, j)[0] == j / p;
    assert GridCoords(grid, i)[1..] == GridCoords(grid[1..], i % p);
    assert GridCoords(grid, j)[1..] == GridCoords(grid[1..], j % p);
    if |grid| > 1 && i % p != j % p {
      assert PositiveTail(grid[1..]) by { TailPositive(grid); }
      GridCoordsInjective(grid[1..], i % p, j % p);
    }
  }

  /** Different element positions, however many, have different origins. */
  lemma OriginsDistinct(chunkDims: seq<nat>, dims: seq<nat>, i: nat, j: nat)
    requires |chunkDims| == |dims| > 0 && PositiveDims(chunkDims) && PositiveTail(dims) && i != j
    ensures ElementOrigin(chunkDims, dims, i) != ElementOrigin(chunkDims, dims, j)
  {
    hide GridCoords;
    var grid := GridDims(chunkDims, dims);
    assert PositiveTail(grid) by {
      forall d | 1 <= d < |grid| ensures grid[d] > 0 {
        CeilDivCovers(0, chunkDims[d], dims[d]);
      }
    }
    GridCoordsInjective(grid, i, j);
    var a, b := GridCoords(grid, i), GridCoords(grid, j);
    var d :| 0 <= d < |a| && a[d] != b[d];
    MultiplesDiffer(a[d], b[d], chunkDims[d]);
    assert OriginOf(a, chunkDims)[d] != OriginOf(b, chunkDims)[d];
  }

  lemma MultiplesDiffer(a: nat, b: nat, p: nat)
    requires p > 0 && a != b
    ensures a * p != b * p
  {
    DivModUnique(a * p, p, a, 0);
    DivModUnique(b * p, p, b, 0);
  }

  // ------------------------------------------------------------------
  // Parsing the index
  // ------------------------------------------------------------------

  /** What the caller tells of the dataset: its rank, chunk and dataset dimensions
      if known, and the floating-point root used when they are not. */
  datatype Shape = Shape(ndims: nat, chunkDims: seq<nat>, dims: seq<nat>, root: (nat, nat) -> nat)

  /** Header and data-block checks; yields the element area. */
  datatype Layout = Layout(start: nat, count: nat, elementSize: nat, clientId: nat)

  function ParseLayout(file: seq<Byte>, header: nat): Result<Option<Layout>> {
    if header + 28 > |file| then Err(Format)
    else if file[header..header + 4] != FAHD then Err(Format)
    else if file[header + 4] != 0 then Err(Format)
    else
      var db := LeNat(file[header + 16..header + 24]);
      if db == U64_MAX then Ok(None)
      else if db + 14 > |file| then Err(Format)
      else if file[db..db + 4] != FADB then Err(Format)
      else if file[db + 4] != 0 then Err(Format)
      else
        var elementSize := file[header + 6];
        var n := LeNat(file[header + 8..header + 16]);
        var remaining := |file| - (db + 14);
        var possible := if elementSize == 0 then 0 else remaining / elementSize;
        if n > MAX_ELEMENTS || n > possible then Err(Format)
        else Ok(Some(Layout(db + 14, n, elementSize, file[db + 5])))
  }

  lemma LayoutFits(file: seq<Byte>, header: nat)
    requires ParseLayout(file, header).Ok? && ParseLayout(file, header).value.Some?
    ensures var l := ParseLayout(file, header).value.value;
      l.start + l.count * l.elementSize <= |file|
  {
    var l := ParseLayout(file, header).value.value;
    if l.elementSize > 0 {
      var remaining := |file| - l.start;
      assert (remaining / l.elementSize) * l.elementSize <= remaining;
      MulMonotone(l.count, remaining / l.elementSize, l.elementSize);
    }
  }

  /** The fallback grid: the same count in every dimension but the last. */
  function ApproximateGrid(perDim: nat, ndims: nat, n: nat): (g: seq<nat>)
    requires ndims > 0
    ensures |g| == ndims
  {
    var leading: seq<nat> := seq(ndims - 1, d => perDim);
    leading + [CeilDiv(n, if Product(leading) > 1 then Product(leading) else 1)]
  }

  /** `compute_grid_dims` where it is called; no grid without chunk dimensions or
      elements, and a zero chunk dimension divides by zero. */
  function GridOf(s: Shape, n: nat): Result<seq<nat>> {
    if s.chunkDims == [] || s.ndims != |s.chunkDims| || n == 0 then Ok([])
    else if |s.dims| == s.ndims then
      if PositiveDims(s.chunkDims) then Ok(GridDims(s.chunkDims, s.dims)) else Err(Panic)
    else Ok(ApproximateGrid(s.root(n, s.ndims), s.ndims, n))
  }

  /** Offsets stored inline, one field per dimension. */
  function InlineOffsets(data: seq<Byte>, ndims: nat, width: nat): Result<seq<nat>> {
    if ndims == 0 || width == 0 then Ok([])
    else if ndims * width > |data| || !WordSize(width) then Err(Format)
    else Ok(seq(ndims, d requires 0 <= d < ndims => LeNat(Elements.Elem(data, d, width))))
  }

  /** Size and filter mask of the element stored at `e`. */
  function SizeAndMask(file: seq<Byte>, e: nat, elementSize: nat, clientId: nat, uncompressed: nat): (nat, nat)
    requires e + elementSize <= |file|
  {
    if clientId == 0 then (uncompressed % 0x1_0000_0000, 0)
    else if elementSize >= 20 then
      (LeNat(file[e + 8..e + 16]) % 0x1_0000_0000, LeNat(file[e + 16..e + 20]))
    else if elementSize >= 16 then (LeNat(file[e + 8..e + 12]), LeNat(file[e + 12..e + 16]))
    else (0, 0)
  }

  /** Offsets of element `i`: from its position when there is a grid, else inline. */
  function ElementOffsets(file: seq<Byte>, e: nat, elementSize: nat, s: Shape, grid: seq<nat>, i: nat)
    : Result<seq<nat>>
    requires e + elementSize <= |file| && (grid != [] ==> |grid| == |s.chunkDims|)
  {
    if grid != [] then Ok(OriginOf(GridCoords(grid, i), s.chunkDims))
    else if elementSize >= 16 then
      InlineOffsets(file[e + 16..e + elementSize], s.ndims, if s.ndims > 0 then (elementSize - 16) / s.ndims else 0)
    else Ok([])
  }

  /** The record of element `i`; an undefined address is an empty slot, and an
      element too narrow for its address aborts at the end of the file. */
  function ElementRecord(file: seq<Byte>, l: Layout, s: Shape, grid: seq<nat>, uncompressed: nat, i: nat)
    : Result<Option<Record>>
    requires l.start + (i + 1) * l.elementSize <= |file| && (grid != [] ==> |grid| == |s.chunkDims|)
  {
    MulStep(i + 1, l.elementSize);
    var e := l.start + i * l.elementSize;
    if e + 8 > |file| then Err(Panic)
    else
      var address := LeNat(file[e..e + 8]);
      if address == U64_MAX then Ok(None)
      else
        var (size, mask) := SizeAndMask(file, e, l.elementSize, l.clientId, uncompressed);
        var offsets :- ElementOffsets(file, e, l.elementSize, s, grid, i);
        Ok(Some(Record(address, size, mask, offsets)))
  }

  /** Records of the first `n` elements, in order, or the first failure. */
  function Records(file: seq<Byte>, l: Layout, s: Shape, grid: seq<nat>, uncompressed: nat, n: nat)
    : Result<seq<Record>>
    requires l.start + n * l.elementSize <= |file| && (grid != [] ==> |grid| == |s.chunkDims|)
  {
    if n == 0 then Ok([])
    else
      MulStep(n, l.elementSize);
      var before :- Records(file, l, s, grid, uncompressed, n - 1);
      var last :- ElementRecord(file, l, s, grid, uncompressed, n - 1);
      Ok(if last.Some? then before + [last.value] else before)
  }

  /** All records of the index at `header`. */
  function Parsed(file: seq<Byte>, header: nat, s: Shape, uncompressed: nat): Result<seq<Record>> {
    var layout :- ParseLayout(file, header);
    if layout.None? then Ok([])
    else
      var l := layout.value;
      LayoutFits(file, header);
      var grid :- GridOf(s, l.count);
      Records(file, l, s, grid, uncompressed, l.count)
  }

  method GridOffsets(i: nat, strides: seq<nat>, chunkDims: seq<nat>, ghost grid: seq<nat>) returns (offs: seq<nat>)
    requires |grid| == |chunkDims| && strides == Strides(grid)
    ensures offs == OriginOf(GridCoords(grid, i), chunkDims)
  {
    hide Product, GridCoords;
    var rem: nat := i;
    ghost var coords: seq<nat> := [];
    offs := seq(|strides|, d => 0);
    assert grid[0..] == grid;
    for d := 0 to |strides|
      invariant |offs| == |strides| && |coords| == d
      invariant coords + GridCoords(grid[d..], rem) == GridCoords(grid, i)
      invariant forall k :: 0 <= k < d ==> offs[k] == coords[k] * chunkDims[k]
    {
      GridCoordsStep(grid, d, rem);
      var gridCoord: nat := if strides[d] == 0 then 0 else rem / strides[d];
      rem := rem % Max(strides[d], 1);
      offs := offs[d := gridCoord * chunkDims[d]];
      coords := coords + [gridCoord];
    }
    assert coords == GridCoords(grid, i);
  }

  lemma GridCoordsStep(grid: seq<nat>, d: nat, rest: nat)
    requires d < |grid|
    ensures var p := Product(grid[d + 1..]);
      GridCoords(grid[d..], rest) ==
        if p == 0 then [0] + GridCoords(grid[d + 1..], 0) else [rest / p] + GridCoords(grid[d + 1..], rest % p)
  {
    assert grid[d..][1..] == grid[d + 1..];
  }

  method ParseOffsets(data: seq<Byte>, ndims: nat, width: nat) returns (r: Result<seq<nat>>)
    ensures r == InlineOffsets(data, ndims, width)
  {
    hide Elements.Elem, LeNat;
    if ndims == 0 || width == 0 {
      return Ok([]);
    }
    var offs: seq<nat> := [];
    for d := 0 to ndims
      invariant d > 0 ==> d * width <= |data| && WordSize(width)
      invariant |offs| == d && forall k :: 0 <= k < d ==> offs[k] == LeNat(Elements.Elem(data, k, width))
    {
      MulStep(d + 1, width);
      MulMonotone(d + 1, ndims, width);
      if d * width + width > |data| {
        return Err(Format);
      }
      if !WordSize(width) {
        return Err(Format);
      }
      offs := offs + [LeNat(data[d * width..d * width + width])];
      FieldIsElem(data, d, width);
    }
    assert ndims * width <= |data|;
    assert offs == InlineOffsets(data, ndims, width).value;
    return Ok(offs);
  }

  lemma FieldIsElem(data: seq<Byte>, d: nat, width: nat)
    requires d * width + width <= |data|
    ensures data[d * width..d * width + width] == Elements.Elem(data, d, width)
  {
  }

  method ComputeGridDims(s: Shape, n: nat) returns (r: Result<seq<nat>>)
    ensures r == GridOf(s, n)
  {
    hide Product, CeilDiv;
    if s.chunkDims == [] || s.ndims != |s.chunkDims| {
      return Ok([]);
    }
    if n == 0 {
      return Ok([]);
    }
    if |s.dims| == s.ndims {
      if exists d :: 0 <= d < |s.chunkDims| && s.chunkDims[d] == 0 {
        return Err(Panic);
      }
      return Ok(GridDims(s.chunkDims, s.dims));
    }
    var perDim := s.root(n, s.ndims);
    var grid: seq<nat> := seq(s.ndims, d => perDim);
    var leading := Product(grid[..s.ndims - 1]);
    assert grid[..s.ndims - 1] == seq(s.ndims - 1, d => perDim);
    grid := grid[s.ndims - 1 := CeilDiv(n, if leading > 1 then leading else 1)];
    assert grid == ApproximateGrid(perDim, s.ndims, n);
    return Ok(grid);
  }

  method ParseFixedArray(file: seq<Byte>, header: nat, s: Shape, uncompressed: nat) returns (r: Result<seq<Record>>)
    ensures r == Parsed(file, header, s, uncompressed)
  {
    hide ParseLayout, GridOf, SizeAndMask, LeNat, Product, GridCoords;
    var layout := ParseLayout(file, header);
    if layout.IsFailure() {
      return layout.PropagateFailure();
    }
    var area := layout.Extract();
    if area.None? {
      return Ok([]);
    }
    var l := area.value;
    LayoutFits(file, header);
    var gridDims := ComputeGridDims(s, l.count);
    if gridDims.IsFailure() {
      return gridDims.PropagateFailure();
    }
    var grid := gridDims.Extract();
    GridRank(s, l.count);
    r := ReadElements(file, l, s, grid, uncompressed);
  }

  lemma GridRank(s: Shape, n: nat)
    requires GridOf(s, n).Ok?
    ensures GridOf(s, n).value != [] ==> |GridOf(s, n).value| == |s.chunkDims|
  {
  }

  /** The loop over the elements. */
  method ReadElements(file: seq<Byte>, l: Layout, s: Shape, grid: seq<nat>, uncompressed: nat)
    returns (r: Result<seq<Record>>)
    requires l.start + l.count * l.elementSize <= |file| && (grid != [] ==> |grid| == |s.chunkDims|)
    ensures r == Records(file, l, s, grid, uncompressed, l.count)
  {
    hide SizeAndMask, LeNat, Product, GridCoords, InlineOffsets;
    var strides := RowMajorStrides(grid);
    var records: seq<Record> := [];
    for i := 0 to l.count
      invariant l.start + i * l.elementSize <= |file|
      invariant Records(file, l, s, grid, uncompressed, i) == Ok(records)
    {
      MulMonotone(i + 1, l.count, l.elementSize);
      MulStep(i + 1, l.elementSize);
      var element := ReadElement(file, l, s, grid, strides, uncompressed, i);
      if element.IsFailure() {
        FailurePropagates(file, l, s, grid, uncompressed, i + 1);
        return element.PropagateFailure();
      }
      if element.value.Some? {
        records := records + [element.value.value];
      }
    }
    return Ok(records);
  }

  method ReadElement(file: seq<Byte>, l: Layout, s: Shape, ghost grid: seq<nat>, strides: seq<nat>, uncompressed: nat,
                     i: nat)
    returns (r: Result<Option<Record>>)
    requires l.start + (i + 1) * l.elementSize <= |file| && (grid != [] ==> |grid| == |s.chunkDims|)
    requires strides == Strides(grid)
    ensures r == ElementRecord(file, l, s, grid, uncompressed, i)
  {
    hide SizeAndMask, LeNat, Product, GridCoords, InlineOffsets;
    MulStep(i + 1, l.elementSize);
    var e := l.start + i * l.elementSize;
    if e + 8 > |file| {
      return Err(Panic);
    }
    var address := LeNat(file[e..e + 8]);
    if address == U64_MAX {
      return Ok(None);
    }
    var (size, mask) := SizeAndMask(file, e, l.elementSize, l.clientId, uncompressed);
    var offsets: seq<nat> := [];
    if strides != [] {
      offsets := GridOffsets(i, strides, s.chunkDims, grid);
    } else if l.elementSize >= 16 {
      var width := if s.ndims > 0 then (l.elementSize - 16) / s.ndims else 0;
      var inline := ParseOffsets(file[e + 16..e + l.elementSize], s.ndims, width);
      if inline.IsFailure() {
        return inline.PropagateFailure();
      }
      offsets := inline.Extract();
    }
    return Ok(Some(Record(address, size, mask, offsets)));
  }

  lemma {:induction false} FailurePropagates(file: seq<Byte>, l: Layout, s: Shape, grid: seq<nat>, uncompressed: nat,
                                             i: nat)
    requires l.start + l.count * l.elementSize <= |file| && i <= l.count && (grid != [] ==> |grid| == |s.chunkDims|)
    requires l.start + i * l.elementSize <= |file|
    requires Records(file, l, s, grid, uncompressed, i).Err?
    ensures Records(file, l, s, grid, uncompressed, l.count) == Records(file, l, s, grid, uncompressed, i)
    decreases l.count - i
  {
    hide ElementRecord;
    if i < l.count {
      MulMonotone(i + 1, l.count, l.elementSize);
      FailurePropagates(file, l, s, grid, uncompressed, i + 1);
    }
  }

  // ------------------------------------------------------------------
  // The index and the chunked reader
  // ------------------------------------------------------------------

  /** Chunk and dataset dimensions are known and sensible: positive chunks, and
      no empty dimension but perhaps the first. */
  predicate Exact(s: Shape) {
    && s.ndims == |s.chunkDims| == |s.dims| > 0
    && PositiveDims(s.chunkDims) && PositiveTail(s.dims)
  }

  /** Parsed records sit at distinct origins, each at that of its own element,
      however many elements the header claims. */
  lemma {:induction false} RecordPosition(file: seq<Byte>, l: Layout, s: Shape, uncompressed: nat, n: nat)
    requires Exact(s) && l.start + n * l.elementSize <= |file|
    requires Records(file, l, s, GridDims(s.chunkDims, s.dims), uncompressed, n).Ok?
    ensures var recs := Records(file, l, s, GridDims(s.chunkDims, s.dims), uncompressed, n).value;
      && (forall a :: 0 <= a < |recs| ==> exists i :: 0 <= i < n && recs[a].offsets == ElementOrigin(s.chunkDims, s.dims, i))
      && (forall a, b :: 0 <= a < b < |recs| ==> recs[a].offsets != recs[b].offsets)
  {
    hide GridCoords, SizeAndMask, LeNat, InlineOffsets;
    if n > 0 {
      MulStep(n, l.elementSize);
      RecordPosition(file, l, s, uncompressed, n - 1);
      var before := Records(file, l, s, GridDims(s.chunkDims, s.dims), uncompressed, n - 1).value;
      var last := ElementOrigin(s.chunkDims, s.dims, n - 1);
      forall a | 0 <= a < |before| ensures before[a].offsets != last {
        var i :| 0 <= i < n - 1 && before[a].offsets == ElementOrigin(s.chunkDims, s.dims, i);
        OriginsDistinct(s.chunkDims, s.dims, i, n - 1);
      }
      assert 0 <= n - 1 < n && last == ElementOrigin(s.chunkDims, s.dims, n - 1);
    }
  }

  /** The parsed records as the chunked reader sees them; `resolve` reads and
      unfilters the bytes of one. */
  function Resolved(records: seq<Record>, resolve: Record -> Result<seq<Byte>>): (r: seq<ChunkRecord>)
    ensures |r| == |records|
    ensures forall k :: 0 <= k < |r| ==> r[k] == ChunkRecord(records[k].offsets, resolve(records[k]))
  {
    seq(|records|, k requires 0 <= k < |records| => ChunkRecord(records[k].offsets, resolve(records[k])))
  }

  /** Each element's record is found at its own origin, and an empty slot leaves
      its origin without an owner, however many elements there are. */
  lemma {:induction false} OwnerOfElement(file: seq<Byte>, l: Layout, s: Shape, uncompressed: nat, n: nat, i: nat,
                                          resolve: Record -> Result<seq<Byte>>)
    requires Exact(s) && l.start + n * l.elementSize <= |file|
    requires Records(file, l, s, GridDims(s.chunkDims, s.dims), uncompressed, n).Ok?
    ensures i < n ==> l.start + (i + 1) * l.elementSize <= |file|
    ensures var grid := GridDims(s.chunkDims, s.dims);
      var recs := Records(file, l, s, grid, uncompressed, n).value;
      match Owner(Resolved(recs, resolve), s.ndims, ElementOrigin(s.chunkDims, s.dims, i))
      case None => i < n ==> ElementRecord(file, l, s, grid, uncompressed, i) == Ok(None)
      case Some(k) => i < n && k < |recs| && ElementRecord(file, l, s, grid, uncompressed, i) == Ok(Some(recs[k]))
    decreases n
  {
    hide ElementRecord, ElementOrigin, Owner, GridDims;
    if i < n {
      MulMonotone(i + 1, n, l.elementSize);
    }
    if n == 0 {
      NothingOwned(resolve, s.ndims, ElementOrigin(s.chunkDims, s.dims, i));
    } else {
      MulStep(n, l.elementSize);
      OwnerOfElement(file, l, s, uncompressed, n - 1, i, resolve);
      LastElement(file, l, s, uncompressed, n, i, resolve);
    }
  }

  lemma NothingOwned(resolve: Record -> Result<seq<Byte>>, ndims: nat, o: seq<nat>)
    ensures Owner(Resolved([], resolve), ndims, o) == None
  {
  }

  lemma LastElement(file: seq<Byte>, l: Layout, s: Shape, uncompressed: nat, n: nat, i: nat,
                    resolve: Record -> Result<seq<Byte>>)
    requires Exact(s) && n > 0 && l.start + n * l.elementSize <= |file|
    requires Records(file, l, s, GridDims(s.chunkDims, s.dims), uncompressed, n).Ok?
    ensures l.start + (n - 1) * l.elementSize <= |file|
    ensures var grid := GridDims(s.chunkDims, s.dims);
      var recs, before :=
        Records(file, l, s, grid, uncompressed, n).value, Records(file, l, s, grid, uncompressed, n - 1).value;
      var o := ElementOrigin(s.chunkDims, s.dims, i);
      var last := ElementRecord(file, l, s, grid, uncompressed, n - 1).value;
      && recs == (if last.Some? then before + [last.value] else before)
      && Owner(Resolved(recs, resolve), s.ndims, o)
         == if last.Some? && i == n - 1 then Some(|before|) else Owner(Resolved(before, resolve), s.ndims, o)
  {
    hide GridCoords, SizeAndMask, LeNat, InlineOffsets, ElementRecord, ElementOrigin, Owner;
    MulStep(n, l.elementSize);
    var grid := GridDims(s.chunkDims, s.dims);
    var recs := Records(file, l, s, grid, uncompressed, n).value;
    var before := Records(file, l, s, grid, uncompressed, n - 1).value;
    var last := ElementRecord(file, l, s, grid, uncompressed, n - 1).value;
    if last.Some? {
      var all := Resolved(recs, resolve);
      RecordAtOrigin(file, l, s, uncompressed, n - 1);
      assert all[..|before|] == Resolved(before, resolve);
      assert last.value.offsets[..s.ndims] == last.value.offsets;
      if i != n - 1 {
        OriginsDistinct(s.chunkDims, s.dims, i, n - 1);
      }
      OwnerOfLast(all, s.ndims, ElementOrigin(s.chunkDims, s.dims, i));
    }
  }

  /** With known dimensions an element's record carries its origin. */
  lemma RecordAtOrigin(file: seq<Byte>, l: Layout, s: Shape, uncompressed: nat, i: nat)
    requires Exact(s) && l.start + (i + 1) * l.elementSize <= |file|
    ensures var r := ElementRecord(file, l, s, GridDims(s.chunkDims, s.dims), uncompressed, i);
      r.Ok? && r.value.Some? ==> r.value.value.offsets == ElementOrigin(s.chunkDims, s.dims, i)
                                 && |r.value.value.offsets| == s.ndims
  {
    hide GridCoords, SizeAndMask, LeNat, InlineOffsets;
  }

  lemma OwnerOfLast(records: seq<ChunkRecord>, ndims: nat, origin: seq<nat>)
    requires records != []
    ensures var n := |records| - 1;
      Owner(records, ndims, origin)
      == if HasOrigin(records[n], ndims, origin) then Some(n) else Owner(records[..n], ndims, origin)
  {
    hide HasOrigin;
  }

  /** Main result: with known dimensions, what the chunked reader finds at an
      aligned origin inside the dataset is what the element at that origin's
      position says: its resolved bytes, or the fill for an empty or missing one. */
  lemma ReaderFindsElements(file: seq<Byte>, header: nat, s: Shape, uncompressed: nat, o: seq<nat>,
                            resolve: Record -> Result<seq<Byte>>, fill: Option<seq<Byte>>, es: nat)
    requires Exact(s) && PositiveDims(s.dims) && |o| == s.ndims && InBox(o, s.dims) && Aligned(o, s.chunkDims)
    requires ParseLayout(file, header).Ok? && ParseLayout(file, header).value.Some?
    requires Parsed(file, header, s, uncompressed).Ok?
    ensures var l := ParseLayout(file, header).value.value;
      var i := PositionOf(s.chunkDims, s.dims, o);
      var found := ChunkBytes(Resolved(Parsed(file, header, s, uncompressed).value, resolve), fill, s.chunkDims, es, o);
      if i < l.count then
        l.start + (i + 1) * l.elementSize <= |file|
        && var e := ElementRecord(file, l, s, GridDims(s.chunkDims, s.dims), uncompressed, i);
        e.Ok? && found == if e.value.Some? then resolve(e.value.value) else Ok(SparseFill(fill, Product(s.chunkDims), es))
      else found == Ok(SparseFill(fill, Product(s.chunkDims), es))
  {
    hide ParseLayout, Records, ElementRecord, Owner, GridCoords, Product, CeilDiv, PositionOf, ElementOrigin;
    var l := ParseLayout(file, header).value.value;
    LayoutFits(file, header);
    var i := PositionOf(s.chunkDims, s.dims, o);
    OriginsBijection(s.chunkDims, s.dims, i, o);
    if l.count > 0 {
      OwnerOfElement(file, l, s, uncompressed, l.count, i, resolve);
    } else {
      NoRecords(file, l, s, uncompressed, resolve, o);
    }
  }

  lemma NoRecords(file: seq<Byte>, l: Layout, s: Shape, uncompressed: nat, resolve: Record -> Result<seq<Byte>>,
                  o: seq<nat>)
    requires l.count == 0 && l.start <= |file|
    ensures 0 * l.elementSize == 0
    ensures Records(file, l, s, [], uncompressed, 0) == Ok([])
    ensures Owner(Resolved([], resolve), s.ndims, o) == None
  {
    NothingOwned(resolve, s.ndims, o);
  }
}
