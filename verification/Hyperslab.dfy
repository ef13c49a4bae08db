// N-dimensional strided selections (start, stride, count, block), and the
// chunk-by-chunk scatter that tests every overlapping element for membership.

module Hyperslab {
  import opened Arithmetic
  import opened Common
  import opened Elements
  import opened Grid

  // ------------------------------------------------------------------
  // One dimension
  // ------------------------------------------------------------------

  datatype DimSelection = DimSelection(start: nat, stride: nat, count: nat, block: nat) {

    predicate Empty() { count == 0 || block == 0 }

    function NElements(): nat { count * block }

    /** Inclusive last element; None for an empty selection. */
    function LastElement(): Option<nat> {
      if Empty() then None else Some(start + (count - 1) * stride + (block - 1))
    }

    /** The membership test; a zero stride divides by zero unless the
        selection is empty. */
    predicate Contains(coord: nat)
      requires Empty() || stride >= 1
    {
      if Empty() then false
      else if coord < start then false
      else
        var rel := coord - start;
        if rel / stride >= count then false else rel % stride < block
    }

    function Place(k: nat, j: nat): nat { start + k * stride + j }

    /** Membership as documented: { start + k*stride + j : k < count, j < block }. */
    ghost predicate Selects(coord: nat) {
      exists k: nat, j: nat :: k < count && j < block && coord == Place(k, j)
    }

    /** Non-empty with a positive stride: the selections `validate` lets through. */
    predicate Proper() { !Empty() && stride >= 1 }

    /** Blocks do not run into each other. */
    predicate Disjoint() { Empty() || block <= stride }

    /** The o-th output coordinate's dataset coordinate, as the gather computes it. */
    function Global(o: nat): nat
      requires block > 0
    {
      start + (o / block) * stride + o % block
    }

    /** Output coordinate of a selected element, as the scatter computes it. */
    function OutCoord(g: nat): nat
      requires stride > 0 && g >= start
    {
      (g - start) / stride * block + (g - start) % stride
    }

    /** The scatter can only ever reach offsets below the stride within a block. */
    predicate Reached(o: nat)
      requires block > 0
    {
      o % block < stride
    }
  }

  lemma GlobalBounds(s: DimSelection, o: nat)
    requires s.Proper() && o < s.NElements()
    ensures s.start <= s.Global(o) <= s.LastElement().value
  {
    DivBound(o, s.count, s.block);
    MulMonotone(o / s.block, s.count - 1, s.stride);
  }

  /** An output coordinate the scatter reaches holds a contained element, and
      comes back from it. */
  lemma ReachedRoundTrip(s: DimSelection, o: nat)
    requires s.Proper() && o < s.NElements() && s.Reached(o)
    ensures s.Contains(s.Global(o))
    ensures s.OutCoord(s.Global(o)) == o
  {
    DivBound(o, s.count, s.block);
    DivModUnique(s.Global(o) - s.start, s.stride, o / s.block, o % s.block);
  }

  /** A contained element has one output coordinate, which leads back to it. */
  lemma ContainedRoundTrip(s: DimSelection, g: nat)
    requires s.Proper() && s.Contains(g)
    ensures s.OutCoord(g) < s.NElements()
    ensures s.Global(s.OutCoord(g)) == g
    ensures s.Reached(s.OutCoord(g))
    ensures g <= s.LastElement().value
  {
    var q, r := (g - s.start) / s.stride, (g - s.start) % s.stride;
    assert g - s.start == q * s.stride + r;
    MulLess(q, s.count, s.block, r);
    DivModUnique(s.OutCoord(g), s.block, q, r);
    MulMonotone(q, s.count - 1, s.stride);
  }

  /** The membership test is the documented set exactly when the selection is
      empty or its blocks do not overlap. */
  lemma ContainsIsDocumented(s: DimSelection)
    requires s.Empty() || s.stride >= 1
    ensures (forall g: nat :: s.Contains(g) <==> s.Selects(g)) <==> s.Disjoint()
  {
    if s.Empty() {
    } else if s.block <= s.stride {
      forall g: nat ensures s.Contains(g) <==> s.Selects(g) {
        if s.Contains(g) {
          var q, r := (g - s.start) / s.stride, (g - s.start) % s.stride;
          assert g == s.Place(q, r);
        }
        if s.Selects(g) {
          var k: nat, j: nat :| k < s.count && j < s.block && g == s.Place(k, j);
          DivModUnique(g - s.start, s.stride, k, j);
        }
      }
    } else {
      // The last block's element one stride in is selected but not contained.
      var g := s.Place(s.count - 1, s.stride);
      assert s.Selects(g);
      assert g - s.start == s.count * s.stride + 0;
      DivModUnique(g - s.start, s.stride, s.count, 0);
      assert !s.Contains(g);
    }
  }

  // ------------------------------------------------------------------
  // N dimensions
  // ------------------------------------------------------------------

  datatype Range = Range(start: nat, end: nat)

  datatype Hyperslab = Hyperslab(dims: seq<DimSelection>) {

    function OutputShape(): (shape: seq<nat>)
      ensures |shape| == |dims|
      ensures forall d :: 0 <= d < |dims| ==> shape[d] == dims[d].NElements()
    {
      seq(|dims|, d requires 0 <= d < |dims| => dims[d].NElements())
    }

    /** A box that encloses every selected element. */
    function BoundingRanges(): (b: seq<Range>)
      ensures |b| == |dims|
    {
      seq(|dims|, d requires 0 <= d < |dims| =>
        if dims[d].Empty() then Range(0, 0)
        else Range(dims[d].start, dims[d].LastElement().value + 1))
    }

    predicate IsEmpty() { exists d :: 0 <= d < |dims| && dims[d].Empty() }

    predicate Valid() {
      forall d :: 0 <= d < |dims| ==> dims[d].Empty() || dims[d].stride >= 1
    }

    function Validate(): Result<()> { if Valid() then Ok(()) else Err(Format) }

    predicate NonEmpty() { forall d :: 0 <= d < |dims| ==> !dims[d].Empty() }

    predicate Proper() { forall d :: 0 <= d < |dims| ==> dims[d].Proper() }

    predicate Disjoint() { forall d :: 0 <= d < |dims| ==> dims[d].Disjoint() }

    predicate Contains(g: seq<nat>)
      requires Valid() && |g| == |dims|
    {
      forall d :: 0 <= d < |dims| ==> dims[d].Contains(g[d])
    }

    predicate Reached(o: seq<nat>)
      requires Proper() && |o| == |dims|
    {
      forall d :: 0 <= d < |dims| ==> dims[d].Reached(o[d])
    }

    function Global(o: seq<nat>): (g: seq<nat>)
      requires NonEmpty() && |o| == |dims|
      ensures |g| == |dims|
    {
      seq(|dims|, d requires 0 <= d < |dims| => dims[d].Global(o[d]))
    }

    function OutCoord(g: seq<nat>): (o: seq<nat>)
      requires Proper() && |g| == |dims|
      requires forall d :: 0 <= d < |dims| ==> g[d] >= dims[d].start
      ensures |o| == |dims|
    {
      seq(|dims|, d requires 0 <= d < |dims| => dims[d].OutCoord(g[d]))
    }

    /** Dataset coordinate that output element `f` stands for. */
    function Source(f: nat): (g: seq<nat>)
      requires NonEmpty()
      ensures |g| == |dims|
    {
      Global(Unravel(OutputShape(), f))
    }
  }

  /** `Hyperslab::contiguous`. */
  function Contiguous(ranges: seq<Range>): (h: Hyperslab)
    requires forall d :: 0 <= d < |ranges| ==> ranges[d].start <= ranges[d].end
  {
    Hyperslab(seq(|ranges|, d requires 0 <= d < |ranges| =>
      DimSelection(ranges[d].start, 1, ranges[d].end - ranges[d].start, 1)))
  }

  lemma SourceInBounds(h: Hyperslab, f: nat)
    requires h.Proper() && f < Product(h.OutputShape())
    ensures forall d :: 0 <= d < |h.dims| ==>
      h.BoundingRanges()[d].start <= h.Source(f)[d] < h.BoundingRanges()[d].end
  {
    UnravelInBox(h.OutputShape(), f);
    forall d | 0 <= d < |h.dims|
      ensures h.BoundingRanges()[d].start <= h.Source(f)[d] < h.BoundingRanges()[d].end
    {
      GlobalBounds(h.dims[d], Unravel(h.OutputShape(), f)[d]);
    }
  }

  /** The scatter's output position of a contained element. */
  function OutFlat(h: Hyperslab, g: seq<nat>): nat
    requires h.Proper() && |g| == |h.dims| && h.Contains(g)
  {
    Ravel(h.OutputShape(), h.OutCoord(g))
  }

  /** Contained coordinates and reached output positions are in bijection. */
  lemma OutFlatOfContained(h: Hyperslab, g: seq<nat>)
    requires h.Proper() && |g| == |h.dims| && h.Contains(g)
    ensures OutFlat(h, g) < Product(h.OutputShape())
    ensures h.Source(OutFlat(h, g)) == g
    ensures h.Reached(Unravel(h.OutputShape(), OutFlat(h, g)))
  {
    forall d | 0 <= d < |h.dims|
      ensures h.OutCoord(g)[d] < h.OutputShape()[d]
      ensures h.dims[d].Global(h.OutCoord(g)[d]) == g[d]
      ensures h.dims[d].Reached(h.OutCoord(g)[d])
    {
      ContainedRoundTrip(h.dims[d], g[d]);
    }
    RavelBound(h.OutputShape(), h.OutCoord(g));
    UnravelRavel(h.OutputShape(), h.OutCoord(g));
  }

  lemma SourceOfReached(h: Hyperslab, f: nat)
    requires h.Proper() && f < Product(h.OutputShape())
    requires h.Reached(Unravel(h.OutputShape(), f))
    ensures h.Contains(h.Source(f))
    ensures OutFlat(h, h.Source(f)) == f
  {
    var o := Unravel(h.OutputShape(), f);
    UnravelInBox(h.OutputShape(), f);
    forall d | 0 <= d < |h.dims|
      ensures h.dims[d].Contains(h.Source(f)[d])
      ensures h.dims[d].OutCoord(h.Source(f)[d]) == o[d]
    {
      ReachedRoundTrip(h.dims[d], o[d]);
    }
    assert h.OutCoord(h.Source(f)) == o;
  }

  // ------------------------------------------------------------------
  // Scattering one chunk
  // ------------------------------------------------------------------

  function Dot(c: seq<nat>, strides: seq<nat>): nat
    requires |c| == |strides|
  {
    if c == [] then 0 else c[0] * strides[0] + Dot(c[1..], strides[1..])
  }

  lemma {:induction false} DotIsRavel(dims: seq<nat>, c: seq<nat>)
    requires |c| == |dims|
    ensures Dot(c, Strides(dims)) == Ravel(dims, c)
  {
    if dims != [] {
      DotIsRavel(dims[1..], c[1..]);
      assert Strides(dims)[1..] == Strides(dims[1..]) by {
        forall d | 0 <= d < |dims| - 1
          ensures Strides(dims)[1..][d] == Strides(dims[1..])[d]
        {
          assert dims[1..][d + 1..] == dims[d + 2..];
        }
      }
    }
  }

  function Sub(a: seq<nat>, b: seq<nat>): (c: seq<nat>)
    requires |a| == |b| && forall d :: 0 <= d < |a| ==> b[d] <= a[d]
    ensures |c| == |a|
  {
    seq(|a|, d requires 0 <= d < |a| => a[d] - b[d])
  }

  predicate InChunk(g: seq<nat>, origin: seq<nat>, chunkDims: seq<nat>)
    requires |g| == |origin| == |chunkDims|
  {
    forall d :: 0 <= d < |g| ==> origin[d] <= g[d] < origin[d] + chunkDims[d]
  }

  /** The chunk contributes to output element `f`. */
  predicate Hits(h: Hyperslab, origin: seq<nat>, chunkDims: seq<nat>, f: nat)
    requires h.Proper() && |origin| == |chunkDims| == |h.dims|
  {
    h.Reached(Unravel(h.OutputShape(), f)) && InChunk(h.Source(f), origin, chunkDims)
  }

  /** What output element `f` holds after the chunk at `origin` was scattered. */
  function Scattered(before: seq<Byte>, chunk: seq<Byte>, origin: seq<nat>, chunkDims: seq<nat>,
                     h: Hyperslab, es: nat, f: nat): seq<Byte>
    requires h.Proper() && |origin| == |chunkDims| == |h.dims|
  {
    if Hits(h, origin, chunkDims, f) && Fits(chunk, Ravel(chunkDims, Sub(h.Source(f), origin)), es)
    then Elem(chunk, Ravel(chunkDims, Sub(h.Source(f), origin)), es)
    else Elem(before, f, es)
  }

  function OverlapStart(h: Hyperslab, origin: seq<nat>): (s: seq<nat>)
    requires |origin| == |h.dims|
    ensures |s| == |h.dims|
  {
    seq(|h.dims|, d requires 0 <= d < |h.dims| => Max(h.BoundingRanges()[d].start, origin[d]))
  }

  function OverlapEnd(h: Hyperslab, origin: seq<nat>, chunkDims: seq<nat>): (e: seq<nat>)
    requires |origin| == |chunkDims| == |h.dims|
    ensures |e| == |h.dims|
  {
    seq(|h.dims|, d requires 0 <= d < |h.dims| => Min(h.BoundingRanges()[d].end, origin[d] + chunkDims[d]))
  }

  predicate Below(a: seq<nat>, b: seq<nat>)
    requires |a| == |b|
  {
    forall d :: 0 <= d < |a| ==> a[d] < b[d]
  }

  /** A hit lies in the overlap of the chunk and the bounding box. */
  lemma HitInOverlap(h: Hyperslab, origin: seq<nat>, chunkDims: seq<nat>, f: nat)
    requires h.Proper() && |origin| == |chunkDims| == |h.dims|
    requires f < Product(h.OutputShape()) && Hits(h, origin, chunkDims, f)
    ensures Below(OverlapStart(h, origin), OverlapEnd(h, origin, chunkDims))
    ensures forall d :: 0 <= d < |h.dims| ==>
      OverlapStart(h, origin)[d] <= h.Source(f)[d] < OverlapEnd(h, origin, chunkDims)[d]
  {
    SourceInBounds(h, f);
  }

  /** Position of a hit in the scatter's enumeration of the overlap. */
  ghost function HitIndex(h: Hyperslab, origin: seq<nat>, chunkDims: seq<nat>, f: nat): nat
    requires h.Proper() && |origin| == |chunkDims| == |h.dims|
    requires f < Product(h.OutputShape()) && Hits(h, origin, chunkDims, f)
  {
    HitInOverlap(h, origin, chunkDims, f);
    var lo := OverlapStart(h, origin);
    Ravel(Sub(OverlapEnd(h, origin, chunkDims), lo), Sub(h.Source(f), lo))
  }

  lemma HitIndexBound(h: Hyperslab, origin: seq<nat>, chunkDims: seq<nat>, f: nat)
    requires h.Proper() && |origin| == |chunkDims| == |h.dims|
    requires f < Product(h.OutputShape()) && Hits(h, origin, chunkDims, f)
    ensures Below(OverlapStart(h, origin), OverlapEnd(h, origin, chunkDims))
    ensures HitIndex(h, origin, chunkDims, f)
         < Product(Sub(OverlapEnd(h, origin, chunkDims), OverlapStart(h, origin)))
  {
    HitInOverlap(h, origin, chunkDims, f);
    var lo := OverlapStart(h, origin);
    RavelBound(Sub(OverlapEnd(h, origin, chunkDims), lo), Sub(h.Source(f), lo));
  }

  /** Coordinate the enumeration of the overlap visits at step `i`. */
  function Visit(h: Hyperslab, origin: seq<nat>, chunkDims: seq<nat>, i: nat): (g: seq<nat>)
    requires |origin| == |chunkDims| == |h.dims|
    requires Below(OverlapStart(h, origin), OverlapEnd(h, origin, chunkDims))
    ensures |g| == |h.dims|
  {
    var lo := OverlapStart(h, origin);
    var rel := Unravel(Sub(OverlapEnd(h, origin, chunkDims), lo), i);
    seq(|h.dims|, d requires 0 <= d < |h.dims| => lo[d] + rel[d])
  }

  lemma VisitInOverlap(h: Hyperslab, origin: seq<nat>, chunkDims: seq<nat>, i: nat)
    requires |origin| == |chunkDims| == |h.dims|
    requires Below(OverlapStart(h, origin), OverlapEnd(h, origin, chunkDims))
    requires i < Product(Sub(OverlapEnd(h, origin, chunkDims), OverlapStart(h, origin)))
    ensures InChunk(Visit(h, origin, chunkDims, i), origin, chunkDims)
    ensures forall d :: 0 <= d < |h.dims| ==>
      OverlapStart(h, origin)[d] <= Visit(h, origin, chunkDims, i)[d] < OverlapEnd(h, origin, chunkDims)[d]
    ensures InBox(Sub(Visit(h, origin, chunkDims, i), OverlapStart(h, origin)),
                  Sub(OverlapEnd(h, origin, chunkDims), OverlapStart(h, origin)))
    ensures Ravel(Sub(OverlapEnd(h, origin, chunkDims), OverlapStart(h, origin)),
                  Sub(Visit(h, origin, chunkDims, i), OverlapStart(h, origin))) == i
  {
    hide Product, Ravel, Unravel;
    var lo := OverlapStart(h, origin);
    var shape := Sub(OverlapEnd(h, origin, chunkDims), lo);
    UnravelInBox(shape, i);
    assert Sub(Visit(h, origin, chunkDims, i), lo) == Unravel(shape, i);
  }

  /** Two coordinates of a box with the same position are the same. */
  lemma SameCell(lo: seq<nat>, hi: seq<nat>, a: seq<nat>, b: seq<nat>)
    requires |lo| == |hi| == |a| == |b|
    requires forall d :: 0 <= d < |a| ==> lo[d] <= a[d] < hi[d] && lo[d] <= b[d] < hi[d]
    requires Ravel(Sub(hi, lo), Sub(a, lo)) == Ravel(Sub(hi, lo), Sub(b, lo))
    ensures a == b
  {
    RavelInjective(Sub(hi, lo), Sub(a, lo), Sub(b, lo));
    forall d | 0 <= d < |a| ensures a[d] == b[d] {
      assert Sub(a, lo)[d] == Sub(b, lo)[d];
    }
  }

  /** The step that reaches output element `f` visits its source, which is
      contained and maps to `f` alone. */
  lemma HitIsVisit(h: Hyperslab, origin: seq<nat>, chunkDims: seq<nat>, f: nat)
    requires h.Proper() && |origin| == |chunkDims| == |h.dims|
    requires f < Product(h.OutputShape()) && Hits(h, origin, chunkDims, f)
    ensures Below(OverlapStart(h, origin), OverlapEnd(h, origin, chunkDims))
    ensures Visit(h, origin, chunkDims, HitIndex(h, origin, chunkDims, f)) == h.Source(f)
    ensures h.Contains(h.Source(f)) && OutFlat(h, h.Source(f)) == f
  {
    HitIndexBound(h, origin, chunkDims, f);
    HitInOverlap(h, origin, chunkDims, f);
    SourceOfReached(h, f);
    var i := HitIndex(h, origin, chunkDims, f);
    VisitInOverlap(h, origin, chunkDims, i);
    SameCell(OverlapStart(h, origin), OverlapEnd(h, origin, chunkDims),
             h.Source(f), Visit(h, origin, chunkDims, i));
  }

  /** A visited contained coordinate is a hit of its output element. */
  lemma VisitIsHit(h: Hyperslab, origin: seq<nat>, chunkDims: seq<nat>, i: nat)
    requires h.Proper() && |origin| == |chunkDims| == |h.dims|
    requires Below(OverlapStart(h, origin), OverlapEnd(h, origin, chunkDims))
    requires i < Product(Sub(OverlapEnd(h, origin, chunkDims), OverlapStart(h, origin)))
    requires h.Contains(Visit(h, origin, chunkDims, i))
    ensures OutFlat(h, Visit(h, origin, chunkDims, i)) < Product(h.OutputShape())
    ensures h.Source(OutFlat(h, Visit(h, origin, chunkDims, i))) == Visit(h, origin, chunkDims, i)
    ensures Hits(h, origin, chunkDims, OutFlat(h, Visit(h, origin, chunkDims, i)))
    ensures HitIndex(h, origin, chunkDims, OutFlat(h, Visit(h, origin, chunkDims, i))) == i
  {
    VisitInOverlap(h, origin, chunkDims, i);
    OutFlatOfContained(h, Visit(h, origin, chunkDims, i));
  }

  ghost predicate HitBefore(h: Hyperslab, origin: seq<nat>, chunkDims: seq<nat>, f: nat, i: nat)
    requires h.Proper() && |origin| == |chunkDims| == |h.dims|
    requires f < Product(h.OutputShape())
  {
    Hits(h, origin, chunkDims, f) && HitIndex(h, origin, chunkDims, f) < i
  }

  /** Only a visit to a contained coordinate makes progress, and only for that
      coordinate's output element. */
  lemma VisitProgress(h: Hyperslab, origin: seq<nat>, chunkDims: seq<nat>, f: nat, i: nat)
    requires h.Proper() && |origin| == |chunkDims| == |h.dims|
    requires f < Product(h.OutputShape())
    requires Below(OverlapStart(h, origin), OverlapEnd(h, origin, chunkDims))
    requires i < Product(Sub(OverlapEnd(h, origin, chunkDims), OverlapStart(h, origin)))
    ensures HitBefore(h, origin, chunkDims, f, i + 1) <==>
      (HitBefore(h, origin, chunkDims, f, i)
       || (h.Contains(Visit(h, origin, chunkDims, i)) && f == OutFlat(h, Visit(h, origin, chunkDims, i))))
  {
    if Hits(h, origin, chunkDims, f) && HitIndex(h, origin, chunkDims, f) == i {
      HitIsVisit(h, origin, chunkDims, f);
    }
    if h.Contains(Visit(h, origin, chunkDims, i)) {
      VisitIsHit(h, origin, chunkDims, i);
    }
  }

  /** The chunk and the bounding box overlap; then the selection is proper. */
  predicate Overlaps(h: Hyperslab, origin: seq<nat>, chunkDims: seq<nat>)
    requires |origin| == |chunkDims| == |h.dims|
  {
    Below(OverlapStart(h, origin), OverlapEnd(h, origin, chunkDims))
  }

  lemma OverlapIsProper(h: Hyperslab, origin: seq<nat>, chunkDims: seq<nat>)
    requires |origin| == |chunkDims| == |h.dims| && h.Valid() && Overlaps(h, origin, chunkDims)
    ensures h.Proper()
  {
    forall d | 0 <= d < |h.dims| ensures h.dims[d].Proper() {
      assert OverlapStart(h, origin)[d] < OverlapEnd(h, origin, chunkDims)[d];
      assert h.BoundingRanges()[d].start < h.BoundingRanges()[d].end;
    }
  }

  /** The buffer after the first `n` visits, for any buffer and output shape: each
      visit to a contained coordinate is one guarded element copy. */
  function Visited(before: seq<Byte>, chunk: seq<Byte>, origin: seq<nat>, chunkDims: seq<nat>, h: Hyperslab,
                   outShape: seq<nat>, es: nat, n: nat): (after: seq<Byte>)
    requires |origin| == |chunkDims| == |outShape| == |h.dims| && h.Proper() && Overlaps(h, origin, chunkDims)
    requires n <= Product(Sub(OverlapEnd(h, origin, chunkDims), OverlapStart(h, origin)))
    ensures |after| == |before|
  {
    hide Product, Ravel, Unravel, Elem, Fits;
    if n == 0 then before
    else
      var sofar := Visited(before, chunk, origin, chunkDims, h, outShape, es, n - 1);
      var g := Visit(h, origin, chunkDims, n - 1);
      VisitInOverlap(h, origin, chunkDims, n - 1);
      CopiedLength(sofar, Ravel(outShape, OutCoordOf(h, g)), chunk, Ravel(chunkDims, Sub(g, origin)), es);
      if h.Contains(g) then Copied(sofar, Ravel(outShape, OutCoordOf(h, g)), chunk, Ravel(chunkDims, Sub(g, origin)), es)
      else sofar
  }

  /** Output coordinate of a coordinate; only contained ones are asked for. */
  function OutCoordOf(h: Hyperslab, g: seq<nat>): (o: seq<nat>)
    requires h.Proper() && |g| == |h.dims|
    ensures |o| == |g|
  {
    if h.Contains(g) then h.OutCoord(g) else g
  }

  lemma CopiedLength(buf: seq<Byte>, dst: nat, src: seq<Byte>, from: nat, es: nat)
    ensures |Copied(buf, dst, src, from, es)| == |buf|
  {
  }

  /** The buffer after one chunk was scattered into it. */
  function AfterScatter(before: seq<Byte>, chunk: seq<Byte>, origin: seq<nat>, chunkDims: seq<nat>, h: Hyperslab,
                        outShape: seq<nat>, es: nat): seq<Byte>
    requires |origin| == |chunkDims| == |outShape| == |h.dims| && h.Valid()
  {
    if Overlaps(h, origin, chunkDims) then
      OverlapIsProper(h, origin, chunkDims);
      Visited(before, chunk, origin, chunkDims, h, outShape, es,
              Product(Sub(OverlapEnd(h, origin, chunkDims), OverlapStart(h, origin))))
    else before
  }

  /** Scatter the selected elements of one decoded chunk.  The output shape is the
      caller's and the buffer may have any length: copies that do not fit are
      left out. */
  method ScatterChunkHyperslab(output: array<Byte>, chunkData: seq<Byte>, origin: seq<nat>,
                               chunkDims: seq<nat>, selection: Hyperslab, outShape: seq<nat>, es: nat)
    returns (r: Result<()>)
    modifies output
    ensures r.Ok? <==> |origin| == |chunkDims| == |outShape| == |selection.dims| && selection.Valid()
    ensures r.Err? ==> r == Err(Format) && output[..] == old(output[..])
    ensures r.Ok? ==>
      output[..] == AfterScatter(old(output[..]), chunkData, origin, chunkDims, selection, outShape, es)
  {
    hide Fits, Elem, Copied, Ravel, Unravel, Product;
    var ndims := |selection.dims|;
    if |origin| != ndims || |chunkDims| != ndims || |outShape| != ndims {
      return Err(Format);
    }
    var v := selection.Validate();
    if v.IsFailure() {
      return v.PropagateFailure();
    }
    var lo, hi := OverlapStart(selection, origin), OverlapEnd(selection, origin, chunkDims);
    ghost var before := output[..];
    if !Below(lo, hi) {
      return Ok(());
    }
    OverlapIsProper(selection, origin, chunkDims);
    var shape := Sub(hi, lo);
    var total := Product(shape);
    var shapeStrides := RowMajorStrides(shape);
    var chunkStrides := RowMajorStrides(chunkDims);
    var outStrides := RowMajorStrides(outShape);
    for i := 0 to total
      invariant output[..] == Visited(before, chunkData, origin, chunkDims, selection, outShape, es, i)
    {
      var rel := FlatToCoords(i, shape, shapeStrides);
      var g: seq<nat> := seq(ndims, d requires 0 <= d < ndims => lo[d] + rel[d]);
      assert g == Visit(selection, origin, chunkDims, i);
      VisitInOverlap(selection, origin, chunkDims, i);
      if selection.Contains(g) {
        var inChunk := Sub(g, origin);
        var chunkFlat := Dot(inChunk, chunkStrides);
        DotIsRavel(chunkDims, inChunk);
        var outCoord := selection.OutCoord(g);
        var outFlat := Dot(outCoord, outStrides);
        DotIsRavel(outShape, outCoord);
        CopyElem(output, outFlat, chunkData, chunkFlat, es);
      }
    }
    return Ok(());
  }

  /** With the selection's own output shape and a buffer of that many elements:
      after `i` visits exactly the output elements hit so far hold the chunk's. */
  lemma {:induction false} VisitedElems(before: seq<Byte>, chunk: seq<Byte>, origin: seq<nat>, chunkDims: seq<nat>,
                                        h: Hyperslab, es: nat, i: nat, f: nat)
    requires |origin| == |chunkDims| == |h.dims| && h.Proper() && Overlaps(h, origin, chunkDims)
    requires i <= Product(Sub(OverlapEnd(h, origin, chunkDims), OverlapStart(h, origin)))
    requires |before| == Product(h.OutputShape()) * es && f < Product(h.OutputShape())
    ensures Elem(Visited(before, chunk, origin, chunkDims, h, h.OutputShape(), es, i), f, es)
      == if HitBefore(h, origin, chunkDims, f, i) then Scattered(before, chunk, origin, chunkDims, h, es, f)
         else Elem(before, f, es)
    decreases i
  {
    hide Fits, Elem, Copied, Ravel, Unravel, Product, Hits, HitIndex;
    if i > 0 {
      VisitedElems(before, chunk, origin, chunkDims, h, es, i - 1, f);
      VisitInOverlap(h, origin, chunkDims, i - 1);
      VisitProgress(h, origin, chunkDims, f, i - 1);
      var g := Visit(h, origin, chunkDims, i - 1);
      var sofar := Visited(before, chunk, origin, chunkDims, h, h.OutputShape(), es, i - 1);
      if h.Contains(g) {
        VisitIsHit(h, origin, chunkDims, i - 1);
        ElemFits(sofar, OutFlat(h, g), Product(h.OutputShape()), es);
        CopiedElem(sofar, OutFlat(h, g), chunk, Ravel(chunkDims, Sub(g, origin)), es, f);
      }
    }
  }

  /** Main result on the scatter: with the selection's output shape and a buffer of
      that many elements, every output element is the chunk's element of its source
      when the chunk contributes to it, and unchanged otherwise. */
  lemma ScatterElems(before: seq<Byte>, chunk: seq<Byte>, origin: seq<nat>, chunkDims: seq<nat>, h: Hyperslab,
                     es: nat, f: nat)
    requires |origin| == |chunkDims| == |h.dims| && h.Proper()
    requires |before| == Product(h.OutputShape()) * es && f < Product(h.OutputShape())
    ensures Elem(AfterScatter(before, chunk, origin, chunkDims, h, h.OutputShape(), es), f, es)
         == Scattered(before, chunk, origin, chunkDims, h, es, f)
  {
    hide Fits, Elem, Ravel, Unravel, Product, Hits, HitIndex, Visited;
    if Hits(h, origin, chunkDims, f) {
      HitInOverlap(h, origin, chunkDims, f);
      HitIndexBound(h, origin, chunkDims, f);
    }
    if Overlaps(h, origin, chunkDims) {
      VisitedElems(before, chunk, origin, chunkDims, h, es,
                   Product(Sub(OverlapEnd(h, origin, chunkDims), OverlapStart(h, origin))), f);
    }
  }
}
