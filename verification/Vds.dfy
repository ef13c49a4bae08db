// Virtual-dataset selections: the odometer that enumerates the selected
// elements, and the folding of an explicit block list into one hyperslab.

module Vds {
  import opened Arithmetic
  import opened Common
  import opened Grid
  import opened Hyperslab

  datatype VdsSelection = SelNone | SelAll | SelHyperslab(slab: Hyperslab)

  // ------------------------------------------------------------------
  // Selected coordinates of one dimension
  // ------------------------------------------------------------------

  /** The coordinates of one dimension, block by block. */
  function CoordList(s: DimSelection): (c: seq<nat>)
    ensures |c| == s.NElements()
    ensures !s.Empty() ==> forall o :: 0 <= o < |c| ==> c[o] == s.Global(o)
  {
    if s.Empty() then [] else seq(s.NElements(), o requires 0 <= o => s.Global(o))
  }

  lemma PlaceIsGlobal(s: DimSelection, k: nat, j: nat)
    requires k < s.count && j < s.block
    ensures k * s.block + j < s.NElements()
    ensures s.Global(k * s.block + j) == s.Place(k, j)
  {
    MulLess(k, s.count, s.block, j);
    DivModUnique(k * s.block + j, s.block, k, j);
  }

  lemma GlobalIsSelected(s: DimSelection, o: nat)
    requires o < s.NElements() && !s.Empty()
    ensures s.Selects(s.Global(o))
  {
    DivBound(o, s.count, s.block);
    assert s.Global(o) == s.Place(o / s.block, o % s.block);
  }

  lemma SelectedIsGlobal(s: DimSelection, c: nat) returns (o: nat)
    requires s.Selects(c)
    ensures o < s.NElements() && !s.Empty() && s.Global(o) == c
  {
    hide DimSelection.Place, DimSelection.Global, DimSelection.NElements;
    var k: nat, j: nat :| k < s.count && j < s.block && c == s.Place(k, j);
    PlaceIsGlobal(s, k, j);
    o := k * s.block + j;
  }

  method DimCoords(s: DimSelection) returns (coords: seq<nat>)
    ensures coords == CoordList(s)
  {
    coords := [];
    for k := 0 to s.count
      invariant |coords| == k * s.block
      invariant s.block > 0 ==> forall o :: 0 <= o < |coords| ==> coords[o] == s.Global(o)
    {
      for j := 0 to s.block
        invariant |coords| == k * s.block + j
        invariant s.block > 0 ==> forall o :: 0 <= o < |coords| ==> coords[o] == s.Global(o)
      {
        PlaceIsGlobal(s, k, j);
        coords := coords + [s.start + k * s.stride + j];
      }
    }
  }

  // ------------------------------------------------------------------
  // Enumerating a selection
  // ------------------------------------------------------------------

  /** Every enumerated coordinate lies inside the dataspace. */
  predicate InBounds(h: Hyperslab, shape: seq<nat>)
    requires |h.dims| == |shape|
  {
    forall d, c :: 0 <= d < |shape| && c in CoordList(h.dims[d]) ==> c < shape[d]
  }

  function Offsets(h: Hyperslab, shape: seq<nat>): (offs: seq<nat>)
    requires h.NonEmpty() && |h.dims| == |shape|
    ensures |offs| == Product(h.OutputShape())
    ensures forall f :: 0 <= f < |offs| ==> offs[f] == Ravel(shape, h.Source(f))
  {
    seq(Product(h.OutputShape()), f requires 0 <= f => Ravel(shape, h.Source(f)))
  }

  function SelectionOffsets(sel: VdsSelection, shape: seq<nat>): Result<seq<nat>> {
    match sel
    case SelNone => Ok([])
    case SelAll => Ok(seq(Product(shape), i => i))
    case SelHyperslab(h) =>
      if |h.dims| != |shape| || !InBounds(h, shape) then Err(Format)
      else if !h.NonEmpty() then Ok([])
      else Ok(Offsets(h, shape))
  }

  /** Increment the multi-index, last dimension fastest; `done` when it wraps. */
  method Increment(start: seq<nat>, lens: seq<nat>) returns (done: bool, idx: seq<nat>)
    requires InBox(start, lens)
    ensures done ==> Ravel(lens, start) + 1 == Product(lens)
    ensures !done ==> InBox(idx, lens) && Ravel(lens, idx) == Ravel(lens, start) + 1
  {
    hide Ravel, Product;
    idx := start;
    var d := |lens|;
    while true
      invariant 0 <= d <= |lens| == |idx|
      invariant idx[..d] == start[..d]
      invariant forall e :: d <= e < |lens| ==> start[e] + 1 == lens[e] && idx[e] == 0
      decreases d
    {
      if d == 0 {
        RavelLast(lens, start);
        return true, idx;
      }
      d := d - 1;
      assert idx[d] == idx[..d + 1][d] == start[d];
      assert idx[..d] == idx[..d + 1][..d] == start[..d];
      idx := idx[d := idx[d] + 1];
      if idx[d] < lens[d] {
        break;
      }
      idx := idx[d := 0];
    }
    assert forall e :: 0 <= e < d ==> idx[e] == idx[..d][e] == start[..d][e] == start[e];
    OdometerStep(lens, start, idx, d);
    done := false;
  }

  /** Row-major position of the current multi-index. */
  method LinearIndex(perDim: seq<seq<nat>>, idx: seq<nat>, strides: seq<nat>) returns (lin: nat)
    requires |perDim| == |idx| == |strides|
    requires forall d :: 0 <= d < |idx| ==> idx[d] < |perDim[d]|
    ensures lin == Dot(seq(|idx|, d requires 0 <= d < |idx| => perDim[d][idx[d]]), strides)
  {
    ghost var c := seq(|idx|, d requires 0 <= d < |idx| => perDim[d][idx[d]]);
    lin := 0;
    assert c[0..] == c && strides[0..] == strides;
    for d := 0 to |idx|
      invariant lin + Dot(c[d..], strides[d..]) == Dot(c, strides)
    {
      assert c[d..][1..] == c[d + 1..] && strides[d..][1..] == strides[d + 1..];
      lin := lin + perDim[d][idx[d]] * strides[d];
    }
  }

  method SelectionElementOffsets(sel: VdsSelection, shape: seq<nat>) returns (r: Result<seq<nat>>)
    ensures r == SelectionOffsets(sel, shape)
  {
    match sel
    case SelNone => return Ok([]);
    case SelAll => return Ok(seq(Product(shape), i => i));
    case SelHyperslab(h) =>
      if |h.dims| != |shape| {
        return Err(Format);
      }
      var rank := |shape|;
      var strides := RowMajorStrides(shape);
      var perDim: seq<seq<nat>> := [];
      for d := 0 to rank
        invariant |perDim| == d && forall e :: 0 <= e < d ==> perDim[e] == CoordList(h.dims[e])
      {
        var coords := DimCoords(h.dims[d]);
        perDim := perDim + [coords];
      }
      for d := 0 to rank
        invariant forall e, c :: 0 <= e < d && c in CoordList(h.dims[e]) ==> c < shape[e]
      {
        if exists c :: c in perDim[d] && c >= shape[d] {
          return Err(Format);
        }
      }
      if exists d :: 0 <= d < rank && perDim[d] == [] {
        var d :| 0 <= d < rank && perDim[d] == [];
        assert h.dims[d].Empty();
        return Ok([]);
      }
      assert h.NonEmpty() by {
        forall d | 0 <= d < rank ensures !h.dims[d].Empty() {
          assert perDim[d] != [];
        }
      }
      r := Odometer(h, shape, perDim, strides);
  }

  /** The enumeration loop proper: one offset per multi-index, in order. */
  method Odometer(h: Hyperslab, shape: seq<nat>, perDim: seq<seq<nat>>, strides: seq<nat>)
    returns (r: Result<seq<nat>>)
    requires h.NonEmpty() && |h.dims| == |shape| == |perDim| && strides == Strides(shape)
    requires forall d :: 0 <= d < |shape| ==> perDim[d] == CoordList(h.dims[d])
    ensures r == Ok(Offsets(h, shape))
  {
    hide Ravel, Product, Unravel, Dot;
    var rank := |shape|;
    ghost var lens := h.OutputShape();
    ghost var total := Product(lens);
    var offsets: seq<nat> := [];
    var idx: seq<nat> := seq(rank, d => 0);
    forall d | 0 <= d < rank ensures lens[d] > 0 {
      MulMonotone(1, h.dims[d].count, h.dims[d].block);
    }
    assert lens == LensOf(perDim);
    RavelBound(lens, idx);
    RavelZero(lens, idx);
    while true
      invariant |offsets| < total && InBox(idx, lens) && Ravel(lens, idx) == |offsets|
      invariant forall f :: 0 <= f < |offsets| ==> offsets[f] == Ravel(shape, h.Source(f))
      decreases total - |offsets|
    {
      var lin := LinearIndex(perDim, idx, strides);
      UnravelRavel(lens, idx);
      assert h.Source(|offsets|) == seq(|idx|, d requires 0 <= d < |idx| => perDim[d][idx[d]]);
      DotIsRavel(shape, h.Source(|offsets|));
      offsets := offsets + [lin];
      var done, next := Increment(idx, LensOf(perDim));
      if done {
        assert offsets == Offsets(h, shape);
        return Ok(offsets);
      }
      idx := next;
      RavelBound(lens, idx);
    }
  }

  function LensOf(perDim: seq<seq<nat>>): (l: seq<nat>)
    ensures |l| == |perDim| && forall d :: 0 <= d < |l| ==> l[d] == |perDim[d]|
  {
    seq(|perDim|, d requires 0 <= d < |perDim| => |perDim[d]|)
  }

  // ------------------------------------------------------------------
  // What the enumeration lists
  // ------------------------------------------------------------------

  ghost predicate SelectsAll(h: Hyperslab, g: seq<nat>) {
    |g| == |h.dims| && forall d :: 0 <= d < |g| ==> h.dims[d].Selects(g[d])
  }

  /** The enumeration succeeds exactly when every documented coordinate of
      every dimension is inside the dataspace. */
  lemma InBoundsIsDocumented(h: Hyperslab, shape: seq<nat>)
    requires |h.dims| == |shape|
    ensures InBounds(h, shape) <==>
      forall d, c: nat :: 0 <= d < |shape| && h.dims[d].Selects(c) ==> c < shape[d]
  {
    if InBounds(h, shape) {
      forall d, c: nat | 0 <= d < |shape| && h.dims[d].Selects(c) ensures c < shape[d] {
        var o := SelectedIsGlobal(h.dims[d], c);
        assert c == CoordList(h.dims[d])[o];
        assert c in CoordList(h.dims[d]);
      }
    } else {
      var d, c :| 0 <= d < |shape| && c in CoordList(h.dims[d]) && c >= shape[d];
      var o :| 0 <= o < |CoordList(h.dims[d])| && CoordList(h.dims[d])[o] == c;
      GlobalIsSelected(h.dims[d], o);
    }
  }

  lemma SourceIsSelected(h: Hyperslab, f: nat)
    requires h.NonEmpty() && f < Product(h.OutputShape())
    ensures SelectsAll(h, h.Source(f))
  {
    hide Product, Ravel, Unravel;
    UnravelInBox(h.OutputShape(), f);
    forall d | 0 <= d < |h.dims| ensures h.dims[d].Selects(h.Source(f)[d]) {
      GlobalIsSelected(h.dims[d], Unravel(h.OutputShape(), f)[d]);
    }
  }

  /** Every documented element is the source of some output position. */
  lemma SelectedIsSource(h: Hyperslab, g: seq<nat>) returns (f: nat)
    requires SelectsAll(h, g)
    ensures h.NonEmpty() && f < Product(h.OutputShape()) && h.Source(f) == g
  {
    hide Product, Ravel, Unravel;
    var o: seq<nat> := [];
    for d := 0 to |g|
      invariant |o| == d
      invariant forall e :: 0 <= e < d ==> !h.dims[e].Empty()
      invariant forall e :: 0 <= e < d ==> o[e] < h.dims[e].NElements() && h.dims[e].Global(o[e]) == g[e]
    {
      var x := SelectedIsGlobal(h.dims[d], g[d]);
      o := o + [x];
    }
    f := Ravel(h.OutputShape(), o);
    RavelBound(h.OutputShape(), o);
    UnravelRavel(h.OutputShape(), o);
    assert h.Source(f) == g;
  }

  /** Complete and sound: the listed offsets are exactly the row-major positions
      of the coordinates the documentation selects, overlap or not. */
  lemma OffsetsAreDocumented(h: Hyperslab, shape: seq<nat>, x: nat)
    requires h.NonEmpty() && |h.dims| == |shape| && InBounds(h, shape)
    ensures x in Offsets(h, shape) <==>
      exists g :: SelectsAll(h, g) && InBox(g, shape) && Ravel(shape, g) == x
  {
    hide Product, Ravel, Unravel;
    InBoundsIsDocumented(h, shape);
    if x in Offsets(h, shape) {
      var f :| 0 <= f < |Offsets(h, shape)| && Offsets(h, shape)[f] == x;
      SourceIsSelected(h, f);
      var g := h.Source(f);
      assert SelectsAll(h, g) && InBox(g, shape) && Ravel(shape, g) == x;
    }
    if g :| SelectsAll(h, g) && InBox(g, shape) && Ravel(shape, g) == x {
      var f := SelectedIsSource(h, g);
      assert Offsets(h, shape)[f] == x;
    }
  }

  ghost predicate StrictlyIncreasing(s: seq<nat>) {
    forall i, j :: 0 <= i < j < |s| ==> s[i] < s[j]
  }

  /** Blocks of this dimension come in increasing order without overlap. */
  predicate InOrder(s: DimSelection) { s.count <= 1 || s.block <= s.stride }

  lemma PlaceIncreases(s: DimSelection, k: nat, i: nat, l: nat, j: nat)
    requires InOrder(s) && i < s.block && j < s.block && l < s.count
    requires k * s.block + i < l * s.block + j
    ensures s.Place(k, i) < s.Place(l, j)
  {
    if k < l {
      MulMonotone(k + 1, l, s.stride);
    } else if l < k {
      MulMonotone(l + 1, k, s.block);
    }
  }

  lemma GlobalIncreases(s: DimSelection, o: nat, p: nat)
    requires !s.Empty() && InOrder(s) && o < p < s.NElements()
    ensures s.Global(o) < s.Global(p)
  {
    DivBound(p, s.count, s.block);
    PlaceIncreases(s, o / s.block, o % s.block, p / s.block, p % s.block);
  }

  lemma SourceIncreases(h: Hyperslab, shape: seq<nat>, f: nat, g: nat)
    requires h.NonEmpty() && |h.dims| == |shape| && InBounds(h, shape)
    requires forall d :: 0 <= d < |h.dims| ==> InOrder(h.dims[d])
    requires f < g < Product(h.OutputShape())
    ensures Ravel(shape, h.Source(f)) < Ravel(shape, h.Source(g))
  {
    hide Product, Ravel, Unravel;
    var lens := h.OutputShape();
    var d := UnravelLexicographic(lens, f, g);
    UnravelInBox(lens, f);
    UnravelInBox(lens, g);
    var a, b := Unravel(lens, f), Unravel(lens, g);
    GlobalIncreases(h.dims[d], a[d], b[d]);
    forall e | 0 <= e < d ensures h.Source(f)[e] == h.Source(g)[e] {
      assert a[e] == a[..d][e] == b[..d][e] == b[e];
    }
    InBoundsIsDocumented(h, shape);
    SourceIsSelected(h, f);
    SourceIsSelected(h, g);
    assert h.Source(f)[..d] == h.Source(g)[..d];
    RavelMonotone(shape, h.Source(f), h.Source(g), d);
  }

  /** Two consecutive output positions whose sources do not increase. */
  lemma OverlapGoesBack(h: Hyperslab, shape: seq<nat>, d: nat) returns (f: nat, g: nat)
    requires h.NonEmpty() && |h.dims| == |shape| && d < |h.dims| && !InOrder(h.dims[d])
    ensures f < g < Product(h.OutputShape())
    ensures Ravel(shape, h.Source(g)) <= Ravel(shape, h.Source(f))
  {
    hide Product, Ravel, Unravel;
    var lens := h.OutputShape();
    var s := h.dims[d];
    MulMonotone(2, s.count, s.block);
    var a: seq<nat> := seq(|lens|, e => if e == d then s.block - 1 else 0);
    var b: seq<nat> := seq(|lens|, e => if e == d then s.block else 0);
    forall e | 0 <= e < |lens| ensures a[e] < lens[e] && b[e] < lens[e] {
      MulMonotone(1, h.dims[e].count, h.dims[e].block);
    }
    f, g := Ravel(lens, a), Ravel(lens, b);
    assert a[..d] == b[..d];
    RavelMonotone(lens, a, b, d);
    RavelBound(lens, b);
    UnravelRavel(lens, a);
    UnravelRavel(lens, b);
    DivModUnique(s.block - 1, s.block, 0, s.block - 1);
    DivModUnique(s.block, s.block, 1, 0);
    forall e | 0 <= e < |lens| ensures h.Source(g)[e] <= h.Source(f)[e] {
      assert h.Source(f)[e] == h.dims[e].Global(a[e]) && h.Source(g)[e] == h.dims[e].Global(b[e]);
    }
    RavelWeaklyMonotone(shape, h.Source(g), h.Source(f));
  }

  /** Sorted exactly when: the offsets come out strictly increasing if and only
      if each dimension has at most one block or blocks no longer than the stride. */
  lemma OffsetsSortedExactlyWhen(h: Hyperslab, shape: seq<nat>)
    requires h.NonEmpty() && |h.dims| == |shape| && InBounds(h, shape)
    ensures StrictlyIncreasing(Offsets(h, shape)) <==> forall d :: 0 <= d < |h.dims| ==> InOrder(h.dims[d])
  {
    hide Product, Ravel, Unravel;
    if forall d :: 0 <= d < |h.dims| ==> InOrder(h.dims[d]) {
      forall f, g | 0 <= f < g < |Offsets(h, shape)|
        ensures Offsets(h, shape)[f] < Offsets(h, shape)[g]
      {
        SourceIncreases(h, shape, f, g);
      }
    } else {
      var d :| 0 <= d < |h.dims| && !InOrder(h.dims[d]);
      var f, g := OverlapGoesBack(h, shape, d);
      assert Offsets(h, shape)[g] <= Offsets(h, shape)[f];
    }
  }
}
