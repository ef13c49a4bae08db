// `Dataset::slice`: an odometer over plain ranges, compared with the other two
// readers of a box.

module DatasetSlice {
  import opened Common
  import opened Elements
  import opened Grid
  import opened Hyperslab
  import opened ChunkedHyperslab
  import Vds

  /** The fields of a dataset that slicing reads or changes; `elemSize` is None
      for a datatype without a fixed size. */
  datatype Dataset = Dataset(data: seq<Byte>, shape: seq<nat>, elemSize: Option<nat>)

  predicate ValidRanges(ranges: seq<Range>, shape: seq<nat>) {
    |ranges| == |shape| &&
    forall d :: 0 <= d < |ranges| ==> ranges[d].start <= ranges[d].end <= shape[d]
  }

  function RangeShape(ranges: seq<Range>): (s: seq<nat>)
    requires forall d :: 0 <= d < |ranges| ==> ranges[d].start <= ranges[d].end
    ensures |s| == |ranges|
  {
    seq(|ranges|, d requires 0 <= d < |ranges| => ranges[d].end - ranges[d].start)
  }

  /** Coordinates moved by the ranges' starts. */
  function Shifted(ranges: seq<Range>, c: seq<nat>): (g: seq<nat>)
    requires |c| == |ranges|
    ensures |g| == |ranges|
  {
    seq(|ranges|, d requires 0 <= d < |ranges| => ranges[d].start + c[d])
  }

  /** Flat source position of output element `f`. */
  function SliceSource(ranges: seq<Range>, shape: seq<nat>, f: nat): nat
    requires ValidRanges(ranges, shape)
  {
    Ravel(shape, Shifted(ranges, Unravel(RangeShape(ranges), f)))
  }

  function SliceElem(data: seq<Byte>, shape: seq<nat>, ranges: seq<Range>, es: nat, f: nat): (e: seq<Byte>)
    requires ValidRanges(ranges, shape)
    ensures |e| == es
  {
    hide Fits, Elem;
    var src := SliceSource(ranges, shape, f);
    if Fits(data, src, es) then Elem(data, src, es) else Zeros(es)
  }

  function SliceElems(data: seq<Byte>, shape: seq<nat>, ranges: seq<Range>, es: nat): (p: seq<seq<Byte>>)
    requires ValidRanges(ranges, shape)
    ensures |p| == Product(RangeShape(ranges))
    ensures forall f :: 0 <= f < |p| ==> p[f] == SliceElem(data, shape, ranges, es, f)
  {
    seq(Product(RangeShape(ranges)), f requires 0 <= f => SliceElem(data, shape, ranges, es, f))
  }

  function Sliced(ds: Dataset, ranges: seq<Range>): Result<Dataset> {
    if !ValidRanges(ranges, ds.shape) then Err(Format)
    else if ds.elemSize.None? then Err(NotImplemented)
    else Ok(Dataset(Concat(SliceElems(ds.data, ds.shape, ranges, ds.elemSize.value)),
                    RangeShape(ranges), ds.elemSize))
  }

  /** Carry through the digits from the last to the first. */
  method Carry(start: seq<nat>, lens: seq<nat>) returns (carry: bool, coords: seq<nat>)
    requires InBox(start, lens)
    ensures carry ==> Ravel(lens, start) + 1 == Product(lens)
    ensures !carry ==> InBox(coords, lens) && Ravel(lens, coords) == Ravel(lens, start) + 1
  {
    hide Ravel, Product;
    coords := start;
    carry := true;
    ghost var at := 0;
    var d := |lens|;
    while d > 0
      invariant 0 <= d <= |lens| == |coords|
      invariant carry ==> coords[..d] == start[..d]
      invariant carry ==> forall e :: d <= e < |lens| ==> start[e] + 1 == lens[e] && coords[e] == 0
      invariant !carry ==> d <= at && Follows(lens, start, coords, at) && coords[at] < lens[at]
    {
      d := d - 1;
      if carry {
        assert coords[d] == coords[..d + 1][d] == start[d];
        assert coords[..d] == coords[..d + 1][..d] == start[..d];
        coords := coords[d := coords[d] + 1];
        if coords[d] >= lens[d] {
          coords := coords[d := 0];
        } else {
          carry := false;
          at := d;
        }
      }
    }
    if carry {
      RavelLast(lens, start);
    } else {
      OdometerStep(lens, start, coords, at);
      assert forall e :: 0 <= e < at ==> coords[e] == coords[..at][e] == start[..at][e] == start[e];
    }
  }

  method Slice(ds: Dataset, ranges: seq<Range>) returns (r: Result<Dataset>)
    ensures r == Sliced(ds, ranges)
  {
    hide Fits, Elem, Copied, Ravel, Unravel, Product, Concat;
    var ndims := |ds.shape|;
    if |ranges| != ndims {
      return Err(Format);
    }
    for dim := 0 to ndims
      invariant forall d :: 0 <= d < dim ==> ranges[d].start <= ranges[d].end <= ds.shape[d]
    {
      if ranges[dim].start > ranges[dim].end || ranges[dim].end > ds.shape[dim] {
        return Err(Format);
      }
    }
    if ds.elemSize.None? {
      return Err(NotImplemented);
    }
    var es := ds.elemSize.value;
    var outShape := RangeShape(ranges);
    var outElems := Product(outShape);
    var outData := ZeroBuffer(outElems, es);
    if outElems != 0 {
      CopyBox(ds, ranges, es, outShape, outData);
    }
    ConcatUnique(outData[..], SliceElems(ds.data, ds.shape, ranges, es), es);
    return Ok(Dataset(outData[..], outShape, ds.elemSize));
  }

  /** The odometer loop over a non-empty box. */
  method CopyBox(ds: Dataset, ranges: seq<Range>, es: nat, outShape: seq<nat>, outData: array<Byte>)
    requires ValidRanges(ranges, ds.shape) && outShape == RangeShape(ranges)
    requires Product(outShape) > 0 && outData.Length == Product(outShape) * es
    requires forall f: nat :: f < Product(outShape) ==> Elem(outData[..], f, es) == Zeros(es)
    modifies outData
    ensures forall f: nat :: f < Product(outShape) ==>
      Elem(outData[..], f, es) == SliceElem(ds.data, ds.shape, ranges, es, f)
  {
    hide Fits, Elem, Copied, Ravel, Unravel, Product;
    var srcStrides := RowMajorStrides(ds.shape);
    var coords: seq<nat> := seq(|outShape|, d => 0);
    var dstFlat := 0;
    NonEmptyBox(outShape);
    RavelZero(outShape, coords);
    while true
      invariant InBox(coords, outShape) && dstFlat == Ravel(outShape, coords) && dstFlat < Product(outShape)
      invariant forall f: nat :: f < Product(outShape) ==>
        Elem(outData[..], f, es) == if f < dstFlat then SliceElem(ds.data, ds.shape, ranges, es, f) else Zeros(es)
      decreases Product(outShape) - dstFlat
    {
      var srcFlat := Dot(Shifted(ranges, coords), srcStrides);
      DotIsRavel(ds.shape, Shifted(ranges, coords));
      UnravelRavel(outShape, coords);
      ghost var now := outData[..];
      ElemFits(now, dstFlat, Product(outShape), es);
      CopyElem(outData, dstFlat, ds.data, srcFlat, es);
      forall f: nat | f < Product(outShape)
        ensures Elem(outData[..], f, es)
          == if f < dstFlat + 1 then SliceElem(ds.data, ds.shape, ranges, es, f) else Zeros(es)
      {
        CopiedElem(now, dstFlat, ds.data, srcFlat, es, f);
      }
      dstFlat := dstFlat + 1;
      var carry, next := Carry(coords, outShape);
      if carry {
        break;
      }
      coords := next;
      RavelBound(outShape, coords);
    }
  }

  lemma NonEmptyBox(dims: seq<nat>)
    requires Product(dims) > 0
    ensures forall d :: 0 <= d < |dims| ==> dims[d] > 0
  {
    forall d | 0 <= d < |dims| ensures dims[d] > 0 {
      if dims[d] == 0 {
        ZeroProduct(dims, d);
      }
    }
  }

  // ------------------------------------------------------------------
  // Three readers, one box
  // ------------------------------------------------------------------

  lemma ContiguousShape(ranges: seq<Range>)
    requires forall d :: 0 <= d < |ranges| ==> ranges[d].start <= ranges[d].end
    ensures Contiguous(ranges).OutputShape() == RangeShape(ranges)
  {
    var h := Contiguous(ranges);
    forall d | 0 <= d < |ranges| ensures h.OutputShape()[d] == RangeShape(ranges)[d] {
      assert h.dims[d].NElements() == h.dims[d].count * 1;
    }
  }

  /** For every output position of a non-empty box, the slicer, the gather and
      the selection enumeration name the same source element. */
  lemma ReadersNameSameElement(ranges: seq<Range>, shape: seq<nat>, f: nat)
    requires ValidRanges(ranges, shape) && Contiguous(ranges).NonEmpty()
    requires f < Product(RangeShape(ranges))
    ensures Contiguous(ranges).OutputShape() == RangeShape(ranges)
    ensures SliceSource(ranges, shape, f) == Ravel(shape, Contiguous(ranges).Source(f))
    ensures SliceSource(ranges, shape, f) == Vds.Offsets(Contiguous(ranges), shape)[f]
  {
    hide Ravel, Unravel, Product;
    var h := Contiguous(ranges);
    ContiguousShape(ranges);
    assert h.Source(f) == Shifted(ranges, Unravel(RangeShape(ranges), f));
  }

  /** Slicing a non-empty box is gathering its contiguous selection. */
  lemma SliceIsGather(ds: Dataset, ranges: seq<Range>)
    requires ValidRanges(ranges, ds.shape) && ds.elemSize.Some? && Contiguous(ranges).Proper()
    ensures Sliced(ds, ranges).value.data
         == Gathered(ds.data, ds.shape, Contiguous(ranges), ds.elemSize.value)
  {
    hide Ravel, Unravel, Product, Fits, Elem, Concat;
    var es := ds.elemSize.value;
    ContiguousShape(ranges);
    var a, b := SliceElems(ds.data, ds.shape, ranges, es), GatheredElems(ds.data, ds.shape, Contiguous(ranges), es);
    forall f | 0 <= f < |a| ensures a[f] == b[f] {
      ReadersNameSameElement(ranges, ds.shape, f);
    }
    assert a == b;
  }

  function Compose(outer: seq<Range>, inner: seq<Range>): (r: seq<Range>)
    requires |outer| == |inner|
    ensures |r| == |outer|
  {
    seq(|outer|, d requires 0 <= d < |outer| =>
      Range(outer[d].start + inner[d].start, outer[d].start + inner[d].end))
  }

  lemma ComposedElem(ds: Dataset, outer: seq<Range>, inner: seq<Range>, f: nat)
    requires ValidRanges(outer, ds.shape) && ValidRanges(inner, RangeShape(outer)) && ds.elemSize.Some?
    requires f < Product(RangeShape(inner))
    ensures ValidRanges(Compose(outer, inner), ds.shape)
    ensures RangeShape(Compose(outer, inner)) == RangeShape(inner)
    ensures SliceElem(Sliced(ds, outer).value.data, RangeShape(outer), inner, ds.elemSize.value, f)
         == SliceElem(ds.data, ds.shape, Compose(outer, inner), ds.elemSize.value, f)
  {
    hide Ravel, Unravel, Product, Fits, Elem, Concat;
    var es := ds.elemSize.value;
    var c := Unravel(RangeShape(inner), f);
    var mid := Shifted(inner, c);
    UnravelInBox(RangeShape(inner), f);
    assert InBox(mid, RangeShape(outer));
    var g := Ravel(RangeShape(outer), mid);
    RavelBound(RangeShape(outer), mid);
    UnravelRavel(RangeShape(outer), mid);
    var pieces := SliceElems(ds.data, ds.shape, outer, es);
    ConcatElems(pieces, es);
    ElemFits(Concat(pieces), g, |pieces|, es);
    assert RangeShape(Compose(outer, inner)) == RangeShape(inner);
    assert Shifted(outer, mid) == Shifted(Compose(outer, inner), c);
  }

  /** Slicing a slice equals one slice with shifted ranges. */
  lemma SliceOfSlice(ds: Dataset, outer: seq<Range>, inner: seq<Range>)
    requires Sliced(ds, outer).Ok? && ValidRanges(inner, RangeShape(outer))
    ensures Sliced(Sliced(ds, outer).value, inner) == Sliced(ds, Compose(outer, inner))
  {
    hide Ravel, Unravel, Product, Fits, Elem, Concat, SliceElem;
    var es := ds.elemSize.value;
    var once := Sliced(ds, outer).value;
    var composed := Compose(outer, inner);
    assert RangeShape(composed) == RangeShape(inner);
    var a, b := SliceElems(once.data, once.shape, inner, es), SliceElems(ds.data, ds.shape, composed, es);
    forall f | 0 <= f < |a| ensures a[f] == b[f] {
      ComposedElem(ds, outer, inner, f);
    }
    assert a == b;
  }
}
