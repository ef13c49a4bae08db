// The filter pipeline: the shuffle permutation, the inverse of every filter,
// the masked read pipeline, and the write pipeline it inverts.

module Filters {
  import opened Arithmetic
  import opened Common
  import opened Fletcher32
  import opened BitPacking
  import Elements

  const DEFLATE: nat := 1
  const SHUFFLE: nat := 2
  const FLETCHER32: nat := 3
  const NBIT: nat := 5
  const SCALEOFFSET: nat := 6

  datatype FilterInfo = FilterInfo(id: nat, clientData: seq<nat>)

  /** The external compressor, known only by what it promises. */
  datatype Codec = Codec(inflate: seq<Byte> -> Result<seq<Byte>>, deflate: (seq<Byte>, nat) -> Result<seq<Byte>>)
  {
    ghost predicate Lossless() {
      forall d, level :: deflate(d, level).Ok? ==> inflate(deflate(d, level).value) == Ok(d)
    }
  }

  // ------------------------------------------------------------------
  // Shuffle
  // ------------------------------------------------------------------

  /** Where position `p` of a row-major `rows` x `cols` grid lands when the grid
      is transposed. */
  function Transposed(p: nat, rows: nat, cols: nat): (q: nat)
    requires p < rows * cols
    ensures q < cols * rows
  {
    DivBound(p, rows, cols);
    MulLess(p % cols, cols, rows, p / cols);
    p % cols * rows + p / cols
  }

  lemma TransposedAt(row: nat, col: nat, rows: nat, cols: nat)
    requires row < rows && col < cols
    ensures row * cols + col < rows * cols
    ensures Transposed(row * cols + col, rows, cols) == col * rows + row
  {
    MulLess(row, rows, cols, col);
    DivModUnique(row * cols + col, cols, row, col);
  }

  /** Transposing twice is the identity. */
  lemma TransposedTwice(p: nat, rows: nat, cols: nat)
    requires p < rows * cols
    ensures Transposed(Transposed(p, rows, cols), cols, rows) == p
  {
    DivBound(p, rows, cols);
    TransposedAt(p % cols, p / cols, cols, rows);
  }

  /** Bytes of a `rows` x `cols` grid read column by column. */
  function Transpose(data: seq<Byte>, rows: nat, cols: nat): (t: seq<Byte>)
    requires |data| == rows * cols
    ensures |t| == |data|
    ensures forall q :: 0 <= q < |t| ==> q < cols * rows && t[q] == data[Transposed(q, cols, rows)]
  {
    hide Transposed;
    seq(cols * rows, q requires 0 <= q < cols * rows => data[Transposed(q, cols, rows)])
  }

  lemma TransposeTwice(data: seq<Byte>, rows: nat, cols: nat)
    requires |data| == rows * cols
    ensures Transpose(Transpose(data, rows, cols), cols, rows) == data
  {
    hide Transposed;
    var t := Transpose(data, rows, cols);
    var back := Transpose(t, cols, rows);
    forall p | 0 <= p < |data| ensures back[p] == data[p] {
      TransposedTwice(p, rows, cols);
    }
  }

  /** A whole number of elements of a positive size. */
  predicate Whole(data: seq<Byte>, elemSize: nat) { elemSize > 0 && |data| % elemSize == 0 }

  lemma WholeCount(data: seq<Byte>, elemSize: nat)
    requires Whole(data, elemSize)
    ensures |data| == |data| / elemSize * elemSize
  {
  }

  /** Bytes of equal significance grouped together. */
  function Shuffled(data: seq<Byte>, elemSize: nat): Result<seq<Byte>> {
    if !Whole(data, elemSize) then Err(Format)
    else
      WholeCount(data, elemSize);
      Ok(Transpose(data, |data| / elemSize, elemSize))
  }

  function Unshuffled(data: seq<Byte>, elemSize: nat): Result<seq<Byte>> {
    if !Whole(data, elemSize) then Err(Format)
    else
      WholeCount(data, elemSize);
      Ok(Transpose(data, elemSize, |data| / elemSize))
  }

  /** The first `k` bytes of the transposed grid are in place. */
  ghost predicate GatheredTo(data: seq<Byte>, out: seq<Byte>, rows: nat, cols: nat, k: nat) {
    && |data| == |out| == rows * cols
    && k <= rows * cols
    && forall q: nat :: q < k ==> out[q] == data[Transposed(q, rows, cols)]
  }

  /** The first `k` bytes of the grid have reached their transposed places. */
  ghost predicate ScatteredTo(data: seq<Byte>, out: seq<Byte>, rows: nat, cols: nat, k: nat) {
    && |data| == |out| == rows * cols
    && k <= rows * cols
    && forall p: nat :: p < k ==> out[Transposed(p, rows, cols)] == data[p]
  }

  lemma GatherNext(data: seq<Byte>, out: seq<Byte>, rows: nat, cols: nat, k: nat)
    requires GatheredTo(data, out, rows, cols, k) && k < rows * cols
    ensures GatheredTo(data, out[k := data[Transposed(k, rows, cols)]], rows, cols, k + 1)
  {
    hide Transposed;
  }

  lemma ScatterNext(data: seq<Byte>, out: seq<Byte>, rows: nat, cols: nat, k: nat)
    requires ScatteredTo(data, out, rows, cols, k) && k < rows * cols
    ensures ScatteredTo(data, out[Transposed(k, rows, cols) := data[k]], rows, cols, k + 1)
  {
    hide Transposed;
    forall p: nat | p < k ensures Transposed(p, rows, cols) != Transposed(k, rows, cols) {
      TransposedTwice(p, rows, cols);
      TransposedTwice(k, rows, cols);
    }
  }

  lemma GatheredAll(data: seq<Byte>, out: seq<Byte>, rows: nat, cols: nat)
    requires GatheredTo(data, out, rows, cols, rows * cols)
    ensures |data| == cols * rows && out == Transpose(data, cols, rows)
  {
    hide Transposed;
  }

  lemma ScatteredAll(data: seq<Byte>, out: seq<Byte>, rows: nat, cols: nat)
    requires ScatteredTo(data, out, rows, cols, rows * cols)
    ensures out == Transpose(data, rows, cols)
  {
    hide Transposed;
    forall q: nat | q < |out| ensures out[q] == data[Transposed(q, cols, rows)] {
      TransposedTwice(q, cols, rows);
    }
  }

  method Shuffle(data: seq<Byte>, elemSize: nat) returns (r: Result<seq<Byte>>)
    ensures r == Shuffled(data, elemSize)
  {
    hide GatheredTo, Transpose;
    if elemSize == 0 || |data| % elemSize != 0 {
      return Err(Format);
    }
    var n: nat := |data| / elemSize;
    WholeCount(data, elemSize);
    var out := new Byte[|data|](i => 0);
    NothingMoved(data, out[..], elemSize, n);
    for bytePos := 0 to elemSize
      invariant GatheredTo(data, out[..], elemSize, n, bytePos * n)
    {
      for elemIdx := 0 to n
        invariant GatheredTo(data, out[..], elemSize, n, bytePos * n + elemIdx)
      {
        TransposedAt(bytePos, elemIdx, elemSize, n);
        TransposedAt(elemIdx, bytePos, n, elemSize);
        GatherNext(data, out[..], elemSize, n, bytePos * n + elemIdx);
        out[bytePos * n + elemIdx] := data[elemIdx * elemSize + bytePos];
      }
      MulStep(bytePos + 1, n);
    }
    GatheredAll(data, out[..], elemSize, n);
    return Ok(out[..]);
  }

  method Unshuffle(data: seq<Byte>, elemSize: nat) returns (r: Result<seq<Byte>>)
    ensures r == Unshuffled(data, elemSize)
  {
    hide ScatteredTo, Transpose;
    if elemSize == 0 || |data| % elemSize != 0 {
      return Err(Format);
    }
    var n: nat := |data| / elemSize;
    WholeCount(data, elemSize);
    var out := new Byte[|data|](i => 0);
    NothingMoved(data, out[..], elemSize, n);
    for bytePos := 0 to elemSize
      invariant ScatteredTo(data, out[..], elemSize, n, bytePos * n)
    {
      for elemIdx := 0 to n
        invariant ScatteredTo(data, out[..], elemSize, n, bytePos * n + elemIdx)
      {
        TransposedAt(bytePos, elemIdx, elemSize, n);
        TransposedAt(elemIdx, bytePos, n, elemSize);
        ScatterNext(data, out[..], elemSize, n, bytePos * n + elemIdx);
        out[elemIdx * elemSize + bytePos] := data[bytePos * n + elemIdx];
      }
      MulStep(bytePos + 1, n);
    }
    ScatteredAll(data, out[..], elemSize, n);
    return Ok(out[..]);
  }

  lemma NothingMoved(data: seq<Byte>, out: seq<Byte>, rows: nat, cols: nat)
    requires |data| == |out| == cols * rows
    ensures GatheredTo(data, out, rows, cols, 0) && ScatteredTo(data, out, rows, cols, 0)
  {
  }

  /** Shuffle and unshuffle are inverse permutations, in both orders. */
  lemma ShuffleInverse(data: seq<Byte>, elemSize: nat)
    requires Whole(data, elemSize)
    ensures Shuffled(data, elemSize).Ok? && Unshuffled(data, elemSize).Ok?
    ensures Unshuffled(Shuffled(data, elemSize).value, elemSize) == Ok(data)
    ensures Shuffled(Unshuffled(data, elemSize).value, elemSize) == Ok(data)
  {
    hide Transpose;
    var n := |data| / elemSize;
    WholeCount(data, elemSize);
    TransposeTwice(data, n, elemSize);
    TransposeTwice(data, elemSize, n);
  }

  // ------------------------------------------------------------------
  // One filter
  // ------------------------------------------------------------------

  /** Element size of a shuffle stage: its own, if positive, else the dataset's. */
  function ShuffleSize(filter: FilterInfo, elemSize: nat): nat {
    if |filter.clientData| > 0 && filter.clientData[0] > 0 then filter.clientData[0] else elemSize
  }

  /** The scale-offset stage: a byte for the bit width, the minimum, the packed
      words; a zero width returns everything after the first byte. */
  function ScaleOffsetStage(data: seq<Byte>, elemSize: nat): Result<seq<Byte>> {
    if data == [] then Ok([])
    else if elemSize == 0 || |data| < 1 + elemSize then Err(Format)
    else if data[0] == 0 then Ok(data[1..])
    else ScaleOffset(data[1 + elemSize..], elemSize, data[0], data[1..1 + elemSize])
  }

  /** The inverse of one filter. */
  function InverseOne(codec: Codec, filter: FilterInfo, elemSize: nat, data: seq<Byte>): Result<seq<Byte>> {
    var cd := filter.clientData;
    if filter.id == DEFLATE then codec.inflate(data)
    else if filter.id == SHUFFLE then
      if ShuffleSize(filter, elemSize) == 0 then Ok(data) else Unshuffled(data, ShuffleSize(filter, elemSize))
    else if filter.id == FLETCHER32 then Verified(data)
    else if filter.id == NBIT then
      if |cd| >= 7 && cd[1] == 0 && cd[2] > 0 && cd[5] > 0 then Unpacked(data, cd[2], cd[5], cd[6])
      else Err(UnsupportedFilter)
    else if filter.id == SCALEOFFSET then ScaleOffsetStage(data, elemSize)
    else Err(UnsupportedFilter)
  }

  method ApplyOneInverse(codec: Codec, filter: FilterInfo, elemSize: nat, data: seq<Byte>)
    returns (r: Result<seq<Byte>>)
    ensures r == InverseOne(codec, filter, elemSize, data)
  {
    hide Unpacked, ScaleOffset, Unshuffled, Verified;
    var cd := filter.clientData;
    if filter.id == DEFLATE {
      r := codec.inflate(data);
    } else if filter.id == SHUFFLE {
      var es := if |cd| > 0 && cd[0] > 0 then cd[0] else elemSize;
      if es == 0 {
        return Ok(data);
      }
      r := Unshuffle(data, es);
    } else if filter.id == FLETCHER32 {
      r := VerifyFletcher32(data);
    } else if filter.id == NBIT {
      if |cd| >= 7 && cd[1] == 0 {
        var sizeofElem, precision, bitOffset := cd[2], cd[5], cd[6];
        if sizeofElem > 0 && precision > 0 {
          r := UnpackNBit(data, sizeofElem, precision, bitOffset);
          return;
        }
      }
      r := Err(UnsupportedFilter);
    } else if filter.id == SCALEOFFSET {
      if data == [] {
        return Ok([]);
      }
      var minBits := data[0];
      if elemSize == 0 {
        return Err(Format);
      }
      if minBits == 0 {
        if |data| < 1 + elemSize {
          return Err(Format);
        }
        return Ok(data[1..]);
      }
      if |data| < 1 + elemSize {
        return Err(Format);
      }
      r := DecodeScaleOffsetInt(data[1 + elemSize..], elemSize, minBits, data[1..1 + elemSize]);
    } else {
      r := Err(UnsupportedFilter);
    }
  }

  /** The forward transform of one stage the writer can produce. */
  function ForwardOne(codec: Codec, filter: FilterInfo, elemSize: nat, data: seq<Byte>): Result<seq<Byte>> {
    if filter.id == DEFLATE then
      if |filter.clientData| == 0 || filter.clientData[0] > 9 then Err(Format)
      else codec.deflate(data, filter.clientData[0])
    else if filter.id == SHUFFLE then
      if ShuffleSize(filter, elemSize) == 0 then Ok(data) else Shuffled(data, ShuffleSize(filter, elemSize))
    else if filter.id == FLETCHER32 then Ok(Appended(data))
    else Err(UnsupportedFilter)
  }

  lemma InverseUndoesForward(codec: Codec, filter: FilterInfo, elemSize: nat, data: seq<Byte>)
    requires codec.Lossless() && ForwardOne(codec, filter, elemSize, data).Ok?
    ensures InverseOne(codec, filter, elemSize, ForwardOne(codec, filter, elemSize, data).value) == Ok(data)
  {
    hide Appended, Verified, Transpose;
    if filter.id == SHUFFLE && ShuffleSize(filter, elemSize) > 0 {
      ShuffleInverse(data, ShuffleSize(filter, elemSize));
    } else if filter.id == FLETCHER32 {
      VerifyUndoesAppend(data);
    }
  }

  // ------------------------------------------------------------------
  // The pipeline
  // ------------------------------------------------------------------

  /** A set mask bit disables its stage; stages from 32 on have no bit. */
  predicate Skipped(mask: nat, idx: nat) { idx < 32 && mask / Pow(2, idx) % 2 == 1 }

  /** Undo the stages, last one first. */
  function Inverted(codec: Codec, filters: seq<FilterInfo>, mask: nat, elemSize: nat, raw: seq<Byte>): Result<seq<Byte>>
  {
    if filters == [] then Ok(raw)
    else
      var last := |filters| - 1;
      var data :- if Skipped(mask, last) then Ok(raw) else InverseOne(codec, filters[last], elemSize, raw);
      Inverted(codec, filters[..last], mask, elemSize, data)
  }

  /** Apply the stages in order. */
  function Forward(codec: Codec, filters: seq<FilterInfo>, mask: nat, elemSize: nat, data: seq<Byte>): Result<seq<Byte>>
  {
    if filters == [] then Ok(data)
    else
      var last := |filters| - 1;
      var before :- Forward(codec, filters[..last], mask, elemSize, data);
      if Skipped(mask, last) then Ok(before) else ForwardOne(codec, filters[last], elemSize, before)
  }

  method ApplyPipelineSized(codec: Codec, filters: seq<FilterInfo>, mask: nat, elemSize: nat, raw: seq<Byte>)
    returns (r: Result<seq<Byte>>)
    ensures r == Inverted(codec, filters, mask, elemSize, raw)
  {
    hide InverseOne;
    var data := raw;
    assert filters[..|filters|] == filters;
    for idx := |filters| downto 0
      invariant Inverted(codec, filters[..idx], mask, elemSize, data) == Inverted(codec, filters, mask, elemSize, raw)
    {
      assert filters[..idx + 1][..idx] == filters[..idx];
      if idx < 32 && mask / Pow(2, idx) % 2 == 1 {
        continue;
      }
      var undone := ApplyOneInverse(codec, filters[idx], elemSize, data);
      if undone.IsFailure() {
        return undone.PropagateFailure();
      }
      data := undone.Extract();
    }
    r := Ok(data);
  }

  /** Main result: reading undoes writing, for every list of stages, every mask
      and all data the forward stages accept. */
  lemma {:induction false} ReadInvertsWrite(codec: Codec, filters: seq<FilterInfo>, mask: nat, elemSize: nat,
                                            data: seq<Byte>)
    requires codec.Lossless() && Forward(codec, filters, mask, elemSize, data).Ok?
    ensures Inverted(codec, filters, mask, elemSize, Forward(codec, filters, mask, elemSize, data).value) == Ok(data)
  {
    hide InverseOne, ForwardOne, Skipped;
    if filters != [] {
      var last := |filters| - 1;
      ReadInvertsWrite(codec, filters[..last], mask, elemSize, data);
      if !Skipped(mask, last) {
        var before := Forward(codec, filters[..last], mask, elemSize, data).value;
        InverseUndoesForward(codec, filters[last], elemSize, before);
      }
    }
  }

  // ------------------------------------------------------------------
  // The dataset writer
  // ------------------------------------------------------------------

  /** Filters a dataset asks for; `deflate` is the compression level. */
  datatype Filter = Filter(shuffle: bool, deflate: Option<nat>, fletcher32: bool)

  /** The stages recorded in the file, in the order they were applied. */
  function Descriptors(filter: Filter, elemSize: nat): seq<FilterInfo> {
    (if filter.shuffle then [FilterInfo(SHUFFLE, [elemSize])] else [])
    + (if filter.deflate.Some? then [FilterInfo(DEFLATE, [filter.deflate.value])] else [])
    + (if filter.fletcher32 then [FilterInfo(FLETCHER32, [])] else [])
  }

  /** What one tile becomes on disk. */
  function Stored(codec: Codec, tile: seq<Byte>, filter: Filter, elemSize: nat): Result<seq<Byte>> {
    var shuffled :- if filter.shuffle then Shuffled(tile, elemSize) else Ok(tile);
    var deflated :- if filter.deflate.None? then Ok(shuffled)
                    else if filter.deflate.value > 9 then Err(Format)
                    else codec.deflate(shuffled, filter.deflate.value);
    Ok(if filter.fletcher32 then Appended(deflated) else deflated)
  }

  method ApplyWritePipeline(codec: Codec, tile: seq<Byte>, filter: Filter, elemSize: nat)
    returns (r: Result<seq<Byte>>)
    ensures r == Stored(codec, tile, filter, elemSize)
  {
    hide Shuffled, Appended;
    var data := tile;
    if filter.shuffle {
      var s := Shuffle(tile, elemSize);
      if s.IsFailure() {
        return s.PropagateFailure();
      }
      data := s.Extract();
    }
    if filter.deflate.Some? {
      if filter.deflate.value > 9 {
        return Err(Format);
      }
      var c := codec.deflate(data, filter.deflate.value);
      if c.IsFailure() {
        return c.PropagateFailure();
      }
      data := c.Extract();
    }
    if filter.fletcher32 {
      data := AppendFletcher32(data);
    }
    return Ok(data);
  }

  lemma ForwardAppend(codec: Codec, filters: seq<FilterInfo>, stage: FilterInfo, elemSize: nat, data: seq<Byte>)
    requires Forward(codec, filters, 0, elemSize, data).Ok?
    ensures Forward(codec, filters + [stage], 0, elemSize, data)
         == ForwardOne(codec, stage, elemSize, Forward(codec, filters, 0, elemSize, data).value)
  {
    hide ForwardOne;
    var all := filters + [stage];
    assert all[..|filters|] == filters;
    assert 0 / Pow(2, |filters|) == 0;
  }

  /** Whatever the dataset writer stores, the reader given the recorded stages
      gets the tile back. */
  lemma StoredTileReadsBack(codec: Codec, tile: seq<Byte>, filter: Filter, elemSize: nat)
    requires codec.Lossless() && Stored(codec, tile, filter, elemSize).Ok?
    ensures Inverted(codec, Descriptors(filter, elemSize), 0, elemSize, Stored(codec, tile, filter, elemSize).value)
         == Ok(tile)
  {
    hide Shuffled, Appended, Forward;
    var s: seq<FilterInfo> := if filter.shuffle then [FilterInfo(SHUFFLE, [elemSize])] else [];
    var d: seq<FilterInfo> := if filter.deflate.Some? then [FilterInfo(DEFLATE, [filter.deflate.value])] else [];
    ForwardNothing(codec, elemSize, tile);
    if filter.shuffle {
      SizeOfShuffled(tile, elemSize);
      ForwardAppend(codec, [], s[0], elemSize, tile);
      assert [] + s == s;
    }
    if filter.deflate.Some? {
      ForwardAppend(codec, s, d[0], elemSize, tile);
    } else {
      assert s + d == s;
    }
    if filter.fletcher32 {
      ForwardAppend(codec, s + d, FilterInfo(FLETCHER32, []), elemSize, tile);
    } else {
      assert Descriptors(filter, elemSize) == s + d;
    }
    ReadInvertsWrite(codec, Descriptors(filter, elemSize), 0, elemSize, tile);
  }

  lemma ForwardNothing(codec: Codec, elemSize: nat, data: seq<Byte>)
    ensures Forward(codec, [], 0, elemSize, data) == Ok(data)
  {
  }

  lemma SizeOfShuffled(data: seq<Byte>, elemSize: nat)
    requires Shuffled(data, elemSize).Ok?
    ensures elemSize > 0
  {
  }

  /** A scale-offset stage whose chunk holds packed values decodes to the values
      plus the minimum. */
  lemma ScaleOffsetChunkReadsBack(codec: Codec, cd: seq<nat>, values: seq<nat>, elemSize: nat, bits: nat,
                                  minBytes: seq<Byte>, i: nat)
    requires WordSize(elemSize) && |minBytes| == elemSize && 1 <= bits <= 8 * elemSize
    requires i < |values| && values[i] < Pow(2, bits)
    ensures var r := Inverted(codec, [FilterInfo(SCALEOFFSET, cd)], 0, elemSize,
                              [bits] + minBytes + Packed(values, bits));
      r.Ok? && LeNat(Elements.Elem(r.value, i, elemSize)) == (values[i] + LeNat(minBytes)) % Pow(256, elemSize)
  {
    hide ScaleOffset, Packed, LeNat, Pow;
    var chunk: seq<Byte> := [bits] + minBytes + Packed(values, bits);
    assert chunk[1..1 + elemSize] == minBytes;
    assert chunk[1 + elemSize..] == Packed(values, bits);
    var stages := [FilterInfo(SCALEOFFSET, cd)];
    assert |stages[..0]| == 0;
    assert Pow(2, 0) > 0;
    assert 0 / Pow(2, 0) == 0;
    ScaleOffsetInvertsPacking(values, elemSize, bits, minBytes, i);
  }
}
