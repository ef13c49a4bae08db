// Version-1 hyperslab descriptors: reading an explicit block list and folding
// it into a single regular hyperslab.

module VdsBlocks {
  import opened Arithmetic
  import opened Common
  import opened Hyperslab
  import opened Vds

  /** An explicit block with inclusive corners. */
  datatype Block = Block(start: seq<nat>, end: seq<nat>) {
    predicate Rank(rank: nat) { |start| == |end| == rank }

    /** `end.saturating_sub(start) + 1`. */
    function Size(d: nat): nat
      requires d < |start| && d < |end|
    {
      if end[d] >= start[d] then end[d] - start[d] + 1 else 1
    }

    ghost predicate Holds(g: seq<nat>) {
      |g| == |start| == |end| && forall d :: 0 <= d < |g| ==> start[d] <= g[d] <= end[d]
    }

    /** Corners in order, as the format requires. */
    predicate Ordered() { |start| == |end| && forall d :: 0 <= d < |start| ==> start[d] <= end[d] }
  }

  predicate Ranked(blocks: seq<Block>, rank: nat) {
    forall i :: 0 <= i < |blocks| ==> blocks[i].Rank(rank)
  }

  ghost predicate InSomeBlock(blocks: seq<Block>, g: seq<nat>) {
    exists i :: 0 <= i < |blocks| && blocks[i].Holds(g)
  }

  // ------------------------------------------------------------------
  // Sorted, de-duplicated starts
  // ------------------------------------------------------------------

  function Insert(x: nat, s: seq<nat>): (r: seq<nat>)
    requires StrictlyIncreasing(s)
    ensures StrictlyIncreasing(r)
    ensures forall y :: y in r <==> y == x || y in s
    ensures |r| == if x in s then |s| else |s| + 1
  {
    if s == [] then [x]
    else if x < s[0] then
      assert forall y :: y in s ==> x < y;
      [x] + s
    else if x == s[0] then s
    else
      assert s == [s[0]] + s[1..];
      assert forall y :: y in s[1..] ==> s[0] < y;
      var r := Insert(x, s[1..]);
      Prepend(s[0], r);
      [s[0]] + r
  }

  lemma Prepend(x: nat, s: seq<nat>)
    requires StrictlyIncreasing(s) && forall y :: y in s ==> x < y
    ensures StrictlyIncreasing([x] + s)
    ensures forall y :: y in [x] + s <==> y == x || y in s
  {
    var r := [x] + s;
    forall i, j | 0 <= i < j < |r| ensures r[i] < r[j] {
      assert r[j] == s[j - 1] && s[j - 1] in s;
      assert i > 0 ==> r[i] == s[i - 1];
    }
  }

  /** `sort_unstable` followed by `dedup`. */
  function SortDedup(s: seq<nat>): (r: seq<nat>)
    ensures StrictlyIncreasing(r)
    ensures forall y :: y in r <==> y in s
    ensures |r| <= |s|
  {
    if s == [] then [] else
      assert s == s[..|s| - 1] + [s[|s| - 1]];
      Insert(s[|s| - 1], SortDedup(s[..|s| - 1]))
  }

  /** A strictly increasing sequence is determined by its elements. */
  lemma {:induction false} IncreasingUnique(a: seq<nat>, b: seq<nat>)
    requires StrictlyIncreasing(a) && StrictlyIncreasing(b)
    requires forall y :: y in a <==> y in b
    ensures a == b
  {
    if a == [] {
      assert forall i :: 0 <= i < |b| ==> b[i] in b;
    } else {
      assert a[0] in b && b != [];
      assert b[0] in a;
      assert a[0] == b[0];
      assert a == [a[0]] + a[1..] && b == [b[0]] + b[1..];
      forall y ensures y in a[1..] <==> y in b[1..] {
        assert y in a[1..] <==> y in a && y != a[0];
        assert y in b[1..] <==> y in b && y != b[0];
      }
      IncreasingUnique(a[1..], b[1..]);
    }
  }

  // ------------------------------------------------------------------
  // Regular block lists
  // ------------------------------------------------------------------

  function Progression(s0: nat, st: nat, n: nat): (p: seq<nat>)
    ensures |p| == n && forall k :: 0 <= k < n ==> p[k] == s0 + k * st
  {
    seq(n, k requires 0 <= k => s0 + k * st)
  }

  function StartsAlong(blocks: seq<Block>, vd: nat): (s: seq<nat>)
    requires forall i :: 0 <= i < |blocks| ==> vd < |blocks[i].start|
    ensures |s| == |blocks| && forall i :: 0 <= i < |blocks| ==> s[i] == blocks[i].start[vd]
  {
    seq(|blocks|, i requires 0 <= i < |blocks| => blocks[i].start[vd])
  }

  /** Equal sizes, equal starts outside dimension `vd`, and starts along `vd`
      that form the progression s0, s0+st, ... with one term per block. */
  ghost predicate RegularAlong(blocks: seq<Block>, rank: nat, vd: nat, s0: nat, st: nat)
    requires Ranked(blocks, rank)
  {
    && |blocks| >= 2 && vd < rank && st >= 1
    && (forall i, d :: 0 <= i < |blocks| && 0 <= d < rank ==> blocks[i].Size(d) == blocks[0].Size(d))
    && (forall i, d :: 0 <= i < |blocks| && 0 <= d < rank && d != vd ==> blocks[i].start[d] == blocks[0].start[d])
    && (forall y :: y in StartsAlong(blocks, vd) <==> y in Progression(s0, st, |blocks|))
  }

  function Folded(blocks: seq<Block>, rank: nat, vd: nat, s0: nat, st: nat): (h: Hyperslab)
    requires Ranked(blocks, rank) && blocks != []
    ensures |h.dims| == rank
  {
    Hyperslab(seq(rank, d requires 0 <= d < rank =>
      if d == vd then DimSelection(s0, st, |blocks|, blocks[0].Size(d))
      else DimSelection(blocks[0].start[d], 1, 1, blocks[0].Size(d))))
  }

  lemma HeldIsSelected(blocks: seq<Block>, rank: nat, vd: nat, s0: nat, st: nat, g: seq<nat>, i: nat)
    requires Ranked(blocks, rank) && RegularAlong(blocks, rank, vd, s0, st)
    requires i < |blocks| && blocks[i].Ordered() && blocks[i].Holds(g)
    ensures SelectsAll(Folded(blocks, rank, vd, s0, st), g)
  {
    var h := Folded(blocks, rank, vd, s0, st);
    assert StartsAlong(blocks, vd)[i] in StartsAlong(blocks, vd);
    var k :| 0 <= k < |blocks| && Progression(s0, st, |blocks|)[k] == StartsAlong(blocks, vd)[i];
    forall d | 0 <= d < rank ensures h.dims[d].Selects(g[d]) {
      assert blocks[i].Size(d) == blocks[0].Size(d);
      PlaceIsSelected(h.dims[d], if d == vd then k else 0, g[d] - blocks[i].start[d]);
    }
  }

  lemma PlaceIsSelected(s: DimSelection, k: nat, j: nat)
    requires k < s.count && j < s.block
    ensures s.Selects(s.Place(k, j))
  {
  }

  lemma SelectedIsHeld(blocks: seq<Block>, rank: nat, vd: nat, s0: nat, st: nat, g: seq<nat>)
    requires Ranked(blocks, rank) && RegularAlong(blocks, rank, vd, s0, st)
    requires forall i :: 0 <= i < |blocks| ==> blocks[i].Ordered()
    requires SelectsAll(Folded(blocks, rank, vd, s0, st), g)
    ensures InSomeBlock(blocks, g)
  {
    var h := Folded(blocks, rank, vd, s0, st);
    assert h.dims[vd].Selects(g[vd]);
    var k: nat, j: nat :| k < |blocks| && j < blocks[0].Size(vd) && g[vd] == h.dims[vd].Place(k, j);
    assert Progression(s0, st, |blocks|)[k] in StartsAlong(blocks, vd);
    var i :| 0 <= i < |blocks| && StartsAlong(blocks, vd)[i] == Progression(s0, st, |blocks|)[k];
    forall d | 0 <= d < rank ensures blocks[i].start[d] <= g[d] <= blocks[i].end[d] {
      assert blocks[i].Size(d) == blocks[0].Size(d);
      if d != vd {
        OneBlockSelects(blocks[0].start[d], blocks[0].Size(d), g[d]);
        assert h.dims[d].Selects(g[d]);
      }
    }
    assert blocks[i].Holds(g);
  }

  lemma OneBlockSelects(start: nat, size: nat, c: nat)
    ensures DimSelection(start, 1, 1, size).Selects(c) <==> start <= c < start + size
  {
    var s := DimSelection(start, 1, 1, size);
    if start <= c < start + size {
      assert c == s.Place(0, c - start);
    }
  }

  /** Folding a regular list of well-ordered blocks keeps the selected set. */
  lemma FoldPreservesSet(blocks: seq<Block>, rank: nat, vd: nat, s0: nat, st: nat, g: seq<nat>)
    requires Ranked(blocks, rank) && RegularAlong(blocks, rank, vd, s0, st)
    requires forall i :: 0 <= i < |blocks| ==> blocks[i].Ordered()
    ensures InSomeBlock(blocks, g) <==> SelectsAll(Folded(blocks, rank, vd, s0, st), g)
  {
    if InSomeBlock(blocks, g) {
      var i :| 0 <= i < |blocks| && blocks[i].Holds(g);
      HeldIsSelected(blocks, rank, vd, s0, st, g, i);
    }
    if SelectsAll(Folded(blocks, rank, vd, s0, st), g) {
      SelectedIsHeld(blocks, rank, vd, s0, st, g);
    }
  }

  // ------------------------------------------------------------------
  // fold_regular_blocks
  // ------------------------------------------------------------------

  /** What the scan of blocks knows about (block, dimension) pairs seen so far. */
  ghost predicate Scanned(blocks: seq<Block>, rank: nat, vary: Option<nat>, i: nat, upto: nat)
    requires Ranked(blocks, rank) && 0 < |blocks|
  {
    && (vary.Some? ==> vary.value < rank)
    && (forall a, d :: 0 <= a < |blocks| && 0 <= d < rank && (a < i || (a == i && d < upto)) ==>
         (blocks[a].Size(d) == blocks[0].Size(d)
          && (blocks[a].start[d] != blocks[0].start[d] ==> vary == Some(d))))
    && (vary.Some? ==> exists a :: 0 <= a < |blocks| && blocks[a].start[vary.value] != blocks[0].start[vary.value])
  }

  /** Compare block `i` with the first one, dimension by dimension. */
  method ScanBlock(blocks: seq<Block>, rank: nat, i: nat, known: Option<nat>) returns (ok: bool, vary: Option<nat>)
    requires i < |blocks| && Ranked(blocks, rank) && Scanned(blocks, rank, known, i, 0)
    ensures ok ==> Scanned(blocks, rank, vary, i + 1, 0)
    ensures !ok ==> forall vd, s0, st :: !RegularAlong(blocks, rank, vd, s0, st)
  {
    vary := known;
    for d := 0 to rank
      invariant Scanned(blocks, rank, vary, i, d)
    {
      if blocks[i].Size(d) != blocks[0].Size(d) {
        return false, None;
      }
      if blocks[i].start[d] != blocks[0].start[d] {
        match vary
        case None => vary := Some(d);
        case Some(vd) =>
          if vd != d {
            return false, None;
          }
      }
    }
    ok := true;
  }

  /** The one dimension along which starts vary, or None when sizes differ,
      more than one dimension varies, or none does. */
  method VaryingDim(blocks: seq<Block>, rank: nat) returns (ok: bool, vary: Option<nat>)
    requires 0 < |blocks| && Ranked(blocks, rank)
    ensures ok ==> Scanned(blocks, rank, vary, |blocks|, 0)
    ensures !ok ==> forall vd, s0, st :: !RegularAlong(blocks, rank, vd, s0, st)
  {
    hide RegularAlong;
    vary := None;
    ok := true;
    for i := 1 to |blocks|
      invariant Scanned(blocks, rank, vary, i, 0)
    {
      ok, vary := ScanBlock(blocks, rank, i, vary);
      if !ok {
        return;
      }
    }
    ok := true;
  }

  predicate Spaced(starts: seq<nat>, stride: nat) {
    forall w :: 0 <= w < |starts| - 1 ==> starts[w + 1] == starts[w] + stride
  }

  /** Equal spacing of consecutive starts, checked window by window. */
  method EquallySpaced(starts: seq<nat>, stride: nat) returns (ok: bool)
    ensures ok <==> Spaced(starts, stride)
  {
    ok := true;
    for w := 0 to Max(|starts| - 1, 0)
      invariant ok && forall v :: 0 <= v < w ==> starts[v + 1] == starts[v] + stride
    {
      if starts[w + 1] != starts[w] + stride {
        return false;
      }
    }
  }

  lemma {:induction false} SpacedIsProgression(starts: seq<nat>, stride: nat, k: nat)
    requires k < |starts| && Spaced(starts, stride)
    ensures starts[k] == starts[0] + k * stride
  {
    if k > 0 {
      SpacedIsProgression(starts, stride, k - 1);
      assert starts[(k - 1) + 1] == starts[k - 1] + stride;
    }
  }

  lemma SpacedEqualsProgression(starts: seq<nat>, stride: nat)
    requires 0 < |starts| && Spaced(starts, stride)
    ensures starts == Progression(starts[0], stride, |starts|)
  {
    forall k | 0 <= k < |starts| ensures starts[k] == starts[0] + k * stride {
      SpacedIsProgression(starts, stride, k);
    }
  }

  lemma ProductIncreases(i: nat, j: nat, st: nat)
    requires i < j && st >= 1
    ensures i * st < j * st
  {
  }

  lemma ProgressionIncreases(s0: nat, st: nat, n: nat)
    requires st >= 1
    ensures StrictlyIncreasing(Progression(s0, st, n))
  {
    forall i, j | 0 <= i < j < n ensures Progression(s0, st, n)[i] < Progression(s0, st, n)[j] {
      ProductIncreases(i, j, st);
    }
  }

  /** A regular list has the sorted starts the code looks for. */
  lemma RegularStarts(blocks: seq<Block>, rank: nat, vary: Option<nat>, vd: nat, s0: nat, st: nat)
    requires 0 < |blocks| && Ranked(blocks, rank) && Scanned(blocks, rank, vary, |blocks|, 0)
    requires RegularAlong(blocks, rank, vd, s0, st)
    ensures vary == Some(vd) && st >= 1 && |blocks| >= 2
    ensures SortDedup(StartsAlong(blocks, vd)) == Progression(s0, st, |blocks|)
  {
    var p := Progression(s0, st, |blocks|);
    ProgressionIncreases(s0, st, |blocks|);
    IncreasingUnique(SortDedup(StartsAlong(blocks, vd)), p);
    assert p[0] in StartsAlong(blocks, vd) && p[1] in StartsAlong(blocks, vd);
    var a :| 0 <= a < |blocks| && StartsAlong(blocks, vd)[a] == p[0];
    var b :| 0 <= b < |blocks| && StartsAlong(blocks, vd)[b] == p[1];
    assert p[0] < p[1];
    assert blocks[a].start[vd] != blocks[0].start[vd] || blocks[b].start[vd] != blocks[0].start[vd];
  }

  lemma ProgressionSpaced(s0: nat, st: nat, n: nat)
    ensures Spaced(Progression(s0, st, n), st)
  {
    forall w | 0 <= w < n - 1 ensures Progression(s0, st, n)[w + 1] == Progression(s0, st, n)[w] + st {
      assert (w + 1) * st == w * st + st;
    }
  }

  /** With unequal spacing no regular reading of the list exists. */
  lemma UnevenIsIrregular(blocks: seq<Block>, rank: nat, vary: Option<nat>, starts: seq<nat>)
    requires 0 < |blocks| && Ranked(blocks, rank) && Scanned(blocks, rank, vary, |blocks|, 0)
    requires vary.Some? && starts == SortDedup(StartsAlong(blocks, vary.value))
    requires |starts| >= 2 ==> starts[0] <= starts[1]
    requires |starts| != |blocks| || |starts| < 2 || !Spaced(starts, starts[1] - starts[0])
    ensures forall vd, s0, st :: !RegularAlong(blocks, rank, vd, s0, st)
  {
    forall vd, s0, st ensures !RegularAlong(blocks, rank, vd, s0, st) {
      if RegularAlong(blocks, rank, vd, s0, st) {
        RegularStarts(blocks, rank, vary, vd, s0, st);
        ProgressionSpaced(s0, st, |blocks|);
      }
    }
  }

  lemma EvenIsRegular(blocks: seq<Block>, rank: nat, vary: Option<nat>, starts: seq<nat>, stride: nat)
    requires 0 < |blocks| && Ranked(blocks, rank) && Scanned(blocks, rank, vary, |blocks|, 0)
    requires vary.Some? && starts == SortDedup(StartsAlong(blocks, vary.value))
    requires |starts| == |blocks| >= 2 && stride >= 1
    requires Spaced(starts, stride)
    ensures RegularAlong(blocks, rank, vary.value, starts[0], stride)
  {
    hide Progression, Spaced, SortDedup, StrictlyIncreasing;
    SpacedEqualsProgression(starts, stride);
    forall i, d | 0 <= i < |blocks| && 0 <= d < rank && d != vary.value
      ensures blocks[i].start[d] == blocks[0].start[d]
    {
      assert blocks[i].Size(d) == blocks[0].Size(d);
    }
  }

  /** Folds exactly the regular block lists, into the matching hyperslab. */
  method FoldRegularBlocks(blocks: seq<Block>, rank: nat) returns (r: Option<Hyperslab>)
    requires 0 < |blocks| && Ranked(blocks, rank)
    ensures r.Some? ==> exists vd, s0, st ::
      RegularAlong(blocks, rank, vd, s0, st) && r.value == Folded(blocks, rank, vd, s0, st)
    ensures r.None? ==> forall vd, s0, st :: !RegularAlong(blocks, rank, vd, s0, st)
  {
    hide RegularAlong, Folded;
    var ok, vary := VaryingDim(blocks, rank);
    if !ok {
      return None;
    }
    if vary.None? {
      forall vd, s0, st ensures !RegularAlong(blocks, rank, vd, s0, st) {
        if RegularAlong(blocks, rank, vd, s0, st) {
          RegularStarts(blocks, rank, vary, vd, s0, st);
        }
      }
      return None;
    }
    var vd := vary.value;
    var starts := SortDedup(StartsAlong(blocks, vd));
    if |starts| != |blocks| {
      UnevenIsIrregular(blocks, rank, vary, starts);
      return None;
    }
    assert |starts| >= 2 by {
      var a :| 0 <= a < |blocks| && blocks[a].start[vd] != blocks[0].start[vd];
    }
    var stride := starts[1] - starts[0];
    var spaced := EquallySpaced(starts, stride);
    if !spaced {
      UnevenIsIrregular(blocks, rank, vary, starts);
      return None;
    }
    EvenIsRegular(blocks, rank, vary, starts, stride);
    return Some(Folded(blocks, rank, vd, starts[0], stride));
  }

  // ------------------------------------------------------------------
  // Reading the block list
  // ------------------------------------------------------------------

  /** A bounds-checked little-endian cursor. */
  class Reader {
    const data: seq<Byte>
    var pos: nat

    constructor (bytes: seq<Byte>)
      ensures data == bytes && pos == 0 && Valid()
    {
      data := bytes;
      pos := 0;
    }

    ghost predicate Valid()
      reads this
    {
      pos <= |data|
    }

    function Remaining(): nat
      requires Valid()
      reads this
    {
      |data| - pos
    }

    method U32() returns (r: Result<nat>)
      requires Valid()
      modifies this`pos
      ensures Valid() && r == ReadLe(data, old(pos), 4)
      ensures pos == if r.Ok? then old(pos) + 4 else old(pos)
    {
      var end := pos + 4;
      var slice := Get(data, pos, end);
      if slice.None? {
        return Err(Format);
      }
      pos := end;
      r := Ok(LeNat(slice.value));
    }
  }

  /** Block `i` of a list stored at `at`: start words, then end words. */
  function StoredBlock(data: seq<Byte>, at: nat, rank: nat): (b: Block)
    requires at + 8 * rank <= |data|
    ensures b.Rank(rank)
  {
    Block(Words(data, at, rank), Words(data, at + 4 * rank, rank))
  }

  function StoredBlocks(data: seq<Byte>, at: nat, rank: nat, n: nat): (b: seq<Block>)
    requires at + n * (8 * rank) <= |data|
    ensures |b| == n && Ranked(b, rank)
    decreases n
  {
    if n == 0 then []
    else
      MulStep(n, 8 * rank);
      [StoredBlock(data, at, rank)] + StoredBlocks(data, at + 8 * rank, rank, n - 1)
  }

  method ReadWords(cur: Reader, n: nat) returns (r: Result<seq<nat>>)
    requires cur.Valid()
    modifies cur`pos
    ensures cur.Valid()
    ensures old(cur.pos) + 4 * n <= |cur.data| ==>
      cur.pos == old(cur.pos) + 4 * n && r == Ok(Words(cur.data, old(cur.pos), n))
  {
    var w: seq<nat> := [];
    for i := 0 to n
      invariant cur.Valid() && |w| == i && cur.pos == old(cur.pos) + 4 * i
      invariant forall k :: 0 <= k < i ==>
        w[k] == LeNat(cur.data[old(cur.pos) + 4 * k..old(cur.pos) + 4 * k + 4])
    {
      var x := cur.U32();
      if x.IsFailure() {
        return x.PropagateFailure();
      }
      w := w + [x.Extract()];
    }
    assert w == Words(cur.data, old(cur.pos), n);
    return Ok(w);
  }

  /** A single block becomes a stride-1 selection of its box. */
  function BoxSlab(b: Block): Hyperslab
    requires |b.start| == |b.end|
  {
    Hyperslab(seq(|b.start|, d requires 0 <= d < |b.start| => DimSelection(b.start[d], 1, b.Size(d), 1)))
  }

  method ParseHyperslabV1Blocks(cur: Reader, rank: nat, numBlocks: nat) returns (r: Result<VdsSelection>)
    requires cur.Valid()
    modifies cur`pos
    ensures cur.Valid()
    ensures rank == 0 || rank > 32 ==> r == Err(Format)
    ensures 0 < rank <= 32 && numBlocks == 0 ==> r == Ok(SelNone)
    ensures 0 < rank <= 32 && 0 < numBlocks && old(cur.Remaining()) < numBlocks * (8 * rank) ==> r == Err(Format)
    ensures 0 < rank <= 32 && 0 < numBlocks && numBlocks * (8 * rank) <= old(cur.Remaining()) ==>
      var blocks := StoredBlocks(cur.data, old(cur.pos), rank, numBlocks);
      if numBlocks == 1 then r == Ok(SelHyperslab(BoxSlab(blocks[0])))
      else if r.Ok? then r.value.SelHyperslab? && exists vd, s0, st ::
        RegularAlong(blocks, rank, vd, s0, st) && r.value.slab == Folded(blocks, rank, vd, s0, st)
      else r.error == NotImplemented && forall vd, s0, st :: !RegularAlong(blocks, rank, vd, s0, st)
  {
    hide RegularAlong, Folded, BoxSlab;
    if rank == 0 || rank > 32 {
      return Err(Format);
    }
    if numBlocks == 0 {
      return Ok(SelNone);
    }
    var minBytesPerBlock := rank * 8;
    CountFits(numBlocks, minBytesPerBlock, cur.Remaining());
    if numBlocks > cur.Remaining() / minBytesPerBlock {
      return Err(Format);
    }
    ghost var at := cur.pos;
    var blocks := ReadBlocks(cur, rank, numBlocks);
    if numBlocks == 1 {
      return Ok(SelHyperslab(BoxSlab(blocks[0])));
    }
    var h := FoldRegularBlocks(blocks, rank);
    if h.Some? {
      return Ok(SelHyperslab(h.value));
    }
    return Err(NotImplemented);
  }

  /** The count guard makes every read succeed. */
  method ReadBlocks(cur: Reader, rank: nat, n: nat) returns (blocks: seq<Block>)
    requires cur.Valid() && n * (8 * rank) <= cur.Remaining()
    modifies cur`pos
    ensures cur.Valid() && blocks == StoredBlocks(cur.data, old(cur.pos), rank, n)
  {
    blocks := [];
    ghost var at, end := cur.pos, cur.pos + n * (8 * rank);
    for i := 0 to n
      invariant cur.Valid() && cur.pos + (n - i) * (8 * rank) == end
      invariant blocks + StoredBlocks(cur.data, cur.pos, rank, n - i) == StoredBlocks(cur.data, at, rank, n)
    {
      ghost var here := cur.pos;
      MulStep(n - i, 8 * rank);
      var start := ReadWords(cur, rank);
      var stop := ReadWords(cur, rank);
      blocks := blocks + [Block(start.value, stop.value)];
      assert blocks[|blocks| - 1] == StoredBlock(cur.data, here, rank);
    }
  }

  // ------------------------------------------------------------------
  // The parsed selection means the block list
  // ------------------------------------------------------------------

  lemma BoxSlabIsBlock(b: Block, g: seq<nat>)
    requires b.Ordered()
    ensures b.Holds(g) <==> SelectsAll(BoxSlab(b), g)
  {
    if |g| == |b.start| {
      forall d | 0 <= d < |g|
        ensures BoxSlab(b).dims[d].Selects(g[d]) <==> b.start[d] <= g[d] <= b.end[d]
      {
        var s := BoxSlab(b).dims[d];
        if b.start[d] <= g[d] <= b.end[d] {
          PlaceIsSelected(s, g[d] - b.start[d], 0);
        }
      }
    }
  }

  function EncodeBlock(b: Block): (e: seq<Byte>)
    ensures |e| == 4 * |b.start| + 4 * |b.end|
  {
    EncodeWords(b.start) + EncodeWords(b.end)
  }

  function EncodeBlocks(blocks: seq<Block>): (e: seq<Byte>) {
    if blocks == [] then [] else EncodeBlock(blocks[0]) + EncodeBlocks(blocks[1..])
  }

  lemma BlockRoundTrip(data: seq<Byte>, at: nat, b: Block, rank: nat)
    requires b.Rank(rank) && At(data, at, EncodeBlock(b)) && Fits32(b.start) && Fits32(b.end)
    ensures StoredBlock(data, at, rank) == b
  {
    AtSplit(data, at, EncodeWords(b.start), EncodeWords(b.end));
    WordsRoundTrip(data, at, b.start);
    WordsRoundTrip(data, at + 4 * rank, b.end);
  }

  /** Reading back an encoded block list gives the list. */
  lemma {:induction false} BlocksRoundTrip(data: seq<Byte>, at: nat, blocks: seq<Block>, rank: nat)
    requires Ranked(blocks, rank) && At(data, at, EncodeBlocks(blocks))
    requires forall i :: 0 <= i < |blocks| ==> Fits32(blocks[i].start) && Fits32(blocks[i].end)
    ensures at + |blocks| * (8 * rank) <= |data| && StoredBlocks(data, at, rank, |blocks|) == blocks
    decreases blocks
  {
    hide EncodeBlock, StoredBlock, Fits32;
    if blocks != [] {
      var rest := blocks[1..];
      MulStep(|blocks|, 8 * rank);
      AtSplit(data, at, EncodeBlock(blocks[0]), EncodeBlocks(rest));
      BlockRoundTrip(data, at, blocks[0], rank);
      BlocksRoundTrip(data, at + 8 * rank, rest, rank);
      assert blocks == [blocks[0]] + rest;
    }
  }
}
