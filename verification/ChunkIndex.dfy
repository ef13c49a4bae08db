// The chunk B-tree the writer emits: planning, placing and writing its levels,
// and the theorem that the reader recovers the entries from those bytes.

module ChunkIndex {
  import opened Arithmetic
  import opened Common
  import opened Powers
  import opened Elements
  import opened BTreeV1

  const MAX_CHILDREN: nat := 64
  const MAX_LEVELS: nat := 8
  const MAX_CHUNKS: nat := 0x100_0000

  // ------------------------------------------------------------------
  // One node
  // ------------------------------------------------------------------

  function NodeSize(ndims: nat): nat { 24 + (MAX_CHILDREN + 1) * KeySize(ndims) + MAX_CHILDREN * 8 }

  /** A key on disk: a chunk's, or a boundary between nodes. */
  datatype NodeKey = NodeKey(size: nat, filterMask: nat, offsets: seq<nat>, elemOffset: nat)

  function KeyImage(k: NodeKey): (b: seq<Byte>)
    ensures |b| == KeySize(|k.offsets|)
  {
    KeyBytes(Record(0, k.size, k.filterMask, k.offsets)) + LeBytes(k.elemOffset, 8)
  }

  predicate Ranked(keys: seq<NodeKey>, ndims: nat) { forall i :: 0 <= i < |keys| ==> |keys[i].offsets| == ndims }

  /** What a node holds; `terminal` closes it when it has children. */
  datatype NodePlan = NodePlan(level: nat, left: nat, right: nat, children: seq<nat>, keys: seq<NodeKey>, terminal: NodeKey)

  function Prefix(n: NodePlan): (p: seq<Byte>)
    requires n.level < 256
    ensures |p| == 24
  {
    HeaderBytes(n.level, |n.children|) + LeBytes(n.left, 8) + LeBytes(n.right, 8)
  }

  /** The first `k` keys, each followed by its child. */
  function Slots(ndims: nat, children: seq<nat>, keys: seq<NodeKey>, k: nat): (b: seq<Byte>)
    requires k <= |children| == |keys| && Ranked(keys, ndims)
    ensures |b| == k * (KeySize(ndims) + 8)
  {
    if k == 0 then []
    else
      MulStep(k, KeySize(ndims) + 8);
      Slots(ndims, children, keys, k - 1) + KeyImage(keys[k - 1]) + LeBytes(children[k - 1], 8)
  }

  /** The node fits its fixed width and all its keys have the rank. */
  predicate Writable(ndims: nat, n: NodePlan) {
    && |n.children| == |n.keys| <= MAX_CHILDREN && n.level < 256
    && Ranked(n.keys, ndims) && |n.terminal.offsets| == ndims
  }

  function Content(ndims: nat, n: NodePlan): (b: seq<Byte>)
    requires Writable(ndims, n)
    ensures |b| <= NodeSize(ndims)
  {
    MulMonotone(|n.children|, MAX_CHILDREN, KeySize(ndims) + 8);
    Prefix(n) + Slots(ndims, n.children, n.keys, |n.children|)
      + if n.children == [] then [] else KeyImage(n.terminal)
  }

  /** A node is always as wide as a full one. */
  function NodeImage(ndims: nat, n: NodePlan): (b: seq<Byte>)
    requires Writable(ndims, n)
    ensures |b| == NodeSize(ndims)
  {
    Content(ndims, n) + Zeros(NodeSize(ndims) - |Content(ndims, n)|)
  }

  /** The buffer with `done` at `addr`, in a region zeroed up to `total` bytes. */
  ghost function Filled(before: seq<Byte>, addr: nat, done: seq<Byte>, total: nat): seq<Byte>
    requires |done| <= total && addr + total <= |before|
  {
    Patch(before, addr, done + Zeros(total - |done|))
  }

  /** Append `x` to what was written at `addr`. */
  method Put(buf: array<Byte>, at: nat, x: seq<Byte>, ghost before: seq<Byte>, ghost addr: nat, ghost done: seq<Byte>,
             ghost total: nat)
    requires addr + total <= |before| && |done| + |x| <= total && at == addr + |done|
    requires buf[..] == Filled(before, addr, done, total)
    modifies buf
    ensures buf[..] == Filled(before, addr, done + x, total)
  {
    CopyBytes(buf, at, x);
    assert done + x + Zeros(total - |done + x|) == done + (x + Zeros(total - |done| - |x|));
    ghost var now := Filled(before, addr, done + x, total);
    assert |buf[..]| == |now|;
  }

  method WriteKey(buf: array<Byte>, at: nat, key: NodeKey, ghost before: seq<Byte>, ghost addr: nat,
                  ghost done: seq<Byte>, ghost total: nat)
    requires addr + total <= |before| && |done| + KeySize(|key.offsets|) <= total && at == addr + |done|
    requires buf[..] == Filled(before, addr, done, total)
    modifies buf
    ensures buf[..] == Filled(before, addr, done + KeyImage(key), total)
  {
    hide Filled;
    var size, mask := LeBytes(key.size, 4), LeBytes(key.filterMask, 4);
    Put(buf, at, size, before, addr, done, total);
    Put(buf, at + 4, mask, before, addr, done + size, total);
    ghost var sofar := done + size + mask;
    assert |key.offsets[..0]| == 0;
    assert sofar + OffsetBytes(key.offsets[..0]) == sofar;
    for d := 0 to |key.offsets|
      invariant buf[..] == Filled(before, addr, sofar + OffsetBytes(key.offsets[..d]), total)
    {
      var field := LeBytes(key.offsets[d], 8);
      Put(buf, at + 8 + d * 8, field, before, addr, sofar + OffsetBytes(key.offsets[..d]), total);
      assert key.offsets[..d + 1][..d] == key.offsets[..d];
      assert sofar + OffsetBytes(key.offsets[..d]) + field == sofar + OffsetBytes(key.offsets[..d + 1]);
    }
    assert key.offsets[..|key.offsets|] == key.offsets;
    var last := LeBytes(key.elemOffset, 8);
    Put(buf, at + 8 + |key.offsets| * 8, last, before, addr, sofar + OffsetBytes(key.offsets), total);
    assert sofar + OffsetBytes(key.offsets) + last == done + KeyImage(key);
  }

  method WriteNode(buf: array<Byte>, addr: nat, ndims: nat, n: NodePlan) returns (r: Result<nat>)
    requires addr + NodeSize(ndims) <= buf.Length
    modifies buf
    ensures r == if Writable(ndims, n) then Ok(NodeSize(ndims)) else Err(Format)
    ensures r.Ok? ==> buf[..] == Patch(old(buf[..]), addr, NodeImage(ndims, n))
  {
    hide Filled, KeyImage, Prefix;
    if |n.children| > MAX_CHILDREN || |n.children| != |n.keys| {
      return Err(Format);
    }
    if exists i :: 0 <= i < |n.keys| && |n.keys[i].offsets| != ndims {
      return Err(Format);
    }
    if |n.terminal.offsets| != ndims || n.level >= 256 {
      return Err(Format);
    }
    var total := NodeSize(ndims);
    ghost var before := buf[..];
    StartFilled(buf, addr, total);
    var prefix := Prefix(n);
    Put(buf, addr, prefix, before, addr, [], total);
    assert [] + prefix == prefix;
    WriteSlots(buf, addr, ndims, n, before);
    var stride := KeySize(ndims) + 8;
    ghost var slots := prefix + Slots(ndims, n.children, n.keys, |n.children|);
    if n.children != [] {
      MulMonotone(|n.children|, MAX_CHILDREN, stride);
      WriteKey(buf, addr + 24 + |n.children| * stride, n.terminal, before, addr, slots, total);
    } else {
      assert slots + [] == slots;
    }
    FilledIsImage(before, addr, ndims, n);
    return Ok(total);
  }

  method StartFilled(buf: array<Byte>, addr: nat, total: nat)
    requires addr + total <= buf.Length
    modifies buf
    ensures buf[..] == Filled(old(buf[..]), addr, [], total)
  {
    CopyBytes(buf, addr, Zeros(total));
    assert [] + Zeros(total) == Zeros(total);
  }

  lemma FilledIsImage(before: seq<Byte>, addr: nat, ndims: nat, n: NodePlan)
    requires Writable(ndims, n) && addr + NodeSize(ndims) <= |before|
    ensures Filled(before, addr, Content(ndims, n), NodeSize(ndims)) == Patch(before, addr, NodeImage(ndims, n))
  {
  }

  /** The key and child slots of a node. */
  method WriteSlots(buf: array<Byte>, addr: nat, ndims: nat, n: NodePlan, ghost before: seq<Byte>)
    requires Writable(ndims, n) && addr + NodeSize(ndims) <= |before|
    requires buf[..] == Filled(before, addr, Prefix(n), NodeSize(ndims))
    modifies buf
    ensures 24 + |n.children| * (KeySize(ndims) + 8) <= NodeSize(ndims)
    ensures buf[..] == Filled(before, addr, Prefix(n) + Slots(ndims, n.children, n.keys, |n.children|), NodeSize(ndims))
  {
    hide Filled, KeyImage, Prefix;
    var keySize, total := KeySize(ndims), NodeSize(ndims);
    var stride := keySize + 8;
    ghost var prefix := Prefix(n);
    MulMonotone(|n.children|, MAX_CHILDREN, stride);
    assert prefix + [] == prefix;
    for i := 0 to |n.children|
      invariant i * stride <= |n.children| * stride
      invariant buf[..] == Filled(before, addr, prefix + Slots(ndims, n.children, n.keys, i), total)
    {
      MulMonotone(i + 1, |n.children|, stride);
      MulStep(i + 1, stride);
      var slot := addr + 24 + i * stride;
      ghost var done := prefix + Slots(ndims, n.children, n.keys, i);
      WriteKey(buf, slot, n.keys[i], before, addr, done, total);
      Put(buf, slot + keySize, LeBytes(n.children[i], 8), before, addr, done + KeyImage(n.keys[i]), total);
      assert done + KeyImage(n.keys[i]) + LeBytes(n.children[i], 8)
          == prefix + Slots(ndims, n.children, n.keys, i + 1);
    }
  }

  // ------------------------------------------------------------------
  // Levels
  // ------------------------------------------------------------------

  /** Nodes that hold `n` children; an empty tree still has one. */
  function NodeCount(n: nat): (c: nat)
    ensures c >= 1 && n <= c * MAX_CHILDREN
    ensures n > MAX_CHILDREN ==> 1 < c < n
    ensures n <= MAX_CHILDREN ==> c == 1
    ensures n > 0 ==> (c - 1) * MAX_CHILDREN < n
  {
    if n == 0 then 1 else (n + 63) / 64
  }

  /** Node counts of all levels, leaves first. */
  function LevelCounts(n: nat): (l: seq<nat>)
    ensures l != []
    decreases n
  {
    if NodeCount(n) == 1 then [1] else [NodeCount(n)] + LevelCounts(NodeCount(n))
  }

  lemma {:induction false} LevelsBound(n: nat, k: nat)
    requires k >= 1 && n <= Pow(MAX_CHILDREN, k)
    ensures |LevelCounts(n)| <= k
    decreases n
  {
    assert k == 1 ==> Pow(64, k) == 64 * Pow(64, 0) == 64;
    if NodeCount(n) > 1 && k > 1 {
      var p := Pow(64, k - 1);
      assert Pow(64, k) == 64 * p;
      LevelsBound(NodeCount(n), k - 1);
    }
  }

  lemma SixtyFourToTheFourth()
    ensures Pow(MAX_CHILDREN, 4) == MAX_CHUNKS
  {
    assert Pow(64, 2) == 64 * Pow(64, 1) && Pow(64, 1) == 64 * Pow(64, 0);
    assert Pow(64, 4) == 64 * Pow(64, 3) && Pow(64, 3) == 64 * Pow(64, 2);
  }

  /** Node counts from the chunk count; the depth cap never binds. */
  method Plan(nChunks: nat) returns (r: Result<seq<nat>>)
    ensures r == if nChunks > MAX_CHUNKS then Err(Format) else Ok(LevelCounts(nChunks))
  {
    if nChunks > MAX_CHUNKS {
      return Err(Format);
    }
    SixtyFourToTheFourth();
    LevelsBound(nChunks, 4);
    var nodes := NodeCount(nChunks);
    var levels: seq<nat> := [nodes];
    while nodes > 1
      invariant nodes >= 1 && |LevelCounts(nChunks)| <= 4
      invariant LevelCounts(nChunks) == levels + (if nodes == 1 then [] else LevelCounts(nodes))
      decreases nodes
    {
      if |levels| >= MAX_LEVELS {
        assert false;
      }
      var next := if nodes % 64 == 0 then nodes / 64 else nodes / 64 + 1;
      assert next == NodeCount(nodes);
      ghost var rest := LevelCounts(nodes);
      assert rest == [next] + (if next == 1 then [] else LevelCounts(next));
      nodes := next;
      levels := levels + [nodes];
    }
    assert levels + [] == levels;
    return Ok(levels);
  }

  /** One level about to be written: its children and keys, and where it starts. */
  datatype Level = Level(level: nat, base: nat, ndims: nat, children: seq<nat>, keys: seq<NodeKey>, bound: NodeKey)
  {
    predicate Valid() {
      |children| == |keys| && Ranked(keys, ndims) && |bound.offsets| == ndims
    }

    function Count(): nat { NodeCount(|children|) }

    function Low(i: nat): nat { i * MAX_CHILDREN }

    function High(i: nat): nat { if (i + 1) * MAX_CHILDREN <= |children| then (i + 1) * MAX_CHILDREN else |children| }

    function Address(i: nat): nat {
      hide NodeSize;
      base + i * NodeSize(ndims)
    }

    /** Node `i` of the level: its share of the children, siblings, and the key
        of the first child after it as its upper bound. */
    function NodeAt(i: nat): (n: NodePlan)
      requires |children| == |keys| && i < Count()
      ensures Valid() && level < 256 ==> Writable(ndims, n)
      ensures n.level == level && n.keys == keys[Low(i)..High(i)]
    {
      var lo, hi := Low(i), High(i);
      NodePlan(level,
           if i == 0 then UNDEF else Address(i - 1),
           if i + 1 == Count() then UNDEF else Address(i + 1),
           children[lo..hi], keys[lo..hi], if hi < |keys| then keys[hi] else bound)
    }

    /** The first `k` nodes. */
    function Image(k: nat): (b: seq<Byte>)
      requires |children| == |keys| && k <= Count()
      requires forall i :: 0 <= i < k ==> Writable(ndims, NodeAt(i))
      ensures |b| == k * NodeSize(ndims)
    {
      hide NodeSize, NodeImage;
      if k == 0 then []
      else
        MulStep(k, NodeSize(ndims));
        Image(k - 1) + NodeImage(ndims, NodeAt(k - 1))
    }

    /** The level above: one child and one lower-bound key per node. */
    function Above(): (l: Level)
      requires Valid()
      ensures l.Valid() && |l.children| == Count()
    {
      Level(level + 1, Address(Count()), ndims,
            seq(Count(), i requires 0 <= i => Address(i)),
            seq(Count(), i requires 0 <= i =>
              NodeKey(0, 0, if Low(i) < |keys| then keys[Low(i)].offsets else bound.offsets, 0)),
            bound)
    }
  }

  /** Enough level numbers are left for the levels above. */
  predicate FitsAbove(l: Level) { l.level + |LevelCounts(|l.children|)| <= 256 }

  function SumOf(counts: seq<nat>): nat { if counts == [] then 0 else counts[0] + SumOf(counts[1..]) }

  /** Bytes of the whole tree over `n` children. */
  function TreeSize(ndims: nat, n: nat): nat {
    hide NodeSize;
    SumOf(LevelCounts(n)) * NodeSize(ndims)
  }

  lemma SizeStep(ndims: nat, n: nat)
    ensures TreeSize(ndims, n)
         == NodeCount(n) * NodeSize(ndims) + if NodeCount(n) == 1 then 0 else TreeSize(ndims, NodeCount(n))
  {
    hide NodeSize;
    var counts := LevelCounts(n);
    assert SumOf(counts) == counts[0] + SumOf(counts[1..]);
    if NodeCount(n) == 1 {
      assert |counts[1..]| == 0;
    } else {
      assert counts[1..] == LevelCounts(NodeCount(n));
    }
    hide SumOf, LevelCounts, NodeCount;
    assert (counts[0] + SumOf(counts[1..])) * NodeSize(ndims)
        == counts[0] * NodeSize(ndims) + SumOf(counts[1..]) * NodeSize(ndims);
  }

  /** All levels from `l` up, one after another. */
  function TreeImage(l: Level): (b: seq<Byte>)
    requires l.Valid() && FitsAbove(l)
    ensures |b| == TreeSize(l.ndims, |l.children|)
    decreases |l.children|
  {
    hide NodeSize, Level.Image, TreeSize;
    SizeStep(l.ndims, |l.children|);
    if l.Count() == 1 then l.Image(1) else l.Image(l.Count()) + TreeImage(l.Above())
  }

  function RootAddress(l: Level): nat
    requires l.Valid()
    decreases |l.children|
  {
    if l.Count() == 1 then l.base else RootAddress(l.Above())
  }

  /** Where each level starts. */
  function LevelAddresses(base: nat, counts: seq<nat>, size: nat): (a: seq<nat>)
    ensures |a| == |counts|
    decreases counts
  {
    if counts == [] then [] else [base] + LevelAddresses(base + counts[0] * size, counts[1..], size)
  }

  lemma {:induction false} RootIsLastLevel(l: Level)
    requires l.Valid()
    ensures var a := LevelAddresses(l.base, LevelCounts(|l.children|), NodeSize(l.ndims));
      a != [] && a[|a| - 1] == RootAddress(l)
    decreases |l.children|
  {
    hide NodeSize;
    var counts := LevelCounts(|l.children|);
    if l.Count() > 1 {
      RootIsLastLevel(l.Above());
      assert counts[1..] == LevelCounts(l.Count());
    }
  }

  // ------------------------------------------------------------------
  // The planned tree
  // ------------------------------------------------------------------

  function ChunkKeys(entries: seq<Record>): (k: seq<NodeKey>)
    ensures |k| == |entries|
  {
    seq(|entries|, i requires 0 <= i < |entries| =>
      NodeKey(entries[i].size, entries[i].filterMask, entries[i].offsets, 0))
  }

  function ChunkAddresses(entries: seq<Record>): (a: seq<nat>)
    ensures |a| == |entries|
  {
    seq(|entries|, i requires 0 <= i < |entries| => entries[i].address)
  }

  /** The leaf level of an index over `entries`. */
  function Leaves(base: nat, ndims: nat, elemSize: nat, entries: seq<Record>, endOffsets: seq<nat>): Level {
    Level(0, base, ndims, ChunkAddresses(entries), ChunkKeys(entries), NodeKey(0, 0, endOffsets, elemSize))
  }

  predicate RightRank(ndims: nat, entries: seq<Record>, endOffsets: seq<nat>) {
    |endOffsets| == ndims && forall i :: 0 <= i < |entries| ==> |entries[i].offsets| == ndims
  }

  class ChunkTree {
    const ndims: nat
    const elemSize: nat
    const nChunks: nat
    const levels: seq<nat>
    var levelAddr: seq<nat>
    var rootAddr: nat

    constructor (ndims: nat, elemSize: nat, nChunks: nat, levels: seq<nat>)
      requires levels == LevelCounts(nChunks) && nChunks <= MAX_CHUNKS
      ensures this.ndims == ndims && this.elemSize == elemSize && this.nChunks == nChunks && this.levels == levels
    {
      this.ndims, this.elemSize, this.nChunks, this.levels := ndims, elemSize, nChunks, levels;
      levelAddr := seq(|levels|, i => 0);
      rootAddr := 0;
    }

    /** Planned for a chunk count within the limit, and placed from `base`. */
    ghost predicate Placed(base: nat)
      reads this
    {
      && nChunks <= MAX_CHUNKS && levels == LevelCounts(nChunks)
      && levelAddr == LevelAddresses(base, levels, NodeSize(ndims))
      && rootAddr == levelAddr[|levelAddr| - 1]
    }

    /** Place the levels one after another, leaves first. */
    method Assign(base: nat)
      requires levels == LevelCounts(nChunks) && nChunks <= MAX_CHUNKS
      modifies this
      ensures Placed(base)
    {
      hide NodeSize;
      var addr: nat := base;
      var placed: seq<nat> := [];
      assert levels[0..] == levels;
      for i := 0 to |levels|
        invariant LevelAddresses(base, levels, NodeSize(ndims)) == placed + LevelAddresses(addr, levels[i..], NodeSize(ndims))
      {
        assert levels[i..][0] == levels[i] && levels[i..][1..] == levels[i + 1..];
        placed := placed + [addr];
        addr := addr + levels[i] * NodeSize(ndims);
      }
      levelAddr := placed;
      assert placed == LevelAddresses(base, levels, NodeSize(ndims));
      rootAddr := placed[|placed| - 1];
    }

    /** Emit every node, leaves first. */
    method Write(buf: array<Byte>, ghost base: nat, entries: seq<Record>, endOffsets: seq<nat>) returns (r: Result<nat>)
      requires Placed(base)
      requires base + TreeSize(ndims, nChunks) <= buf.Length
      modifies buf
      ensures r.Ok? <==> |entries| == nChunks && RightRank(ndims, entries, endOffsets)
      ensures r.Ok? ==> r.value == TreeSize(ndims, nChunks)
      ensures r.Ok? ==> Emitted(buf[..], old(buf[..]), base, Leaves(base, ndims, elemSize, entries, endOffsets))
    {
      hide NodeSize, NodeCount, Level.Image, Level.Above, LevelCounts, TreeImage, SumOf, Progress, LevelAddresses, Ranked;
      if |entries| != nChunks {
        return Err(Format);
      }
      if |endOffsets| != ndims {
        return Err(Format);
      }
      var l := Leaves(levelAddr[0], ndims, elemSize, entries, endOffsets);
      ghost var before, leaves, done: seq<Byte> := buf[..], l, [];
      var wrote: nat := 0;
      NothingPatched(before, base);
      FirstAddress(base, levels, NodeSize(ndims));
      RankedEntries(leaves, entries, endOffsets);
      ProgressStart(leaves, levels, levelAddr);
      for level := 0 to |levels|
        invariant Progress(leaves, l, levels, levelAddr, level, base, done) && wrote == |done|
        invariant level == 0 ==> l == leaves
        invariant level > 0 ==> leaves.Valid()
        invariant base + |done| <= |before| && buf[..] == Patch(before, base, done)
      {
        ProgressFacts(leaves, l, levels, levelAddr, level, base, done);
        l := l.(base := levelAddr[level]);
        var ok := WriteLevel(buf, l, before, base, done);
        if !ok {
          return Err(Format);
        }
        ProgressStep(leaves, l, levels, levelAddr, level, base, done);
        done := done + l.Image(l.Count());
        wrote := wrote + levels[level] * NodeSize(ndims);
        l := l.Above();
      }
      ProgressEnd(leaves, l, levels, levelAddr, base, done);
      return Ok(wrote);
    }
  }

  /** The tree from level `l` up was written at `base`. */
  ghost predicate Emitted(now: seq<Byte>, before: seq<Byte>, base: nat, l: Level) {
    && l.Valid() && FitsAbove(l) && base + |TreeImage(l)| <= |before|
    && now == Patch(before, base, TreeImage(l))
  }

  lemma RankedEntries(l: Level, entries: seq<Record>, endOffsets: seq<nat>)
    requires l.keys == ChunkKeys(entries) && l.children == ChunkAddresses(entries) && |endOffsets| == l.ndims
    ensures Ranked(l.keys, l.ndims) <==> RightRank(l.ndims, entries, endOffsets)
  {
    if Ranked(l.keys, l.ndims) {
      forall i | 0 <= i < |entries| ensures |entries[i].offsets| == l.ndims {
        assert |l.keys[i].offsets| == l.ndims;
      }
    }
  }

  lemma FirstAddress(base: nat, counts: seq<nat>, size: nat)
    requires counts != []
    ensures LevelAddresses(base, counts, size) != [] && LevelAddresses(base, counts, size)[0] == base
  {
  }

  /** How far the levels have been written: those before `l`, as `done`. */
  ghost predicate Progress(leaves: Level, l: Level, levels: seq<nat>, addrs: seq<nat>, level: nat, base: nat,
                           done: seq<Byte>)
  {
    && level <= |levels| == |addrs|
    && l.level == level && l.ndims == leaves.ndims && |l.keys| == |l.children| && |l.bound.offsets| == l.ndims
    && (level > 0 ==> l.Valid()) && l.base == base + |done|
    && |done| + SumOf(levels[level..]) * NodeSize(l.ndims) == SumOf(levels) * NodeSize(l.ndims)
    && (level < |levels| ==>
         (FitsAbove(l) && levels[level..] == LevelCounts(|l.children|)
          && addrs[level..] == LevelAddresses(l.base, levels[level..], NodeSize(l.ndims))))
    && (leaves.Valid() ==>
         FitsAbove(leaves) && (if level < |levels| then l.Valid() && TreeImage(leaves) == done + TreeImage(l)
                               else TreeImage(leaves) == done))
  }

  lemma ProgressStart(leaves: Level, levels: seq<nat>, addrs: seq<nat>)
    requires levels == LevelCounts(|leaves.children|) && |leaves.children| <= MAX_CHUNKS
    requires addrs == LevelAddresses(leaves.base, levels, NodeSize(leaves.ndims))
    requires leaves.level == 0 && |leaves.keys| == |leaves.children| && |leaves.bound.offsets| == leaves.ndims
    ensures Progress(leaves, leaves, levels, addrs, 0, leaves.base, [])
  {
    hide NodeSize, TreeImage;
    SixtyFourToTheFourth();
    LevelsBound(|leaves.children|, 4);
    assert levels[0..] == levels && addrs[0..] == addrs;
    if leaves.Valid() {
      assert [] + TreeImage(leaves) == TreeImage(leaves);
    }
  }

  lemma ProgressFacts(leaves: Level, l: Level, levels: seq<nat>, addrs: seq<nat>, level: nat, base: nat, done: seq<Byte>)
    requires Progress(leaves, l, levels, addrs, level, base, done) && level < |levels|
    ensures l.level < 256 && |l.keys| == |l.children| && |l.bound.offsets| == l.ndims && l.ndims == leaves.ndims
    ensures l.base == base + |done| == addrs[level] && levels[level] == l.Count()
    ensures l.base + l.Count() * NodeSize(l.ndims) <= base + SumOf(levels) * NodeSize(l.ndims)
    ensures level > 0 ==> l.Valid()
  {
    hide NodeSize, TreeImage, SumOf, LevelCounts, LevelAddresses;
    LevelStep(l, levels, level, NodeSize(l.ndims));
    LevelFits(levels, level, |done|, NodeSize(l.ndims));
    assert addrs[level] == addrs[level..][0];
  }

  lemma ProgressStep(leaves: Level, l: Level, levels: seq<nat>, addrs: seq<nat>, level: nat, base: nat, done: seq<Byte>)
    requires Progress(leaves, l, levels, addrs, level, base, done) && level < |levels| && l.Valid()
    ensures Progress(leaves, l.Above(), levels, addrs, level + 1, base, done + l.Image(l.Count()))
    ensures |l.Image(l.Count())| == levels[level] * NodeSize(l.ndims)
    ensures base + |done + l.Image(l.Count())| <= base + SumOf(levels) * NodeSize(l.ndims)
  {
    hide NodeSize, TreeImage, Level.Image, Ranked, SumOf, LevelCounts, LevelAddresses;
    var size := NodeSize(l.ndims);
    LevelStep(l, levels, level, size);
    LevelFits(levels, level, |done|, size);
    TreeStep(l);
    var image := l.Image(l.Count());
    assert addrs[level + 1..] == addrs[level..][1..];
    if leaves.Valid() && l.Count() > 1 {
      assert done + (image + TreeImage(l.Above())) == done + image + TreeImage(l.Above());
    }
  }

  lemma ProgressEnd(leaves: Level, l: Level, levels: seq<nat>, addrs: seq<nat>, base: nat, done: seq<Byte>)
    requires Progress(leaves, l, levels, addrs, |levels|, base, done) && leaves.Valid()
    ensures FitsAbove(leaves) && TreeImage(leaves) == done
    ensures |done| == SumOf(levels) * NodeSize(leaves.ndims)
  {
    hide NodeSize, TreeImage;
    NoLevels(levels);
    assert 0 * NodeSize(leaves.ndims) == 0;
  }

  lemma NoLevels(levels: seq<nat>)
    ensures SumOf(levels[|levels|..]) == 0
  {
  }

  lemma SumSteps(levels: seq<nat>, level: nat, size: nat)
    requires level < |levels|
    ensures SumOf(levels[level..]) * size == levels[level] * size + SumOf(levels[level + 1..]) * size
  {
    assert levels[level..][0] == levels[level] && levels[level..][1..] == levels[level + 1..];
    assert SumOf(levels[level..]) == levels[level] + SumOf(levels[level + 1..]);
    hide SumOf;
    assert (levels[level] + SumOf(levels[level + 1..])) * size
        == levels[level] * size + SumOf(levels[level + 1..]) * size;
  }

  /** The next level takes its share of the room still to be written. */
  lemma LevelFits(levels: seq<nat>, level: nat, done: nat, size: nat)
    requires level < |levels| && done + SumOf(levels[level..]) * size == SumOf(levels) * size
    ensures done + levels[level] * size <= SumOf(levels) * size
    ensures done + levels[level] * size + SumOf(levels[level + 1..]) * size == SumOf(levels) * size
  {
    SumSteps(levels, level, size);
    hide SumOf;
    MulMonotone(0, SumOf(levels[level + 1..]), size);
  }

  /** What the plan says of the current level and of the next. */
  lemma LevelStep(l: Level, levels: seq<nat>, level: nat, size: nat)
    requires level < |levels| && levels[level..] == LevelCounts(|l.children|)
    ensures levels[level] == l.Count()
    ensures l.Count() > 1 <==> level + 1 < |levels|
    ensures l.Count() > 1 ==> levels[level + 1..] == LevelCounts(l.Count())
    ensures |levels[level..]| == 1 + |levels[level + 1..]|
    ensures LevelAddresses(l.base, levels[level..], size)
         == [l.base] + LevelAddresses(l.base + l.Count() * size, levels[level + 1..], size)
  {
    assert levels[level..][0] == levels[level] && levels[level..][1..] == levels[level + 1..];
  }

  lemma TreeStep(l: Level)
    requires l.Valid() && FitsAbove(l)
    ensures TreeImage(l) == if l.Count() == 1 then l.Image(l.Count()) else l.Image(l.Count()) + TreeImage(l.Above())
    ensures l.Count() > 1 ==> FitsAbove(l.Above())
  {
    hide NodeSize, Level.Image;
  }

  lemma PatchAppend(before: seq<Byte>, base: nat, done: seq<Byte>, x: seq<Byte>)
    requires base + |done| + |x| <= |before|
    ensures Patch(Patch(before, base, done), base + |done|, x) == Patch(before, base, done + x)
  {
  }

  /** All nodes of one level; fails exactly when a key has the wrong rank. */
  method WriteLevel(buf: array<Byte>, l: Level, ghost before: seq<Byte>, ghost treeBase: nat, ghost done: seq<Byte>)
    returns (ok: bool)
    requires |l.children| == |l.keys| && |l.bound.offsets| == l.ndims && l.level < 256
    requires l.base == treeBase + |done| && l.base + l.Count() * NodeSize(l.ndims) <= |before|
    requires buf[..] == Patch(before, treeBase, done)
    modifies buf
    ensures ok <==> Ranked(l.keys, l.ndims)
    ensures ok ==> buf[..] == Patch(before, treeBase, done + l.Image(l.Count()))
  {
    hide NodeSize, NodeImage, NodeCount, Writable, Level.NodeAt, Level.Image, Ranked, Patch;
    var nNodes := l.Count();
    NoNodes(l, done);
    for i := 0 to nNodes
      invariant forall j :: 0 <= j < i ==> Writable(l.ndims, l.NodeAt(j))
      invariant i * NodeSize(l.ndims) <= nNodes * NodeSize(l.ndims)
      invariant buf[..] == Patch(before, treeBase, done + l.Image(i))
    {
      MulMonotone(i + 1, nNodes, NodeSize(l.ndims));
      MulStep(i + 1, NodeSize(l.ndims));
      var n := l.NodeAt(i);
      var wrote := WriteNode(buf, l.Address(i), l.ndims, n);
      if wrote.IsFailure() {
        return false;
      }
      PatchAppend(before, treeBase, done + l.Image(i), NodeImage(l.ndims, n));
      NextNode(l, done, i);
    }
    AllNodesRanked(l);
    return true;
  }

  lemma NoNodes(l: Level, done: seq<Byte>)
    requires |l.children| == |l.keys|
    ensures done + l.Image(0) == done
  {
  }

  lemma NextNode(l: Level, done: seq<Byte>, i: nat)
    requires |l.children| == |l.keys| && i < l.Count()
    requires forall j :: 0 <= j < i + 1 ==> Writable(l.ndims, l.NodeAt(j))
    ensures done + l.Image(i) + NodeImage(l.ndims, l.NodeAt(i)) == done + l.Image(i + 1)
  {
    hide NodeSize, NodeImage, Writable, Level.NodeAt;
  }

  lemma AllNodesRanked(l: Level)
    requires |l.children| == |l.keys|
    requires forall j :: 0 <= j < l.Count() ==> Writable(l.ndims, l.NodeAt(j))
    ensures Ranked(l.keys, l.ndims)
  {
    forall k | 0 <= k < |l.keys| ensures |l.keys[k].offsets| == l.ndims {
      KeyInNode(l, k);
    }
  }

  /** Every key stands in the node its position says. */
  lemma KeyInNode(l: Level, k: nat)
    requires |l.children| == |l.keys| && k < |l.keys|
    ensures k / MAX_CHILDREN < l.Count()
    ensures l.Low(k / MAX_CHILDREN) <= k < l.High(k / MAX_CHILDREN)
    ensures l.NodeAt(k / MAX_CHILDREN).keys[k - l.Low(k / MAX_CHILDREN)] == l.keys[k]
  {
  }

  lemma NothingPatched(before: seq<Byte>, base: nat)
    requires base <= |before|
    ensures Patch(before, base, []) == before
  {
  }
}
