// The written chunk B-tree represents an abstract tree of its entries, so the
// reader's traversal gives the entries back.

module ChunkIndexReads {
  import opened Arithmetic
  import opened Common
  import opened Elements
  import opened BTreeV1
  import opened ChunkIndex

  // ------------------------------------------------------------------
  // Where things stand in a written level
  // ------------------------------------------------------------------

  lemma {:induction false} SlotStored(file: seq<Byte>, at: nat, ndims: nat, children: seq<nat>, keys: seq<NodeKey>,
                                      k: nat, i: nat)
    requires i < k <= |children| == |keys| && Ranked(keys, ndims)
    requires At(file, at, Slots(ndims, children, keys, k))
    ensures At(file, at + i * (KeySize(ndims) + 8), KeyImage(keys[i]))
    ensures At(file, at + i * (KeySize(ndims) + 8) + KeySize(ndims), LeBytes(children[i], 8))
    decreases k
  {
    hide KeyImage, At, LeBytes;
    MulStep(k, KeySize(ndims) + 8);
    var before, key := Slots(ndims, children, keys, k - 1), KeyImage(keys[k - 1]);
    AtSplit(file, at, before + key, LeBytes(children[k - 1], 8));
    AtSplit(file, at, before, key);
    if i < k - 1 {
      SlotStored(file, at, ndims, children, keys, k - 1, i);
    }
  }

  /** A written node has its header, and each key with its child. */
  lemma NodeStored(file: seq<Byte>, addr: nat, ndims: nat, n: NodePlan)
    requires Writable(ndims, n) && At(file, addr, NodeImage(ndims, n)) && |file| <= U64_MAX
    ensures HasHeader(file, addr, n.level, |n.children|)
    ensures forall i :: 0 <= i < |n.children| ==>
      At(file, KeyOffset(addr, ndims, i), KeyImage(n.keys[i]))
      && At(file, KeyOffset(addr, ndims, i) + KeySize(ndims), LeBytes(n.children[i], 8))
  {
    var slots := Slots(ndims, n.children, n.keys, |n.children|);
    var close := if n.children == [] then [] else KeyImage(n.terminal);
    var pad := Zeros(NodeSize(ndims) - |Content(ndims, n)|);
    HeaderStored(file, addr, ndims, n);
    hide KeyImage, At, LeBytes, Slots, HeaderBytes;
    assert NodeImage(ndims, n) == Prefix(n) + slots + close + pad;
    AtSplit(file, addr, Prefix(n) + slots + close, pad);
    AtSplit(file, addr, Prefix(n) + slots, close);
    AtSplit(file, addr, Prefix(n), slots);
    forall i | 0 <= i < |n.children|
      ensures At(file, KeyOffset(addr, ndims, i), KeyImage(n.keys[i]))
      ensures At(file, KeyOffset(addr, ndims, i) + KeySize(ndims), LeBytes(n.children[i], 8))
    {
      SlotStored(file, addr + 24, ndims, n.children, n.keys, |n.children|, i);
    }
  }

  lemma HeaderStored(file: seq<Byte>, addr: nat, ndims: nat, n: NodePlan)
    requires Writable(ndims, n) && At(file, addr, NodeImage(ndims, n)) && |file| <= U64_MAX
    ensures HasHeader(file, addr, n.level, |n.children|)
  {
    var rest := NodeImage(ndims, n)[8..];
    var head := HeaderBytes(n.level, |n.children|);
    hide Slots, KeyImage;
    assert NodeImage(ndims, n) == head + rest;
    AtSplit(file, addr, head, rest);
  }

  lemma {:induction false} NodeOfLevel(file: seq<Byte>, l: Level, k: nat, i: nat)
    requires l.Valid() && l.level < 256 && i < k <= l.Count() && At(file, l.base, l.Image(k))
    ensures At(file, l.Address(i), NodeImage(l.ndims, l.NodeAt(i)))
    decreases k
  {
    hide NodeSize, NodeImage, At, Level.NodeAt;
    MulStep(k, NodeSize(l.ndims));
    AtSplit(file, l.base, l.Image(k - 1), NodeImage(l.ndims, l.NodeAt(k - 1)));
    if i < k - 1 {
      NodeOfLevel(file, l, k - 1, i);
    }
  }

  // ------------------------------------------------------------------
  // Trees over a level
  // ------------------------------------------------------------------

  /** The share of `n` things that node `i` holds. */
  function Low(i: nat, n: nat): (lo: nat)
    ensures lo <= n
  {
    if i * MAX_CHILDREN <= n then i * MAX_CHILDREN else n
  }

  function LeafTrees(entries: seq<Record>, count: nat): (t: seq<Tree>)
    ensures |t| == count
  {
    seq(count, i requires 0 <= i => Leaf(entries[Low(i, |entries|)..Low(i + 1, |entries|)]))
  }

  function InnerTrees(level: nat, trees: seq<Tree>, count: nat): (t: seq<Tree>)
    ensures |t| == count
  {
    seq(count, i requires 0 <= i => Tree.Node(level, trees[Low(i, |trees|)..Low(i + 1, |trees|)]))
  }

  lemma Regroup<T>(a: seq<T>, b: seq<T>, c: seq<T>)
    ensures a + b + c == a + (b + c)
  {
  }

  lemma InOrderSnoc(a: seq<Tree>, t: Tree)
    ensures AllInOrder(a + [t]) == AllInOrder(a) + BTreeV1.InOrder(t)
  {
    assert (a + [t])[..|a|] == a;
  }

  lemma {:induction false} InOrderConcat(a: seq<Tree>, b: seq<Tree>)
    ensures AllInOrder(a + b) == AllInOrder(a) + AllInOrder(b)
    decreases |b|
  {
    if b == [] {
      assert a + b == a;
    } else {
      hide AllInOrder, BTreeV1.InOrder;
      var rest, last := b[..|b| - 1], b[|b| - 1];
      InOrderConcat(a, rest);
      InOrderSnoc(rest, last);
      InOrderSnoc(a + rest, last);
      assert b == rest + [last];
      Regroup(a, rest, [last]);
      Regroup(AllInOrder(a), AllInOrder(rest), BTreeV1.InOrder(last));
    }
  }

  lemma DefinedSnoc(a: seq<Record>, r: Record)
    ensures Defined(a + [r]) == Defined(a) + Defined([r])
  {
    assert (a + [r])[..|a|] == a && [r][..0] == [];
  }

  lemma DefinedStep(a: seq<Record>, b: seq<Record>, last: Record)
    requires Defined(a + b) == Defined(a) + Defined(b)
    ensures Defined(a + (b + [last])) == Defined(a) + Defined(b + [last])
  {
    hide Defined;
    DefinedSnoc(b, last);
    DefinedSnoc(a + b, last);
    Regroup(a, b, [last]);
    Regroup(Defined(a), Defined(b), Defined([last]));
  }

  lemma {:induction false} DefinedConcat(a: seq<Record>, b: seq<Record>)
    ensures Defined(a + b) == Defined(a) + Defined(b)
    decreases |b|
  {
    if b == [] {
      assert a + b == a;
    } else {
      hide Defined;
      var rest, last := b[..|b| - 1], b[|b| - 1];
      DefinedConcat(a, rest);
      DefinedStep(a, rest, last);
      assert b == rest + [last];
    }
  }

  lemma {:induction false} LeavesInOrder(entries: seq<Record>, count: nat)
    ensures AllInOrder(LeafTrees(entries, count)) == Defined(entries[..Low(count, |entries|)])
  {
    if count == 0 {
      assert entries[..0] == [];
    } else {
      var all := LeafTrees(entries, count);
      LeavesInOrder(entries, count - 1);
      assert all[..count - 1] == LeafTrees(entries, count - 1);
      var lo, hi := Low(count - 1, |entries|), Low(count, |entries|);
      DefinedConcat(entries[..lo], entries[lo..hi]);
      assert entries[..hi] == entries[..lo] + entries[lo..hi];
    }
  }

  lemma {:induction false} GroupsInOrder(level: nat, trees: seq<Tree>, count: nat)
    ensures AllInOrder(InnerTrees(level, trees, count)) == AllInOrder(trees[..Low(count, |trees|)])
  {
    if count == 0 {
      assert trees[..0] == [];
    } else {
      var all := InnerTrees(level, trees, count);
      GroupsInOrder(level, trees, count - 1);
      assert all[..count - 1] == InnerTrees(level, trees, count - 1);
      var lo, hi := Low(count - 1, |trees|), Low(count, |trees|);
      InOrderConcat(trees[..lo], trees[lo..hi]);
      assert trees[..hi] == trees[..lo] + trees[lo..hi];
    }
  }

  lemma {:induction false} MaxLevelsBound(trees: seq<Tree>, bound: nat)
    requires forall i :: 0 <= i < |trees| ==> Levels(trees[i]) <= bound
    ensures MaxLevels(trees) <= bound
  {
    if trees != [] {
      MaxLevelsBound(trees[..|trees| - 1], bound);
    }
  }

  /** Each child of the level is represented by its tree, no deeper than the level. */
  ghost predicate Backed(file: seq<Byte>, l: Level, trees: seq<Tree>) {
    && |trees| == |l.children|
    && (forall i :: 0 <= i < |trees| ==>
         l.children[i] <= U64_MAX && Represents(file, l.ndims, l.children[i], trees[i]) && Levels(trees[i]) <= l.level)
  }

  /** A node's share of the children and keys. */
  lemma Share(l: Level, i: nat)
    requires l.Valid() && l.level < 256 && i < l.Count()
    ensures var n := l.NodeAt(i);
      var lo, hi := Low(i, |l.children|), Low(i + 1, |l.children|);
      lo <= hi && n.level == l.level && n.children == l.children[lo..hi] && n.keys == l.keys[lo..hi]
      && Writable(l.ndims, n)
  {
    hide NodeSize, Ranked;
  }

  /** A stored level-0 node over these entries is a leaf. */
  lemma LeafNode(file: seq<Byte>, addr: nat, ndims: nat, n: NodePlan, part: seq<Record>)
    requires Writable(ndims, n) && n.level == 0 && At(file, addr, NodeImage(ndims, n)) && |file| <= U64_MAX
    requires n.children == ChunkAddresses(part) && n.keys == ChunkKeys(part)
    requires forall k :: 0 <= k < |part| ==> Encodable(part[k], ndims)
    ensures Represents(file, ndims, addr, Leaf(part))
  {
    hide NodeImage, At, Encodable, KeyOffset, Writable, HasHeader, KeyImage, KeyBytes;
    NodeStored(file, addr, ndims, n);
    forall k | 0 <= k < |part|
      ensures HasChild(file, ndims, addr, k, part[k].address)
      ensures At(file, KeyOffset(addr, ndims, k), KeyBytes(part[k]))
    {
      KeyStored(file, KeyOffset(addr, ndims, k), n.keys[k], part[k]);
      EncodableAddress(part[k], ndims);
    }
  }

  lemma LeafRepresented(file: seq<Byte>, l: Level, entries: seq<Record>, i: nat)
    requires l.Valid() && l.level == 0 && i < l.Count() && |file| <= U64_MAX
    requires l.children == ChunkAddresses(entries) && l.keys == ChunkKeys(entries)
    requires forall k :: 0 <= k < |entries| ==> Encodable(entries[k], l.ndims)
    requires At(file, l.Address(i), NodeImage(l.ndims, l.NodeAt(i)))
    ensures Represents(file, l.ndims, l.Address(i), LeafTrees(entries, l.Count())[i])
  {
    hide Level.Address, Level.NodeAt, NodeImage, NodeSize, At, Encodable, Represents, Writable, Ranked;
    Share(l, i);
    var n := l.NodeAt(i);
    var part := entries[Low(i, |entries|)..Low(i + 1, |entries|)];
    assert n.children == ChunkAddresses(part) && n.keys == ChunkKeys(part);
    LeafNode(file, l.Address(i), l.ndims, n, part);
  }

  lemma EncodableAddress(r: Record, ndims: nat)
    requires Encodable(r, ndims)
    ensures r.address <= U64_MAX
  {
  }

  lemma KeyStored(file: seq<Byte>, at: nat, key: NodeKey, r: Record)
    requires At(file, at, KeyImage(key)) && key == NodeKey(r.size, r.filterMask, r.offsets, 0)
    ensures At(file, at, KeyBytes(r))
  {
    AtSplit(file, at, KeyBytes(r), LeBytes(0, 8));
  }

  /** A stored node over backed children is an internal node of their trees. */
  lemma InnerNode(file: seq<Byte>, addr: nat, ndims: nat, n: NodePlan, part: seq<Tree>)
    requires Writable(ndims, n) && n.level > 0 && At(file, addr, NodeImage(ndims, n)) && |file| <= U64_MAX
    requires |part| == |n.children|
    requires forall k :: 0 <= k < |part| ==>
      n.children[k] <= U64_MAX && Represents(file, ndims, n.children[k], part[k])
    ensures Represents(file, ndims, addr, Tree.Node(n.level, part))
  {
    hide NodeImage, At, KeyOffset, Writable, HasHeader, KeyImage;
    NodeStored(file, addr, ndims, n);
    forall k | 0 <= k < |part| ensures ChildRepresents(file, ndims, addr, k, part[k]) {
      assert HasChild(file, ndims, addr, k, n.children[k]);
    }
  }

  lemma InnerRepresented(file: seq<Byte>, l: Level, trees: seq<Tree>, i: nat)
    requires l.Valid() && 0 < l.level < 256 && i < l.Count() && |file| <= U64_MAX && Backed(file, l, trees)
    requires At(file, l.Address(i), NodeImage(l.ndims, l.NodeAt(i)))
    ensures Represents(file, l.ndims, l.Address(i), InnerTrees(l.level, trees, l.Count())[i])
    ensures Levels(InnerTrees(l.level, trees, l.Count())[i]) <= l.level + 1
  {
    hide Level.Address, Level.NodeAt, NodeImage, At, Represents, Writable, Ranked, MaxLevels, Backed;
    Share(l, i);
    ShareBacked(file, l, trees, i);
    var part := trees[Low(i, |trees|)..Low(i + 1, |trees|)];
    InnerNode(file, l.Address(i), l.ndims, l.NodeAt(i), part);
    MaxLevelsBound(part, l.level);
  }

  /** The children of one node are backed by their share of the trees. */
  lemma ShareBacked(file: seq<Byte>, l: Level, trees: seq<Tree>, i: nat)
    requires l.Valid() && l.level < 256 && i < l.Count() && Backed(file, l, trees)
    ensures |trees| == |l.children|
    ensures var n := l.NodeAt(i);
      var part := trees[Low(i, |trees|)..Low(i + 1, |trees|)];
      |part| == |n.children|
      && (forall k :: 0 <= k < |part| ==>
           (n.children[k] <= U64_MAX && Represents(file, l.ndims, n.children[k], part[k]) && Levels(part[k]) <= l.level))
  {
    hide Level.NodeAt, Represents, Levels, Ranked;
    Share(l, i);
    var n, lo := l.NodeAt(i), Low(i, |trees|);
    var part := trees[lo..Low(i + 1, |trees|)];
    forall k | 0 <= k < |part|
      ensures n.children[k] <= U64_MAX && Represents(file, l.ndims, n.children[k], part[k]) && Levels(part[k]) <= l.level
    {
      assert part[k] == trees[lo + k] && n.children[k] == l.children[lo + k];
    }
  }

  /** Writing a level backs the level above it. */
  lemma LeafLevelBacks(file: seq<Byte>, l: Level, entries: seq<Record>)
    requires l.Valid() && l.level == 0 && |file| <= U64_MAX && At(file, l.base, l.Image(l.Count()))
    requires l.children == ChunkAddresses(entries) && l.keys == ChunkKeys(entries)
    requires forall k :: 0 <= k < |entries| ==> Encodable(entries[k], l.ndims)
    ensures Backed(file, l.Above(), LeafTrees(entries, l.Count()))
  {
    hide Represents, Level.Image, Level.NodeAt, NodeImage, NodeSize;
    var trees := LeafTrees(entries, l.Count());
    forall i | 0 <= i < |trees|
      ensures l.Address(i) <= U64_MAX && Represents(file, l.ndims, l.Address(i), trees[i]) && Levels(trees[i]) <= 1
    {
      NodeOfLevel(file, l, l.Count(), i);
      LeafRepresented(file, l, entries, i);
    }
  }

  lemma InnerLevelBacks(file: seq<Byte>, l: Level, trees: seq<Tree>)
    requires l.Valid() && 0 < l.level < 256 && |file| <= U64_MAX && At(file, l.base, l.Image(l.Count()))
    requires Backed(file, l, trees)
    ensures Backed(file, l.Above(), InnerTrees(l.level, trees, l.Count()))
  {
    hide Represents, Level.Image, Level.NodeAt, NodeImage, NodeSize;
    var all := InnerTrees(l.level, trees, l.Count());
    forall i | 0 <= i < |all|
      ensures l.Address(i) <= U64_MAX && Represents(file, l.ndims, l.Address(i), all[i]) && Levels(all[i]) <= l.level + 1
    {
      NodeOfLevel(file, l, l.Count(), i);
      InnerRepresented(file, l, trees, i);
    }
  }

  /** A written tree represents a tree with the same in-order records. */
  lemma {:induction false} TreeRepresented(file: seq<Byte>, l: Level, trees: seq<Tree>) returns (t: Tree)
    requires l.Valid() && l.level > 0 && FitsAbove(l) && |file| <= U64_MAX
    requires At(file, l.base, TreeImage(l)) && Backed(file, l, trees)
    ensures Represents(file, l.ndims, RootAddress(l), t) && InOrder(t) == AllInOrder(trees)
    ensures Levels(t) <= l.level + |LevelCounts(|l.children|)|
    decreases |l.children|
  {
    hide Represents, Level.Image, At, NodeSize, TreeSize;
    TreeStep(l);
    LevelStored(file, l);
    InnerLevelBacks(file, l, trees);
    var above := InnerTrees(l.level, trees, l.Count());
    GroupsInOrder(l.level, trees, l.Count());
    assert trees[..Low(l.Count(), |trees|)] == trees;
    if l.Count() == 1 {
      t := above[0];
      OneTree(above);
      FirstNode(l);
    } else {
      t := TreeRepresented(file, l.Above(), above);
    }
  }

  /** The level and what is above it stand one after the other. */
  lemma LevelStored(file: seq<Byte>, l: Level)
    requires l.Valid() && FitsAbove(l) && At(file, l.base, TreeImage(l))
    ensures At(file, l.base, l.Image(l.Count()))
    ensures l.Count() > 1 ==> FitsAbove(l.Above()) && At(file, l.Above().base, TreeImage(l.Above()))
  {
    hide Level.Image, At, TreeImage, NodeSize, NodeCount;
    TreeStep(l);
    if l.Count() > 1 {
      AtSplit(file, l.base, l.Image(l.Count()), TreeImage(l.Above()));
    }
  }

  lemma OneTree(trees: seq<Tree>)
    requires |trees| == 1
    ensures AllInOrder(trees) == InOrder(trees[0])
  {
    assert |trees[..0]| == 0;
  }

  lemma FirstNode(l: Level)
    requires l.Valid() && l.Count() == 1
    ensures l.Above().children[0] == l.base == RootAddress(l)
  {
    assert 0 * NodeSize(l.ndims) == 0;
  }

  /** Main result: the traversal of a written index returns its entries, in order,
      whatever their number, the key that closes the tree, and the bytes around. */
  lemma IndexReadsBack(file: seq<Byte>, base: nat, ndims: nat, elemSize: nat, entries: seq<Record>,
                       endOffsets: seq<nat>)
    requires |entries| <= MAX_CHUNKS && |endOffsets| == ndims && |file| <= U64_MAX
    requires forall k :: 0 <= k < |entries| ==> Encodable(entries[k], ndims) && entries[k].address != UNDEF
    ensures var l := Leaves(base, ndims, elemSize, entries, endOffsets);
      l.Valid() && FitsAbove(l)
      && (At(file, base, TreeImage(l)) ==> Collected(file, ndims, RootAddress(l), 0) == Ok(entries))
  {
    hide Collected, TreeImage, At;
    var l := Leaves(base, ndims, elemSize, entries, endOffsets);
    SixtyFourToTheFourth();
    LevelsBound(|entries|, 4);
    if At(file, base, TreeImage(l)) {
      var t := IndexRepresented(file, l, entries);
      ParseRecoversTree(file, ndims, RootAddress(l), t);
      AllDefined(entries);
    }
  }

  lemma IndexRepresented(file: seq<Byte>, l: Level, entries: seq<Record>) returns (t: Tree)
    requires l.Valid() && l.level == 0 && |LevelCounts(|entries|)| <= 4 && |file| <= U64_MAX
    requires l.children == ChunkAddresses(entries) && l.keys == ChunkKeys(entries)
    requires forall k :: 0 <= k < |entries| ==> Encodable(entries[k], l.ndims)
    requires At(file, l.base, TreeImage(l))
    ensures Represents(file, l.ndims, RootAddress(l), t) && InOrder(t) == Defined(entries) && Levels(t) <= 65
  {
    hide Represents, Level.Image, At, NodeSize, TreeSize, Encodable;
    LevelStored(file, l);
    LeafLevelBacks(file, l, entries);
    var trees := LeafTrees(entries, l.Count());
    LeavesInOrder(entries, l.Count());
    assert entries[..Low(l.Count(), |entries|)] == entries;
    if l.Count() == 1 {
      t := trees[0];
      OneTree(trees);
      FirstNode(l);
    } else {
      t := TreeRepresented(file, l.Above(), trees);
    }
  }

  lemma {:induction false} AllDefined(entries: seq<Record>)
    requires forall k :: 0 <= k < |entries| ==> entries[k].address != UNDEF
    ensures Defined(entries) == entries
  {
    if entries != [] {
      var n := |entries| - 1;
      AllDefined(entries[..n]);
      assert entries == entries[..n] + [entries[n]];
    }
  }
}
