// The version-1 B-tree that indexes raw data chunks: traversal of an on-disk
// tree, and the abstract tree it recovers.

module BTreeV1 {
  import opened Common

  const UNDEF: nat := U64_MAX
  const MAX_DEPTH: nat := 64
  const TREE: seq<Byte> := [84, 82, 69, 69]

  // ------------------------------------------------------------------
  // What a traversal returns
  // ------------------------------------------------------------------

  function KeySize(ndims: nat): nat { 8 + (ndims + 1) * 8 }

  function KeyOffset(base: nat, ndims: nat, i: nat): nat { base + 24 + i * (KeySize(ndims) + 8) }

  /** The node header: level and number of entries. */
  function ReadHeader(file: seq<Byte>, base: nat): Result<(nat, nat)> {
    if base + 24 > |file| then Err(Format)
    else if file[base..base + 4] != TREE || file[base + 4] != 1 then Err(Format)
    else Ok((file[base + 5], LeNat(file[base + 6..base + 8])))
  }

  function Key(file: seq<Byte>, keyOff: nat, ndims: nat, address: nat): Result<Record> {
    if keyOff + 8 + 8 * ndims > |file| then Err(Format)
    else Ok(Record(address, LeNat(file[keyOff..keyOff + 4]), LeNat(file[keyOff + 4..keyOff + 8]),
                   Words64(file, keyOff + 8, ndims)))
  }

  /** Records below the node at `address`, in order, or the first error. */
  function Collected(file: seq<Byte>, ndims: nat, address: nat, depth: nat): Result<seq<Record>>
    decreases if depth <= MAX_DEPTH then MAX_DEPTH + 1 - depth else 0, 2, 0
  {
    if address == UNDEF then Ok([])
    else if depth > MAX_DEPTH then Err(Format)
    else
      var header :- ReadHeader(file, address);
      EntriesUpTo(file, ndims, address, header.0, header.1, depth)
  }

  /** Records of the first `n` entries of a node. */
  function EntriesUpTo(file: seq<Byte>, ndims: nat, base: nat, level: nat, n: nat, depth: nat): Result<seq<Record>>
    requires depth <= MAX_DEPTH
    decreases MAX_DEPTH + 1 - depth, 1, n
  {
    if n == 0 then Ok([])
    else
      var before :- EntriesUpTo(file, ndims, base, level, n - 1, depth);
      var last :- Entry(file, ndims, base, level, n - 1, depth);
      Ok(before + last)
  }

  /** Address stored with entry `i`. */
  function Child(file: seq<Byte>, ndims: nat, base: nat, i: nat): Result<nat> {
    ReadLe(file, KeyOffset(base, ndims, i) + KeySize(ndims), 8)
  }

  /** A leaf entry is a record unless its address is undefined; an internal
      entry is everything below its child. */
  function Entry(file: seq<Byte>, ndims: nat, base: nat, level: nat, i: nat, depth: nat): Result<seq<Record>>
    requires depth <= MAX_DEPTH
    decreases MAX_DEPTH + 1 - depth, 0, 0
  {
    var child :- Child(file, ndims, base, i);
    if level == 0 then
      var record :- Key(file, KeyOffset(base, ndims, i), ndims, child);
      Ok(if record.address != UNDEF then [record] else [])
    else Collected(file, ndims, child, depth + 1)
  }

  lemma {:induction false} EntriesFail(file: seq<Byte>, ndims: nat, base: nat, level: nat, n: nat, k: nat, depth: nat)
    requires depth <= MAX_DEPTH && k < n
    requires EntriesUpTo(file, ndims, base, level, k, depth).Ok?
    requires Entry(file, ndims, base, level, k, depth).Err?
    ensures EntriesUpTo(file, ndims, base, level, n, depth) == Err(Entry(file, ndims, base, level, k, depth).error)
    decreases n
  {
    hide Entry;
    if k < n - 1 {
      EntriesFail(file, ndims, base, level, n - 1, k, depth);
    }
  }

  // ------------------------------------------------------------------
  // The traversal
  // ------------------------------------------------------------------

  method ParseChunkKey(file: seq<Byte>, keyOff: nat, ndims: nat, address: nat) returns (r: Result<Record>)
    ensures r == Key(file, keyOff, ndims, address)
  {
    if keyOff + 8 > |file| {
      return Err(Format);
    }
    var size := LeNat(file[keyOff..keyOff + 4]);
    var filterMask := LeNat(file[keyOff + 4..keyOff + 8]);
    var offsets: seq<nat> := [];
    for d := 0 to ndims
      invariant keyOff + 8 + 8 * d <= |file| && offsets == Words64(file, keyOff + 8, d)
    {
      var at := keyOff + 8 + d * 8;
      if at + 8 > |file| {
        return Err(Format);
      }
      offsets := offsets + [LeNat(file[at..at + 8])];
    }
    return Ok(Record(address, size, filterMask, offsets));
  }

  /** The shared record list the recursion appends to. */
  class Collector {
    var out: seq<Record>

    constructor ()
      ensures out == []
    {
      out := [];
    }

    method Collect(file: seq<Byte>, ndims: nat, address: nat, depth: nat) returns (r: Result<()>)
      modifies this
      ensures Collected(file, ndims, address, depth).Ok? ==>
        r.Ok? && out == old(out) + Collected(file, ndims, address, depth).value
      ensures Collected(file, ndims, address, depth).Err? ==>
        r == Err(Collected(file, ndims, address, depth).error) && old(out) <= out
      decreases if depth <= MAX_DEPTH then MAX_DEPTH + 1 - depth else 0
    {
      hide Key, Child;
      if address == UNDEF {
        return Ok(());
      }
      if depth > MAX_DEPTH {
        return Err(Format);
      }
      var header := ReadHeader(file, address);
      if header.Err? {
        return Err(header.error);
      }
      var (level, entriesUsed) := header.value;
      ghost var before := out;
      for i := 0 to entriesUsed
        invariant EntriesUpTo(file, ndims, address, level, i, depth).Ok?
        invariant out == before + EntriesUpTo(file, ndims, address, level, i, depth).value
      {
        var child := Child(file, ndims, address, i);
        if child.Err? {
          EntriesFail(file, ndims, address, level, entriesUsed, i, depth);
          return Err(child.error);
        }
        if level == 0 {
          var record := ParseChunkKey(file, KeyOffset(address, ndims, i), ndims, child.value);
          if record.Err? {
            EntriesFail(file, ndims, address, level, entriesUsed, i, depth);
            return Err(record.error);
          }
          if record.value.address != UNDEF {
            out := out + [record.value];
          }
        } else {
          var below := Collect(file, ndims, child.value, depth + 1);
          if below.Err? {
            EntriesFail(file, ndims, address, level, entriesUsed, i, depth);
            return Err(below.error);
          }
        }
      }
      return Ok(());
    }
  }

  method Parse(file: seq<Byte>, address: nat, ndims: nat) returns (r: Result<seq<Record>>)
    ensures r == Collected(file, ndims, address, 0)
  {
    hide Collected;
    var collector := new Collector();
    assert collector.out == [];
    var done := collector.Collect(file, ndims, address, 0);
    if done.Err? {
      return Err(done.error);
    }
    assert collector.out == Collected(file, ndims, address, 0).value;
    return Ok(collector.out);
  }

  // ------------------------------------------------------------------
  // Abstract trees and their images
  // ------------------------------------------------------------------

  /** A chunk tree: a missing sub-tree, a leaf of records (some perhaps without
      an address), or an internal node. */
  datatype Tree = Missing | Leaf(records: seq<Record>) | Node(level: nat, children: seq<Tree>)

  /** Nodes on the longest path down. */
  function Levels(t: Tree): nat {
    match t
    case Missing => 0
    case Leaf(_) => 1
    case Node(_, children) => 1 + MaxLevels(children)
  }

  function MaxLevels(children: seq<Tree>): nat {
    if children == [] then 0
    else Max(MaxLevels(children[..|children| - 1]), Levels(children[|children| - 1]))
  }

  function Defined(records: seq<Record>): seq<Record> {
    if records == [] then []
    else
      var last := records[|records| - 1];
      Defined(records[..|records| - 1]) + if last.address != UNDEF then [last] else []
  }

  /** In-order list of the leaf records that have an address. */
  function InOrder(t: Tree): seq<Record> {
    match t
    case Missing => []
    case Leaf(records) => Defined(records)
    case Node(_, children) => AllInOrder(children)
  }

  function AllInOrder(children: seq<Tree>): seq<Record> {
    if children == [] then []
    else AllInOrder(children[..|children| - 1]) + InOrder(children[|children| - 1])
  }

  function HeaderBytes(level: Byte, count: nat): seq<Byte> { TREE + [1, level] + LeBytes(count, 2) }

  function OffsetBytes(offsets: seq<nat>): (b: seq<Byte>)
    ensures |b| == 8 * |offsets|
  {
    if offsets == [] then [] else OffsetBytes(offsets[..|offsets| - 1]) + LeBytes(offsets[|offsets| - 1], 8)
  }

  function KeyBytes(r: Record): seq<Byte> { LeBytes(r.size, 4) + LeBytes(r.filterMask, 4) + OffsetBytes(r.offsets) }

  predicate Encodable(r: Record, ndims: nat) {
    && r.size < 0x1_0000_0000 && r.filterMask < 0x1_0000_0000 && r.address <= U64_MAX
    && |r.offsets| == ndims
    && forall d :: 0 <= d < ndims ==> r.offsets[d] <= U64_MAX
  }

  /** A node header is stored at `base`; siblings are unconstrained. */
  ghost predicate HasHeader(file: seq<Byte>, base: nat, level: nat, count: nat) {
    && level < 256 && count < 0x1_0000 && base != UNDEF
    && base + 24 <= |file| && At(file, base, HeaderBytes(level, count))
  }

  ghost predicate HasChild(file: seq<Byte>, ndims: nat, base: nat, i: nat, address: nat) {
    address <= U64_MAX && At(file, KeyOffset(base, ndims, i) + KeySize(ndims), LeBytes(address, 8))
  }

  /** The bytes of `file` represent `t` at `address`: nodes may be anywhere, may
      even be shared, and whatever the format leaves open is unconstrained. */
  ghost predicate Represents(file: seq<Byte>, ndims: nat, address: nat, t: Tree)
    decreases t, 0
  {
    match t
    case Missing => address == UNDEF
    case Leaf(records) =>
      && HasHeader(file, address, 0, |records|)
      && (forall i :: 0 <= i < |records| ==>
           Encodable(records[i], ndims) && HasChild(file, ndims, address, i, records[i].address)
           && At(file, KeyOffset(address, ndims, i), KeyBytes(records[i])))
    case Node(level, children) =>
      && level > 0 && HasHeader(file, address, level, |children|)
      && (forall i :: 0 <= i < |children| ==> ChildRepresents(file, ndims, address, i, children[i]))
  }

  /** Entry `i` of the node at `base` names a node that represents `t`. */
  ghost predicate ChildRepresents(file: seq<Byte>, ndims: nat, base: nat, i: nat, t: Tree)
    decreases t, 1
  {
    exists child: nat :: HasChild(file, ndims, base, i, child) && Represents(file, ndims, child, t)
  }

  // ------------------------------------------------------------------
  // Reading what is stored
  // ------------------------------------------------------------------

  lemma HeaderReads(file: seq<Byte>, base: nat, level: nat, count: nat)
    requires HasHeader(file, base, level, count)
    ensures ReadHeader(file, base) == Ok((level, count))
  {
    Pow256Values();
    LeRoundTrip(count, 2);
    var x := HeaderBytes(level, count);
    AtInside(file, base, x, 0, 4);
    AtInside(file, base, x, 4, 5);
    AtInside(file, base, x, 5, 6);
    AtInside(file, base, x, 6, 8);
    assert x[0..4] == TREE && x[4..5] == [1] && x[5..6] == [level] && x[6..8] == LeBytes(count, 2);
    assert file[base + 4] == file[base + 4..base + 5][0];
    assert file[base + 5] == file[base + 5..base + 6][0];
  }

  lemma ChildReads(file: seq<Byte>, ndims: nat, base: nat, i: nat, address: nat)
    requires HasChild(file, ndims, base, i, address)
    ensures Child(file, ndims, base, i) == Ok(address)
  {
    Pow256Values();
    ReadLeAt(file, KeyOffset(base, ndims, i) + KeySize(ndims), 8, address);
  }

  lemma {:induction false} OffsetsRead(file: seq<Byte>, at: nat, offsets: seq<nat>)
    requires At(file, at, OffsetBytes(offsets))
    requires forall d :: 0 <= d < |offsets| ==> offsets[d] <= U64_MAX
    ensures at + 8 * |offsets| <= |file| && Words64(file, at, |offsets|) == offsets
  {
    if offsets != [] {
      var n := |offsets| - 1;
      AtSplit(file, at, OffsetBytes(offsets[..n]), LeBytes(offsets[n], 8));
      OffsetsRead(file, at, offsets[..n]);
      Pow256Values();
      hide At, LeNat, LeBytes, OffsetBytes, Words64;
      ReadLeAt(file, at + 8 * n, 8, offsets[n]);
      WordsStep(file, at, n);
    }
  }

  lemma WordsStep(data: seq<Byte>, at: nat, n: nat)
    requires at + 8 * (n + 1) <= |data|
    ensures Words64(data, at, n + 1) == Words64(data, at, n) + [LeNat(data[at + 8 * n..at + 8 * n + 8])]
  {
    hide LeNat;
  }

  lemma KeyReads(file: seq<Byte>, keyOff: nat, ndims: nat, r: Record)
    requires Encodable(r, ndims) && At(file, keyOff, KeyBytes(r))
    ensures Key(file, keyOff, ndims, r.address) == Ok(r)
  {
    Pow256Values();
    AtSplit(file, keyOff, LeBytes(r.size, 4) + LeBytes(r.filterMask, 4), OffsetBytes(r.offsets));
    AtSplit(file, keyOff, LeBytes(r.size, 4), LeBytes(r.filterMask, 4));
    LeRoundTrip(r.size, 4);
    LeRoundTrip(r.filterMask, 4);
    OffsetsRead(file, keyOff + 8, r.offsets);
  }

  lemma {:induction false} LeafReads(file: seq<Byte>, ndims: nat, base: nat, records: seq<Record>, n: nat, depth: nat)
    requires Represents(file, ndims, base, Leaf(records)) && n <= |records| && depth <= MAX_DEPTH
    ensures EntriesUpTo(file, ndims, base, 0, n, depth) == Ok(Defined(records[..n]))
  {
    hide Key, Child, Encodable, KeyOffset;
    if n > 0 {
      LeafReads(file, ndims, base, records, n - 1, depth);
      ChildReads(file, ndims, base, n - 1, records[n - 1].address);
      KeyReads(file, KeyOffset(base, ndims, n - 1), ndims, records[n - 1]);
      assert records[..n][..n - 1] == records[..n - 1];
    }
  }

  /** Main result: traversing the image of a tree gives its in-order records when
      the tree is no deeper than 65 nodes, and fails when it is. */
  lemma {:induction false} TraversalIsFaithful(file: seq<Byte>, ndims: nat, address: nat, t: Tree, depth: nat)
    requires Represents(file, ndims, address, t)
    ensures Collected(file, ndims, address, depth)
      == if t == Missing || depth + Levels(t) <= MAX_DEPTH + 1 then Ok(InOrder(t)) else Err(Format)
    decreases t, 1, 0
  {
    if t != Missing && depth <= MAX_DEPTH {
      match t
      case Leaf(records) =>
        HeaderReads(file, address, 0, |records|);
        LeafReads(file, ndims, address, records, |records|, depth);
        assert records[..|records|] == records;
      case Node(level, children) =>
        HeaderReads(file, address, level, |children|);
        ChildrenRead(file, ndims, address, t, |children|, depth);
        assert children[..|children|] == children;
    }
  }

  lemma {:induction false} ChildrenRead(file: seq<Byte>, ndims: nat, base: nat, t: Tree, n: nat, depth: nat)
    requires t.Node? && Represents(file, ndims, base, t) && n <= |t.children| && depth <= MAX_DEPTH
    ensures EntriesUpTo(file, ndims, base, t.level, n, depth)
      == if depth + 1 + MaxLevels(t.children[..n]) <= MAX_DEPTH + 1 then Ok(AllInOrder(t.children[..n])) else Err(Format)
    decreases t, 0, n
  {
    hide Child, HasHeader, HasChild, Collected;
    if n > 0 {
      var last := t.children[n - 1];
      ChildrenRead(file, ndims, base, t, n - 1, depth);
      assert t.children[..n][..n - 1] == t.children[..n - 1];
      assert ChildRepresents(file, ndims, base, n - 1, last);
      var child: nat :| HasChild(file, ndims, base, n - 1, child) && Represents(file, ndims, child, last);
      ChildReads(file, ndims, base, n - 1, child);
      TraversalIsFaithful(file, ndims, child, last, depth + 1);
    }
  }

  /** From the root: up to 64 edges the traversal recovers the tree. */
  lemma ParseRecoversTree(file: seq<Byte>, ndims: nat, address: nat, t: Tree)
    requires Represents(file, ndims, address, t) && Levels(t) <= 65
    ensures Collected(file, ndims, address, 0) == Ok(InOrder(t))
  {
    hide Represents, Collected;
    TraversalIsFaithful(file, ndims, address, t, 0);
  }

  // ------------------------------------------------------------------
  // Cycles
  // ------------------------------------------------------------------

  /** An internal node of the image with a child among `nodes`. */
  ghost predicate LeadsInto(file: seq<Byte>, ndims: nat, address: nat, nodes: set<nat>) {
    && address != UNDEF
    && ReadHeader(file, address).Ok? && ReadHeader(file, address).value.0 > 0
    && exists i: nat :: i < ReadHeader(file, address).value.1
         && Child(file, ndims, address, i).Ok? && Child(file, ndims, address, i).value in nodes
  }

  /** However the bytes are arranged, a cycle of nodes is an error, never an
      endless traversal. */
  lemma {:induction false} CyclesAreRejected(file: seq<Byte>, ndims: nat, nodes: set<nat>, address: nat, depth: nat)
    requires address in nodes && forall a :: a in nodes ==> LeadsInto(file, ndims, a, nodes)
    ensures Collected(file, ndims, address, depth).Err?
    decreases if depth <= MAX_DEPTH then MAX_DEPTH + 1 - depth else 0
  {
    hide ReadHeader, Child, EntriesUpTo;
    assert LeadsInto(file, ndims, address, nodes);
    if depth <= MAX_DEPTH {
      var header := ReadHeader(file, address).value;
      var i: nat :| i < header.1 && Child(file, ndims, address, i).Ok? && Child(file, ndims, address, i).value in nodes;
      CyclesAreRejected(file, ndims, nodes, Child(file, ndims, address, i).value, depth + 1);
      EntryErrorSpreads(file, ndims, address, header.0, header.1, i, depth);
    }
  }

  lemma {:induction false} EntryErrorSpreads(file: seq<Byte>, ndims: nat, base: nat, level: nat, n: nat, i: nat,
                                             depth: nat)
    requires depth <= MAX_DEPTH && i < n && Entry(file, ndims, base, level, i, depth).Err?
    ensures EntriesUpTo(file, ndims, base, level, n, depth).Err?
    decreases n
  {
    hide Entry;
    if i < n - 1 {
      EntryErrorSpreads(file, ndims, base, level, n - 1, i, depth);
    }
  }
}
