// Writing global heap collections: greedy in-order packing under the 64 KiB
// cap, and the serializer the parser undoes.

module GlobalHeapWriter {
  import opened Arithmetic
  import opened Common
  import opened Powers
  import opened GlobalHeap

  const MIN_SIZE: nat := 4096
  const MAX_SIZE: nat := 65536
  const MAX_OBJECTS: nat := 65535
  const COLLECTION_HEADER: nat := 16
  const OBJECT_HEADER: nat := 16

  type Obj = seq<Byte>

  /** 0-based collection ordinal and 1-based index within it. */
  datatype Location = Location(collection: nat, index: nat)

  // ------------------------------------------------------------------
  // Sizes
  // ------------------------------------------------------------------

  /** Bytes an object occupies, header and padding included. */
  function Need(obj: Obj): (n: nat)
    ensures n >= 16 && n % 8 == 0
  {
    Align8(OBJECT_HEADER + |obj|)
  }

  function Needs(objs: seq<Obj>): (n: nat)
    ensures n >= 16 * |objs|
  {
    if objs == [] then 0 else Needs(objs[..|objs| - 1]) + Need(objs[|objs| - 1])
  }

  /** Offset at which a collection's content ends. */
  function Content(objs: seq<Obj>): nat { COLLECTION_HEADER + Needs(objs) }

  lemma {:induction false} NeedsConcat(a: seq<Obj>, b: seq<Obj>)
    ensures Needs(a + b) == Needs(a) + Needs(b)
  {
    if b == [] {
      assert a + b == a;
    } else {
      assert (a + b)[..|a + b| - 1] == a + b[..|b| - 1];
      NeedsConcat(a, b[..|b| - 1]);
    }
  }

  lemma {:induction false} NeedsAligned(objs: seq<Obj>)
    ensures Needs(objs) % 8 == 0
  {
    if objs != [] {
      NeedsAligned(objs[..|objs| - 1]);
      SumAligned(Needs(objs[..|objs| - 1]), Need(objs[|objs| - 1]));
    }
  }

  lemma SumAligned(a: nat, b: nat)
    requires a % 8 == 0 && b % 8 == 0
    ensures (a + b) % 8 == 0
  {
  }

  lemma NeedsOne(obj: Obj)
    ensures Needs([obj]) == Need(obj)
  {
    assert |[obj][..0]| == 0;
  }

  // ------------------------------------------------------------------
  // Greedy packing
  // ------------------------------------------------------------------

  /** The next object does not go into the collection being filled. */
  predicate Closes(current: seq<Obj>, obj: Obj) {
    current != [] && (Content(current) + Need(obj) > MAX_SIZE || |current| >= MAX_OBJECTS)
  }

  /** Collections produced from the rest of the objects. */
  function Pack(current: seq<Obj>, objs: seq<Obj>): seq<seq<Obj>>
    decreases objs
  {
    if objs == [] then if current == [] then [] else [current]
    else if Closes(current, objs[0]) then [current] + Pack([objs[0]], objs[1..])
    else Pack(current + [objs[0]], objs[1..])
  }

  /** Locations of the rest of the objects; ordinals are stored in 32 bits. */
  function Locate(collection: nat, current: seq<Obj>, objs: seq<Obj>): (l: seq<Location>)
    ensures |l| == |objs|
    decreases objs
  {
    if objs == [] then []
    else if Closes(current, objs[0]) then
      [Location((collection + 1) % 0x1_0000_0000, 1)] + Locate(collection + 1, [objs[0]], objs[1..])
    else
      [Location(collection % 0x1_0000_0000, (|current| + 1) % 0x1_0000_0000)]
        + Locate(collection, current + [objs[0]], objs[1..])
  }

  function Flatten(groups: seq<seq<Obj>>): seq<Obj> {
    if groups == [] then [] else groups[0] + Flatten(groups[1..])
  }

  /** A collection the format admits: one object of any size, or at most
      64 KiB of content. */
  predicate Admissible(group: seq<Obj>) { |group| <= 1 || Content(group) <= MAX_SIZE }

  predicate Split(groups: seq<seq<Obj>>, objs: seq<Obj>) {
    Flatten(groups) == objs && forall k :: 0 <= k < |groups| ==> Admissible(groups[k])
  }

  /** Below the size cap the object cap cannot bind. */
  lemma ObjectCapNeverBinds(group: seq<Obj>)
    requires Admissible(group)
    ensures |group| <= 4095
  {
  }

  lemma {:induction false} PackIsSplit(current: seq<Obj>, objs: seq<Obj>)
    requires Admissible(current)
    ensures Split(Pack(current, objs), current + objs)
    ensures forall k :: 0 <= k < |Pack(current, objs)| ==> Pack(current, objs)[k] != []
    decreases objs
  {
    var groups := Pack(current, objs);
    if objs == [] {
      assert current + objs == current;
      assert current != [] ==> Flatten([current]) == current + Flatten([]) == current;
    } else if Closes(current, objs[0]) {
      PackIsSplit([objs[0]], objs[1..]);
      assert groups[1..] == Pack([objs[0]], objs[1..]);
      assert current + objs == current + ([objs[0]] + objs[1..]);
    } else {
      NeedsConcat(current, [objs[0]]);
      NeedsOne(objs[0]);
      PackIsSplit(current + [objs[0]], objs[1..]);
      assert current + objs == current + [objs[0]] + objs[1..];
    }
  }

  lemma FlattenHead(groups: seq<seq<Obj>>)
    requires groups != []
    ensures |groups[0]| <= |Flatten(groups)|
    ensures Flatten(groups)[..|groups[0]|] == groups[0]
    ensures Flatten(groups)[|groups[0]|..] == Flatten(groups[1..])
  {
  }

  /** A group that swallows the filled collection and the object that closed it
      would exceed the cap. */
  lemma ClosedGroupIsFull(w: seq<Obj>, current: seq<Obj>, obj: Obj, rest: seq<Obj>, group: seq<Obj>)
    requires Closes(current, obj)
    requires |group| > |w| + |current| && group <= w + current + [obj] + rest
    ensures !Admissible(group)
  {
    var tail := group[|w| + |current| + 1..];
    assert group == w + (current + [obj]) + tail;
    NeedsConcat(w + (current + [obj]), tail);
    NeedsConcat(w, current + [obj]);
    NeedsConcat(current, [obj]);
    NeedsOne(obj);
  }

  /** Greedy stays ahead: any admissible split of a list that ends in what the
      greedy packer still has in hand needs at least as many groups. */
  lemma {:induction false} GreedyStaysAhead(w: seq<Obj>, current: seq<Obj>, objs: seq<Obj>, groups: seq<seq<Obj>>)
    requires current != [] && Split(groups, w + current + objs)
    ensures |Pack(current, objs)| <= |groups|
    decreases objs
  {
    assert groups != [];
    if objs == [] {
    } else if !Closes(current, objs[0]) {
      assert w + current + objs == w + (current + [objs[0]]) + objs[1..];
      GreedyStaysAhead(w, current + [objs[0]], objs[1..], groups);
    } else {
      var obj, rest, g := objs[0], objs[1..], groups[0];
      var all := w + current + objs;
      assert all == w + current + [obj] + rest;
      FlattenHead(groups);
      if |g| > |w| + |current| {
        ClosedGroupIsFull(w, current, obj, rest, g);
      }
      assert |g| <= |w + current|;
      assert Flatten(groups[1..]) == all[|g|..] == (w + current)[|g|..] + [obj] + rest;
      GreedyStaysAhead((w + current)[|g|..], [obj], rest, groups[1..]);
    }
  }

  /** Packing is optimal: no admissible in-order split uses fewer collections. */
  lemma PackingIsOptimal(objs: seq<Obj>, groups: seq<seq<Obj>>)
    requires Split(groups, objs)
    ensures Split(Pack([], objs), objs)
    ensures |Pack([], objs)| <= |groups|
  {
    assert [] + objs == objs;
    PackIsSplit([], objs);
    if objs != [] {
      assert [] + [objs[0]] == [objs[0]];
      assert objs == [] + [objs[0]] + objs[1..];
      GreedyStaysAhead([], [objs[0]], objs[1..], groups);
    }
  }

  lemma {:induction false} PackCount(current: seq<Obj>, objs: seq<Obj>)
    ensures |Pack(current, objs)| <= |objs| + 1
    ensures objs != [] || current != [] ==> |Pack(current, objs)| >= 1
    ensures current == [] ==> |Pack(current, objs)| <= |objs|
    decreases objs
  {
    if objs != [] {
      if Closes(current, objs[0]) {
        PackCount([objs[0]], objs[1..]);
      } else {
        PackCount(current + [objs[0]], objs[1..]);
      }
    }
  }

  /** The collection in hand stays a prefix of the first one produced. */
  lemma {:induction false} PackStart(current: seq<Obj>, objs: seq<Obj>)
    requires current != []
    ensures Pack(current, objs) != [] && current <= Pack(current, objs)[0]
    decreases objs
  {
    if objs != [] && !Closes(current, objs[0]) {
      PackStart(current + [objs[0]], objs[1..]);
    }
  }

  /** `loc` names `obj` inside `groups`, whose first group has ordinal `base`,
      and counting through the groups before it gives flat position `flat`. */
  predicate Placed(groups: seq<seq<Obj>>, base: nat, loc: Location, obj: Obj, flat: nat) {
    && base <= loc.collection < base + |groups|
    && 1 <= loc.index <= |groups[loc.collection - base]|
    && groups[loc.collection - base][loc.index - 1] == obj
    && |Flatten(groups[..loc.collection - base])| + loc.index - 1 == flat
  }

  lemma PlacedAfter(first: seq<Obj>, rest: seq<seq<Obj>>, base: nat, loc: Location, obj: Obj, flat: nat)
    requires Placed(rest, base + 1, loc, obj, flat)
    ensures Placed([first] + rest, base, loc, obj, |first| + flat)
  {
    var groups, k := [first] + rest, loc.collection - base;
    assert groups[..k][1..] == rest[..k - 1];
    assert groups[k] == rest[k - 1];
  }

  lemma PlacedFirst(groups: seq<seq<Obj>>, base: nat, current: seq<Obj>, obj: Obj)
    requires groups != [] && current + [obj] <= groups[0]
    ensures Placed(groups, base, Location(base, |current| + 1), obj, |current|)
  {
    assert |groups[..0]| == 0;
    assert groups[0][|current|] == (current + [obj])[|current|];
  }

  lemma PackUnfolds(collection: nat, current: seq<Obj>, objs: seq<Obj>)
    requires objs != []
    ensures var obj, rest := objs[0], objs[1..];
      if Closes(current, obj) then
        Pack(current, objs) == [current] + Pack([obj], rest)
        && Locate(collection, current, objs)
           == [Location((collection + 1) % 0x1_0000_0000, 1)] + Locate(collection + 1, [obj], rest)
      else
        Pack(current, objs) == Pack(current + [obj], rest)
        && Locate(collection, current, objs)
           == [Location(collection % 0x1_0000_0000, (|current| + 1) % 0x1_0000_0000)]
              + Locate(collection, current + [obj], rest)
  {
  }

  lemma PackEnds(collection: nat, current: seq<Obj>)
    ensures Pack(current, []) == if current == [] then [] else [current]
    ensures Locate(collection, current, []) == []
  {
  }

  lemma LocateStep(collection: nat, current: seq<Obj>, objs: seq<Obj>)
    requires objs != [] && Admissible(current) && collection + 1 < 0x1_0000_0000
    ensures var obj, rest := objs[0], objs[1..];
      if Closes(current, obj) then
        Pack(current, objs) == [current] + Pack([obj], rest)
        && Locate(collection, current, objs) == [Location(collection + 1, 1)] + Locate(collection + 1, [obj], rest)
      else
        Pack(current, objs) == Pack(current + [obj], rest) && Admissible(current + [obj])
        && Locate(collection, current, objs)
           == [Location(collection, |current| + 1)] + Locate(collection, current + [obj], rest)
  {
    ObjectCapNeverBinds(current);
    hide Pack, Locate, Content, Closes, Admissible;
    PackUnfolds(collection, current, objs);
    SmallMod(collection, 0x1_0000_0000);
    SmallMod(collection + 1, 0x1_0000_0000);
    SmallMod(|current| + 1, 0x1_0000_0000);
    if !Closes(current, objs[0]) {
      StaysAdmissible(current, objs[0]);
    }
  }

  /** The location map is exact and follows insertion order: object `i` sits
      where its location says, at flat position `i`. */
  lemma {:induction false} LocationsAreExact(collection: nat, current: seq<Obj>, objs: seq<Obj>, i: nat)
    requires Admissible(current) && i < |objs| && collection + |objs| < 0x1_0000_0000
    ensures Placed(Pack(current, objs), collection, Locate(collection, current, objs)[i], objs[i], |current| + i)
    decreases objs
  {
    hide Content, Placed, Flatten, Pack, Locate, Closes;
    var obj, rest := objs[0], objs[1..];
    LocateStep(collection, current, objs);
    var loc := Locate(collection, current, objs)[i];
    if Closes(current, obj) {
      if i == 0 {
        PackStart([obj], rest);
        assert [] + [obj] == [obj];
        PlacedFirst(Pack([obj], rest), collection + 1, [], obj);
      } else {
        LocationsAreExact(collection + 1, [obj], rest, i - 1);
      }
      PlacedAfter(current, Pack([obj], rest), collection, loc, objs[i], i);
    } else if i == 0 {
      PackStart(current + [obj], rest);
      PlacedFirst(Pack(current + [obj], rest), collection, current, obj);
    } else {
      LocationsAreExact(collection, current + [obj], rest, i - 1);
    }
  }

  lemma StaysAdmissible(current: seq<Obj>, obj: Obj)
    requires Admissible(current) && !Closes(current, obj)
    ensures Admissible(current + [obj])
  {
    NeedsConcat(current, [obj]);
    NeedsOne(obj);
  }

  lemma {:induction false} FlattenStep(groups: seq<seq<Obj>>, k: nat)
    requires k < |groups|
    ensures |Flatten(groups[..k + 1])| == |Flatten(groups[..k])| + |groups[k]|
    decreases groups
  {
    assert groups[..k + 1][1..] == groups[1..][..k];
    if k > 0 {
      assert groups[..k][1..] == groups[1..][..k - 1];
      FlattenStep(groups[1..], k - 1);
    }
  }

  lemma {:induction false} FlattenMonotone(groups: seq<seq<Obj>>, k: nat, l: nat)
    requires k <= l <= |groups|
    ensures |Flatten(groups[..k])| <= |Flatten(groups[..l])|
  {
    if k < l {
      FlattenMonotone(groups, k, l - 1);
      FlattenStep(groups, l - 1);
    }
  }

  /** The location map is onto: every slot of every collection is the location of
      the object at its flat position.  With exactness, the map is a bijection
      between objects and slots, in insertion order. */
  lemma LocationsAreOnto(objs: seq<Obj>, k: nat, index: nat)
    requires |objs| < 0x1_0000_0000 && k < |Pack([], objs)| && 1 <= index <= |Pack([], objs)[k]|
    ensures var i := |Flatten(Pack([], objs)[..k])| + index - 1;
      i < |objs| && Locate(0, [], objs)[i] == Location(k, index)
  {
    hide Flatten, Pack, Locate;
    var groups := Pack([], objs);
    var i := |Flatten(groups[..k])| + index - 1;
    assert [] + objs == objs;
    PackIsSplit([], objs);
    FlattenStep(groups, k);
    FlattenMonotone(groups, k + 1, |groups|);
    assert groups[..|groups|] == groups;
    LocationsAreExact(0, [], objs, i);
    var loc := Locate(0, [], objs)[i];
    FlattenStep(groups, loc.collection);
    if loc.collection < k {
      FlattenMonotone(groups, loc.collection + 1, k);
    } else if k < loc.collection {
      FlattenMonotone(groups, k + 1, loc.collection);
    }
  }

  // ------------------------------------------------------------------
  // Declared size
  // ------------------------------------------------------------------

  function DoubleUntil(size: nat, target: nat): (r: nat)
    requires size > 0
    ensures r >= target && r >= size
    decreases target - size
  {
    if size >= target then size else DoubleUntil(2 * size, target)
  }

  function DeclaredSize(contentEnd: nat): (r: nat)
    ensures r >= contentEnd
  {
    if contentEnd <= MAX_SIZE then DoubleUntil(MIN_SIZE, contentEnd) else Align8(contentEnd)
  }

  method CollectionSize(contentEnd: nat) returns (size: nat)
    ensures size == DeclaredSize(contentEnd)
  {
    if contentEnd <= MAX_SIZE {
      size := MIN_SIZE;
      while size < contentEnd
        invariant size > 0 && DoubleUntil(size, contentEnd) == DoubleUntil(MIN_SIZE, contentEnd)
        decreases contentEnd - size
      {
        size := 2 * size;
      }
    } else {
      size := Align8(contentEnd);
    }
  }

  lemma {:induction false} DoublingIsLeast(size: nat, k: nat, target: nat, e: nat)
    requires size == Pow(2, k) && Pow(2, e) >= target && e >= k
    ensures DoubleUntil(size, target) <= Pow(2, e)
    ensures exists j: nat :: j >= k && DoubleUntil(size, target) == Pow(2, j)
    decreases e - k
  {
    PowMonotone(2, k, e);
    if size < target {
      assert e > k;
      assert Pow(2, k + 1) == 2 * size;
      DoublingIsLeast(2 * size, k + 1, target, e);
    }
  }

  lemma Pow2Sizes()
    ensures Pow(2, 12) == MIN_SIZE && Pow(2, 16) == MAX_SIZE
  {
    assert Pow(2, 4) == 16 && Pow(2, 8) == 256 by {
      assert Pow(2, 2) == 4 && Pow(2, 3) == 8 && Pow(2, 4) == 16 && Pow(2, 5) == 32
        && Pow(2, 6) == 64 && Pow(2, 7) == 128;
    }
    assert Pow(2, 9) == 512 && Pow(2, 10) == 1024 && Pow(2, 11) == 2048 && Pow(2, 12) == 4096;
    assert Pow(2, 13) == 8192 && Pow(2, 14) == 16384 && Pow(2, 15) == 32768;
  }

  /** Up to the cap the declared size is the least power of two, at least 4096,
      that holds the content; above it the size is exactly the content. */
  lemma DeclaredSizeIsLeast(objs: seq<Obj>)
    ensures var size := DeclaredSize(Content(objs));
      && size % 8 == 0 && size >= MIN_SIZE && size >= Content(objs)
      && (Content(objs) > MAX_SIZE ==> size == Content(objs))
      && (Content(objs) <= MAX_SIZE ==>
           (size <= MAX_SIZE && (exists j: nat :: size == Pow(2, j))
            && forall e: nat :: e >= 12 && Pow(2, e) >= Content(objs) ==> size <= Pow(2, e)))
  {
    var content := Content(objs);
    NeedsAligned(objs);
    if content <= MAX_SIZE {
      Pow2Sizes();
      DoublingIsLeast(MIN_SIZE, 12, content, 16);
      var j: nat :| j >= 12 && DoubleUntil(MIN_SIZE, content) == Pow(2, j);
      MultipleOf8(j);
      forall e: nat | e >= 12 && Pow(2, e) >= content ensures DeclaredSize(content) <= Pow(2, e) {
        DoublingIsLeast(MIN_SIZE, 12, content, e);
      }
    }
  }

  lemma {:induction false} MultipleOf8(j: nat)
    requires j >= 3
    ensures Pow(2, j) % 8 == 0
  {
    if j == 3 {
      assert Pow(2, 1) == 2 && Pow(2, 2) == 4;
    } else {
      MultipleOf8(j - 1);
    }
  }

  // ------------------------------------------------------------------
  // Serializing one collection
  // ------------------------------------------------------------------

  /** 1-based index as the writer computes it from a 0-based position. */
  function EntryIndex(i: nat): nat { if i % 0x1_0000 == 0xFFFF then 0xFFFF else i % 0x1_0000 + 1 }

  function EntryHead(index: nat, size: nat): (h: seq<Byte>)
    ensures |h| == 16
  {
    LeBytes(index, 2) + LeBytes(1, 2) + Zeros(4) + LeBytes(size, 8)
  }

  function StoredEntry(i: nat, obj: Obj): (e: seq<Byte>)
    ensures |e| == Need(obj)
  {
    EntryHead(EntryIndex(i), |obj|) + obj + Zeros(Need(obj) - 16 - |obj|)
  }

  function Entries(objs: seq<Obj>): (e: seq<Byte>)
    ensures |e| == Needs(objs)
  {
    if objs == [] then []
    else Entries(objs[..|objs| - 1]) + StoredEntry(|objs| - 1, objs[|objs| - 1])
  }

  function Prefix(declared: nat): (p: seq<Byte>)
    ensures |p| == 16
  {
    GCOL + [1] + Zeros(3) + LeBytes(declared, 8)
  }

  /** The free-space object when its header fits, and zero padding. */
  function Tail(leftover: nat): (t: seq<Byte>)
    ensures |t| == leftover
  {
    if leftover >= OBJECT_HEADER
    then LeBytes(0, 2) + LeBytes(0, 2) + Zeros(4) + LeBytes(leftover, 8) + Zeros(leftover - 16)
    else Zeros(leftover)
  }

  function Serialized(objs: seq<Obj>): (s: seq<Byte>)
    ensures |s| == DeclaredSize(Content(objs))
  {
    var declared := DeclaredSize(Content(objs));
    Prefix(declared) + Entries(objs) + Tail(declared - Content(objs))
  }

  /** Header, data and padding of one object, appended piece by piece. */
  method AppendEntry(before: seq<Byte>, i: nat, obj: Obj) returns (out: seq<Byte>)
    requires |before| % 8 == 0
    ensures out == before + StoredEntry(i, obj)
  {
    var idx := if i % 0x1_0000 + 1 > 0xFFFF then 0xFFFF else i % 0x1_0000 + 1;
    out := before + LeBytes(idx, 2);
    out := out + LeBytes(1, 2);
    out := out + Zeros(4);
    out := out + LeBytes(|obj|, 8);
    out := out + obj;
    assert out == before + (EntryHead(EntryIndex(i), |obj|) + obj);
    Padding(|before|, 16 + |obj|);
    hide Need, EntryHead, EntryIndex, LeBytes, Align8;
    var remainder := |out| % 8;
    if remainder != 0 {
      out := out + Zeros(8 - remainder);
    }
  }

  lemma Padding(a: nat, n: nat)
    requires a % 8 == 0
    ensures Align8(n) - n == if (a + n) % 8 == 0 then 0 else 8 - (a + n) % 8
  {
    AddMultiple(n, 8, a / 8);
    assert n + a / 8 * 8 == a + n;
    PaddingOf(n);
  }

  lemma PaddingOf(n: nat)
    ensures Align8(n) - n == if n % 8 == 0 then 0 else 8 - n % 8
  {
  }

  /** The free-space header when it fits, then zero padding up to the size. */
  method AppendTail(before: seq<Byte>, leftover: nat) returns (out: seq<Byte>)
    ensures out == before + Tail(leftover)
  {
    out := before;
    if leftover >= OBJECT_HEADER {
      out := out + LeBytes(0, 2);
      out := out + LeBytes(0, 2);
      out := out + Zeros(4);
      out := out + LeBytes(leftover, 8);
    }
    out := out + Zeros(|before| + leftover - |out|);
  }

  method ContentEnd(objs: seq<Obj>) returns (contentEnd: nat)
    ensures contentEnd == Content(objs)
  {
    contentEnd := COLLECTION_HEADER;
    for i := 0 to |objs|
      invariant contentEnd == Content(objs[..i])
    {
      assert objs[..i + 1][..i] == objs[..i];
      contentEnd := contentEnd + Align8(OBJECT_HEADER + |objs[i]|);
    }
    assert objs[..|objs|] == objs;
  }

  method SerializeCollection(objs: seq<Obj>) returns (out: seq<Byte>)
    ensures out == Serialized(objs)
  {
    hide Need, Needs, StoredEntry, Tail, DeclaredSize;
    var contentEnd := ContentEnd(objs);
    var declared := CollectionSize(contentEnd);
    out := GCOL + [1] + Zeros(3) + LeBytes(declared, 8);
    assert |objs[..0]| == 0;
    for i := 0 to |objs|
      invariant out == Prefix(declared) + Entries(objs[..i])
    {
      assert objs[..i + 1][..i] == objs[..i];
      NeedsAligned(objs[..i]);
      out := AppendEntry(out, i, objs[i]);
    }
    assert objs[..|objs|] == objs;
    out := AppendTail(out, declared - contentEnd);
  }

  // ------------------------------------------------------------------
  // The writer
  // ------------------------------------------------------------------

  class Writer {
    var objects: seq<Obj>

    constructor ()
      ensures objects == []
    {
      objects := [];
    }

    /** Store an object; its 1-based ordinal is returned in 32 bits. */
    method WriteBytes(data: Obj) returns (ordinal: nat)
      modifies this
      ensures objects == old(objects) + [data]
      ensures ordinal == (|old(objects)| + 1) % 0x1_0000_0000
    {
      objects := objects + [data];
      ordinal := |objects| % 0x1_0000_0000;
    }

    method BuildCollections() returns (collections: seq<seq<Byte>>, locations: seq<Location>)
      ensures |collections| == |Pack([], objects)|
      ensures forall k :: 0 <= k < |collections| ==> collections[k] == Serialized(Pack([], objects)[k])
      ensures locations == Locate(0, [], objects)
    {
      hide Needs, Serialized, Pack, Locate;
      EmptyContent();
      collections, locations := [], [];
      var current: seq<Obj> := [];
      var contentUsed := COLLECTION_HEADER;
      ghost var closed: seq<seq<Obj>> := [];
      for i := 0 to |objects|
        invariant contentUsed == Content(current)
        invariant |collections| == |closed|
        invariant forall k :: 0 <= k < |closed| ==> collections[k] == Serialized(closed[k])
        invariant closed + Pack(current, objects[i..]) == Pack([], objects)
        invariant locations + Locate(|closed|, current, objects[i..]) == Locate(0, [], objects)
      {
        var obj := objects[i];
        PackUnfolds(|closed|, current, objects[i..]);
        assert objects[i..][0] == obj && objects[i..][1..] == objects[i + 1..];
        var need := Need(obj);
        var wouldUse := contentUsed + need;
        var overSize := wouldUse > MAX_SIZE;
        var overCount := |current| >= MAX_OBJECTS;
        if current != [] && (overSize || overCount) {
          var bytes := SerializeCollection(current);
          collections := collections + [bytes];
          closed := closed + [current];
          current := [];
          contentUsed := COLLECTION_HEADER;
        }
        locations := locations + [Location(|collections| % 0x1_0000_0000, (|current| + 1) % 0x1_0000_0000)];
        NeedsConcat(current, [obj]);
        NeedsOne(obj);
        assert [] + [obj] == [obj];
        current := current + [obj];
        contentUsed := contentUsed + need;
      }
      assert |objects[|objects|..]| == 0;
      PackEnds(|closed|, current);
      if current != [] {
        var bytes := SerializeCollection(current);
        collections := collections + [bytes];
      }
    }

    /** Every object in a single collection, whatever its size. */
    method Build() returns (bytes: seq<Byte>)
      ensures bytes == Serialized(objects)
    {
      bytes := SerializeCollection(objects);
    }
  }

  // ------------------------------------------------------------------
  // Parsing undoes serializing
  // ------------------------------------------------------------------

  /** Objects by 1-based index. */
  function Indexed(objs: seq<Obj>): (m: map<nat, Obj>)
    ensures forall i :: i in m <==> 1 <= i <= |objs|
    ensures forall i :: i in m ==> m[i] == objs[i - 1]
  {
    if objs == [] then map[] else Indexed(objs[..|objs| - 1])[|objs| := objs[|objs| - 1]]
  }

  predicate FitsFile(objs: seq<Obj>) { DeclaredSize(Content(objs)) < 0x1_0000_0000_0000_0000 }

  lemma EntryHeadParses(file: seq<Byte>, heapEnd: nat, pos: nat, index: nat, size: nat)
    requires At(file, pos, EntryHead(index, size)) && pos + 16 <= heapEnd
    requires 0 < index < 0x1_0000 && size < 0x1_0000_0000_0000_0000
    ensures ReadHead(file, heapEnd, pos) == Ok(Entry(index, size))
  {
    Pow256Values();
    AtSplit(file, pos, LeBytes(index, 2) + LeBytes(1, 2) + Zeros(4), LeBytes(size, 8));
    AtSplit(file, pos, LeBytes(index, 2) + LeBytes(1, 2), Zeros(4));
    AtSplit(file, pos, LeBytes(index, 2), LeBytes(1, 2));
    ReadLeAt(file, pos, 2, index);
    ReadLeAt(file, pos + 8, 8, size);
  }

  lemma TailParses(file: seq<Byte>, heapEnd: nat, pos: nat)
    requires pos <= heapEnd && At(file, pos, Tail(heapEnd - pos))
    ensures ReadHead(file, heapEnd, pos) == Ok(Stop)
  {
    var leftover := heapEnd - pos;
    if leftover >= 16 {
      Pow256Values();
      AtSplit(file, pos, LeBytes(0, 2) + LeBytes(0, 2) + Zeros(4) + LeBytes(leftover, 8), Zeros(leftover - 16));
      AtSplit(file, pos, LeBytes(0, 2) + LeBytes(0, 2) + Zeros(4), LeBytes(leftover, 8));
      AtSplit(file, pos, LeBytes(0, 2) + LeBytes(0, 2), Zeros(4));
      AtSplit(file, pos, LeBytes(0, 2), LeBytes(0, 2));
      ReadLeAt(file, pos, 2, 0);
    }
  }

  lemma {:induction false} NeedsPrefix(objs: seq<Obj>, i: nat)
    requires i <= |objs|
    ensures Needs(objs[..i]) <= Needs(objs)
    ensures i < |objs| ==> Needs(objs[..i + 1]) == Needs(objs[..i]) + Need(objs[i])
    ensures i < |objs| ==> Needs(objs[..i]) + Need(objs[i]) <= Needs(objs)
  {
    assert objs == objs[..i] + objs[i..];
    NeedsConcat(objs[..i], objs[i..]);
    if i < |objs| {
      assert objs[..i + 1][..i] == objs[..i];
      assert objs == objs[..i + 1] + objs[i + 1..];
      NeedsConcat(objs[..i + 1], objs[i + 1..]);
    }
  }

  /** Entry `i` is stored after the entries before it. */
  lemma {:induction false} EntryStored(file: seq<Byte>, at: nat, objs: seq<Obj>, i: nat)
    requires At(file, at, Entries(objs)) && i < |objs|
    ensures At(file, at + Needs(objs[..i]), StoredEntry(i, objs[i]))
    decreases |objs|
  {
    var n := |objs| - 1;
    AtSplit(file, at, Entries(objs[..n]), StoredEntry(n, objs[n]));
    if i < n {
      EntryStored(file, at, objs[..n], i);
      assert objs[..n][..i] == objs[..i];
    }
  }

  /** Entry `i` reads back as index i+1 with its own bytes. */
  lemma EntryParses(file: seq<Byte>, heapEnd: nat, pos: nat, i: nat, obj: Obj)
    requires At(file, pos, StoredEntry(i, obj)) && pos + Need(obj) <= heapEnd
    requires i < MAX_OBJECTS && |obj| < 0x1_0000_0000_0000_0000
    ensures ReadHead(file, heapEnd, pos) == Ok(Entry(i + 1, |obj|))
    ensures pos + 16 + |obj| <= |file| && file[pos + 16..pos + 16 + |obj|] == obj
  {
    hide EntryHead, Align8, LeBytes, ReadHead;
    var head := EntryHead(EntryIndex(i), |obj|);
    AtSplit(file, pos, head + obj, Zeros(Need(obj) - 16 - |obj|));
    AtSplit(file, pos, head, obj);
    EntryHeadParses(file, heapEnd, pos, i + 1, |obj|);
  }

  lemma {:induction false} ScanEntries(file: seq<Byte>, base: nat, heapEnd: nat, objs: seq<Obj>, i: nat)
    requires i <= |objs| <= MAX_OBJECTS && FitsFile(objs)
    requires At(file, base + 16, Entries(objs))
    requires heapEnd == base + DeclaredSize(Content(objs))
    requires At(file, base + Content(objs), Tail(heapEnd - (base + Content(objs))))
    ensures Scan(file, base, heapEnd, base + Content(objs[..i]), Indexed(objs[..i]))
         == Ok(GlobalHeap(Indexed(objs)))
    decreases |objs| - i
  {
    hide Needs, DeclaredSize, Tail, Entries, StoredEntry, ReadHead, Indexed, At;
    var pos := base + Content(objs[..i]);
    if i == |objs| {
      assert objs[..i] == objs;
      TailParses(file, heapEnd, pos);
    } else {
      var obj := objs[i];
      NeedsPrefix(objs, i);
      EntryStored(file, base + 16, objs, i);
      EntryParses(file, heapEnd, pos, i, obj);
      NextEntry(base, objs, i);
      IndexedStep(objs, i);
      ScanEntries(file, base, heapEnd, objs, i + 1);
    }
  }

  lemma IndexedStep(objs: seq<Obj>, i: nat)
    requires i < |objs|
    ensures Indexed(objs[..i + 1]) == Indexed(objs[..i])[i + 1 := objs[i]]
  {
    assert objs[..i + 1][..i] == objs[..i];
  }

  lemma NextEntry(base: nat, objs: seq<Obj>, i: nat)
    requires i < |objs|
    ensures NextObject(base, base + Content(objs[..i]) + 16 + |objs[i]|) == base + Content(objs[..i + 1])
  {
    hide Needs, Align8;
    NeedsAligned(objs[..i]);
    NeedsPrefix(objs, i);
    AlignAfter(Content(objs[..i]), 16 + |objs[i]|);
  }

  lemma AlignAfter(a: nat, n: nat)
    requires a % 8 == 0
    ensures Align8(a + n) == a + Align8(n)
  {
  }

  lemma PrefixParses(file: seq<Byte>, base: nat, declared: nat)
    requires At(file, base, Prefix(declared)) && declared < 0x1_0000_0000_0000_0000
    ensures ReadPrefix(file, base) == Ok(declared)
  {
    Pow256Values();
    var p := GCOL + [1] + Zeros(3);
    AtSplit(file, base, p, LeBytes(declared, 8));
    AtSplit(file, base, GCOL + [1], Zeros(3));
    AtSplit(file, base, GCOL, [1]);
    ReadLeAt(file, base + 8, 8, declared);
  }

  lemma EmptyContent()
    ensures Content([]) == 16
  {
  }

  /** A collection stored anywhere parses back to its objects. */
  lemma ParsesWhereStored(file: seq<Byte>, base: nat, objs: seq<Obj>)
    requires |objs| <= MAX_OBJECTS && FitsFile(objs) && At(file, base, Serialized(objs))
    ensures Parsed(file, base) == Ok(GlobalHeap(Indexed(objs)))
  {
    hide Needs, DeclaredSize, Tail, Entries, Prefix, ReadPrefix, Scan, At;
    var declared := DeclaredSize(Content(objs));
    AtSplit(file, base, Prefix(declared) + Entries(objs), Tail(declared - Content(objs)));
    AtSplit(file, base, Prefix(declared), Entries(objs));
    PrefixParses(file, base, declared);
    assert |objs[..0]| == 0;
    assert Indexed(objs[..0]) == map[];
    EmptyContent();
    ScanEntries(file, base, base + declared, objs, 0);
  }

  /** Main result: between any prefix (of any, even odd, length) and any suffix,
      the parser returns exactly the objects, exactly when there are at most
      65535 of them. */
  lemma ParseUndoesSerialize(prefix: seq<Byte>, objs: seq<Obj>, suffix: seq<Byte>)
    requires FitsFile(objs)
    ensures Parsed(prefix + Serialized(objs) + suffix, |prefix|) == Ok(GlobalHeap(Indexed(objs)))
      <==> |objs| <= MAX_OBJECTS
  {
    hide Serialized, Parsed, Indexed;
    var file := prefix + Serialized(objs) + suffix;
    if |objs| <= MAX_OBJECTS {
      AtEmbedded(prefix, Serialized(objs), suffix);
      ParsesWhereStored(file, |prefix|, objs);
    } else if Parsed(file, |prefix|) == Ok(GlobalHeap(Indexed(objs))) {
      assert |objs| in Indexed(objs);
      ParsedIndexRange(file, |prefix|);
    }
  }

  lemma ParsedIndexRange(file: seq<Byte>, base: nat)
    requires Parsed(file, base).Ok?
    ensures forall i :: i in Parsed(file, base).value.objects ==> 0 < i < 0x1_0000
  {
    IndexRange(file, base, base + ReadPrefix(file, base).value, base + 16, map[]);
  }
}
