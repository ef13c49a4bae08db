// Version-2 object headers: messages spread over a main block and continuation
// blocks, and the theorem that how they are spread does not matter.

module ObjectHeader {
  import opened Common

  const OHDR: seq<Byte> := [79, 72, 68, 82]
  const OCHK: seq<Byte> := [79, 67, 72, 75]
  const NIL: Byte := 0
  const CONTINUATION: Byte := 0x10
  const MAX_DEPTH: nat := 256

  datatype Message = Message(kind: nat, data: seq<Byte>)

  /** Messages found, and the continuation blocks expanded, in order. */
  datatype Found = Found(messages: seq<Message>, seen: seq<nat>)

  /** What one parse shares across its blocks: the image, the address of the main
      block, and whether records carry a creation order. */
  datatype Image = Image(file: seq<Byte>, first: nat, tracked: bool) {
    function HeaderSize(): (n: nat)
      ensures n == 4 || n == 6
    {
      if tracked then 6 else 4
    }

    function Kind(pos: nat): Byte
      requires pos < |file|
    {
      file[pos]
    }

    function DataEnd(pos: nat): (e: nat)
      requires pos + 4 <= |file|
      ensures e >= pos + 4
    {
      pos + HeaderSize() + LeNat(file[pos + 1..pos + 3])
    }

    /** Nothing more can be read at `pos` in an area that ends at `end`. */
    predicate Exhausted(pos: nat, end: nat, ochk: bool)
      requires end <= |file|
    {
      pos + 4 > end || DataEnd(pos) > |file| || (ochk && pos + HeaderSize() > end)
    }

    /** One record: nothing, a message, or everything in another block. */
    function Record(pos: nat, seen: seq<nat>, depth: nat): Result<Found>
      requires pos + 4 <= |file| && DataEnd(pos) <= |file| && depth <= MAX_DEPTH
      decreases MAX_DEPTH + 1 - depth, 0, 0
    {
      var start := pos + HeaderSize();
      if Kind(pos) == NIL then Ok(Found([], seen))
      else if Kind(pos) == CONTINUATION then
        if DataEnd(pos) - start >= 16 then
          Chunk(LeNat(file[start..start + 8]), LeNat(file[start + 8..start + 16]), seen, depth + 1)
        else Ok(Found([], seen))
      else Ok(Found([Message(Kind(pos), file[start..DataEnd(pos)])], seen))
    }

    /** All records from `pos` up to `end`. */
    function Scan(pos: nat, end: nat, ochk: bool, seen: seq<nat>, depth: nat): Result<Found>
      requires end <= |file| && depth <= MAX_DEPTH
      decreases MAX_DEPTH + 1 - depth, 1, if pos <= end then end - pos else 0
    {
      if Exhausted(pos, end, ochk) then Ok(Found([], seen))
      else
        var here :- Record(pos, seen, depth);
        Joined(here.messages, Scan(DataEnd(pos), end, ochk, here.seen, depth))
    }

    /** The continuation block at `addr`, unless it was expanded before. */
    function Chunk(addr: nat, length: nat, seen: seq<nat>, depth: nat): Result<Found>
      decreases if depth <= MAX_DEPTH then MAX_DEPTH + 1 - depth else 0, 2, 0
    {
      if depth > MAX_DEPTH then Err(Format)
      else if addr == first then Err(Format)
      else if addr in seen then Err(Format)
      else if Get(file, addr, addr + 4) != Some(OCHK) then Err(Format)
      else Scan(addr + 4, AreaEnd(addr, length), true, seen + [addr], depth)
    }

    /** End of a continuation block's records: its checksum is left out. */
    function AreaEnd(addr: nat, length: nat): (e: nat)
      ensures e <= |file|
    {
      var e := if addr + length < 4 then 0 else addr + length - 4;
      if e <= |file| then e else |file|
    }
  }

  function Joined(messages: seq<Message>, r: Result<Found>): Result<Found> {
    if r.Err? then r else Ok(Found(messages + r.value.messages, r.value.seen))
  }

  lemma JoinedNothing(r: Result<Found>)
    ensures Joined([], r) == r
  {
    if r.Ok? {
      assert [] + r.value.messages == r.value.messages;
    }
  }

  lemma JoinedError(messages: seq<Message>, error: Error)
    ensures Joined(messages, Err(error)) == Err(error)
  {
  }

  lemma JoinedEnd(messages: seq<Message>, seen: seq<nat>)
    ensures Joined(messages, Ok(Found([], seen))) == Ok(Found(messages, seen))
  {
    assert messages + [] == messages;
  }

  lemma ScanStep(im: Image, pos: nat, end: nat, ochk: bool, seen: seq<nat>, depth: nat)
    requires end <= |im.file| && depth <= MAX_DEPTH
    ensures im.Scan(pos, end, ochk, seen, depth) ==
      if im.Exhausted(pos, end, ochk) then Ok(Found([], seen))
      else
        var here := im.Record(pos, seen, depth);
        if here.Err? then Err(here.error)
        else Joined(here.value.messages, im.Scan(im.DataEnd(pos), end, ochk, here.value.seen, depth))
  {
  }

  lemma JoinedTwice(a: seq<Message>, b: seq<Message>, r: Result<Found>)
    ensures Joined(a, Joined(b, r)) == Joined(a + b, r)
  {
    if r.Ok? {
      assert a + (b + r.value.messages) == a + b + r.value.messages;
    }
  }

  // ------------------------------------------------------------------
  // The main block
  // ------------------------------------------------------------------

  function BitSet(flags: Byte, bit: nat): bool { flags / Pow(2, bit) % 2 == 1 }

  /** Where the size field of the main block is. */
  function SizeAt(base: nat, flags: Byte): nat {
    base + 6 + (if BitSet(flags, 5) then 16 else 0) + (if BitSet(flags, 4) then 4 else 0)
  }

  function SizeWidth(flags: Byte): nat { Pow(2, flags % 4) }

  /** Where the records of a block stand, and whether they carry a creation order. */
  datatype Area = Area(start: nat, end: nat, tracked: bool)

  /** The area of the block at `base`: a main block states its size; a block with
      the continuation signature is taken to reach to the end of the image. */
  function FirstArea(file: seq<Byte>, base: nat): (r: Result<Area>)
    ensures r.Ok? ==> r.value.end <= |file|
  {
    var signature := Get(file, base, base + 4);
    if signature == Some(OHDR) then
      if base + 4 >= |file| then Err(Format)
      else if file[base + 4] != 2 then Err(UnsupportedHeader(file[base + 4]))
      else if base + 5 >= |file| then Err(Format)
      else
        var flags := file[base + 5];
        var size :- ReadLe(file, SizeAt(base, flags), SizeWidth(flags));
        var start := SizeAt(base, flags) + SizeWidth(flags);
        Ok(Area(start, if start + size <= |file| then start + size else |file|, BitSet(flags, 2)))
    else if signature == Some(OCHK) then Ok(Area(base + 4, |file|, false))
    else Err(Format)
  }

  /** Everything the header at `base` leads to. */
  function FindV2(file: seq<Byte>, base: nat): Result<Found> {
    var area :- FirstArea(file, base);
    Image(file, base, area.tracked).Scan(area.start, area.end, false, [], 0)
  }

  /** All messages of the header at `base`. */
  function ParseV2(file: seq<Byte>, base: nat): Result<seq<Message>> {
    var found :- FindV2(file, base);
    Ok(found.messages)
  }

  // ------------------------------------------------------------------
  // The parser
  // ------------------------------------------------------------------

  ghost function AsSet(s: seq<nat>): set<nat> { set x | x in s }

  /** The message list and the set of visited blocks that the recursion shares. */
  class Parser {
    var messages: seq<Message>
    var extraSeen: set<nat>

    constructor ()
      ensures messages == [] && extraSeen == {}
    {
      messages, extraSeen := [], {};
    }

    /** The state is what `found` says, on top of the messages `before`. */
    ghost predicate Reflects(before: seq<Message>, found: Found)
      reads this
    {
      messages == before + found.messages && extraSeen == AsSet(found.seen)
    }

    method FirstBlockArea(file: seq<Byte>, base: nat) returns (r: Result<Area>)
      ensures r == FirstArea(file, base)
    {
      hide BitSet, SizeAt, SizeWidth;
      var signature := Get(file, base, base + 4);
      if signature == Some(OHDR) {
        if base + 4 >= |file| {
          return Err(Format);
        }
        var version := file[base + 4];
        if version != 2 {
          return Err(UnsupportedHeader(version));
        }
        if base + 5 >= |file| {
          return Err(Format);
        }
        var flags := file[base + 5];
        var size := ReadLe(file, SizeAt(base, flags), SizeWidth(flags));
        if size.IsFailure() {
          return size.PropagateFailure();
        }
        var start := SizeAt(base, flags) + SizeWidth(flags);
        var end := start + size.value;
        return Ok(Area(start, if end <= |file| then end else |file|, BitSet(flags, 2)));
      }
      if signature == Some(OCHK) {
        return Ok(Area(base + 4, |file|, false));
      }
      return Err(Format);
    }

    method ParseV2Block(file: seq<Byte>, base: nat) returns (r: Result<()>)
      requires messages == [] && extraSeen == {}
      modifies this
      ensures ParseV2(file, base).Ok? ==> r.Ok? && messages == ParseV2(file, base).value
      ensures ParseV2(file, base).Err? ==> r == Err(ParseV2(file, base).error)
    {
      hide Image.Record;
      var area := FirstBlockArea(file, base);
      if area.IsFailure() {
        return area.PropagateFailure();
      }
      var im := Image(file, base, area.value.tracked);
      var pos: nat, end: nat := area.value.start, area.value.end;
      ghost var all := im.Scan(pos, end, false, [], 0);
      ghost var seen: seq<nat> := [];
      JoinedNothing(all);
      hide Joined;
      while pos + 4 <= end
        invariant extraSeen == AsSet(seen)
        invariant all == Joined(messages, im.Scan(pos, end, false, seen, 0))
        decreases end - pos
      {
        if im.DataEnd(pos) > |file| {
          break;
        }
        ghost var here, before := im.Record(pos, seen, 0), messages;
        ScanStep(im, pos, end, false, seen, 0);
        var step := ReadRecord(im, pos, seen, 0);
        if step.IsFailure() {
          JoinedError(before, step.error);
          return step.PropagateFailure();
        }
        JoinedTwice(before, here.value.messages, im.Scan(im.DataEnd(pos), end, false, here.value.seen, 0));
        pos, seen := im.DataEnd(pos), here.value.seen;
      }
      ScanStep(im, pos, end, false, seen, 0);
      JoinedEnd(messages, seen);
      return Ok(());
    }

    /** One record, appended to the shared state. */
    method ReadRecord(im: Image, pos: nat, ghost seen: seq<nat>, depth: nat) returns (r: Result<()>)
      requires pos + 4 <= |im.file| && im.DataEnd(pos) <= |im.file| && depth <= MAX_DEPTH
      requires extraSeen == AsSet(seen)
      modifies this
      ensures im.Record(pos, seen, depth).Ok? ==>
        r.Ok? && Reflects(old(messages), im.Record(pos, seen, depth).value)
      ensures im.Record(pos, seen, depth).Err? ==> r == Err(im.Record(pos, seen, depth).error)
      decreases MAX_DEPTH + 1 - depth, 0
    {
      hide Image.Chunk;
      var start := pos + im.HeaderSize();
      var end := im.DataEnd(pos);
      if im.Kind(pos) == NIL {
        assert messages == old(messages) + [];
        return Ok(());
      }
      if im.Kind(pos) == CONTINUATION {
        if end - start >= 16 {
          var address := LeNat(im.file[start..start + 8]);
          var length := LeNat(im.file[start + 8..start + 16]);
          r := ParseV2OchkBlock(im, address, length, seen, depth + 1);
          return;
        }
        assert messages == old(messages) + [];
        return Ok(());
      }
      messages := messages + [Message(im.Kind(pos), im.file[start..end])];
      return Ok(());
    }

    method ParseV2OchkBlock(im: Image, addr: nat, length: nat, ghost seen: seq<nat>, depth: nat) returns (r: Result<()>)
      requires extraSeen == AsSet(seen)
      modifies this
      ensures im.Chunk(addr, length, seen, depth).Ok? ==>
        r.Ok? && Reflects(old(messages), im.Chunk(addr, length, seen, depth).value)
      ensures im.Chunk(addr, length, seen, depth).Err? ==> r == Err(im.Chunk(addr, length, seen, depth).error)
      decreases if depth <= MAX_DEPTH then MAX_DEPTH + 1 - depth else 0, 1
    {
      hide Image.Record;
      if depth > MAX_DEPTH {
        return Err(Format);
      }
      if addr == im.first {
        return Err(Format);
      }
      if addr in extraSeen {
        return Err(Format);
      }
      extraSeen := extraSeen + {addr};
      if Get(im.file, addr, addr + 4) != Some(OCHK) {
        return Err(Format);
      }
      var pos, end := addr + 4, im.AreaEnd(addr, length);
      ghost var now: seq<nat> := seen + [addr];
      ghost var all := im.Scan(pos, end, true, now, depth);
      ghost var gained: seq<Message> := [];
      JoinedNothing(all);
      hide Joined, Image.Scan, Image.Chunk;
      while pos + 4 <= end
        invariant extraSeen == AsSet(now) && messages == old(messages) + gained
        invariant all == Joined(gained, im.Scan(pos, end, true, now, depth))
        decreases end - pos
      {
        if im.DataEnd(pos) > |im.file| || pos + im.HeaderSize() > end {
          break;
        }
        ghost var here := im.Record(pos, now, depth);
        ScanStep(im, pos, end, true, now, depth);
        var step := ReadRecord(im, pos, now, depth);
        if step.IsFailure() {
          JoinedError(gained, step.error);
          return step.PropagateFailure();
        }
        JoinedTwice(gained, here.value.messages, im.Scan(im.DataEnd(pos), end, true, here.value.seen, depth));
        gained := gained + here.value.messages;
        pos, now := im.DataEnd(pos), here.value.seen;
      }
      ScanStep(im, pos, end, true, now, depth);
      JoinedEnd(gained, now);
      return Ok(());
    }
  }

  // ------------------------------------------------------------------
  // No block is expanded twice
  // ------------------------------------------------------------------

  ghost predicate Distinct(s: seq<nat>) { forall i, j :: 0 <= i < j < |s| ==> s[i] != s[j] }

  /** On every image: the blocks expanded so far stay listed, none is listed
      twice, and the main block is never among them. */
  ghost predicate Expanded(im: Image, before: seq<nat>, r: Result<Found>) {
    r.Ok? ==> before <= r.value.seen && Distinct(r.value.seen) && im.first !in r.value.seen
  }

  lemma {:induction false} ScanExpandsOnce(im: Image, pos: nat, end: nat, ochk: bool, seen: seq<nat>, depth: nat)
    requires end <= |im.file| && depth <= MAX_DEPTH && Distinct(seen) && im.first !in seen
    ensures Expanded(im, seen, im.Scan(pos, end, ochk, seen, depth))
    decreases MAX_DEPTH + 1 - depth, 1, if pos <= end then end - pos else 0
  {
    hide Image.Record;
    if !im.Exhausted(pos, end, ochk) {
      var here := im.Record(pos, seen, depth);
      RecordExpandsOnce(im, pos, seen, depth);
      if here.Ok? {
        ScanExpandsOnce(im, im.DataEnd(pos), end, ochk, here.value.seen, depth);
      }
    }
  }

  lemma {:induction false} RecordExpandsOnce(im: Image, pos: nat, seen: seq<nat>, depth: nat)
    requires pos + 4 <= |im.file| && im.DataEnd(pos) <= |im.file| && depth <= MAX_DEPTH
    requires Distinct(seen) && im.first !in seen
    ensures Expanded(im, seen, im.Record(pos, seen, depth))
    decreases MAX_DEPTH + 1 - depth, 0, 0
  {
    hide Image.Scan, Distinct;
    var start := pos + im.HeaderSize();
    if im.Kind(pos) == CONTINUATION && im.DataEnd(pos) - start >= 16 && depth < MAX_DEPTH {
      var addr, length := LeNat(im.file[start..start + 8]), LeNat(im.file[start + 8..start + 16]);
      if addr != im.first && addr !in seen {
        DistinctSnoc(seen, addr);
        ScanExpandsOnce(im, addr + 4, im.AreaEnd(addr, length), true, seen + [addr], depth + 1);
      }
    }
  }

  // ------------------------------------------------------------------
  // Layouts
  // ------------------------------------------------------------------

  /** One record of a layout.  Fillers and continuation records too short to
      point anywhere carry no message. */
  datatype Item =
    | Filler(data: seq<Byte>)
    | Short(data: seq<Byte>)
    | Plain(kind: Byte, data: seq<Byte>)
    | Spill(addr: nat, length: nat, items: seq<Item>, extra: seq<Byte>)

  /** The messages with every continuation replaced by what it points to. */
  function Expansion(items: seq<Item>): seq<Message> {
    if items == [] then [] else ItemExpansion(items[0]) + Expansion(items[1..])
  }

  function ItemExpansion(item: Item): seq<Message> {
    match item
    case Plain(kind, data) => [Message(kind, data)]
    case Spill(_, _, items, _) => Expansion(items)
    case _ => []
  }

  /** Addresses of the continuation blocks, in the order they are reached. */
  function Blocks(items: seq<Item>): seq<nat> {
    if items == [] then [] else ItemBlocks(items[0]) + Blocks(items[1..])
  }

  function ItemBlocks(item: Item): seq<nat> {
    match item
    case Spill(addr, _, items, _) => [addr] + Blocks(items)
    case _ => []
  }

  function Nesting(items: seq<Item>): nat {
    if items == [] then 0 else Max(ItemNesting(items[0]), Nesting(items[1..]))
  }

  function ItemNesting(item: Item): nat {
    match item
    case Spill(_, _, items, _) => 1 + Nesting(items)
    case _ => 0
  }

  function ItemKind(item: Item): Byte {
    match item
    case Filler(_) => NIL
    case Plain(kind, _) => kind
    case _ => CONTINUATION
  }

  function ItemData(item: Item): seq<Byte> {
    match item
    case Spill(addr, length, _, extra) => LeBytes(addr, 8) + LeBytes(length, 8) + extra
    case _ => item.data
  }

  /** What the format asks of a record's content. */
  predicate WellFormed(item: Item) {
    && |ItemData(item)| < 0x1_0000
    && (item.Plain? ==> item.kind != NIL && item.kind != CONTINUATION)
    && (item.Short? ==> |item.data| < 16)
    && (item.Spill? ==> item.addr <= U64_MAX && item.length <= U64_MAX)
  }

  function ItemSize(im: Image, item: Item): nat { im.HeaderSize() + |ItemData(item)| }

  function ItemsSize(im: Image, items: seq<Item>): nat {
    if items == [] then 0 else ItemSize(im, items[0]) + ItemsSize(im, items[1..])
  }

  /** A record of this kind and content is stored at `pos`; flags and creation
      order are unconstrained. */
  ghost predicate HasRecord(im: Image, pos: nat, item: Item) {
    && WellFormed(item)
    && pos + ItemSize(im, item) <= |im.file|
    && im.file[pos] == ItemKind(item)
    && At(im.file, pos + 1, LeBytes(|ItemData(item)|, 2))
    && At(im.file, pos + im.HeaderSize(), ItemData(item))
  }

  /** The space after the last record is read as none: it is shorter than the
      four bytes the scan asks for, or shorter than a record header in a
      continuation block, or what stands there is no message. */
  ghost predicate HarmlessGap(im: Image, pos: nat, end: nat, ochk: bool)
    requires end <= |im.file|
  {
    && pos <= end < pos + im.HeaderSize()
    && (ochk || pos + 4 > end || im.DataEnd(pos) > |im.file| || im.Kind(pos) == NIL
        || (im.Kind(pos) == CONTINUATION && im.DataEnd(pos) - pos - im.HeaderSize() < 16))
  }

  /** The records are stored from `pos` on, spilling into further blocks as the
      layout says, and end where the area does. */
  ghost predicate Stored(im: Image, pos: nat, end: nat, ochk: bool, items: seq<Item>)
    decreases items, 0
  {
    && end <= |im.file|
    && if items == [] then HarmlessGap(im, pos, end, ochk)
       else
         && pos + ItemSize(im, items[0]) <= end
         && HasRecord(im, pos, items[0])
         && SpillStored(im, items[0])
         && Stored(im, pos + ItemSize(im, items[0]), end, ochk, items[1..])
  }

  ghost predicate SpillStored(im: Image, item: Item)
    decreases item, 1
  {
    item.Spill? ==>
      && item.length >= 8 && item.addr + item.length <= |im.file|
      && At(im.file, item.addr, OCHK)
      && Stored(im, item.addr + 4, item.addr + item.length - 4, true, item.items)
  }

  // ------------------------------------------------------------------
  // Splitting does not change the meaning
  // ------------------------------------------------------------------

  /** Blocks are visited once and nested at most 256 deep. */
  ghost predicate Admissible(im: Image, seen: seq<nat>, blocks: seq<nat>, nesting: nat, depth: nat) {
    Distinct(seen + blocks) && im.first !in blocks && depth + nesting <= MAX_DEPTH
  }

  /** What parsing a layout should give. */
  ghost function Outcome(im: Image, seen: seq<nat>, messages: seq<Message>, blocks: seq<nat>, nesting: nat, depth: nat)
    : Result<Found>
  {
    if Admissible(im, seen, blocks, nesting, depth) then Ok(Found(messages, seen + blocks)) else Err(Format)
  }

  lemma DistinctPrefix(a: seq<nat>, b: seq<nat>)
    requires Distinct(a + b)
    ensures Distinct(a)
  {
    forall i, j | 0 <= i < j < |a| ensures a[i] != a[j] {
      assert (a + b)[i] != (a + b)[j];
    }
  }

  lemma DistinctSnoc(a: seq<nat>, x: nat)
    requires Distinct(a)
    ensures Distinct(a + [x]) <==> x !in a
  {
    if x in a {
      var i :| 0 <= i < |a| && a[i] == x;
      assert (a + [x])[i] == (a + [x])[|a|];
    }
  }

  lemma RecordReads(im: Image, pos: nat, item: Item)
    requires HasRecord(im, pos, item)
    ensures im.Kind(pos) == ItemKind(item)
    ensures im.DataEnd(pos) == pos + ItemSize(im, item) <= |im.file|
    ensures im.file[pos + im.HeaderSize()..im.DataEnd(pos)] == ItemData(item)
  {
    Pow256Values();
    LeRoundTrip(|ItemData(item)|, 2);
  }

  /** Joining the outcome of one record and of the rest. */
  lemma OutcomesJoin(im: Image, seen: seq<nat>, item: Item, rest: seq<Item>, depth: nat)
    requires Distinct(seen)
    ensures var all := [item] + rest;
      Outcome(im, seen, Expansion(all), Blocks(all), Nesting(all), depth)
      == var here := Outcome(im, seen, ItemExpansion(item), ItemBlocks(item), ItemNesting(item), depth);
         if here.Err? then here
         else Joined(here.value.messages,
                     Outcome(im, here.value.seen, Expansion(rest), Blocks(rest), Nesting(rest), depth))
  {
    hide Distinct;
    var all := [item] + rest;
    assert all[1..] == rest;
    assert seen + Blocks(all) == seen + ItemBlocks(item) + Blocks(rest);
    if Distinct(seen + Blocks(all)) {
      DistinctPrefix(seen + ItemBlocks(item), Blocks(rest));
    }
  }

  lemma OutcomeKeepsDistinct(im: Image, seen: seq<nat>, item: Item, depth: nat)
    ensures var here := Outcome(im, seen, ItemExpansion(item), ItemBlocks(item), ItemNesting(item), depth);
      here.Ok? ==> Distinct(here.value.seen)
  {
  }

  lemma OutcomePlain(im: Image, seen: seq<nat>, messages: seq<Message>, depth: nat)
    requires Distinct(seen) && depth <= MAX_DEPTH
    ensures Outcome(im, seen, messages, [], 0, depth) == Ok(Found(messages, seen))
  {
    assert seen + [] == seen;
  }

  lemma {:induction false} RecordParses(im: Image, pos: nat, item: Item, seen: seq<nat>, depth: nat)
    requires HasRecord(im, pos, item) && SpillStored(im, item) && Distinct(seen) && depth <= MAX_DEPTH
    ensures im.DataEnd(pos) <= |im.file|
    ensures im.Record(pos, seen, depth)
         == Outcome(im, seen, ItemExpansion(item), ItemBlocks(item), ItemNesting(item), depth)
    decreases item, 2
  {
    hide Distinct, Image.Chunk, Outcome, At, Stored;
    RecordReads(im, pos, item);
    if item.Spill? {
      SpillPointer(im, pos, item);
      ChunkParses(im, item, seen, depth + 1);
    } else {
      OutcomePlain(im, seen, ItemExpansion(item), depth);
    }
  }

  lemma SpillPointer(im: Image, pos: nat, item: Item)
    requires HasRecord(im, pos, item) && item.Spill?
    ensures im.DataEnd(pos) <= |im.file| && im.DataEnd(pos) - (pos + im.HeaderSize()) >= 16
    ensures var start := pos + im.HeaderSize();
      LeNat(im.file[start..start + 8]) == item.addr && LeNat(im.file[start + 8..start + 16]) == item.length
  {
    var start := pos + im.HeaderSize();
    RecordReads(im, pos, item);
    Pow256Values();
    LeRoundTrip(item.addr, 8);
    LeRoundTrip(item.length, 8);
    AtSplit(im.file, start, LeBytes(item.addr, 8) + LeBytes(item.length, 8), item.extra);
    AtSplit(im.file, start, LeBytes(item.addr, 8), LeBytes(item.length, 8));
  }

  lemma {:induction false} ChunkParses(im: Image, item: Item, seen: seq<nat>, depth: nat)
    requires item.Spill? && SpillStored(im, item) && Distinct(seen) && 1 <= depth <= MAX_DEPTH + 1
    ensures im.Chunk(item.addr, item.length, seen, depth)
         == Outcome(im, seen, Expansion(item.items), [item.addr] + Blocks(item.items), 1 + Nesting(item.items), depth - 1)
    decreases item, 1
  {
    hide Distinct, Image.Scan, Stored;
    var now := seen + [item.addr];
    DistinctSnoc(seen, item.addr);
    assert seen + ([item.addr] + Blocks(item.items)) == now + Blocks(item.items);
    if Distinct(now + Blocks(item.items)) {
      DistinctPrefix(now, Blocks(item.items));
    }
    if depth <= MAX_DEPTH && item.addr != im.first && item.addr !in seen {
      assert im.AreaEnd(item.addr, item.length) == item.addr + item.length - 4;
      LayoutParses(im, item.addr + 4, item.addr + item.length - 4, true, item.items, now, depth);
    }
  }

  /** Main result: scanning a stored layout gives its in-place expansion, exactly
      when no block is used twice, none is the main block, and nesting stays
      within 256. */
  lemma {:induction false} LayoutParses(im: Image, pos: nat, end: nat, ochk: bool, items: seq<Item>, seen: seq<nat>,
                                        depth: nat)
    requires Stored(im, pos, end, ochk, items) && Distinct(seen) && depth <= MAX_DEPTH
    ensures im.Scan(pos, end, ochk, seen, depth)
         == Outcome(im, seen, Expansion(items), Blocks(items), Nesting(items), depth)
    decreases items, 0
  {
    hide Distinct, Image.Record, Image.Scan, HasRecord, SpillStored, HarmlessGap, Joined, Outcome, LeNat;
    hide Expansion, Blocks, Nesting, ItemExpansion, ItemBlocks, ItemNesting, ItemData;
    if items == [] {
      GapScans(im, pos, end, ochk, seen, depth);
      OutcomePlain(im, seen, [], depth);
      NoItems();
    } else {
      var item, rest := items[0], items[1..];
      RecordReads(im, pos, item);
      ScanStep(im, pos, end, ochk, seen, depth);
      RecordParses(im, pos, item, seen, depth);
      OutcomeKeepsDistinct(im, seen, item, depth);
      OutcomesJoin(im, seen, item, rest, depth);
      assert [item] + rest == items;
      var here := im.Record(pos, seen, depth);
      if here.Ok? {
        LayoutParses(im, pos + ItemSize(im, item), end, ochk, rest, here.value.seen, depth);
      }
    }
  }

  lemma NoItems()
    ensures Expansion([]) == [] && Blocks([]) == [] && Nesting([]) == 0
  {
  }

  lemma GapScans(im: Image, pos: nat, end: nat, ochk: bool, seen: seq<nat>, depth: nat)
    requires end <= |im.file| && HarmlessGap(im, pos, end, ochk) && depth <= MAX_DEPTH
    ensures im.Scan(pos, end, ochk, seen, depth) == Ok(Found([], seen))
  {
    ScanStep(im, pos, end, ochk, seen, depth);
    if !im.Exhausted(pos, end, ochk) {
      ScanStep(im, im.DataEnd(pos), end, ochk, seen, depth);
      JoinedNothing(Ok(Found([], seen)));
    }
  }

  /** Exactly which gaps shorter than a record header go unnoticed.  Only a main
      block with creation order reads its gap as a record: there four or five
      stray bytes become a message when they look like one. */
  lemma GapUnnoticedExactlyWhenHarmless(im: Image, pos: nat, end: nat, ochk: bool, seen: seq<nat>, depth: nat)
    requires pos <= end < pos + im.HeaderSize() && end <= |im.file| && depth <= MAX_DEPTH
    requires Distinct(seen) && im.first !in seen
    ensures im.Scan(pos, end, ochk, seen, depth) == Ok(Found([], seen)) <==> HarmlessGap(im, pos, end, ochk)
  {
    hide Distinct, Image.Scan;
    if HarmlessGap(im, pos, end, ochk) {
      GapScans(im, pos, end, ochk, seen, depth);
    } else {
      ScanStep(im, pos, end, ochk, seen, depth);
      ScanStep(im, im.DataEnd(pos), end, ochk, seen, depth);
      var here := im.Record(pos, seen, depth);
      if im.Kind(pos) == CONTINUATION && here.Ok? {
        var start := pos + im.HeaderSize();
        ChunkIsListed(im, LeNat(im.file[start..start + 8]), LeNat(im.file[start + 8..start + 16]), seen, depth + 1);
        assert |here.value.seen| > |seen|;
        ScanExpandsOnce(im, im.DataEnd(pos), end, ochk, here.value.seen, depth);
      }
    }
  }

  lemma ChunkIsListed(im: Image, addr: nat, length: nat, seen: seq<nat>, depth: nat)
    requires Distinct(seen) && im.first !in seen && im.Chunk(addr, length, seen, depth).Ok?
    ensures seen + [addr] <= im.Chunk(addr, length, seen, depth).value.seen
    ensures Distinct(im.Chunk(addr, length, seen, depth).value.seen)
    ensures im.first !in im.Chunk(addr, length, seen, depth).value.seen
  {
    hide Distinct, Image.Scan;
    DistinctSnoc(seen, addr);
    ScanExpandsOnce(im, addr + 4, im.AreaEnd(addr, length), true, seen + [addr], depth);
  }

  /** The start of a header stored at `base`: flags, and a first block whose
      records take `size` bytes. */
  ghost predicate MainBlockStored(file: seq<Byte>, base: nat, flags: Byte, size: nat) {
    && At(file, base, OHDR + [2, flags])
    && size < Pow(256, SizeWidth(flags))
    && At(file, SizeAt(base, flags), LeBytes(size, SizeWidth(flags)))
    && SizeAt(base, flags) + SizeWidth(flags) + size <= |file|
  }

  lemma MainBlockOpens(file: seq<Byte>, base: nat, flags: Byte, size: nat)
    requires MainBlockStored(file, base, flags, size)
    ensures var start := SizeAt(base, flags) + SizeWidth(flags);
      FirstArea(file, base) == Ok(Area(start, start + size, BitSet(flags, 2)))
  {
    hide BitSet, SizeAt, SizeWidth, Pow;
    AtInside(file, base, OHDR + [2, flags], 0, 4);
    AtInside(file, base, OHDR + [2, flags], 4, 5);
    AtInside(file, base, OHDR + [2, flags], 5, 6);
    assert file[base + 4] == file[base + 4..base + 5][0] == 2;
    assert file[base + 5] == file[base + 5..base + 6][0] == flags;
    ReadLeAt(file, SizeAt(base, flags), SizeWidth(flags), size);
  }

  /** A header stored at `base` with these flags, layout and harmless gap. */
  ghost predicate HeaderStored(file: seq<Byte>, base: nat, flags: Byte, items: seq<Item>, gap: nat) {
    var im := Image(file, base, BitSet(flags, 2));
    var size := ItemsSize(im, items) + gap;
    var start := SizeAt(base, flags) + SizeWidth(flags);
    MainBlockStored(file, base, flags, size) && Stored(im, start, start + size, false, items)
  }

  /** From the start of the header: whatever the flags, the spread over blocks and
      the fillers, the messages are those of the expanded list. */
  lemma HeaderParses(file: seq<Byte>, base: nat, flags: Byte, items: seq<Item>, gap: nat)
    requires HeaderStored(file, base, flags, items, gap)
    ensures ParseV2(file, base)
      == if Distinct(Blocks(items)) && base !in Blocks(items) && Nesting(items) <= MAX_DEPTH
         then Ok(Expansion(items)) else Err(Format)
  {
    hide BitSet, SizeAt, SizeWidth, MainBlockStored, Stored, Image.Scan, FirstArea;
    var im := Image(file, base, BitSet(flags, 2));
    var size := ItemsSize(im, items) + gap;
    var start := SizeAt(base, flags) + SizeWidth(flags);
    MainBlockOpens(file, base, flags, size);
    LayoutParses(im, start, start + size, false, items, [], 0);
    assert [] + Blocks(items) == Blocks(items);
  }

  // ------------------------------------------------------------------
  // Gaps of any content
  // ------------------------------------------------------------------

  /** The records are stored from `pos` on and end at `gapAt`, less than a record
      header before the end of the area; what stands in that gap is free. */
  ghost predicate StoredBefore(im: Image, pos: nat, end: nat, items: seq<Item>, gapAt: nat)
    decreases items
  {
    && end <= |im.file|
    && if items == [] then pos == gapAt <= end < gapAt + im.HeaderSize()
       else
         && pos + ItemSize(im, items[0]) <= end
         && HasRecord(im, pos, items[0])
         && SpillStored(im, items[0])
         && StoredBefore(im, pos + ItemSize(im, items[0]), end, items[1..], gapAt)
  }

  /** Scanning such an area is the expansion followed by whatever the gap reads as. */
  lemma {:induction false} RecordsThenGap(im: Image, pos: nat, end: nat, items: seq<Item>, gapAt: nat,
                                          seen: seq<nat>, depth: nat)
    requires StoredBefore(im, pos, end, items, gapAt) && Distinct(seen) && depth <= MAX_DEPTH
    ensures im.Scan(pos, end, false, seen, depth)
         == var all := Outcome(im, seen, Expansion(items), Blocks(items), Nesting(items), depth);
            if all.Err? then all else Joined(all.value.messages, im.Scan(gapAt, end, false, all.value.seen, depth))
    decreases items
  {
    hide Distinct, Image.Record, Image.Scan, HasRecord, SpillStored, Joined, Outcome, LeNat;
    hide Expansion, Blocks, Nesting, ItemExpansion, ItemBlocks, ItemNesting, ItemData;
    if items == [] {
      OutcomePlain(im, seen, [], depth);
      NoItems();
      JoinedNothing(im.Scan(gapAt, end, false, seen, depth));
    } else {
      var item, rest := items[0], items[1..];
      RecordReads(im, pos, item);
      ScanStep(im, pos, end, false, seen, depth);
      RecordParses(im, pos, item, seen, depth);
      OutcomeKeepsDistinct(im, seen, item, depth);
      OutcomesJoin(im, seen, item, rest, depth);
      assert [item] + rest == items;
      var here := im.Record(pos, seen, depth);
      if here.Ok? {
        RecordsThenGap(im, pos + ItemSize(im, item), end, rest, gapAt, here.value.seen, depth);
        JoinBoth(here.value.messages, Outcome(im, here.value.seen, Expansion(rest), Blocks(rest), Nesting(rest), depth),
                 im, gapAt, end, depth);
      }
    }
  }

  lemma JoinBoth(a: seq<Message>, r: Result<Found>, im: Image, gapAt: nat, end: nat, depth: nat)
    requires end <= |im.file| && depth <= MAX_DEPTH
    ensures var all := Joined(a, r);
      Joined(a, if r.Err? then r else Joined(r.value.messages, im.Scan(gapAt, end, false, r.value.seen, depth)))
      == if all.Err? then all else Joined(all.value.messages, im.Scan(gapAt, end, false, all.value.seen, depth))
  {
    hide Image.Scan;
    if r.Ok? {
      JoinedTwice(a, r.value.messages, im.Scan(gapAt, end, false, r.value.seen, depth));
    }
  }

  /** A header stored with any gap shorter than a record header. */
  ghost predicate GappedHeader(file: seq<Byte>, base: nat, flags: Byte, items: seq<Item>, gap: nat) {
    var im := Image(file, base, BitSet(flags, 2));
    var size := ItemsSize(im, items) + gap;
    var start := SizeAt(base, flags) + SizeWidth(flags);
    && MainBlockStored(file, base, flags, size)
    && StoredBefore(im, start, start + size, items, start + ItemsSize(im, items))
    && Distinct(Blocks(items)) && base !in Blocks(items) && Nesting(items) <= MAX_DEPTH
  }

  /** The gap is read as a continuation whose block holds no message. */
  ghost predicate SilentPointer(im: Image, pos: nat, seen: seq<nat>) {
    && pos + 4 <= |im.file| && im.DataEnd(pos) <= |im.file| && im.Kind(pos) == CONTINUATION
    && im.Record(pos, seen, 0).Ok? && im.Record(pos, seen, 0).value.messages == []
  }

  /** Exactly which headers are read as laid out: the parse finds the layout's
      messages and blocks if and only if the gap is harmless; its messages alone
      also when the gap reads as a pointer to a block without any. */
  lemma HeaderReadExactlyWhenGapHarmless(file: seq<Byte>, base: nat, flags: Byte, items: seq<Item>, gap: nat)
    requires GappedHeader(file, base, flags, items, gap)
    ensures var im := Image(file, base, BitSet(flags, 2));
      var gapAt := SizeAt(base, flags) + SizeWidth(flags) + ItemsSize(im, items);
      gapAt + gap <= |file|
      && (FindV2(file, base) == Ok(Found(Expansion(items), Blocks(items))) <==> HarmlessGap(im, gapAt, gapAt + gap, false))
      && (ParseV2(file, base) == Ok(Expansion(items)) <==>
            (HarmlessGap(im, gapAt, gapAt + gap, false) || SilentPointer(im, gapAt, Blocks(items))))
  {
    hide BitSet, SizeAt, SizeWidth, GappedHeader, Image.Scan, Image.Record, FindV2, HarmlessGap, SilentPointer, Distinct;
    hide Expansion, Blocks, ItemsSize, Joined;
    var im := Image(file, base, BitSet(flags, 2));
    var gapAt := SizeAt(base, flags) + SizeWidth(flags) + ItemsSize(im, items);
    GappedHeaderScans(file, base, flags, items, gap);
    GapUnnoticedExactlyWhenHarmless(im, gapAt, gapAt + gap, false, Blocks(items), 0);
    GapReads(im, gapAt, gapAt + gap, Blocks(items));
    JoinedIsAlone(Expansion(items), Blocks(items), im.Scan(gapAt, gapAt + gap, false, Blocks(items), 0));
  }

  /** When such a pointer leads to a stored block, its silence shows in the layout:
      no message in the block or below, and no block used twice or too deep. */
  lemma PointerSilentExactlyWhen(im: Image, pos: nat, item: Item, seen: seq<nat>)
    requires item.Spill? && HasRecord(im, pos, item) && SpillStored(im, item) && Distinct(seen)
    ensures SilentPointer(im, pos, seen)
      <==> ItemExpansion(item) == [] && Admissible(im, seen, ItemBlocks(item), ItemNesting(item), 0)
  {
    hide Distinct, Image.Record, HasRecord, SpillStored, Admissible, ItemExpansion, ItemBlocks, ItemNesting, LeNat;
    RecordReads(im, pos, item);
    RecordParses(im, pos, item, seen, 0);
  }

  lemma GappedHeaderScans(file: seq<Byte>, base: nat, flags: Byte, items: seq<Item>, gap: nat)
    requires GappedHeader(file, base, flags, items, gap)
    ensures var im := Image(file, base, BitSet(flags, 2));
      var gapAt := SizeAt(base, flags) + SizeWidth(flags) + ItemsSize(im, items);
      gapAt + gap <= |file| && gap < im.HeaderSize() && Distinct(Blocks(items)) && base !in Blocks(items)
      && FindV2(file, base) == Joined(Expansion(items), im.Scan(gapAt, gapAt + gap, false, Blocks(items), 0))
  {
    hide BitSet, SizeAt, SizeWidth, MainBlockStored, Image.Scan, FirstArea, Distinct, StoredBefore;
    hide Expansion, Blocks, Nesting, ItemsSize;
    var im := Image(file, base, BitSet(flags, 2));
    var size := ItemsSize(im, items) + gap;
    var start := SizeAt(base, flags) + SizeWidth(flags);
    var gapAt := start + ItemsSize(im, items);
    MainBlockOpens(file, base, flags, size);
    GapStands(im, start, start + size, items, gapAt);
    NothingSeen(im);
    RecordsThenGap(im, start, start + size, items, gapAt, [], 0);
    assert [] + Blocks(items) == Blocks(items);
  }

  lemma {:induction false} GapStands(im: Image, pos: nat, end: nat, items: seq<Item>, gapAt: nat)
    requires StoredBefore(im, pos, end, items, gapAt)
    ensures gapAt <= end < gapAt + im.HeaderSize() && end <= |im.file|
    decreases items
  {
    hide HasRecord, SpillStored;
    if items != [] {
      GapStands(im, pos + ItemSize(im, items[0]), end, items[1..], gapAt);
    }
  }

  lemma NothingSeen(im: Image)
    ensures Distinct([]) && im.first !in []
  {
  }

  /** The messages of a gap: none, or those of the one record it reads as. */
  lemma GapReads(im: Image, pos: nat, end: nat, seen: seq<nat>)
    requires pos <= end < pos + im.HeaderSize() && end <= |im.file|
    ensures (im.Scan(pos, end, false, seen, 0).Ok? && im.Scan(pos, end, false, seen, 0).value.messages == [])
      <==> (HarmlessGap(im, pos, end, false) || SilentPointer(im, pos, seen))
  {
    hide Image.Scan, Image.Chunk;
    ScanStep(im, pos, end, false, seen, 0);
    if HarmlessGap(im, pos, end, false) {
      GapScans(im, pos, end, false, seen, 0);
    } else {
      var here := im.Record(pos, seen, 0);
      if here.Ok? {
        ScanStep(im, im.DataEnd(pos), end, false, here.value.seen, 0);
        JoinedEnd(here.value.messages, here.value.seen);
      }
    }
  }

  lemma JoinedIsAlone(messages: seq<Message>, seen: seq<nat>, r: Result<Found>)
    ensures Joined(messages, r) == Ok(Found(messages, seen)) <==> r == Ok(Found([], seen))
    ensures (Joined(messages, r).Ok? && Joined(messages, r).value.messages == messages)
      <==> (r.Ok? && r.value.messages == [])
  {
    if r.Ok? {
      assert |messages + r.value.messages| == |messages| + |r.value.messages|;
      assert messages + [] == messages;
    }
  }

  /** A header without records whose gap, 1, 0, 0, 0 before the checksum, is read
      as an empty message of kind 1. */
  lemma StrayMessage()
    ensures var file := OHDR + [2, 4, 4] + [1, 0, 0, 0] + Zeros(4);
      GappedHeader(file, 0, 4, [], 4) && ParseV2(file, 0) == Ok([Message(1, [])])
  {
    var file := OHDR + [2, 4, 4] + [1, 0, 0, 0] + Zeros(4);
    var im := Image(file, 0, true);
    FlagsFour();
    StrayFields(file);
    MainBlockOpens(file, 0, 4, 4);
    NoItems();
    assert im.file[8..10] == [0, 0];
    TwoZeros();
    ScanStep(im, 7, 11, false, [], 0);
    ScanStep(im, 13, 11, false, [], 0);
    JoinedEnd([Message(1, [])], []);
    assert file[13..13] == [];
    hide Image.Scan;
    assert FindV2(file, 0) == Ok(Found([Message(1, [])], []));
  }

  lemma FlagsFour()
    ensures BitSet(4, 2) && SizeAt(0, 4) == 6 && SizeWidth(4) == 1
  {
    assert Pow(2, 2) == 4 && Pow(2, 3) == 8 && Pow(2, 4) == 16 && Pow(2, 5) == 32;
  }

  lemma StrayFields(file: seq<Byte>)
    requires file == OHDR + [2, 4, 4] + [1, 0, 0, 0] + Zeros(4)
    ensures MainBlockStored(file, 0, 4, 4)
  {
    FlagsFour();
    Pow256Values();
    hide Pow;
    assert LeBytes(4, 1) == [4] + LeBytes(0, 0);
    assert file[0..6] == OHDR + [2, 4];
    assert file[6..7] == [4];
  }

  lemma TwoZeros()
    ensures LeNat([0, 0]) == 0
  {
    assert [0, 0][1..] == [0] && |[0][1..]| == 0;
    assert LeNat([0]) == 0;
  }

  /** Two headers with the same expansion parse alike, however they are split. */
  lemma SplittingIsInvisible(file: seq<Byte>, base: nat, flags: Byte, items: seq<Item>, gap: nat,
                             file': seq<Byte>, base': nat, flags': Byte, items': seq<Item>, gap': nat)
    requires HeaderStored(file, base, flags, items, gap) && HeaderStored(file', base', flags', items', gap')
    requires Distinct(Blocks(items)) && base !in Blocks(items) && Nesting(items) <= MAX_DEPTH
    requires Distinct(Blocks(items')) && base' !in Blocks(items') && Nesting(items') <= MAX_DEPTH
    requires Expansion(items) == Expansion(items')
    ensures ParseV2(file, base) == ParseV2(file', base')
  {
    hide HeaderStored, ParseV2;
    HeaderParses(file, base, flags, items, gap);
    HeaderParses(file', base', flags', items', gap');
  }
}
