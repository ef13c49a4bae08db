// Version-1 object headers: blocks of 8-byte-padded messages whose
// continuations are followed through a work list, and the choice of version.

module ObjectHeaderV1 {
  import opened Common
  import ObjectHeader

  type Message = ObjectHeader.Message

  const NIL: nat := 0
  const CONTINUATION: nat := 0x10
  const MAX_CONTINUATIONS: nat := 256

  /** A continuation block: where it starts and how long it is. */
  datatype Extent = Extent(start: nat, length: nat)

  /** Messages of one block, and the continuations it names, in order. */
  datatype Block = Block(messages: seq<Message>, continuations: seq<Extent>)

  // ------------------------------------------------------------------
  // Reading
  // ------------------------------------------------------------------

  function BodyEnd(file: seq<Byte>, pos: nat): (e: nat)
    requires pos + 8 <= |file|
    ensures e >= pos + 8
  {
    pos + 8 + LeNat(file[pos + 2..pos + 4])
  }

  function NextMessage(file: seq<Byte>, pos: nat): (e: nat)
    requires pos + 8 <= |file|
    ensures e >= BodyEnd(file, pos)
  {
    pos + 8 + Align8(LeNat(file[pos + 2..pos + 4]))
  }

  /** What one message contributes. */
  function Contribution(file: seq<Byte>, pos: nat): Block
    requires pos + 8 <= |file| && BodyEnd(file, pos) <= |file|
  {
    var kind, body, end := LeNat(file[pos..pos + 2]), pos + 8, BodyEnd(file, pos);
    if kind == NIL then Block([], [])
    else if kind == CONTINUATION then
      if end - body >= 16 then Block([], [Extent(LeNat(file[body..body + 8]), LeNat(file[body + 8..body + 16]))])
      else Block([], [])
    else Block([ObjectHeader.Message(kind, file[body..end])], [])
  }

  function Scan(file: seq<Byte>, pos: nat, end: nat): Result<Block>
    requires end <= |file|
    decreases if pos <= end then end - pos else 0
  {
    if pos + 8 > end then Ok(Block([], []))
    else if BodyEnd(file, pos) > |file| then Err(Format)
    else
      var here := Contribution(file, pos);
      var rest :- Scan(file, NextMessage(file, pos), end);
      Ok(Block(here.messages + rest.messages, here.continuations + rest.continuations))
  }

  function ScanBlock(file: seq<Byte>, extent: Extent): Result<Block> {
    if extent.start + extent.length > |file| then Err(Format)
    else Scan(file, extent.start, extent.start + extent.length)
  }

  /** Messages of the queued blocks from number `i` on; blocks found on the way
      join the end of the queue. */
  function Follow(file: seq<Byte>, queue: seq<Extent>, i: nat): Result<seq<Message>>
    requires i <= MAX_CONTINUATIONS
    decreases MAX_CONTINUATIONS + 1 - i
  {
    if i >= |queue| then Ok([])
    else
      var block :- ScanBlock(file, queue[i]);
      if i + 1 > MAX_CONTINUATIONS then Err(Format)
      else
        var rest :- Follow(file, queue + block.continuations, i + 1);
        Ok(block.messages + rest)
  }

  function ParseV1(file: seq<Byte>, base: nat): Result<seq<Message>> {
    if base + 16 > |file| then Err(Format)
    else if file[base] != 1 then Err(UnsupportedHeader(file[base]))
    else
      var main :- ScanBlock(file, Extent(base + 16, LeNat(file[base + 8..base + 12])));
      var rest :- Follow(file, main.continuations, 0);
      Ok(main.messages + rest)
  }

  /** The version is chosen by the signature. */
  function ParseMessages(file: seq<Byte>, base: nat): Result<seq<Message>> {
    if Get(file, base, base + 4) == Some(ObjectHeader.OHDR) then ObjectHeader.ParseV2(file, base)
    else ParseV1(file, base)
  }

  // ------------------------------------------------------------------
  // The parser
  // ------------------------------------------------------------------

  /** The two vectors that grow while blocks are read. */
  class Parser {
    var messages: seq<Message>
    var continuations: seq<Extent>

    constructor ()
      ensures messages == [] && continuations == []
    {
      messages, continuations := [], [];
    }

    method ParseV1MessageBlock(file: seq<Byte>, extent: Extent) returns (r: Result<()>)
      modifies this
      ensures ScanBlock(file, extent).Ok? ==>
        (r.Ok? && messages == old(messages) + ScanBlock(file, extent).value.messages
         && continuations == old(continuations) + ScanBlock(file, extent).value.continuations)
      ensures ScanBlock(file, extent).Err? ==> r == Err(ScanBlock(file, extent).error)
    {
      hide Contribution;
      var end := extent.start + extent.length;
      if end > |file| {
        return Err(Format);
      }
      var pos := extent.start;
      ghost var all := Scan(file, pos, end);
      ghost var done := Block([], []);
      ScanFrom(done, all);
      while pos + 8 <= end
        invariant messages == old(messages) + done.messages
        invariant continuations == old(continuations) + done.continuations
        invariant all == After(done, Scan(file, pos, end))
        decreases end - pos
      {
        var size := LeNat(file[pos + 2..pos + 4]);
        if pos + 8 + size > |file| {
          return Err(Format);
        }
        ghost var here, rest := Contribution(file, pos), Scan(file, NextMessage(file, pos), end);
        AfterStep(done, here, rest);
        ReadMessage(file, pos);
        done := Block(done.messages + here.messages, done.continuations + here.continuations);
        pos := pos + 8 + Align8(size);
      }
      return Ok(());
    }

    method ReadMessage(file: seq<Byte>, pos: nat)
      requires pos + 8 <= |file| && BodyEnd(file, pos) <= |file|
      modifies this
      ensures messages == old(messages) + Contribution(file, pos).messages
      ensures continuations == old(continuations) + Contribution(file, pos).continuations
    {
      var kind, body, end := LeNat(file[pos..pos + 2]), pos + 8, BodyEnd(file, pos);
      if kind == NIL {
      } else if kind == CONTINUATION {
        if end - body >= 16 {
          var start := LeNat(file[body..body + 8]);
          var length := LeNat(file[body + 8..body + 16]);
          continuations := continuations + [Extent(start, length)];
        }
      } else {
        messages := messages + [ObjectHeader.Message(kind, file[body..end])];
      }
    }

    method ParseMessagesV1(file: seq<Byte>, base: nat) returns (r: Result<seq<Message>>)
      requires messages == [] && continuations == []
      modifies this
      ensures r == ParseV1(file, base)
    {
      hide ScanBlock, LeNat, Follow, Join;
      if base + 16 > |file| {
        return Err(Format);
      }
      var version := file[base];
      if version != 1 {
        return Err(UnsupportedHeader(version));
      }
      var headerDataSize := LeNat(file[base + 8..base + 12]);
      MainThenQueue(file, base);
      var main := ParseV1MessageBlock(file, Extent(base + 16, headerDataSize));
      if main.IsFailure() {
        return main.PropagateFailure();
      }
      assert messages == ScanBlock(file, Extent(base + 16, headerDataSize)).value.messages;
      assert continuations == ScanBlock(file, Extent(base + 16, headerDataSize)).value.continuations;
      var i: nat := 0;
      while i < |continuations|
        invariant i <= MAX_CONTINUATIONS
        invariant ParseV1(file, base) == Join(messages, Follow(file, continuations, i))
        decreases MAX_CONTINUATIONS + 1 - i
      {
        ghost var block, before := ScanBlock(file, continuations[i]), messages;
        FollowStep(file, continuations, i);
        var next := ParseV1MessageBlock(file, continuations[i]);
        if next.IsFailure() {
          JoinError(before, next.error);
          return next.PropagateFailure();
        }
        i := i + 1;
        if i > 256 {
          JoinError(before, Format);
          return Err(Format);
        }
        JoinStep(before, block.value.messages, Follow(file, continuations, i));
      }
      FollowStep(file, continuations, i);
      JoinEnd(messages);
      return Ok(messages);
    }
  }

  method ParseObjectHeader(file: seq<Byte>, base: nat) returns (r: Result<seq<Message>>)
    ensures r == ParseMessages(file, base)
  {
    if Get(file, base, base + 4) == Some(ObjectHeader.OHDR) {
      var parser := new ObjectHeader.Parser();
      var done := parser.ParseV2Block(file, base);
      if done.IsFailure() {
        return done.PropagateFailure();
      }
      return Ok(parser.messages);
    }
    var parser := new Parser();
    r := parser.ParseMessagesV1(file, base);
  }

  ghost function After(done: Block, r: Result<Block>): Result<Block> {
    if r.Err? then r
    else Ok(Block(done.messages + r.value.messages, done.continuations + r.value.continuations))
  }

  lemma ScanFrom(done: Block, r: Result<Block>)
    requires done == Block([], [])
    ensures After(done, r) == r
  {
    if r.Ok? {
      assert [] + r.value.messages == r.value.messages && [] + r.value.continuations == r.value.continuations;
    }
  }

  lemma AfterStep(done: Block, here: Block, r: Result<Block>)
    ensures After(done, After(here, r))
         == After(Block(done.messages + here.messages, done.continuations + here.continuations), r)
  {
    if r.Ok? {
      assert done.messages + (here.messages + r.value.messages) == done.messages + here.messages + r.value.messages;
      assert done.continuations + (here.continuations + r.value.continuations)
          == done.continuations + here.continuations + r.value.continuations;
    }
  }

  ghost function Join(messages: seq<Message>, r: Result<seq<Message>>): Result<seq<Message>> {
    if r.Err? then r else Ok(messages + r.value)
  }

  lemma JoinError(messages: seq<Message>, error: Error)
    ensures Join(messages, Err(error)) == Err(error)
  {
  }

  lemma JoinEnd(messages: seq<Message>)
    ensures Join(messages, Ok([])) == Ok(messages)
  {
    assert messages + [] == messages;
  }

  /** The main block, then whatever it queues. */
  lemma MainThenQueue(file: seq<Byte>, base: nat)
    requires base + 16 <= |file| && file[base] == 1
    ensures var main := ScanBlock(file, Extent(base + 16, LeNat(file[base + 8..base + 12])));
      ParseV1(file, base)
      == if main.Err? then Err(main.error) else Join(main.value.messages, Follow(file, main.value.continuations, 0))
  {
    hide ScanBlock, LeNat, Follow;
  }

  lemma FollowStep(file: seq<Byte>, queue: seq<Extent>, i: nat)
    requires i <= MAX_CONTINUATIONS
    ensures Follow(file, queue, i) ==
      if i >= |queue| then Ok([])
      else
        var block := ScanBlock(file, queue[i]);
        if block.Err? then Err(block.error)
        else if i + 1 > MAX_CONTINUATIONS then Err(Format)
        else Join(block.value.messages, Follow(file, queue + block.value.continuations, i + 1))
  {
    hide ScanBlock;
  }

  lemma JoinStep(a: seq<Message>, b: seq<Message>, r: Result<seq<Message>>)
    ensures Join(a, Join(b, r)) == Join(a + b, r)
  {
    if r.Ok? {
      assert a + (b + r.value) == a + b + r.value;
    }
  }

  // ------------------------------------------------------------------
  // Layouts
  // ------------------------------------------------------------------

  datatype Item =
    | Filler(data: seq<Byte>)
    | Short(data: seq<Byte>)
    | Plain(kind: nat, data: seq<Byte>)
    | Pointer(to: Extent, extra: seq<Byte>)

  /** One block of a layout: where it is and what it holds. */
  datatype Part = Part(extent: Extent, items: seq<Item>)

  function ItemKind(item: Item): nat {
    match item
    case Filler(_) => NIL
    case Plain(kind, _) => kind
    case _ => CONTINUATION
  }

  function ItemData(item: Item): seq<Byte> {
    match item
    case Pointer(to, extra) => LeBytes(to.start, 8) + LeBytes(to.length, 8) + extra
    case _ => item.data
  }

  function ItemMessages(item: Item): seq<Message> {
    if item.Plain? then [ObjectHeader.Message(item.kind, item.data)] else []
  }

  function ItemPointers(item: Item): seq<Extent> { if item.Pointer? then [item.to] else [] }

  function Messages(items: seq<Item>): seq<Message> {
    if items == [] then [] else ItemMessages(items[0]) + Messages(items[1..])
  }

  function Pointers(items: seq<Item>): seq<Extent> {
    if items == [] then [] else ItemPointers(items[0]) + Pointers(items[1..])
  }

  predicate WellFormed(item: Item) {
    && |ItemData(item)| < 0x1_0000
    && (item.Plain? ==> item.kind < 0x1_0000 && item.kind != NIL && item.kind != CONTINUATION)
    && (item.Short? ==> |item.data| < 16)
    && (item.Pointer? ==> item.to.start <= U64_MAX && item.to.length <= U64_MAX)
  }

  /** A message header and body at `pos`; flags, reserved bytes and padding are
      unconstrained. */
  ghost predicate HasMessage(file: seq<Byte>, pos: nat, item: Item) {
    && WellFormed(item)
    && pos + 8 + |ItemData(item)| <= |file|
    && At(file, pos, LeBytes(ItemKind(item), 2) + LeBytes(|ItemData(item)|, 2))
    && At(file, pos + 8, ItemData(item))
  }

  /** Items stored one after another, each padded to 8 bytes, up to an end that
      leaves no room for another header. */
  ghost predicate Stored(file: seq<Byte>, pos: nat, end: nat, items: seq<Item>)
    decreases items
  {
    if items == [] then pos + 8 > end
    else
      && pos + 8 <= end
      && HasMessage(file, pos, items[0])
      && Stored(file, pos + 8 + Align8(|ItemData(items[0])|), end, items[1..])
  }

  ghost predicate PartStored(file: seq<Byte>, part: Part) {
    && part.extent.start + part.extent.length <= |file|
    && Stored(file, part.extent.start, part.extent.start + part.extent.length, part.items)
  }

  lemma MessageReads(file: seq<Byte>, pos: nat, item: Item)
    requires HasMessage(file, pos, item)
    ensures BodyEnd(file, pos) == pos + 8 + |ItemData(item)| <= |file|
    ensures NextMessage(file, pos) == pos + 8 + Align8(|ItemData(item)|)
    ensures Contribution(file, pos) == Block(ItemMessages(item), ItemPointers(item))
  {
    Pow256Values();
    var data := ItemData(item);
    AtSplit(file, pos, LeBytes(ItemKind(item), 2), LeBytes(|data|, 2));
    LeRoundTrip(ItemKind(item), 2);
    LeRoundTrip(|data|, 2);
    assert file[pos + 8..BodyEnd(file, pos)] == data;
    if item.Pointer? {
      AtSplit(file, pos + 8, LeBytes(item.to.start, 8) + LeBytes(item.to.length, 8), item.extra);
      AtSplit(file, pos + 8, LeBytes(item.to.start, 8), LeBytes(item.to.length, 8));
      LeRoundTrip(item.to.start, 8);
      LeRoundTrip(item.to.length, 8);
    }
  }

  lemma {:induction false} BlockParses(file: seq<Byte>, pos: nat, end: nat, items: seq<Item>)
    requires end <= |file| && Stored(file, pos, end, items)
    ensures Scan(file, pos, end) == Ok(Block(Messages(items), Pointers(items)))
    decreases items
  {
    hide HasMessage, Contribution, BodyEnd, NextMessage;
    if items != [] {
      MessageReads(file, pos, items[0]);
      BlockParses(file, pos + 8 + Align8(|ItemData(items[0])|), end, items[1..]);
    }
  }

  function AllMessages(parts: seq<Part>): seq<Message> {
    if parts == [] then [] else AllMessages(parts[..|parts| - 1]) + Messages(parts[|parts| - 1].items)
  }

  function AllPointers(parts: seq<Part>): seq<Extent> {
    if parts == [] then [] else AllPointers(parts[..|parts| - 1]) + Pointers(parts[|parts| - 1].items)
  }

  /** The blocks in the order their pointers are met: the k-th pointer found in
      all blocks names block k + 1, and stands in a block before it. */
  ghost predicate Chained(parts: seq<Part>) {
    && |parts| >= 1
    && |AllPointers(parts)| == |parts| - 1
    && (forall k :: 0 <= k < |parts| - 1 ==> AllPointers(parts)[k] == parts[k + 1].extent)
    && (forall k :: 1 <= k < |parts| ==> |AllPointers(parts[..k])| >= k)
  }

  lemma {:induction false} PointersPrefix(parts: seq<Part>, k: nat)
    requires k <= |parts|
    ensures AllPointers(parts[..k]) <= AllPointers(parts)
    decreases |parts|
  {
    if k < |parts| {
      var n := |parts| - 1;
      PointersPrefix(parts[..n], k);
      assert parts[..n][..k] == parts[..k];
    } else {
      assert parts[..k] == parts;
    }
  }

  lemma NextPart(parts: seq<Part>, k: nat)
    requires k < |parts|
    ensures AllPointers(parts[..k + 1]) == AllPointers(parts[..k]) + Pointers(parts[k].items)
    ensures AllMessages(parts[..k + 1]) == AllMessages(parts[..k]) + Messages(parts[k].items)
  {
    assert parts[..k + 1][..k] == parts[..k];
  }

  /** Following the queue from its i-th entry yields the blocks after i. */
  lemma {:induction false} FollowsChain(file: seq<Byte>, parts: seq<Part>, i: nat)
    requires Chained(parts) && i <= MAX_CONTINUATIONS && i < |parts|
    requires forall k :: 0 <= k < |parts| ==> PartStored(file, parts[k])
    ensures Join(AllMessages(parts[..i + 1]), Follow(file, AllPointers(parts[..i + 1]), i))
         == if |parts| - 1 <= MAX_CONTINUATIONS then Ok(AllMessages(parts)) else Err(Format)
    decreases MAX_CONTINUATIONS + 1 - i
  {
    hide PartStored, AllPointers, AllMessages, ScanBlock;
    var queue := AllPointers(parts[..i + 1]);
    PointersPrefix(parts, i + 1);
    if i == |parts| - 1 {
      assert parts[..i + 1] == parts;
      assert AllMessages(parts) + [] == AllMessages(parts);
    } else {
      assert |queue| >= i + 1;
      var next := parts[i + 1];
      assert queue[i] == next.extent;
      PartParses(file, next);
      NextPart(parts, i + 1);
      if i + 1 <= MAX_CONTINUATIONS {
        FollowsChain(file, parts, i + 1);
        JoinStep(AllMessages(parts[..i + 1]), Messages(next.items), Follow(file, AllPointers(parts[..i + 2]), i + 1));
      }
    }
  }

  lemma PartParses(file: seq<Byte>, part: Part)
    requires PartStored(file, part)
    ensures ScanBlock(file, part.extent) == Ok(Block(Messages(part.items), Pointers(part.items)))
  {
    hide Scan, Stored, Messages, Pointers;
    BlockParses(file, part.extent.start, part.extent.start + part.extent.length, part.items);
  }

  /** Main result for version 1: a header whose blocks name each other in reading
      order yields the messages block by block, exactly when at most 256
      continuation blocks are involved. */
  lemma HeaderV1Parses(file: seq<Byte>, base: nat, parts: seq<Part>)
    requires Chained(parts) && forall k :: 0 <= k < |parts| ==> PartStored(file, parts[k])
    requires base + 16 <= |file| && file[base] == 1
    requires parts[0].extent == Extent(base + 16, LeNat(file[base + 8..base + 12]))
    ensures ParseMessages(file, base)
         == if |parts| - 1 <= MAX_CONTINUATIONS then Ok(AllMessages(parts)) else Err(Format)
  {
    hide PartStored, ScanBlock, Follow, AllPointers, AllMessages, Messages, Pointers, ParseMessages, LeNat;
    PartParses(file, parts[0]);
    VersionOne(file, base, Block(Messages(parts[0].items), Pointers(parts[0].items)));
    FirstPart(parts);
    FollowsChain(file, parts, 0);
  }

  /** The common entry point on a version-1 header: its first block, then the
      blocks its continuations queue up. */
  lemma VersionOne(file: seq<Byte>, base: nat, main: Block)
    requires base + 16 <= |file| && file[base] == 1
    requires ScanBlock(file, Extent(base + 16, LeNat(file[base + 8..base + 12]))) == Ok(main)
    ensures ParseMessages(file, base) == Join(main.messages, Follow(file, main.continuations, 0))
  {
    hide ScanBlock, Follow, LeNat, ObjectHeader.ParseV2;
    assert file[base..base + 4][0] == 1;
  }

  lemma FirstPart(parts: seq<Part>)
    requires |parts| >= 1
    ensures AllPointers(parts[..1]) == Pointers(parts[0].items)
    ensures AllMessages(parts[..1]) == Messages(parts[0].items)
  {
    NextPart(parts, 0);
    assert |parts[..0]| == 0;
  }

  /** The version-2 result from the common entry point. */
  lemma HeaderV2Parses(file: seq<Byte>, base: nat, flags: Byte, items: seq<ObjectHeader.Item>, gap: nat)
    requires ObjectHeader.HeaderStored(file, base, flags, items, gap)
    ensures ParseMessages(file, base)
      == if ObjectHeader.Distinct(ObjectHeader.Blocks(items)) && base !in ObjectHeader.Blocks(items)
            && ObjectHeader.Nesting(items) <= ObjectHeader.MAX_DEPTH
         then Ok(ObjectHeader.Expansion(items)) else Err(Format)
  {
    hide ObjectHeader.ParseV2, ObjectHeader.Stored;
    ObjectHeader.HeaderParses(file, base, flags, items, gap);
    AtSplit(file, base, ObjectHeader.OHDR, [2, flags]);
  }
}
