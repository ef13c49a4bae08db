// Reading a global heap collection: a parser whose objects are aligned to
// 8 bytes relative to the collection, wherever it sits in the file.

module GlobalHeap {
  import opened Common

  const GCOL: seq<Byte> := [0x47, 0x43, 0x4F, 0x4C]

  datatype GlobalHeap = GlobalHeap(objects: map<nat, seq<Byte>>) {
    function Object(index: nat): Result<seq<Byte>> {
      if index in objects then Ok(objects[index]) else Err(Format)
    }
  }

  /** Where the object after the one ending at `dataEnd` starts. */
  function NextObject(base: nat, dataEnd: nat): (r: nat)
    requires base <= dataEnd
    ensures r >= dataEnd
  {
    base + Align8(dataEnd - base)
  }

  /** One object header at `pos`: its index, and its size when the index is real. */
  datatype Head = Stop | Entry(index: nat, size: nat)

  function ReadHead(file: seq<Byte>, heapEnd: nat, pos: nat): Result<Head> {
    if pos + 16 > heapEnd || pos >= |file| then Ok(Stop)
    else
      var index :- ReadLe(file, pos, 2);
      if index == 0 then Ok(Stop)
      else
        var size :- ReadLe(file, pos + 8, 8);
        Ok(Entry(index, size))
  }

  /** The objects found from `pos` on, added to those found before. */
  function Scan(file: seq<Byte>, base: nat, heapEnd: nat, pos: nat, objects: map<nat, seq<Byte>>): Result<GlobalHeap>
    requires base <= pos
    decreases |file| - pos
  {
    var head :- ReadHead(file, heapEnd, pos);
    match head
    case Stop => Ok(GlobalHeap(objects))
    case Entry(index, size) =>
      var dataEnd := pos + 16 + size;
      if dataEnd > |file| then Err(Format)
      else Scan(file, base, heapEnd, NextObject(base, dataEnd), objects[index := file[pos + 16..dataEnd]])
  }

  /** Signature, version and size checks; yields the collection's size. */
  function ReadPrefix(file: seq<Byte>, base: nat): Result<nat> {
    if Get(file, base, base + 4).None? then Err(Format)
    else if file[base..base + 4] != GCOL then Err(Format)
    else if base + 4 >= |file| then Err(Format)
    else if file[base + 4] != 1 then Err(Format)
    else ReadLe(file, base + 8, 8)
  }

  function Parsed(file: seq<Byte>, base: nat): Result<GlobalHeap> {
    var size :- ReadPrefix(file, base);
    Scan(file, base, base + size, base + 16, map[])
  }

  method Parse(file: seq<Byte>, base: nat) returns (r: Result<GlobalHeap>)
    ensures r == Parsed(file, base)
  {
    hide ReadHead, ReadPrefix;
    var prefix := ReadPrefix(file, base);
    if prefix.IsFailure() {
      return prefix.PropagateFailure();
    }
    var heapEnd := base + prefix.Extract();
    var pos := base + 16;
    var objects: map<nat, seq<Byte>> := map[];
    while true
      invariant base <= pos
      invariant Scan(file, base, heapEnd, pos, objects) == Parsed(file, base)
      decreases |file| - pos
    {
      var head := ReadHead(file, heapEnd, pos);
      if head.IsFailure() {
        return head.PropagateFailure();
      }
      match head.Extract() {
        case Stop => return Ok(GlobalHeap(objects));
        case Entry(index, size) =>
          var dataEnd := pos + 16 + size;
          if dataEnd > |file| {
            return Err(Format);
          }
          objects := objects[index := file[pos + 16..dataEnd]];
          pos := NextObject(base, dataEnd);
      }
    }
  }

  /** Object indices are non-zero 16-bit numbers. */
  lemma {:induction false} IndexRange(file: seq<Byte>, base: nat, heapEnd: nat, pos: nat, objects: map<nat, seq<Byte>>)
    requires base <= pos && Scan(file, base, heapEnd, pos, objects).Ok?
    requires forall i :: i in objects ==> 0 < i < 0x1_0000
    ensures forall i :: i in Scan(file, base, heapEnd, pos, objects).value.objects ==> 0 < i < 0x1_0000
    decreases |file| - pos
  {
    var head := ReadHead(file, heapEnd, pos).value;
    if head.Entry? {
      LeBound(file[pos..pos + 2]);
      Pow256Values();
      var dataEnd := pos + 16 + head.size;
      IndexRange(file, base, heapEnd, NextObject(base, dataEnd), objects[head.index := file[pos + 16..dataEnd]]);
    }
  }
}
