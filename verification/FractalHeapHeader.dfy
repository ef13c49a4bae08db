// The fractal heap header and the read of an object from its root, and the
// theorem that says on which heaps that read always ends.

module FractalHeapHeader {
  import opened Common
  import opened Powers
  import opened FractalHeap
  import opened Filters

  const FRHP: seq<Byte> := [70, 82, 72, 80]

  /** What the header parser takes from elsewhere: the compressor and the parser
      of the filter pipeline message. */
  datatype Decoders = Decoders(codec: Codec, pipeline: seq<Byte> -> Result<seq<FilterInfo>>)

  /** A root direct block that is stored filtered. */
  datatype RootFilter = RootFilter(size: nat, mask: nat, pipeline: seq<FilterInfo>)

  datatype Header = Header(heap: Heap, root: nat, currentRows: nat, filter: Option<RootFilter>)

  /** The filter block after the fixed fields, present when its length is not 0. */
  function ParseRootFilter(dec: Decoders, file: seq<Byte>, base: nat, length: nat): Result<Option<RootFilter>> {
    if length == 0 then Ok(None)
    else
      var size :- ReadLe(file, base + 142, 8);
      var mask :- ReadLe(file, base + 150, 4);
      match Get(file, base + 154, base + 154 + length)
      case None => Err(Format)
      case Some(message) =>
        var pipeline :- dec.pipeline(message);
        Ok(Some(RootFilter(size, mask, pipeline)))
  }

  function ParseHeader(dec: Decoders, file: seq<Byte>, base: nat, offsetSize: nat, checked: bool): Result<Header> {
    if Get(file, base, base + 4) != Some(FRHP) then Err(Format)
    else if base + 5 >= |file| || file[base + 4] != 0 then Err(Format)
    else
      var filterLength :- ReadLe(file, base + 7, 2);
      var maxManaged :- ReadLe(file, base + 8, 4);
      var width :- ReadLe(file, base + 110, 2);
      var start :- ReadLe(file, base + 112, 8);
      var maxDirect :- ReadLe(file, base + 120, 8);
      var heapBits :- ReadLe(file, base + 128, 2);
      var rootRows :- ReadLe(file, base + 130, 2);
      var root :- ReadLe(file, base + 132, 8);
      var currentRows :- ReadLe(file, base + 140, 2);
      var filter :- ParseRootFilter(dec, file, base, filterLength);
      Ok(Header(Heap(file, start, maxDirect, width, offsetSize, checked), root, currentRows, filter))
  }

  /** An object in a root direct block that is stored filtered. */
  function ReadFilteredRoot(dec: Decoders, file: seq<Byte>, root: nat, f: RootFilter, off: nat, size: nat)
    : Result<seq<Byte>>
  {
    match Get(file, root, root + f.size)
    case None => Err(Format)
    case Some(stored) =>
      var block :- Inverted(dec.codec, f.pipeline, f.mask, 1, stored);
      if Get(block, 0, 4) != Some(FHDB) then Err(Format)
      else
        match Get(block, off, off + size)
        case None => Err(Format)
        case Some(bytes) => Ok(bytes)
  }

  /** An object by its heap offset: the root is a direct block while its rows are
      no more than the direct ones. */
  function ReadObject(dec: Decoders, fuel: nat, h: Header, off: nat, size: nat): Option<Result<seq<Byte>>> {
    if h.root == U64_MAX then Some(Err(NotFound))
    else if h.currentRows <= h.heap.DirectRows() then
      if h.filter.Some? then Some(ReadFilteredRoot(dec, h.heap.file, h.root, h.filter.value, off, size))
      else Some(h.heap.ReadDirect(h.root, off, size))
    else if h.filter.Some? then Some(Err(NotImplemented))
    else h.heap.Lookup(fuel, h.root, h.currentRows, off, size)
  }

  // ------------------------------------------------------------------
  // When reading an object always ends
  // ------------------------------------------------------------------

  /** The header fields that shape the doubling table, within their widths, and
      the build that reads them. */
  datatype Table = Table(start: nat, maxDirect: nat, width: nat, offsetSize: nat, rows: nat, checked: bool) {
    predicate Fits() {
      start <= U64_MAX && maxDirect <= U64_MAX && width < 0x1_0000 && offsetSize < 0x100 && rows < 0x1_0000
    }

    function On(file: seq<Byte>): Heap { Heap(file, start, maxDirect, width, offsetSize, checked) }

    /** `file` holds a header of this table at `base`, parsed as `h`. */
    ghost predicate Parsed(dec: Decoders, file: seq<Byte>, base: nat, h: Header) {
      ParseHeader(dec, file, base, offsetSize, checked) == Ok(h) && h.heap == On(file) && h.currentRows == rows
    }

    /** Reading any object of any heap with this table ends within the call bound. */
    ghost predicate AlwaysEnds(dec: Decoders) {
      forall file, base: nat, h | Parsed(dec, file, base, h) :: ReadsEnd(dec, h)
    }

    /** Some heap with this table sends a read into endless recursion. */
    ghost predicate SomeDiverges(dec: Decoders) {
      exists file, base: nat, h :: Parsed(dec, file, base, h) && Diverges(dec, h)
    }
  }

  ghost predicate ReadsEnd(dec: Decoders, h: Header) {
    forall off: nat, size: nat :: ReadObject(dec, CallBound(h.heap, h.currentRows, off), h, off, size).Some?
  }

  ghost predicate Diverges(dec: Decoders, h: Header) {
    forall fuel: nat, size: nat :: ReadObject(dec, fuel, h, 0, size) == None
  }

  lemma EndsWhereverParsed(dec: Decoders, t: Table)
    requires t.Fits() && Ends(t.On([]), t.rows)
    ensures t.AlwaysEnds(dec)
  {
    hide ParseHeader, ReadObject, Ends;
    forall file, base: nat, h | t.Parsed(dec, file, base, h) ensures ReadsEnd(dec, h) {
      HeaderEnds(dec, t, h);
    }
  }

  lemma HeaderEnds(dec: Decoders, t: Table, h: Header)
    requires t.Fits() && Ends(t.On([]), t.rows)
    requires h.heap == t.On(h.heap.file) && h.currentRows == t.rows
    ensures ReadsEnd(dec, h)
  {
    forall off: nat, size: nat ensures ReadObject(dec, CallBound(h.heap, h.currentRows, off), h, off, size).Some? {
      hide Heap.Lookup, Heap.DirectRows, Heap.ReadDirect, ReadFilteredRoot, CallBound;
      LookupTerminates(h.heap, h.root, t.rows, off, size);
    }
  }

  /** An indirect block at 0 whose entries, up to the first of row 65, all name
      address 0. */
  function SelfPointing(width: nat): seq<Byte> { FHIB + Zeros(17 + (65 * width + 1) * 8) }

  /** An unfiltered header of table `t` whose root block is at 0. */
  function HeaderBytes(t: Table): seq<Byte> {
    FRHP + Zeros(106) + LeBytes(t.width, 2) + LeBytes(t.start, 8) + LeBytes(t.maxDirect, 8) + Zeros(4)
      + LeBytes(0, 8) + LeBytes(t.rows, 2)
  }

  /** Where the fields of a header stand. */
  lemma FieldsStored(file: seq<Byte>, base: nat, t: Table)
    requires At(file, base, HeaderBytes(t))
    ensures At(file, base, FRHP) && At(file, base + 4, Zeros(106)) && At(file, base + 110, LeBytes(t.width, 2))
    ensures At(file, base + 112, LeBytes(t.start, 8)) && At(file, base + 120, LeBytes(t.maxDirect, 8))
    ensures At(file, base + 132, LeBytes(0, 8)) && At(file, base + 140, LeBytes(t.rows, 2))
    ensures base + 142 <= |file|
  {
    var w, s, m, z, r :=
      LeBytes(t.width, 2), LeBytes(t.start, 8), LeBytes(t.maxDirect, 8), LeBytes(0, 8), LeBytes(t.rows, 2);
    var a := FRHP + Zeros(106);
    assert base + 142 <= |file|;
    hide LeBytes, At;
    AtSplit(file, base, a + w + s + m + Zeros(4) + z, r);
    AtSplit(file, base, a + w + s + m + Zeros(4), z);
    AtSplit(file, base, a + w + s + m, Zeros(4));
    AtSplit(file, base, a + w + s, m);
    AtSplit(file, base, a + w, s);
    AtSplit(file, base, a, w);
    AtSplit(file, base, FRHP, Zeros(106));
  }

  lemma HeaderReads(dec: Decoders, file: seq<Byte>, base: nat, t: Table)
    requires t.Fits() && At(file, base, HeaderBytes(t))
    ensures ParseHeader(dec, file, base, t.offsetSize, t.checked) == Ok(Header(t.On(file), 0, t.rows, None))
  {
    hide LeNat, LeBytes, HeaderBytes;
    FieldsStored(file, base, t);
    Pow256Values();
    ReadLeAt(file, base + 110, 2, t.width);
    ReadLeAt(file, base + 112, 8, t.start);
    ReadLeAt(file, base + 120, 8, t.maxDirect);
    ReadLeAt(file, base + 132, 8, 0);
    ReadLeAt(file, base + 140, 2, t.rows);
    AtInside(file, base + 4, Zeros(106), 0, 1);
    assert file[base + 4] == file[base + 4..base + 5][0] == 0;
    AtInside(file, base + 4, Zeros(106), 3, 5);
    ZeroField(file, base + 7);
  }

  lemma ZeroField(file: seq<Byte>, at: nat)
    requires at + 2 <= |file| && file[at..at + 2] == Zeros(106)[3..5]
    ensures ReadLe(file, at, 2) == Ok(0)
  {
    assert file[at..at + 2] == [0, 0];
    assert [0, 0][1..] == [0] && |[0][1..]| == 0;
    assert LeNat([0]) == 0 && LeNat([0, 0]) == 0;
  }

  lemma {:induction false} ZerosValue(n: nat)
    ensures LeNat(Zeros(n)) == 0
  {
    if n > 0 {
      ZerosValue(n - 1);
      assert Zeros(n)[1..] == Zeros(n - 1);
    }
  }

  /** The loop entry of the block at 0 names address 0. */
  lemma LoopEntry(h: Heap, rest: seq<Byte>, rows: nat)
    requires h.file == SelfPointing(h.width) + rest && !Ends(h, rows)
    ensures h.HasSignature(0, FHIB)
    ensures h.EntryAddress(0, LoopRow(h), 0) == Ok(0)
  {
    assert h.file[0..4] == FHIB;
    var pos := 21 + LoopRow(h) * h.width * 8;
    assert pos == 21 || pos == 21 + 65 * h.width * 8;
    assert h.file[pos..pos + 8] == Zeros(8);
    ZerosValue(8);
  }

  /** Otherwise one image holds both a header of the table and a root block that
      names itself. */
  lemma DivergesSomewhere(dec: Decoders, t: Table)
    requires t.Fits() && !Ends(t.On([]), t.rows)
    ensures t.SomeDiverges(dec)
  {
    hide ParseHeader, HeaderBytes, ReadObject, Ends, LoopRow;
    var block := SelfPointing(t.width);
    var file := block + HeaderBytes(t);
    var base := |block|;
    assert file == block + HeaderBytes(t) + [];
    AtEmbedded(block, HeaderBytes(t), []);
    HeaderReads(dec, file, base, t);
    var h := Header(t.On(file), 0, t.rows, None);
    SameEnds(t, file);
    LoopEntry(h.heap, HeaderBytes(t), t.rows);
    RootDiverges(dec, h);
    assert t.Parsed(dec, file, base, h) && Diverges(dec, h);
  }

  lemma SameEnds(t: Table, file: seq<Byte>)
    ensures Ends(t.On(file), t.rows) == Ends(t.On([]), t.rows)
  {
  }

  lemma RootDiverges(dec: Decoders, h: Header)
    requires h.heap.start <= U64_MAX && !Ends(h.heap, h.currentRows) && h.root == 0 && h.filter == None
    requires h.heap.HasSignature(0, FHIB) && h.heap.EntryAddress(0, LoopRow(h.heap), 0) == Ok(0)
    ensures Diverges(dec, h)
  {
    hide Heap.Lookup, Heap.DirectRows, Heap.EntryAddress, Heap.HasSignature, LoopRow, Ends;
    RootIsIndirect(h.heap, h.currentRows);
    forall fuel: nat, size: nat ensures ReadObject(dec, fuel, h, 0, size) == None {
      LookupDiverges(h.heap, fuel, 0, h.currentRows, size);
    }
  }

  lemma RootIsIndirect(h: Heap, rows: nat)
    requires h.start <= U64_MAX && !Ends(h, rows)
    ensures rows > h.DirectRows()
  {
    hide Heap.DirectRows;
    LoopRowFacts(h, rows);
  }

  /** Main result, for a build with overflow checks and one without: reading an
      object ends on every heap of a table, within the call bound, exactly when
      the table satisfies `Ends`; on any other table some parsable heap makes it
      recurse forever. */
  lemma ReadEndsExactlyWhen(dec: Decoders, t: Table)
    requires t.Fits()
    ensures t.AlwaysEnds(dec) <==> Ends(t.On([]), t.rows)
    ensures t.SomeDiverges(dec) <==> !Ends(t.On([]), t.rows)
  {
    hide Ends;
    if Ends(t.On([]), t.rows) {
      EndsWhereverParsed(dec, t);
      if t.SomeDiverges(dec) {
        NotBoth(dec, t);
      }
    } else {
      DivergesSomewhere(dec, t);
      NotBoth(dec, t);
    }
  }

  lemma NotBoth(dec: Decoders, t: Table)
    requires t.SomeDiverges(dec)
    ensures !t.AlwaysEnds(dec)
  {
    hide ReadObject, ParseHeader;
    var file, base: nat, h :| t.Parsed(dec, file, base, h) && Diverges(dec, h);
    assert ReadObject(dec, CallBound(h.heap, h.currentRows, 0), h, 0, 0) == None;
    assert !ReadsEnd(dec, h);
  }
}
