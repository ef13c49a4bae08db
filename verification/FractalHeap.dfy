// The doubling table of a fractal heap: the lookup through indirect blocks and
// the flat address space it refines.

module FractalHeap {
  import opened Arithmetic
  import opened Common
  import opened Powers

  const FHDB: seq<Byte> := [70, 72, 68, 66]
  const FHIB: seq<Byte> := [70, 72, 73, 66]

  /** Where the table search ends: nowhere, at an entry, or at a product on which
      the build aborts. */
  datatype Search = Absent | Overflow | Entry(row: nat, col: nat)

  /** The doubling-table fields of a heap header, over a file image, in a build
      with overflow checks or without. */
  datatype Heap = Heap(file: seq<Byte>, start: nat, maxDirect: nat, width: nat, offsetSize: nat, checked: bool) {

    /** A 64-bit product that does not fit aborts a checked build ... */
    predicate Aborts(product: nat) { checked && product > U64_MAX }

    /** ... and wraps in any other. */
    function Wrapped(product: nat): (w: nat)
      ensures checked || product <= U64_MAX ==> w == product
      ensures !checked ==> w <= U64_MAX
    {
      if checked then product else product % (U64_MAX + 1)
    }

    /** Block size of a row: two rows at the starting size, then doubling; bits
        shifted out of 64 are lost and a shift by 64 or more saturates. */
    function RowSize(row: nat): nat {
      if row <= 1 then start
      else if row - 1 >= 64 then U64_MAX
      else start * Pow(2, row - 1) % Pow(2, 64)
    }

    /** Bytes that so many blocks of a row take. */
    function Span(cols: nat, row: nat): nat {
      hide RowSize;
      cols * RowSize(row)
    }

    /** Saturating sum of the sizes of all entries in rows before `row`. */
    function Covered(row: nat): nat {
      hide RowSize;
      if row == 0 then 0 else Saturate(Covered(row - 1) + Wrapped(Span(width, row - 1)))
    }

    function EntryStart(row: nat, col: nat): nat {
      hide RowSize, Covered;
      Saturate(Covered(row) + Wrapped(Span(col, row)))
    }

    function EntryEnd(row: nat, col: nat): nat { Saturate(EntryStart(row, col) + RowSize(row)) }

    predicate Holds(row: nat, col: nat, off: nat) { EntryStart(row, col) <= off < EntryEnd(row, col) }

    /** First row from `row` on whose blocks are too large to be direct. */
    function DirectRowsFrom(row: nat): nat
      decreases 256 - row
    {
      if row >= 256 || RowSize(row) > maxDirect then row else DirectRowsFrom(row + 1)
    }

    function DirectRows(): nat { DirectRowsFrom(0) }

    /** Rows, more than `n` of them, after which `size` bytes are covered; None
        when a row's width aborts first. */
    function RowsFor(size: nat, n: nat): Option<nat>
      decreases 256 - n
    {
      hide RowSize;
      if n >= 256 then Some(n)
      else if Aborts(Span(width, n)) then None
      else if Covered(n + 1) >= size then Some(n + 1)
      else RowsFor(size, n + 1)
    }

    /** First entry at or after (`row`, `col`), row by row, that holds `off`. */
    function Find(rows: nat, row: nat, col: nat, off: nat): Search
      decreases rows - row, width - col
    {
      hide RowSize;
      if row >= rows then Absent
      else if col >= width then
        if Aborts(Span(width, row)) then Overflow else Find(rows, row + 1, 0, off)
      else if Aborts(Span(col, row)) then Overflow
      else if Holds(row, col, off) then Entry(row, col)
      else Find(rows, row, col + 1, off)
    }

    predicate HasSignature(addr: nat, signature: seq<Byte>) { Get(file, addr, addr + 4) == Some(signature) }

    /** Address stored in an entry of the indirect block at `base`. */
    function EntryAddress(base: nat, row: nat, col: nat): Result<nat> {
      var pos := base + 4 + 1 + offsetSize + offsetSize + (row * width + col) * offsetSize;
      if offsetSize != 8 then Err(Format)
      else
        var addr :- ReadLe(file, pos, 8);
        if addr == U64_MAX then Err(Format) else Ok(addr)
    }

    function ReadDirect(addr: nat, off: nat, size: nat): Result<seq<Byte>> {
      if !HasSignature(addr, FHDB) then Err(Format)
      else if addr + off + size <= |file| then Ok(file[addr + off..addr + off + size])
      else Err(Format)
    }

    /** The lookup, allowed `fuel` nested calls; None when they do not suffice. */
    function Lookup(fuel: nat, addr: nat, rows: nat, off: nat, size: nat): Option<Result<seq<Byte>>>
      decreases fuel, 0
    {
      if fuel == 0 then None
      else if !HasSignature(addr, FHIB) then Some(Err(Format))
      else
        match Find(rows, 0, 0, off)
        case Absent => Some(Err(Format))
        case Overflow => Some(Err(Panic))
        case Entry(row, col) =>
          match EntryAddress(addr, row, col)
          case Err(e) => Some(Err(e))
          case Ok(block) =>
            FindHolds(rows, 0, 0, off);
            Follow(fuel - 1, block, row, off - EntryStart(row, col), size)
    }

    /** From an entry of `row` into the block it names. */
    function Follow(fuel: nat, block: nat, row: nat, within: nat, size: nat): Option<Result<seq<Byte>>>
      decreases fuel, 1
    {
      if row < DirectRows() then Some(ReadDirect(block, within, size))
      else
        match RowsFor(RowSize(row), 0)
        case None => Some(Err(Panic))
        case Some(subRows) => Lookup(fuel, block, subRows, within, size)
    }

    lemma {:induction false} FindHolds(rows: nat, row: nat, col: nat, off: nat)
      ensures var f := Find(rows, row, col, off);
        f.Entry? ==> row <= f.row < rows && f.col < width && Holds(f.row, f.col, off)
      decreases rows - row, width - col
    {
      hide Holds, RowSize;
      if row < rows {
        if col >= width {
          FindHolds(rows, row + 1, 0, off);
        } else if !Holds(row, col, off) {
          FindHolds(rows, row, col + 1, off);
        }
      }
    }

    /** The lookup once the entry that holds `off` is known. */
    lemma LookupAt(fuel: nat, addr: nat, rows: nat, off: nat, size: nat, row: nat, col: nat)
      requires fuel > 0 && HasSignature(addr, FHIB) && Find(rows, 0, 0, off) == Entry(row, col)
      ensures EntryStart(row, col) <= off
      ensures Lookup(fuel, addr, rows, off, size) ==
        match EntryAddress(addr, row, col)
        case Err(e) => Some(Err(e))
        case Ok(block) => Follow(fuel - 1, block, row, off - EntryStart(row, col), size)
    {
      hide RowSize, Find, EntryStart, EntryAddress, Follow, HasSignature;
      FindHolds(rows, 0, 0, off);
    }

    /** The lookup when no entry is found. */
    lemma LookupStops(fuel: nat, addr: nat, rows: nat, off: nat, size: nat)
      requires fuel > 0 && (HasSignature(addr, FHIB) ==> !Find(rows, 0, 0, off).Entry?)
      ensures Lookup(fuel, addr, rows, off, size)
           == Some(Err(if HasSignature(addr, FHIB) && Find(rows, 0, 0, off).Overflow? then Panic else Format))
    {
      hide RowSize, Find, HasSignature;
    }

    lemma FindStep(rows: nat, row: nat, col: nat, off: nat)
      requires row < rows
      ensures Find(rows, row, width, off)
           == if Aborts(Span(width, row)) then Overflow else Find(rows, row + 1, 0, off)
      ensures col < width ==>
        Find(rows, row, col, off) ==
          if Aborts(Span(col, row)) then Overflow
          else if Holds(row, col, off) then Entry(row, col) else Find(rows, row, col + 1, off)
    {
      hide Holds, RowSize;
    }

    // ----------------------------------------------------------------
    // The loops
    // ----------------------------------------------------------------

    method NumDirectRows() returns (row: nat)
      ensures row == DirectRows()
    {
      row := 0;
      while row < 256
        invariant row <= 256 && DirectRowsFrom(row) == DirectRows()
        decreases 256 - row
      {
        if RowSize(row) > maxDirect {
          break;
        }
        row := row + 1;
      }
    }

    method ComputeIndirectNrows(size: nat) returns (n: Option<nat>)
      ensures n == RowsFor(size, 0)
    {
      hide RowSize;
      var cumulative := 0;
      var rows := 0;
      while rows < 256
        invariant rows <= 256 && cumulative == Covered(rows) && RowsFor(size, rows) == RowsFor(size, 0)
        decreases 256 - rows
      {
        var added := Span(width, rows);
        if Aborts(added) {
          return None;
        }
        cumulative := Saturate(cumulative + Wrapped(added));
        rows := rows + 1;
        if cumulative >= size {
          break;
        }
      }
      n := Some(rows);
    }

    method ReadFromDirectBlock(addr: nat, off: nat, size: nat) returns (r: Result<seq<Byte>>)
      ensures r == ReadDirect(addr, off, size)
    {
      var signature := Get(file, addr, addr + 4);
      if signature.None? || signature.value != FHDB {
        return Err(Format);
      }
      var bytes := Get(file, addr + off, addr + off + size);
      r := if bytes.None? then Err(Format) else Ok(bytes.value);
    }

    method ReadFromIndirectBlock(fuel: nat, addr: nat, rows: nat, off: nat, size: nat)
      returns (r: Option<Result<seq<Byte>>>)
      ensures r == Lookup(fuel, addr, rows, off, size)
      decreases fuel
    {
      hide RowSize, ReadDirect, EntryAddress, DirectRows, RowsFor, Lookup, Find, Wrapped, Aborts;
      hide Covered, Saturate, EntryStart, EntryEnd, Holds;
      if fuel == 0 {
        NoFuel(addr, rows, off, size);
        return None;
      }
      var signature := Get(file, addr, addr + 4);
      if signature.None? || signature.value != FHIB {
        LookupStops(fuel, addr, rows, off, size);
        return Some(Err(Format));
      }
      var maxDirectRows := NumDirectRows();
      var cumulative := 0;
      assert Covered(0) == 0 by { NothingCovered(); }
      for row := 0 to rows
        invariant cumulative == Covered(row)
        invariant Find(rows, row, 0, off) == Find(rows, 0, 0, off)
      {
        var rowSize := RowSize(row);
        for col := 0 to width
          invariant Find(rows, row, col, off) == Find(rows, 0, 0, off)
        {
          FindStep(rows, row, col, off);
          EntryPlace(row, col, off);
          var before := col * rowSize;
          if Aborts(before) {
            LookupStops(fuel, addr, rows, off, size);
            return Some(Err(Panic));
          }
          var entryStart := Saturate(cumulative + Wrapped(before));
          var entryEnd := Saturate(entryStart + rowSize);
          if off >= entryStart && off < entryEnd {
            LookupAt(fuel, addr, rows, off, size, row, col);
            var entry := EntryAddress(addr, row, col);
            if entry.Err? {
              return Some(Err(entry.error));
            }
            if row < maxDirectRows {
              var bytes := ReadFromDirectBlock(entry.value, off - entryStart, size);
              return Some(bytes);
            }
            var subRows := ComputeIndirectNrows(rowSize);
            if subRows.None? {
              return Some(Err(Panic));
            }
            r := ReadFromIndirectBlock(fuel - 1, entry.value, subRows.value, off - entryStart, size);
            return;
          }
        }
        FindStep(rows, row, width, off);
        var added := width * rowSize;
        if Aborts(added) {
          LookupStops(fuel, addr, rows, off, size);
          return Some(Err(Panic));
        }
        CoveredStep(row);
        cumulative := Saturate(cumulative + Wrapped(added));
      }
      FindEnds(rows, off);
      LookupStops(fuel, addr, rows, off, size);
      return Some(Err(Format));
    }

    lemma NothingCovered()
      ensures Covered(0) == 0
    {
    }

    lemma CoveredStep(row: nat)
      ensures Covered(row + 1) == Saturate(Covered(row) + Wrapped(Span(width, row)))
    {
      hide RowSize, Wrapped, Saturate;
    }

    lemma EntryPlace(row: nat, col: nat, off: nat)
      ensures EntryStart(row, col) == Saturate(Covered(row) + Wrapped(Span(col, row)))
      ensures EntryEnd(row, col) == Saturate(EntryStart(row, col) + RowSize(row))
      ensures Holds(row, col, off) <==> EntryStart(row, col) <= off < EntryEnd(row, col)
    {
      hide RowSize, Wrapped, Saturate, Covered;
    }

    lemma NoFuel(addr: nat, rows: nat, off: nat, size: nat)
      ensures Lookup(0, addr, rows, off, size) == None
    {
    }

    lemma FindEnds(rows: nat, off: nat)
      ensures Find(rows, rows, 0, off) == Absent
    {
    }
  }

  function Saturate(x: nat): (s: nat)
    ensures s <= x && s <= U64_MAX && (x <= U64_MAX ==> s == x)
    ensures x > U64_MAX ==> s == U64_MAX
  {
    if x <= U64_MAX then x else U64_MAX
  }

  // ------------------------------------------------------------------
  // Geometry on every image
  // ------------------------------------------------------------------

  /** A row's blocks are no larger than the doubled size, saturated. */
  lemma RowSizeBound(h: Heap, row: nat)
    requires 1 <= h.start <= U64_MAX && row >= 1
    ensures h.RowSize(row) <= Saturate(h.start * Pow(2, row - 1))
    ensures h.start * Pow(2, row - 1) <= U64_MAX ==> h.RowSize(row) == h.start * Pow(2, row - 1)
  {
    hide Pow;
    Pow64();
    var p := Pow(2, row - 1);
    if row == 1 {
      PowZero();
      assert p == 1 && h.start * p == h.start;
    } else if row - 1 >= 64 {
      PowMonotone(2, 64, row - 1);
      MulAtLeast(h.start, p);
    } else if h.start * p <= U64_MAX {
      SmallMod(h.start * p, Pow(2, 64));
    } else {
      RemainderBound(h.start * p, Pow(2, 64));
    }
  }

  lemma RemainderBound(n: nat, m: nat)
    requires m > 0
    ensures n % m < m
  {
  }

  lemma DoublingStep(w: nat, s: nat, p: nat)
    requires w >= 1
    ensures w * (s * p) >= s * p
    ensures s * (2 * p) == s * p + s * p
    ensures w * (s * (2 * p)) == w * (s * p) + w * (s * p)
  {
    MulAtLeast(w, s * p);
    assert s * (2 * p) == s * p + s * p;
    assert w * (s * p + s * p) == w * (s * p) + w * (s * p);
  }

  /** No row up to `row` has a width that wraps. */
  predicate NoWrap(h: Heap, row: nat)
    requires row >= 1
  {
    h.checked || h.width * (h.start * Pow(2, row - 1)) <= U64_MAX
  }

  lemma NoWrapBefore(h: Heap, row: nat)
    requires row >= 2 && NoWrap(h, row) && 1 <= h.start <= U64_MAX && h.width >= 1
    ensures NoWrap(h, row - 1)
    ensures h.Wrapped(h.Span(h.width, row - 1)) == h.width * h.RowSize(row - 1)
  {
    hide Pow, Heap.RowSize;
    PowSucc(row - 2);
    DoublingStep(h.width, h.start, Pow(2, row - 2));
    RowSizeBound(h, row - 1);
  }

  /** The rows before `row` cover at least one block of that row. */
  lemma {:induction false} CoverageGrows(h: Heap, row: nat)
    requires 1 <= h.start <= U64_MAX && h.width >= 1 && row >= 1 && NoWrap(h, row)
    ensures h.Covered(row) >= Saturate(h.start * Pow(2, row - 1))
  {
    hide Pow, Heap.RowSize, NoWrap;
    if row == 1 {
      FirstCoverage(h);
    } else {
      NoWrapBefore(h, row);
      CoverageGrows(h, row - 1);
      RowSizeBound(h, row - 1);
      PowSucc(row - 2);
      CoverageStep(h.Covered(row - 1), h.width, h.start, Pow(2, row - 2), Pow(2, row - 1), h.RowSize(row - 1));
    }
  }

  lemma FirstCoverage(h: Heap)
    requires h.width >= 1 && NoWrap(h, 1)
    ensures h.Covered(1) >= Saturate(h.start * Pow(2, 0))
  {
    FirstRow(h);
    PowZero();
    hide Pow, Heap.RowSize;
    assert h.start * Pow(2, 0) == h.start;
    MulAtLeast(h.width, h.start);
    assert h.Covered(0) == 0;
  }

  lemma CoverageStep(c: nat, w: nat, s: nat, p: nat, q: nat, r: nat)
    requires w >= 1 && q == 2 * p && c >= Saturate(s * p)
    requires s * p <= U64_MAX ==> r == s * p
    ensures Saturate(c + w * r) >= Saturate(s * q)
  {
    DoublingStep(w, s, p);
  }

  lemma FirstRow(h: Heap)
    ensures h.RowSize(0) == h.start
  {
  }

  /** No more than `row` rows are needed to cover what `row` rows cover. */
  lemma {:induction false} RowsForBound(h: Heap, size: nat, n: nat, row: nat)
    requires 1 <= row && n < row && h.Covered(row) >= size
    ensures h.RowsFor(size, n).Some? ==> 1 <= h.RowsFor(size, n).value <= row
    decreases row - n
  {
    hide Heap.Covered, Heap.RowSize;
    if n < 256 && h.Covered(n + 1) < size {
      RowsForBound(h, size, n + 1, row);
    }
  }

  /** A block of some row needs no more rows than its row number, or one. */
  lemma SubRowsBound(h: Heap, row: nat)
    requires 1 <= h.start <= U64_MAX && h.width >= 1 && NoWrap(h, if row == 0 then 1 else row)
    ensures h.RowsFor(h.RowSize(row), 0).Some? ==>
      1 <= h.RowsFor(h.RowSize(row), 0).value <= if row == 0 then 1 else row
  {
    hide Pow, Heap.RowSize, Heap.RowsFor, NoWrap;
    var r := if row == 0 then 1 else row;
    CoverageGrows(h, r);
    if row == 0 {
      PowZero();
      FirstRow(h);
      RowSizeBound(h, 1);
      assert h.RowSize(1) == h.start by { SecondRow(h); }
    } else {
      RowSizeBound(h, row);
    }
    RowsForBound(h, h.RowSize(row), 0, r);
  }

  lemma SecondRow(h: Heap)
    ensures h.RowSize(1) == h.start
  {
  }

  lemma {:induction false} DirectRowsFacts(h: Heap, from: nat)
    ensures h.DirectRowsFrom(from) >= from
    ensures forall r :: from <= r < h.DirectRowsFrom(from) ==> h.RowSize(r) <= h.maxDirect
    ensures from <= h.DirectRowsFrom(from) < 256 ==> h.RowSize(h.DirectRowsFrom(from)) > h.maxDirect
    decreases 256 - from
  {
    hide Heap.RowSize;
    if from < 256 && h.RowSize(from) <= h.maxDirect {
      DirectRowsFacts(h, from + 1);
    }
  }

  /** The two rows of starting size are direct exactly when that size is. */
  lemma TwoDirectRows(h: Heap)
    ensures h.start <= h.maxDirect ==> h.DirectRows() >= 2
    ensures h.start > h.maxDirect ==> h.DirectRows() == 0
  {
    DirectRowsFacts(h, 0);
    FirstRow(h);
    SecondRow(h);
    hide Heap.RowSize;
    if h.start <= h.maxDirect {
      assert h.DirectRowsFrom(0) == h.DirectRowsFrom(1) == h.DirectRowsFrom(2);
      DirectRowsFacts(h, 2);
    }
  }

  // ------------------------------------------------------------------
  // Termination
  // ------------------------------------------------------------------

  /** The tables on which every lookup ends.  A positive starting size must be
      direct; a zero one leaves only rows from 65 on, whose saturated size must be
      direct.  A checked build also ends where the width of such a row overflows. */
  predicate Ends(h: Heap, rows: nat) {
    || h.offsetSize != 8 || h.width == 0 || rows == 0
    || 1 <= h.start <= h.maxDirect
    || (h.start > h.maxDirect && h.Aborts(h.width * h.start))
    || (h.start == 0 && (rows <= 65 || h.maxDirect >= U64_MAX || (h.checked && h.width >= 2)))
  }

  /** Nested calls after which a lookup has ended: a checked build loses a row with
      each, any other moves closer to the beginning of its block. */
  function CallBound(h: Heap, rows: nat, off: nat): nat { (if h.checked then rows else off) + 1 }

  /** Below a starting size that is still direct, a lookup in a checked build takes
      no more nested calls than there are rows, plus one. */
  lemma {:induction false} DirectStartEnds(h: Heap, fuel: nat, addr: nat, rows: nat, off: nat, size: nat)
    requires 1 <= h.start <= h.maxDirect && h.start <= U64_MAX && h.width >= 1 && h.checked
    requires fuel > rows
    ensures h.Lookup(fuel, addr, rows, off, size).Some?
    decreases fuel
  {
    hide Heap.RowSize, Heap.EntryAddress, Heap.ReadDirect, Heap.Find, Heap.DirectRows, Heap.RowsFor, Heap.EntryStart;
    var f := h.Find(rows, 0, 0, off);
    h.FindHolds(rows, 0, 0, off);
    if h.HasSignature(addr, FHIB) && f.Entry? {
      var row, col := f.row, f.col;
      TwoDirectRows(h);
      SubRowsBound(h, row);
      var entry := h.EntryAddress(addr, row, col);
      var sub := h.RowsFor(h.RowSize(row), 0);
      if entry.Ok? && row >= h.DirectRows() && sub.Some? {
        DirectStartEnds(h, fuel - 1, entry.value, sub.value, off - h.EntryStart(row, col), size);
      }
    }
  }

  /** In a wrapping build whose first row overflows, the first row holds every offset. */
  lemma {:induction false} FirstRowHolds(h: Heap, rows: nat, col: nat, off: nat)
    requires !h.checked && h.start >= 1 && h.width * h.start > U64_MAX && rows >= 1
    requires col <= off / h.start && off < U64_MAX
    ensures h.Find(rows, 0, col, off).Entry? && h.Find(rows, 0, col, off).row == 0
    decreases off / h.start - col
  {
    hide Heap.Find, Heap.Holds;
    FirstRow(h);
    ColumnInRow(h.width, h.start, off);
    h.FindStep(rows, 0, col, off);
    if col < off / h.start {
      FirstRowHolds(h, rows, col + 1, off);
    } else {
      ColumnHolds(h, off);
    }
  }

  lemma ColumnInRow(width: nat, start: nat, off: nat)
    requires start >= 1 && off < width * start
    ensures off / start < width && off / start * start <= off < off / start * start + start
  {
    DivBound(off, width, start);
  }

  lemma ColumnHolds(h: Heap, off: nat)
    requires !h.checked && h.start >= 1 && off < U64_MAX
    ensures h.Holds(0, off / h.start, off)
  {
    FirstRow(h);
    hide Heap.RowSize;
    var before := off / h.start * h.start;
    assert before <= off < before + h.start;
    assert h.Covered(0) == 0;
  }

  /** Past the first row every entry begins after 0 unless that row overflows. */
  lemma LaterRowsBeginLater(h: Heap, row: nat, col: nat)
    requires h.start >= 1 && h.width >= 1 && h.width * h.start <= U64_MAX && row >= 1
    ensures h.EntryStart(row, col) >= 1
  {
    FirstRow(h);
    CoveredGrows(h, 1, row);
    hide Heap.RowSize;
    MulAtLeast(h.width, h.start);
    assert h.Covered(0) == 0;
    assert h.Covered(1) == h.width * h.start;
  }

  lemma DivNonNegative(off: nat, start: nat)
    requires start >= 1
    ensures off / start >= 0
  {
  }

  /** An entry of a later row that holds the offset moves it towards 0. */
  lemma LaterEntryAdvances(h: Heap, rows: nat, off: nat)
    requires !h.checked && h.start >= 1 && h.width >= 1
    ensures var f := h.Find(rows, 0, 0, off);
      f.Entry? && f.row >= 1 ==> 1 <= h.EntryStart(f.row, f.col) <= off
  {
    hide Heap.Find, Heap.EntryStart, Heap.Holds, Heap.RowSize;
    h.FindHolds(rows, 0, 0, off);
    var f := h.Find(rows, 0, 0, off);
    if f.Entry? && f.row >= 1 {
      HeldBelow(h, f.row, f.col, off);
      if h.width * h.start > U64_MAX {
        DivNonNegative(off, h.start);
        FirstRowHolds(h, rows, 0, off);
      } else {
        LaterRowsBeginLater(h, f.row, f.col);
      }
    }
  }

  /** Without overflow checks the same tables end: every nested call moves the
      offset towards 0. */
  lemma {:induction false} WrappingStartEnds(h: Heap, fuel: nat, addr: nat, rows: nat, off: nat, size: nat)
    requires 1 <= h.start <= h.maxDirect && h.width >= 1 && !h.checked
    requires fuel > off
    ensures h.Lookup(fuel, addr, rows, off, size).Some?
    decreases fuel
  {
    hide Heap.RowSize, Heap.EntryAddress, Heap.ReadDirect, Heap.Find, Heap.DirectRows, Heap.RowsFor, Heap.EntryStart;
    var f := h.Find(rows, 0, 0, off);
    h.FindHolds(rows, 0, 0, off);
    if h.HasSignature(addr, FHIB) && f.Entry? {
      TwoDirectRows(h);
      LaterEntryAdvances(h, rows, off);
      var entry := h.EntryAddress(addr, f.row, f.col);
      var sub := h.RowsFor(h.RowSize(f.row), 0);
      if entry.Ok? && f.row >= h.DirectRows() && sub.Some? {
        WrappingStartEnds(h, fuel - 1, entry.value, sub.value, off - h.EntryStart(f.row, f.col), size);
      }
    }
  }

  lemma ZeroRow(h: Heap, row: nat)
    requires h.start == 0 && row <= 64
    ensures h.RowSize(row) == 0
  {
    if row >= 2 {
      Pow64();
      assert h.start * Pow(2, row - 1) == 0;
    }
  }

  lemma {:induction false} ZeroCovered(h: Heap, row: nat)
    requires h.start == 0 && row <= 65
    ensures h.Covered(row) == 0
  {
    if row > 0 {
      ZeroCovered(h, row - 1);
      ZeroRow(h, row - 1);
      hide Heap.RowSize;
      assert h.width * h.RowSize(row - 1) == 0;
    }
  }

  lemma {:induction false} CoveredGrows(h: Heap, a: nat, b: nat)
    requires a <= b
    ensures h.Covered(a) <= h.Covered(b) <= U64_MAX
  {
    hide Heap.RowSize, Heap.Wrapped;
    if a < b {
      CoveredGrows(h, a, b - 1);
    } else if b > 0 {
      assert h.Covered(b) <= U64_MAX;
    }
  }

  /** A zero starting size leaves every row up to row 64 empty, and row 65 holds
      every offset. */
  lemma {:induction false} ZeroStartFinds(h: Heap, rows: nat, row: nat, col: nat, off: nat)
    requires h.start == 0 && h.width >= 1 && rows >= 66 && off < U64_MAX
    requires row <= 65 && col <= h.width && (row == 65 ==> col == 0)
    ensures h.Find(rows, row, col, off) == Entry(65, 0)
    decreases 65 - row, h.width - col
  {
    hide Heap.Find, Heap.Holds, Heap.RowSize;
    h.FindStep(rows, row, col, off);
    if row == 65 {
      Row65Holds(h, off);
      assert !h.Aborts(h.Span(0, 65));
    } else {
      ZeroRow(h, row);
      assert h.width * h.RowSize(row) == 0 && col * h.RowSize(row) == 0;
      if col < h.width {
        EmptyRow(h, row, col, off);
        ZeroStartFinds(h, rows, row, col + 1, off);
      } else {
        ZeroStartFinds(h, rows, row + 1, 0, off);
      }
    }
  }

  lemma Row65Holds(h: Heap, off: nat)
    requires h.start == 0 && off < U64_MAX
    ensures h.EntryStart(65, 0) == 0 && h.Holds(65, 0, off)
  {
    ZeroCovered(h, 65);
    assert h.RowSize(65) == U64_MAX;
    assert 0 * h.RowSize(65) == 0;
  }

  lemma EmptyRow(h: Heap, row: nat, col: nat, off: nat)
    requires h.start == 0 && row <= 64
    ensures !h.Holds(row, col, off)
  {
    ZeroRow(h, row);
    hide Heap.RowSize;
  }

  /** With a zero starting size only the first entry of row 65 is ever found. */
  lemma ZeroStartRows(h: Heap, rows: nat, off: nat)
    requires h.start == 0 && h.width >= 1
    ensures h.Find(rows, 0, 0, off).Entry? ==> h.Find(rows, 0, 0, off) == Entry(65, 0) && rows >= 66
  {
    hide Heap.Find, Heap.Holds;
    h.FindHolds(rows, 0, 0, off);
    var f := h.Find(rows, 0, 0, off);
    if f.Entry? {
      HeldBelow(h, f.row, f.col, off);
      if f.row <= 64 {
        EmptyRow(h, f.row, f.col, off);
      } else {
        ZeroStartFinds(h, rows, 0, 0, off);
      }
    }
  }

  lemma HeldBelow(h: Heap, row: nat, col: nat, off: nat)
    requires h.Holds(row, col, off)
    ensures h.EntryStart(row, col) <= off < U64_MAX
  {
    hide Heap.RowSize, Heap.EntryStart;
  }

  /** Without overflow checks the row count is always found. */
  lemma {:induction false} RowsForFound(h: Heap, size: nat, n: nat)
    requires !h.checked
    ensures h.RowsFor(size, n).Some? && h.RowsFor(size, n).value >= n
    decreases 256 - n
  {
    hide Heap.RowSize, Heap.Covered;
    if n < 256 {
      RowsForFound(h, size, n + 1);
    }
  }

  /** With a zero starting size, the rows that cover row 65: more than 65, unless
      a checked build overflows on a width over one. */
  lemma {:induction false} ZeroStartRowsFor(h: Heap, n: nat)
    requires h.start == 0 && h.width >= 1 && n <= 65
    ensures h.RowsFor(U64_MAX, n).None? <==> h.checked && h.width >= 2
    ensures h.RowsFor(U64_MAX, n).Some? ==> h.RowsFor(U64_MAX, n).value >= 66
    decreases 65 - n
  {
    hide Heap.RowSize, Heap.Covered;
    if n < 65 {
      ZeroRow(h, n);
      assert h.width * h.RowSize(n) == 0;
      ZeroCovered(h, n + 1);
      ZeroStartRowsFor(h, n + 1);
    } else {
      Row65Width(h);
      if !h.checked {
        RowsForFound(h, U64_MAX, 66);
      }
    }
  }

  lemma Row65Width(h: Heap)
    requires h.start == 0 && h.width >= 1
    ensures h.Aborts(h.Span(h.width, 65)) <==> h.checked && h.width >= 2
    ensures h.width == 1 ==> h.Covered(66) == U64_MAX
  {
    ZeroCovered(h, 65);
    assert h.RowSize(65) == U64_MAX;
    assert h.Covered(66) == Saturate(h.Covered(65) + h.Wrapped(h.width * U64_MAX));
  }

  lemma AllRowsDirect(h: Heap)
    requires h.maxDirect >= U64_MAX && h.start <= U64_MAX
    ensures h.DirectRows() >= 256
  {
    DirectRowsFacts(h, 0);
    if h.DirectRows() < 256 {
      RowSizeFits(h, h.DirectRows());
    }
  }

  lemma RowSizeFits(h: Heap, row: nat)
    requires h.start <= U64_MAX
    ensures h.RowSize(row) <= U64_MAX
  {
    Pow64();
    if 2 <= row && row - 1 < 64 {
      RemainderBound(h.start * Pow(2, row - 1), Pow(2, 64));
    }
  }

  /** Following an entry ends at once when it is direct or its sub-table overflows. */
  lemma FollowEnds(h: Heap, fuel: nat, block: nat, row: nat, within: nat, size: nat)
    requires row < h.DirectRows() || h.RowsFor(h.RowSize(row), 0).None?
    ensures h.Follow(fuel, block, row, within, size).Some?
  {
    hide Heap.RowSize, Heap.DirectRows, Heap.RowsFor, Heap.ReadDirect;
  }

  /** With a zero starting size that `Ends` accepts, the first entry found is the
      last step. */
  lemma ZeroStartEnds(h: Heap, fuel: nat, block: nat, rows: nat, within: nat, size: nat)
    requires h.start == 0 && h.width >= 1 && h.offsetSize == 8 && Ends(h, rows) && rows >= 66
    ensures h.Follow(fuel, block, 65, within, size).Some?
  {
    assert h.RowSize(65) == U64_MAX;
    if h.maxDirect >= U64_MAX {
      AllRowsDirect(h);
    } else {
      ZeroStartRowsFor(h, 0);
    }
    FollowEnds(h, fuel, block, 65, within, size);
  }

  lemma WideStartEnds(h: Heap, fuel: nat, block: nat, row: nat, within: nat, size: nat)
    requires h.Aborts(h.width * h.start)
    ensures h.Follow(fuel, block, row, within, size).Some?
  {
    FirstRow(h);
    hide Heap.RowSize;
    assert h.RowsFor(h.RowSize(row), 0) == None;
    FollowEnds(h, fuel, block, row, within, size);
  }

  /** On every image and in every build, a lookup in such a table ends. */
  lemma LookupTerminates(h: Heap, addr: nat, rows: nat, off: nat, size: nat)
    requires h.start <= U64_MAX && Ends(h, rows)
    ensures h.Lookup(CallBound(h, rows, off), addr, rows, off, size).Some?
  {
    hide Heap.RowSize, Heap.Find, Heap.EntryStart, Heap.EntryAddress, Heap.Follow, Heap.Holds, Ends;
    h.FindHolds(rows, 0, 0, off);
    var fuel := CallBound(h, rows, off);
    var f := h.Find(rows, 0, 0, off);
    if !h.HasSignature(addr, FHIB) || !f.Entry? {
      h.LookupStops(fuel, addr, rows, off, size);
      return;
    }
    if 1 <= h.start <= h.maxDirect && h.width >= 1 {
      if h.checked {
        DirectStartEnds(h, fuel, addr, rows, off, size);
      } else {
        WrappingStartEnds(h, fuel, addr, rows, off, size);
      }
      return;
    }
    h.LookupAt(fuel, addr, rows, off, size, f.row, f.col);
    var entry := h.EntryAddress(addr, f.row, f.col);
    if entry.Ok? {
      EntryWidth(h, addr, f.row, f.col);
      StartCases(h, rows);
      if h.start == 0 {
        ZeroStartRows(h, rows, off);
        ZeroStartEnds(h, fuel - 1, entry.value, rows, off - h.EntryStart(f.row, f.col), size);
      } else {
        WideStartEnds(h, fuel - 1, entry.value, f.row, off - h.EntryStart(f.row, f.col), size);
      }
    }
  }

  lemma EntryWidth(h: Heap, addr: nat, row: nat, col: nat)
    requires h.EntryAddress(addr, row, col).Ok?
    ensures h.offsetSize == 8
  {
  }

  lemma StartCases(h: Heap, rows: nat)
    requires Ends(h, rows) && h.offsetSize == 8 && h.width >= 1 && rows >= 1
    ensures h.start == 0 || 1 <= h.start <= h.maxDirect || h.Aborts(h.width * h.start)
  {
  }

  /** The row in which a table that does not end finds offset 0. */
  function LoopRow(h: Heap): nat { if h.start == 0 then 65 else 0 }

  lemma FindsLoopRow(h: Heap, rows: nat)
    requires h.start <= U64_MAX && !Ends(h, rows)
    ensures h.Find(rows, 0, 0, 0) == Entry(LoopRow(h), 0) && h.EntryStart(LoopRow(h), 0) == 0
  {
    if h.start == 0 {
      ZeroStartFinds(h, rows, 0, 0, 0);
      Row65Holds(h, 0);
    } else {
      FirstRow(h);
      hide Heap.RowSize;
      assert h.Covered(0) == 0 && 0 * h.RowSize(0) == 0;
      assert h.Holds(0, 0, 0);
    }
  }

  /** Its sub-table reaches that row again. */
  lemma LoopRowFacts(h: Heap, rows: nat)
    requires h.start <= U64_MAX && !Ends(h, rows)
    ensures LoopRow(h) >= h.DirectRows()
    ensures var sub := h.RowsFor(h.RowSize(LoopRow(h)), 0);
      sub.Some? && sub.value > LoopRow(h) && !Ends(h, sub.value)
  {
    if h.start == 0 {
      assert h.RowSize(65) == U64_MAX;
      ZeroStartRowsFor(h, 0);
      DirectRowsFacts(h, 0);
    } else {
      FirstRow(h);
      TwoDirectRows(h);
      hide Heap.RowSize;
      MulAtLeast(h.width, h.start);
      assert h.Covered(0) == 0;
      if h.checked {
        assert h.Covered(1) == h.width * h.start;
      } else {
        RowsForFound(h, h.start, 1);
      }
    }
  }

  /** Otherwise any indirect block whose loop entry names the block itself sends
      the lookup into endless recursion. */
  lemma {:induction false} LookupDiverges(h: Heap, fuel: nat, addr: nat, rows: nat, size: nat)
    requires h.start <= U64_MAX && !Ends(h, rows)
    requires h.HasSignature(addr, FHIB) && h.EntryAddress(addr, LoopRow(h), 0) == Ok(addr)
    ensures h.Lookup(fuel, addr, rows, 0, size) == None
    decreases fuel
  {
    hide Heap.RowSize, Heap.Lookup, Heap.Find, Heap.EntryStart, Heap.EntryAddress, Heap.RowsFor, Heap.DirectRows;
    hide Ends, LoopRow;
    if fuel == 0 {
      h.NoFuel(addr, rows, 0, size);
    } else {
      var row := LoopRow(h);
      FindsLoopRow(h, rows);
      h.LookupAt(fuel, addr, rows, 0, size, row, 0);
      LoopRowFacts(h, rows);
      LookupDiverges(h, fuel - 1, addr, h.RowsFor(h.RowSize(row), 0).value, size);
    }
  }
}
