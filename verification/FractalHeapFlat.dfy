// The flat address space of a doubling table, and the theorem that looking an
// offset up reads that space.

module FractalHeapFlat {
  import opened Arithmetic
  import opened Common
  import opened Powers
  import opened FractalHeap

  /** Where one byte of the heap's address space is stored: the direct block that
      holds it, its position there, and the block's length. */
  datatype Cell = Cell(block: nat, pos: nat, length: nat)

  type Space = seq<Option<Cell>>

  /** Positive sizes, starting blocks direct, 8-byte entries, and a table of
      `rows` rows whose address space fits 64 bits. */
  predicate Regular(h: Heap, rows: nat) {
    && 1 <= h.start <= h.maxDirect
    && h.width >= 1
    && h.offsetSize == 8
    && Cover(h, rows) <= U64_MAX
  }

  /** Size of the address space of the first `rows` rows. */
  function Cover(h: Heap, rows: nat): nat {
    if rows == 0 then 0 else h.width * (h.start * Pow(2, rows - 1))
  }

  lemma CoverStep(h: Heap, row: nat)
    ensures h.width >= 1 && h.start >= 1 && Cover(h, row + 1) <= U64_MAX ==>
      Cover(h, row + 1) == Cover(h, row) + h.width * h.RowSize(row)
  {
    if h.width >= 1 && h.start >= 1 && Cover(h, row + 1) <= U64_MAX {
      StartFits(h, row);
      PowZero();
      FirstRow(h);
      if row > 0 {
        RowSizeBound(h, row);
        PowSucc(row - 1);
        DoublingStep(h.width, h.start, Pow(2, row - 1));
      } else {
        assert h.start * Pow(2, 0) == h.start;
      }
    }
  }

  lemma StartFits(h: Heap, row: nat)
    requires h.width >= 1 && h.start >= 1 && Cover(h, row + 1) <= U64_MAX
    ensures h.start <= U64_MAX
    ensures h.start * Pow(2, row) <= U64_MAX
    ensures row > 0 ==> h.start * Pow(2, row - 1) <= U64_MAX
    ensures row < 64
  {
    hide Pow;
    Pow64();
    if row >= 64 {
      PowMonotone(2, 64, row);
    }
    MulAtLeast(h.start, Pow(2, row));
    MulAtLeast(h.width, h.start * Pow(2, row));
    MulCommutes(h.start, Pow(2, row));
    MulAtLeast(Pow(2, row), h.start);
    if row > 0 {
      PowSucc(row - 1);
      DoublingStep(h.width, h.start, Pow(2, row - 1));
    }
  }

  lemma MulCommutes(a: nat, b: nat)
    ensures a * b == b * a
  {
  }

  lemma {:induction false} CoverMonotone(h: Heap, a: nat, b: nat)
    requires h.width >= 1 && h.start >= 1 && a <= b && Cover(h, b) <= U64_MAX
    ensures Cover(h, a) <= Cover(h, b)
    decreases b
  {
    hide Cover, Heap.RowSize;
    if a < b {
      CoverStep(h, b - 1);
      assert h.width * h.RowSize(b - 1) >= 0;
      CoverMonotone(h, a, b - 1);
    }
  }

  lemma {:induction false} CoveredIsCover(h: Heap, row: nat)
    requires h.width >= 1 && h.start >= 1 && Cover(h, row) <= U64_MAX
    ensures h.Covered(row) == Cover(h, row)
  {
    hide Cover, Heap.RowSize;
    if row > 0 {
      CoverStep(h, row - 1);
      CoverMonotone(h, row - 1, row);
      CoveredIsCover(h, row - 1);
    } else {
      assert Cover(h, 0) == 0 by { NoCover(h); }
    }
  }

  lemma NoCover(h: Heap)
    ensures Cover(h, 0) == 0
  {
  }

  lemma WidthFits(h: Heap, row: nat, col: nat)
    requires h.width >= 1 && h.start >= 1 && Cover(h, row + 1) <= U64_MAX && col <= h.width
    ensures col * h.RowSize(row) <= h.width * h.RowSize(row) <= U64_MAX
  {
    hide Cover, Heap.RowSize;
    CoverStep(h, row);
    MulMonotone(col, h.width, h.RowSize(row));
  }

  lemma CoverFits(h: Heap, row: nat)
    requires Regular(h, row + 1) && row >= 1
    ensures NoWrap(h, row)
  {
    CoverMonotone(h, row, row + 1);
  }

  /** A table that fits keeps fitting with fewer rows, and the sub-table of one
      of its rows fits and covers a block of that row. */
  lemma SubTable(h: Heap, row: nat)
    requires Regular(h, row + 1) && row >= h.DirectRows()
    ensures h.RowsFor(h.RowSize(row), 0).Some?
    ensures 1 <= SubRows(h, row) <= row
    ensures Regular(h, SubRows(h, row))
    ensures Cover(h, SubRows(h, row)) >= h.RowSize(row)
  {
    hide Cover, Heap.RowSize, Heap.RowsFor, Heap.DirectRows;
    TwoDirectRows(h);
    StartFits(h, row);
    assert NoWrap(h, row) by { CoverFits(h, row); }
    SubRowsBound(h, row);
    CoverMonotone(h, row, row + 1);
    CoveredIsCover(h, row);
    CoverageGrows(h, row);
    RowSizeBound(h, row);
    RowsForCovers(h, h.RowSize(row), 0, row);
    var sub := SubRows(h, row);
    CoverMonotone(h, sub, row + 1);
    CoveredIsCover(h, sub);
  }

  /** Rows of the table below an indirect entry of `row`. */
  function SubRows(h: Heap, row: nat): nat {
    var n := h.RowsFor(h.RowSize(row), 0);
    if n.Some? then n.value else 0
  }

  lemma {:induction false} RowsForCovers(h: Heap, size: nat, n: nat, row: nat)
    requires n < row <= 256 && h.Covered(row) >= size
    requires h.width >= 1 && h.start >= 1 && Cover(h, row) <= U64_MAX
    ensures h.RowsFor(size, n).Some? && h.Covered(h.RowsFor(size, n).value) >= size
    decreases row - n
  {
    hide Heap.Covered, Heap.RowSize, Cover;
    CoverMonotone(h, n + 1, row);
    WidthFits(h, n, 0);
    if h.Covered(n + 1) < size {
      RowsForCovers(h, size, n + 1, row);
    }
  }

  // ------------------------------------------------------------------
  // The flat space
  // ------------------------------------------------------------------

  function Holes(n: nat): (s: Space)
    ensures |s| == n && forall i :: 0 <= i < n ==> s[i] == None
  {
    seq(n, i => None)
  }

  function DirectCells(addr: nat, length: nat): (s: Space)
    ensures |s| == length && forall i :: 0 <= i < length ==> s[i] == Some(Cell(addr, i, length))
  {
    seq(length, i requires 0 <= i => Some(Cell(addr, i, length)))
  }

  /** The address space below one table entry: a direct block's bytes, the
      beginning of a sub-table's space, or a hole. */
  ghost function EntryCells(h: Heap, base: nat, row: nat, col: nat): (s: Space)
    requires Regular(h, row + 1)
    ensures |s| == h.RowSize(row)
    decreases row + 1, 0, 0
  {
    hide Regular, Cover, Heap.RowSize, SubRows, Heap.DirectRows, Heap.EntryAddress;
    match h.EntryAddress(base, row, col)
    case Err(_) => Holes(h.RowSize(row))
    case Ok(addr) =>
      if row < h.DirectRows() then
        if h.HasSignature(addr, FHDB) then DirectCells(addr, h.RowSize(row)) else Holes(h.RowSize(row))
      else
        SubTable(h, row);
        Flat(h, addr, SubRows(h, row))[..h.RowSize(row)]
  }

  /** The first `cols` entries of one row, side by side. */
  ghost function RowCells(h: Heap, base: nat, row: nat, cols: nat): (s: Space)
    requires Regular(h, row + 1)
    ensures |s| == cols * h.RowSize(row)
    decreases row + 1, 1, cols
  {
    hide Regular, Heap.RowSize;
    if cols == 0 then []
    else
      MulStep(cols, h.RowSize(row));
      RowCells(h, base, row, cols - 1) + EntryCells(h, base, row, cols - 1)
  }

  /** All rows, one after another. */
  ghost function TableCells(h: Heap, base: nat, rows: nat): (s: Space)
    requires Regular(h, rows)
    ensures |s| == Cover(h, rows)
    decreases rows, 2, 0
  {
    if rows == 0 then []
    else
      CoverStep(h, rows - 1);
      CoverMonotone(h, rows - 1, rows);
      hide Cover, Heap.RowSize;
      TableCells(h, base, rows - 1) + RowCells(h, base, rows - 1, h.width)
  }

  /** The address space of the indirect block at `addr`. */
  ghost function Flat(h: Heap, addr: nat, rows: nat): (s: Space)
    requires Regular(h, rows)
    ensures |s| == Cover(h, rows)
    decreases rows, 3, 0
  {
    if h.HasSignature(addr, FHIB) then TableCells(h, addr, rows) else Holes(Cover(h, rows))
  }

  /** Reading `size` bytes from where a cell is stored. */
  function ReadCell(h: Heap, space: Space, off: nat, size: nat): Result<seq<Byte>> {
    if off >= |space| || space[off].None? then Err(Format)
    else
      var c := space[off].value;
      var at := c.block + c.pos;
      if at + size <= |h.file| then Ok(h.file[at..at + size]) else Err(Format)
  }

  // ------------------------------------------------------------------
  // Intervals
  // ------------------------------------------------------------------

  /** Where the entry (`row`, `col`) begins, without saturation. */
  function Offset(h: Heap, row: nat, col: nat): nat {
    hide Cover, Heap.RowSize;
    Cover(h, row) + col * h.RowSize(row)
  }

  lemma EntryFits(h: Heap, rows: nat, row: nat, col: nat)
    requires Regular(h, rows) && row < rows && col < h.width
    ensures Cover(h, row) <= Offset(h, row, col)
    ensures Offset(h, row, col) + h.RowSize(row) <= Cover(h, row + 1) <= Cover(h, rows)
    ensures h.EntryStart(row, col) == Offset(h, row, col)
    ensures h.EntryEnd(row, col) == Offset(h, row, col) + h.RowSize(row)
  {
    hide Cover, Heap.RowSize, Heap.Covered;
    CoverMonotone(h, row + 1, rows);
    CoverMonotone(h, row, rows);
    CoverStep(h, row);
    CoveredIsCover(h, row);
    StepFits(col, h.width, h.RowSize(row), h.width * h.RowSize(row));
  }

  /** Entries in row-major order. */
  predicate Before(row: nat, col: nat, row': nat, col': nat) { row < row' || (row == row' && col < col') }

  lemma EntriesOrdered(h: Heap, rows: nat, row: nat, col: nat, row': nat, col': nat)
    requires Regular(h, rows) && row < rows && row' < rows && col < h.width && col' < h.width
    requires Before(row, col, row', col')
    ensures Offset(h, row, col) + h.RowSize(row) <= Offset(h, row', col')
  {
    hide Cover, Heap.RowSize, Offset;
    EntryFits(h, rows, row, col);
    if row < row' {
      EntryFits(h, rows, row', col');
      CoverMonotone(h, row', rows);
      CoverMonotone(h, row + 1, row');
    } else {
      SameRowOrdered(h, row, col, col');
    }
  }

  lemma SameRowOrdered(h: Heap, row: nat, col: nat, col': nat)
    requires col < col'
    ensures Offset(h, row, col) + h.RowSize(row) <= Offset(h, row, col')
  {
    hide Cover, Heap.RowSize;
    StepFits(col, col', h.RowSize(row), col' * h.RowSize(row));
  }

  /** The search finds an entry exactly for offsets below the table's cover. */
  lemma {:induction false} FindIsTotal(h: Heap, rows: nat, row: nat, col: nat, off: nat)
    requires Regular(h, rows) && row <= rows && col <= h.width && (row == rows ==> col == 0)
    requires Offset(h, row, col) <= off
    ensures if off < Cover(h, rows) then h.Find(rows, row, col, off).Entry? else h.Find(rows, row, col, off) == Absent
    decreases rows - row, h.width - col
  {
    hide Cover, Heap.RowSize, Heap.Covered, Heap.EntryStart, Heap.EntryEnd, Heap.Find;
    if row == rows {
      assert 0 * h.RowSize(row) == 0;
      h.FindEnds(rows, off);
    } else if col == h.width {
      h.FindStep(rows, row, col, off);
      CoverMonotone(h, row + 1, rows);
      WidthFits(h, row, col);
      CoverStep(h, row);
      assert 0 * h.RowSize(row + 1) == 0;
      FindIsTotal(h, rows, row + 1, 0, off);
    } else {
      h.FindStep(rows, row, col, off);
      CoverMonotone(h, row + 1, rows);
      WidthFits(h, row, col);
      EntryFits(h, rows, row, col);
      if !h.Holds(row, col, off) {
        MulStep(col + 1, h.RowSize(row));
        FindIsTotal(h, rows, row, col + 1, off);
      }
    }
  }

  predicate InEntry(h: Heap, rows: nat, row: nat, col: nat, off: nat) {
    row < rows && col < h.width && h.Holds(row, col, off)
  }

  /** The (row, column) intervals cover exactly [0, width * start * 2^(rows-1)). */
  lemma IntervalsCover(h: Heap, rows: nat, off: nat)
    requires Regular(h, rows)
    ensures off < Cover(h, rows) <==> exists row: nat, col: nat :: InEntry(h, rows, row, col, off)
  {
    hide Cover, Heap.RowSize, Heap.Covered, Heap.EntryStart, Heap.EntryEnd, Offset;
    FirstOffset(h);
    FindIsTotal(h, rows, 0, 0, off);
    h.FindHolds(rows, 0, 0, off);
    if off < Cover(h, rows) {
      var row, col := h.Find(rows, 0, 0, off).row, h.Find(rows, 0, 0, off).col;
      assert InEntry(h, rows, row, col, off);
    }
    forall row: nat, col: nat | InEntry(h, rows, row, col, off) ensures off < Cover(h, rows) {
      EntryFits(h, rows, row, col);
    }
  }

  /** They do not overlap. */
  lemma IntervalsDisjoint(h: Heap, rows: nat, off: nat, row: nat, col: nat, row': nat, col': nat)
    requires Regular(h, rows) && InEntry(h, rows, row, col, off) && InEntry(h, rows, row', col', off)
    ensures row == row' && col == col'
  {
    hide Cover, Heap.RowSize, Heap.Covered, Heap.EntryStart, Heap.EntryEnd, Offset;
    EntryFits(h, rows, row, col);
    EntryFits(h, rows, row', col');
    if Before(row, col, row', col') {
      EntriesOrdered(h, rows, row, col, row', col');
    } else if Before(row', col', row, col) {
      EntriesOrdered(h, rows, row', col', row, col);
    }
  }

  lemma FirstOffset(h: Heap)
    ensures Offset(h, 0, 0) == 0
  {
    assert 0 * h.RowSize(0) == 0;
  }

  // ------------------------------------------------------------------
  // The lookup reads the flat space
  // ------------------------------------------------------------------

  lemma {:induction false} RowCellsAt(h: Heap, base: nat, row: nat, cols: nat, col: nat, i: nat, at: nat)
    requires Regular(h, row + 1) && col < cols && i < h.RowSize(row) && at == col * h.RowSize(row) + i
    ensures at < |RowCells(h, base, row, cols)|
    ensures RowCells(h, base, row, cols)[at] == EntryCells(h, base, row, col)[i]
    decreases cols
  {
    hide Regular, Heap.RowSize, EntryCells;
    MulStep(cols, h.RowSize(row));
    if col < cols - 1 {
      RowCellsAt(h, base, row, cols - 1, col, i, at);
    }
  }

  lemma TableSplit(h: Heap, base: nat, row: nat, at: nat)
    requires Regular(h, row + 1) && at < Cover(h, row + 1)
    ensures Regular(h, row)
    ensures at < Cover(h, row) ==> TableCells(h, base, row + 1)[at] == TableCells(h, base, row)[at]
    ensures at >= Cover(h, row) ==>
      (at - Cover(h, row) < |RowCells(h, base, row, h.width)|
       && TableCells(h, base, row + 1)[at] == RowCells(h, base, row, h.width)[at - Cover(h, row)])
  {
    hide Cover, Heap.RowSize, RowCells;
    CoverMonotone(h, row, row + 1);
    assert TableCells(h, base, row + 1) == TableCells(h, base, row) + RowCells(h, base, row, h.width);
  }

  lemma {:induction false} TableCellsAt(h: Heap, base: nat, rows: nat, row: nat, col: nat, i: nat, at: nat)
    requires Regular(h, rows) && row < rows && col < h.width && i < h.RowSize(row)
    requires at == Offset(h, row, col) + i
    ensures Regular(h, row + 1)
    ensures at < Cover(h, rows)
    ensures TableCells(h, base, rows)[at] == EntryCells(h, base, row, col)[i]
    decreases rows
  {
    hide Cover, Heap.RowSize, EntryCells, RowCells, TableCells;
    CoverMonotone(h, row + 1, rows);
    EntryFits(h, rows, row, col);
    TableSplit(h, base, rows - 1, at);
    if row < rows - 1 {
      CoverMonotone(h, row + 1, rows - 1);
      hide Offset;
      TableCellsAt(h, base, rows - 1, row, col, i, at);
    } else {
      assert col * h.RowSize(row) >= 0;
      RowCellsAt(h, base, row, h.width, col, i, at - Cover(h, row));
    }
  }

  /** Main result: with enough nested calls, looking an offset up is reading the
      flat space there; holes and offsets beyond the table are errors. */
  lemma {:induction false} LookupReadsFlat(h: Heap, fuel: nat, addr: nat, rows: nat, off: nat, size: nat)
    requires Regular(h, rows) && fuel > rows
    ensures h.Lookup(fuel, addr, rows, off, size) == Some(ReadCell(h, Flat(h, addr, rows), off, size))
    decreases fuel, 1
  {
    hide Cover, Heap.RowSize, Heap.Find, Heap.Lookup, Heap.Follow, Heap.EntryStart, Offset, ReadCell, TableCells, EntryCells;
    if !h.HasSignature(addr, FHIB) {
      h.LookupStops(fuel, addr, rows, off, size);
      ReadHole(h, Flat(h, addr, rows), off, size);
      return;
    }
    FirstOffset(h);
    FindIsTotal(h, rows, 0, 0, off);
    h.FindHolds(rows, 0, 0, off);
    if off >= Cover(h, rows) {
      h.LookupStops(fuel, addr, rows, off, size);
      ReadHole(h, Flat(h, addr, rows), off, size);
      return;
    }
    var row, col := h.Find(rows, 0, 0, off).row, h.Find(rows, 0, 0, off).col;
    h.LookupAt(fuel, addr, rows, off, size, row, col);
    EntryFits(h, rows, row, col);
    var within := off - Offset(h, row, col);
    TableCellsAt(h, addr, rows, row, col, within, off);
    SameCell(h, Flat(h, addr, rows), off, EntryCells(h, addr, row, col), within, size);
    EntryReads(h, fuel, addr, row, col, within, size);
  }

  lemma SameCell(h: Heap, a: Space, i: nat, b: Space, j: nat, size: nat)
    requires i < |a| && j < |b| && a[i] == b[j]
    ensures ReadCell(h, a, i, size) == ReadCell(h, b, j, size)
  {
  }

  /** Following one entry is reading the cells below it. */
  lemma {:induction false} EntryReads(h: Heap, fuel: nat, base: nat, row: nat, col: nat, within: nat, size: nat)
    requires Regular(h, row + 1) && fuel > row + 1 && within < h.RowSize(row)
    ensures Some(ReadCell(h, EntryCells(h, base, row, col), within, size)) ==
      match h.EntryAddress(base, row, col)
      case Err(e) => Some(Err(e))
      case Ok(block) => h.Follow(fuel - 1, block, row, within, size)
    decreases fuel, 0
  {
    hide Regular, Cover, Heap.RowSize, Heap.Lookup, Heap.RowsFor, Heap.DirectRows, Flat;
    EntryError(h, base, row, col);
    hide Heap.EntryAddress;
    var entry := h.EntryAddress(base, row, col);
    if entry.Ok? && row >= h.DirectRows() {
      SubTable(h, row);
      var sub := SubRows(h, row);
      LookupReadsFlat(h, fuel - 1, entry.value, sub, within, size);
      SameCell(h, Flat(h, entry.value, sub), within, EntryCells(h, base, row, col), within, size);
    }
  }

  lemma EntryError(h: Heap, base: nat, row: nat, col: nat)
    ensures h.EntryAddress(base, row, col).Err? ==> h.EntryAddress(base, row, col) == Err(Format)
  {
  }

  lemma ReadHole(h: Heap, space: Space, off: nat, size: nat)
    requires off < |space| ==> space[off] == None
    ensures ReadCell(h, space, off, size) == Err(Format)
  {
  }

  // ------------------------------------------------------------------
  // Objects
  // ------------------------------------------------------------------

  /** Size of a row without the two rows' special case. */
  function Doublings(row: nat): nat { if row == 0 then 0 else row - 1 }

  lemma PlainRowSize(h: Heap, row: nat)
    requires Regular(h, row + 1)
    ensures h.RowSize(row) == h.start * Pow(2, Doublings(row))
  {
    hide Cover;
    StartFits(h, row);
    FirstRow(h);
    hide Heap.RowSize;
    if row == 0 {
      PowZero();
      assert h.start * Pow(2, 0) == h.start;
    } else {
      RowSizeBound(h, row);
    }
  }

  /** Every entry begins at a multiple of its own size. */
  lemma EntryAligned(h: Heap, row: nat, col: nat)
    requires Regular(h, row + 1)
    ensures exists q: nat :: Offset(h, row, col) == q * h.RowSize(row)
  {
    PlainRowSize(h, row);
    hide Heap.RowSize;
    if row == 0 {
      assert Offset(h, row, col) == col * h.RowSize(row);
    } else {
      assert Cover(h, row) == h.width * h.RowSize(row);
      Distribute(h.width, col, h.RowSize(row));
      assert Offset(h, row, col) == (h.width + col) * h.RowSize(row);
    }
  }

  lemma Distribute(a: nat, b: nat, p: nat)
    ensures a * p + b * p == (a + b) * p
  {
  }

  lemma RowSizeMultiple(h: Heap, big: nat, small: nat)
    requires Regular(h, big + 1) && Regular(h, small + 1) && 1 <= big && small <= big
    ensures exists k: nat :: h.RowSize(big) == k * h.RowSize(small)
  {
    hide Cover, Pow;
    PlainRowSize(h, big);
    PlainRowSize(h, small);
    hide Heap.RowSize;
    var k := Pow(2, Doublings(big) - Doublings(small));
    PowAdd(2, Doublings(big) - Doublings(small), Doublings(small));
    Regroup(h.start, k, Pow(2, Doublings(small)));
    assert h.RowSize(big) == k * h.RowSize(small);
  }

  lemma Regroup(a: nat, b: nat, c: nat)
    ensures a * (b * c) == b * (a * c)
  {
    assert a * (b * c) == a * b * c == b * a * c == b * (a * c);
  }

  /** A sub-table is cut off between two of its entries, never inside one. */
  lemma CutBetweenEntries(h: Heap, row: nat, row': nat, col: nat)
    requires Regular(h, row + 1) && Regular(h, row' + 1) && 1 <= row && row' <= row
    requires Offset(h, row', col) < h.RowSize(row)
    ensures Offset(h, row', col) + h.RowSize(row') <= h.RowSize(row)
  {
    hide Regular, Cover, Offset, Heap.RowSize;
    EntryAligned(h, row', col);
    RowSizeMultiple(h, row, row');
    var size := h.RowSize(row');
    var q: nat :| Offset(h, row', col) == q * size;
    var k: nat :| h.RowSize(row) == k * size;
    CancelLess(q, k, size);
    StepFits(q, k, size, k * size);
  }

  /** Inside one direct block the flat space runs on without a break. */
  lemma {:induction false} BlockContinues(h: Heap, addr: nat, rows: nat, row: nat, col: nat, off: nat, k: nat)
    requires Regular(h, rows) && InEntry(h, rows, row, col, off)
    requires off < Cover(h, rows) && Flat(h, addr, rows)[off].Some?
    requires Flat(h, addr, rows)[off].value.pos + k < Flat(h, addr, rows)[off].value.length
    ensures off + k < Offset(h, row, col) + h.RowSize(row) <= Cover(h, rows)
    ensures var c := Flat(h, addr, rows)[off].value;
      Flat(h, addr, rows)[off + k] == Some(Cell(c.block, c.pos + k, c.length))
    decreases rows, 1
  {
    hide Cover, Heap.RowSize, Heap.EntryStart, Heap.EntryEnd, Offset, EntryCells, TableCells;
    assert h.HasSignature(addr, FHIB);
    EntryFits(h, rows, row, col);
    CoverMonotone(h, row + 1, rows);
    var within := off - Offset(h, row, col);
    TableCellsAt(h, addr, rows, row, col, within, off);
    EntryContinues(h, addr, row, col, within, k);
    TableCellsAt(h, addr, rows, row, col, within + k, off + k);
  }

  lemma {:induction false} EntryContinues(h: Heap, base: nat, row: nat, col: nat, within: nat, k: nat)
    requires Regular(h, row + 1) && within < h.RowSize(row)
    requires EntryCells(h, base, row, col)[within].Some?
    requires EntryCells(h, base, row, col)[within].value.pos + k < EntryCells(h, base, row, col)[within].value.length
    ensures within + k < h.RowSize(row)
    ensures var c := EntryCells(h, base, row, col)[within].value;
      EntryCells(h, base, row, col)[within + k] == Some(Cell(c.block, c.pos + k, c.length))
    decreases row + 1, 0
  {
    hide Regular, Cover, Offset, Heap.RowSize, SubRows, Heap.DirectRows, Heap.EntryAddress, Heap.Holds, Flat;
    var entry := h.EntryAddress(base, row, col);
    if entry.Ok? && row >= h.DirectRows() {
      SubTable(h, row);
      var sub := SubRows(h, row);
      IntervalsCover(h, sub, within);
      var row': nat, col': nat :| InEntry(h, sub, row', col', within);
      BlockContinues(h, entry.value, sub, row', col', within, k);
      assert Regular(h, row' + 1) && Offset(h, row', col') <= within by { EntryBegins(h, sub, row', col', within); }
      CutBetweenEntries(h, row, row', col');
    }
  }

  lemma EntryBegins(h: Heap, rows: nat, row: nat, col: nat, off: nat)
    requires Regular(h, rows) && InEntry(h, rows, row, col, off)
    ensures Regular(h, row + 1) && Offset(h, row, col) <= off
  {
    hide Cover, Heap.RowSize, Heap.EntryStart, Heap.EntryEnd, Offset;
    EntryFits(h, rows, row, col);
    CoverMonotone(h, row + 1, rows);
  }

  /** The cells of `size` consecutive bytes of one block, from `c` on. */
  function CellsFrom(c: Cell, size: nat): (s: Space)
    ensures |s| == size
  {
    seq(size, i requires 0 <= i => Some(Cell(c.block, c.pos + i, c.length)))
  }

  /** An object that stays inside one allocated direct block is found whole: the
      lookup returns the bytes behind flat[off..off + size]. */
  lemma ObjectIsFlatSlice(h: Heap, fuel: nat, addr: nat, rows: nat, off: nat, size: nat, c: Cell)
    requires Regular(h, rows) && fuel > rows
    requires off < Cover(h, rows) && Flat(h, addr, rows)[off] == Some(c)
    requires c.pos + size <= c.length && c.block + c.length <= |h.file|
    ensures h.Lookup(fuel, addr, rows, off, size) == Some(Ok(h.file[c.block + c.pos..c.block + c.pos + size]))
    ensures off + size <= Cover(h, rows) && Flat(h, addr, rows)[off..off + size] == CellsFrom(c, size)
  {
    hide Regular, Cover, Offset, Heap.RowSize, Heap.Lookup, Heap.Holds, Flat;
    LookupReadsFlat(h, fuel, addr, rows, off, size);
    IntervalsCover(h, rows, off);
    var row: nat, col: nat :| InEntry(h, rows, row, col, off);
    var flat := Flat(h, addr, rows);
    if size > 0 {
      BlockContinues(h, addr, rows, row, col, off, size - 1);
      forall i: nat | i < size ensures flat[off..off + size][i] == CellsFrom(c, size)[i] {
        BlockContinues(h, addr, rows, row, col, off, i);
      }
    }
  }
}
