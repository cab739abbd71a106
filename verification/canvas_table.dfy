/**
  The canvas grid: its layout arithmetic, the text of each cell and label, and the
  table state whose heat array marks changed cells and fades while they are painted.
*/
module CanvasTable {
  import opened Wrappers
  import opened Numerals
  import opened DataType

  lemma SizePositive(t: DataType)
    ensures Size(t) >= 1
  {
  }

  /** `cellCount`: how many whole cells of the format the buffer holds. */
  function CellCount(byteLength: nat, t: DataType): (n: nat)
    ensures n * Size(t) <= byteLength < (n + 1) * Size(t)
  {
    SizePositive(t);
    byteLength / Size(t)
  }

  // ---------------------------------------------------------------------
  // Layout

  /** The horizontal layout `drawTable` derives from the content width and the minimum cell width. */
  datatype Layout = Layout(
    cellsPerRow: nat,
    cellWidth: int,
    extraCellWidth: int,
    wPad: int,
    leftoverWidth: int,
    contentPadding: int)

  function ComputeLayout(contentWidth: int, minCellWidth: nat): (l: Layout)
    requires minCellWidth > 0
    ensures l.cellsPerRow >= 1
  {
    var cellsPerRow := Max(1, FloorDiv(contentWidth, minCellWidth));
    var spareWidth := contentWidth - cellsPerRow * minCellWidth;
    var extraCellWidth := FloorDiv(spareWidth, cellsPerRow);
    var cellWidth := minCellWidth + FloorDiv(spareWidth, cellsPerRow);
    var wPad := CeilDiv(extraCellWidth, 2);
    var leftoverWidth := contentWidth - cellsPerRow * cellWidth;
    Layout(cellsPerRow, cellWidth, extraCellWidth, wPad, leftoverWidth, FloorDiv(leftoverWidth, 2))
  }

  /** At least one cell per row for any content width. When one cell fits, the row holds as
      many minimum-width cells as fit, each cell is at least the minimum width, the widened
      cells still fit, and what is left over is less than one pixel per cell and is split
      into a non-negative margin. */
  lemma LayoutProperties(contentWidth: int, minCellWidth: nat)
    requires minCellWidth > 0
    ensures var l := ComputeLayout(contentWidth, minCellWidth);
            l.cellsPerRow >= 1
            && (contentWidth >= minCellWidth ==>
                  l.cellsPerRow * minCellWidth <= contentWidth < (l.cellsPerRow + 1) * minCellWidth
                  && l.cellWidth >= minCellWidth
                  && l.cellsPerRow * l.cellWidth <= contentWidth
                  && 0 <= l.leftoverWidth < l.cellsPerRow
                  && l.contentPadding >= 0 && 2 * l.contentPadding <= l.leftoverWidth)
  {
    if contentWidth >= minCellWidth {
      WideLayout(contentWidth, minCellWidth);
    }
  }

  lemma WideLayout(contentWidth: int, minCellWidth: nat)
    requires 0 < minCellWidth <= contentWidth
    ensures var l := ComputeLayout(contentWidth, minCellWidth);
            l.cellsPerRow * minCellWidth <= contentWidth < (l.cellsPerRow + 1) * minCellWidth
            && l.cellWidth >= minCellWidth
            && l.cellsPerRow * l.cellWidth <= contentWidth
            && 0 <= l.leftoverWidth < l.cellsPerRow
            && l.contentPadding >= 0 && 2 * l.contentPadding <= l.leftoverWidth
  {
    var n := FloorDiv(contentWidth, minCellWidth);
    DivAtLeastOne(contentWidth, minCellWidth);
    assert ComputeLayout(contentWidth, minCellWidth).cellsPerRow == n;
    Widen(n, minCellWidth, contentWidth - n * minCellWidth);
  }

  /** Sharing `spare` pixels among `n` cells of width `w` keeps them inside `n * w + spare`
      and leaves less than one pixel per cell. */
  lemma Widen(n: nat, w: nat, spare: int)
    requires n >= 1 && spare >= 0
    ensures var e := FloorDiv(spare, n);
            && e >= 0
            && n * (w + e) <= n * w + spare
            && 0 <= n * w + spare - n * (w + e) < n
  {
    var e := FloorDiv(spare, n);
    MulSign(e, n);
    assert n * (w + e) == n * w + n * e;
  }

  /** `byteOffset(row, column)`: rows are `cellsPerRow * typeSize` bytes apart, so the cell
      at (row, column) starts at cell index `row * cellsPerRow + column`. */
  function ByteOffset(row: int, column: nat, cellsPerRow: nat, typeSize: nat): (offset: int)
    ensures offset == (row * cellsPerRow + column) * typeSize
    ensures row >= 0 ==> offset >= 0
  {
    assert row * (cellsPerRow * typeSize) == (row * cellsPerRow) * typeSize;
    row * (cellsPerRow * typeSize) + column * typeSize
  }

  /** A cell in a row above row 0 starts at a negative byte offset whose bytes end at or
      before offset 0, so the `"??"` test lets it through and its bytes are read at a
      negative index. */
  lemma NegativeRowOffset(row: int, column: nat, cellsPerRow: nat, typeSize: nat)
    requires row < 0 && column < cellsPerRow && typeSize >= 1
    ensures ByteOffset(row, column, cellsPerRow, typeSize) < 0
    ensures ByteOffset(row, column, cellsPerRow, typeSize) + typeSize <= 0
  {
    MulMono(row, -1, cellsPerRow);
    MulMono(row * cellsPerRow + column + 1, 0, typeSize);
  }

  /** `formatValue(row, column)`: the cell text at the cell's byte offset. */
  function FormatValue(data: seq<byte>, t: DataType, hex: bool, cellsPerRow: nat, row: nat, column: nat,
                       printFloat: FloatPrinter): (text: string)
    ensures IsIntegral(t) ==>
              (text == "??" <==> (row * cellsPerRow + column) * Size(t) + Size(t) > |data|)
  {
    var offset: nat := ByteOffset(row, column, cellsPerRow, Size(t));
    FormatCellPlaceholderAll(t, data, offset, hex, printFloat);
    FormatCell(t, data, offset, hex, printFloat)
  }

  lemma FormatCellPlaceholderAll(t: DataType, data: seq<byte>, offset: nat, hex: bool, printFloat: FloatPrinter)
    ensures IsIntegral(t) ==> (FormatCell(t, data, offset, hex, printFloat) == "??" <==> offset + Size(t) > |data|)
  {
    if IsIntegral(t) {
      FormatCellPlaceholder(t, data, offset, hex, printFloat);
    }
  }

  /** The address column's text for a row: the row's first address in upper-case hexadecimal. */
  function AddressLabel(baseAddress: int, row: nat, bytesPerRow: nat): string
  {
    ToUpper(IntToString(baseAddress + row * bytesPerRow, 16))
  }

  /** An address label reads back as the base address plus the row's byte offset. */
  lemma AddressLabelParses(baseAddress: int, row: nat, bytesPerRow: nat)
    ensures ParseInt(AddressLabel(baseAddress, row, bytesPerRow), 16) == Some(baseAddress + row * bytesPerRow)
  {
    ParseUpperIntToString(baseAddress + row * bytesPerRow, 16);
  }

  /** The header over a column: that column's byte offset within a row, via `formatHex`. */
  function OffsetHeader(column: nat, typeSize: nat): string
  {
    FormatHex(column * typeSize)
  }

  /** Everything `drawTable` computes from its inputs before it paints. */
  datatype Frame = Frame(
    firstRow: int,
    lastRow: int,
    contentWidth: int,
    minCellWidth: nat,
    layout: Layout,
    rowCount: int,
    bytesPerRow: nat,
    tableHeight: int)

  /** The geometry of one frame. The address column's width (measured text), the row height
      (a style variable), the scroll position and the client size are inputs. */
  function ComputeFrame(t: DataType, hex: bool, byteLength: nat, clientWidth: int, clientHeight: int,
                        scrollTop: int, addressWidth: int, rowHeight: nat): (f: Frame)
    requires rowHeight > 0
    ensures f.layout.cellsPerRow >= 1
    ensures f.bytesPerRow == f.layout.cellsPerRow * Size(t)
  {
    var contentWidth := clientWidth - addressWidth;
    var minCellWidth := CellWidth(t, hex);
    CellWidthPositive(t, hex);
    var layout := ComputeLayout(contentWidth, minCellWidth);
    var rowCount := CeilDiv(byteLength, layout.cellsPerRow);
    var tableHeight := Max((rowCount + 1) * rowHeight, CeilDiv(clientHeight, rowHeight) * rowHeight);
    Frame(FloorDiv(scrollTop, rowHeight), CeilDiv(scrollTop + clientHeight, rowHeight), contentWidth,
          minCellWidth, layout, rowCount, layout.cellsPerRow * Size(t), tableHeight)
  }

  /** The painted rows cover the viewport: row `firstRow` starts at or above its top and row
      `lastRow` starts at or below its bottom; the table is tall enough for a header row and
      `rowCount` rows, where `rowCount` divides the byte length (not the cell count) by the
      cells per row. */
  lemma FrameProperties(t: DataType, hex: bool, byteLength: nat, clientWidth: int, clientHeight: int,
                        scrollTop: int, addressWidth: int, rowHeight: nat)
    requires rowHeight > 0
    ensures var f := ComputeFrame(t, hex, byteLength, clientWidth, clientHeight, scrollTop, addressWidth, rowHeight);
            f.firstRow * rowHeight <= scrollTop < (f.firstRow + 1) * rowHeight
            && (f.lastRow - 1) * rowHeight < scrollTop + clientHeight <= f.lastRow * rowHeight
            && (f.rowCount - 1) * f.layout.cellsPerRow < byteLength <= f.rowCount * f.layout.cellsPerRow
            && f.tableHeight >= (f.rowCount + 1) * rowHeight
            && f.tableHeight >= clientHeight
  {
    var f := ComputeFrame(t, hex, byteLength, clientWidth, clientHeight, scrollTop, addressWidth, rowHeight);
    CellWidthPositive(t, hex);
    var n := f.layout.cellsPerRow;
    assert n == ComputeLayout(clientWidth - addressWidth, CellWidth(t, hex)).cellsPerRow;
    assert f.rowCount == CeilDiv(byteLength, n);
    assert f.firstRow == FloorDiv(scrollTop, rowHeight);
    assert f.lastRow == CeilDiv(scrollTop + clientHeight, rowHeight);
    var c := CeilDiv(clientHeight, rowHeight);
    assert f.tableHeight == Max((f.rowCount + 1) * rowHeight, c * rowHeight);
  }

  // ---------------------------------------------------------------------
  // Heat

  /** Byte `i` lies in both buffers and differs between them. */
  predicate ByteChanged(prev: seq<byte>, cur: seq<byte>, i: int)
  {
    0 <= i < |prev| && 0 <= i < |cur| && prev[i] != cur[i]
  }

  /** Some byte below `limit` that belongs to cell `k` (of `typeSize` bytes) changed. */
  predicate CellChanged(prev: seq<byte>, cur: seq<byte>, typeSize: nat, k: int, limit: int)
    requires typeSize > 0
  {
    exists i :: 0 <= i < limit && i / typeSize == k && ByteChanged(prev, cur, i)
  }

  /** Looking at one more byte marks exactly that byte's cell, if the byte changed. */
  lemma CellChangedStep(prev: seq<byte>, cur: seq<byte>, typeSize: nat, i: nat)
    requires typeSize > 0
    ensures forall k :: CellChanged(prev, cur, typeSize, k, i + 1) <==>
              CellChanged(prev, cur, typeSize, k, i) || (k == i / typeSize && ByteChanged(prev, cur, i))
  {
    forall k | CellChanged(prev, cur, typeSize, k, i + 1)
      ensures CellChanged(prev, cur, typeSize, k, i) || (k == i / typeSize && ByteChanged(prev, cur, i))
    {
      var j :| 0 <= j < i + 1 && j / typeSize == k && ByteChanged(prev, cur, j);
      if j < i {
        assert CellChanged(prev, cur, typeSize, k, i);
      }
    }
  }

  /** The heat after a buffer replacement, starting from `base`: 255 for every cell with a
      changed byte, the old value elsewhere. */
  function MarkChanged(base: seq<byte>, prev: seq<byte>, cur: seq<byte>, typeSize: nat): (heat: seq<byte>)
    requires typeSize > 0
    ensures |heat| == |base|
  {
    seq(|base|, k requires 0 <= k < |base| =>
      if CellChanged(prev, cur, typeSize, k, Min(|prev|, |cur|)) then 255 else base[k])
  }

  /** The marking loop of `updateTableData`: every byte below the shorter length that differs
      sets its cell's heat to 255, when the cell is inside the array. */
  method MarkChangedInPlace(heat: array<byte>, prev: seq<byte>, cur: seq<byte>, typeSize: nat)
    requires typeSize > 0
    modifies heat
    ensures heat[..] == MarkChanged(old(heat[..]), prev, cur, typeSize)
  {
    ghost var base := heat[..];
    var minLength := Min(|cur|, |prev|);
    var i := 0;
    while i < minLength
      invariant 0 <= i <= minLength
      invariant forall k :: 0 <= k < heat.Length ==>
                  heat[k] == if CellChanged(prev, cur, typeSize, k, i) then 255 else base[k]
    {
      CellChangedStep(prev, cur, typeSize, i);
      if prev[i] != cur[i] {
        var index := FloorDiv(i, typeSize);
        if index < heat.Length {
          heat[index] := 255;
        }
      }
      i := i + 1;
    }
    assert Min(|prev|, |cur|) == minLength;
  }

  /** A changed byte puts its cell at full heat when the cell is inside the array; a cell none
      of whose bytes changed keeps the value it started from. */
  lemma MarkChangedCells(base: seq<byte>, prev: seq<byte>, cur: seq<byte>, typeSize: nat)
    requires typeSize > 0
    ensures forall i :: ByteChanged(prev, cur, i) && i / typeSize < |base| ==>
              MarkChanged(base, prev, cur, typeSize)[i / typeSize] == 255
    ensures forall k :: 0 <= k < |base| && (forall j :: k * typeSize <= j < (k + 1) * typeSize ==> !ByteChanged(prev, cur, j)) ==>
              MarkChanged(base, prev, cur, typeSize)[k] == base[k]
  {
    var m := Min(|prev|, |cur|);
    forall i | ByteChanged(prev, cur, i) && i / typeSize < |base|
      ensures MarkChanged(base, prev, cur, typeSize)[i / typeSize] == 255
    {
      assert 0 <= i < m;
      assert CellChanged(prev, cur, typeSize, i / typeSize, m);
    }
    forall k | 0 <= k < |base| && (forall j :: k * typeSize <= j < (k + 1) * typeSize ==> !ByteChanged(prev, cur, j))
      ensures MarkChanged(base, prev, cur, typeSize)[k] == base[k]
    {
      forall i | 0 <= i < m && i / typeSize == k
        ensures !ByteChanged(prev, cur, i)
      {
        DivBounds(i, typeSize);
      }
    }
  }

  lemma DivBounds(i: nat, s: nat)
    requires s > 0
    ensures (i / s) * s <= i < (i / s + 1) * s
  {
  }

  /** One paint of a cell with heat: two steps cooler, never below zero. */
  function Decayed(h: byte): byte
  {
    if h > 2 then h - 2 else 0
  }

  /** The heat after painting the cells with indices in [lo, hi): those decay, the rest keep
      their value. */
  function DecayRange(heat: seq<byte>, lo: int, hi: int): (r: seq<byte>)
    ensures |r| == |heat|
  {
    seq(|heat|, k requires 0 <= k < |heat| => if lo <= k < hi then Decayed(heat[k]) else heat[k])
  }

  /** The heat after painting rows `firstRow` up to (not including) `lastRow`. */
  function DecayRows(heat: seq<byte>, firstRow: int, lastRow: int, cellsPerRow: nat): (r: seq<byte>)
    ensures |r| == |heat|
  {
    DecayRange(heat, firstRow * cellsPerRow, lastRow * cellsPerRow)
  }

  /** Painting [lo, mid) and then [mid, hi) is painting [lo, hi) once. */
  lemma DecayRangeConcat(heat: seq<byte>, lo: int, mid: int, hi: int)
    requires lo <= mid <= hi
    ensures DecayRange(DecayRange(heat, lo, mid), mid, hi) == DecayRange(heat, lo, hi)
  {
  }

  /** An empty range paints nothing. */
  lemma DecayRangeEmpty(heat: seq<byte>, lo: int, hi: int)
    requires hi <= lo
    ensures DecayRange(heat, lo, hi) == heat
  {
  }

  /** Painting cell `hi` next extends the decayed range by one; an index outside the array
      changes nothing. */
  lemma DecayRangeStep(heat: seq<byte>, lo: int, hi: int)
    requires lo <= hi
    ensures 0 <= hi < |heat| ==> DecayRange(heat, lo, hi)[hi := Decayed(heat[hi])] == DecayRange(heat, lo, hi + 1)
    ensures !(0 <= hi < |heat|) ==> DecayRange(heat, lo, hi) == DecayRange(heat, lo, hi + 1)
  {
  }

  /** Heat applied `n` paints in a row: it falls by two per paint and stays at zero. */
  function DecayedTimes(h: byte, n: nat): byte
  {
    if n == 0 then h else Decayed(DecayedTimes(h, n - 1))
  }

  lemma {:induction false} DecayedTimesValue(h: byte, n: nat)
    ensures DecayedTimes(h, n) == Max(0, h - 2 * n)
    ensures n > 0 ==> DecayedTimes(h, n) <= DecayedTimes(h, n - 1)
  {
    if n > 0 {
      DecayedTimesValue(h, n - 1);
    }
  }

  /** Painting never raises heat, lowers positive heat, and leaves unpainted cells alone. */
  lemma DecayRowsProperties(heat: seq<byte>, firstRow: int, lastRow: int, cellsPerRow: nat)
    ensures var r := DecayRows(heat, firstRow, lastRow, cellsPerRow);
            forall k :: 0 <= k < |heat| ==>
              r[k] <= heat[k]
              && (firstRow * cellsPerRow <= k < lastRow * cellsPerRow && heat[k] > 0 ==> r[k] < heat[k])
              && (!(firstRow * cellsPerRow <= k < lastRow * cellsPerRow) ==> r[k] == heat[k])
  {
  }

  /** The mutable state the canvas table keeps between frames. */
  class TableState {
    var data: seq<byte>
    var dataType: DataType
    var heat: array<byte>
    var baseAddress: int
    var hex: bool

    /** `newTableState`: a zero heat array with one entry per cell. */
    constructor (data: seq<byte>, dataType: DataType)
      ensures this.data == data && this.dataType == dataType
      ensures baseAddress == 0 && hex
      ensures fresh(heat) && heat[..] == Zeros(CellCount(|data|, dataType))
    {
      this.data := data;
      this.dataType := dataType;
      heat := new byte[CellCount(|data|, dataType)](_ => 0);
      baseAddress := 0;
      hex := true;
    }

    /** The props the component copies into the state on every render. */
    method SetProps(baseAddress: int, hex: bool)
      modifies this
      ensures this.baseAddress == baseAddress && this.hex == hex
      ensures data == old(data) && dataType == old(dataType) && heat == old(heat)
    {
      this.baseAddress := baseAddress;
      this.hex := hex;
    }

    /** `updateTableData`: take the new buffer and format, grow the heat array when the cell
        count exceeds it (replacing it with a zero array), then heat every cell holding a byte
        that differs from the previous buffer. */
    method UpdateTableData(newData: seq<byte>, newType: DataType)
      modifies this, heat
      ensures data == newData && dataType == newType
      ensures baseAddress == old(baseAddress) && hex == old(hex)
      ensures heat.Length == Max(old(heat.Length), CellCount(|newData|, newType))
      ensures old(heat.Length) < CellCount(|newData|, newType) ==> fresh(heat)
      ensures old(heat.Length) >= CellCount(|newData|, newType) ==> heat == old(heat)
      ensures heat[..] == MarkChanged(
                if old(heat.Length) < CellCount(|newData|, newType) then Zeros(CellCount(|newData|, newType))
                else old(heat[..]),
                old(data), newData, Size(newType))
    {
      var prev := data;
      data := newData;
      dataType := newType;
      var typeSize := Size(newType);
      SizePositive(newType);
      var cellCount := CellCount(|newData|, newType);
      if cellCount > heat.Length {
        heat := new byte[cellCount](_ => 0);
      }
      MarkChangedInPlace(heat, prev, newData, typeSize);
    }

    /** The heat decay for one row of `drawTable`'s content loop: every painted cell with
        heat above zero loses two, clamped at zero. A cell index outside the array reads as
        undefined and is skipped. */
    method PaintRow(row: int, cellsPerRow: nat, typeSize: nat)
      requires typeSize >= 1
      modifies heat
      ensures heat[..] == DecayRange(old(heat[..]), row * cellsPerRow, row * cellsPerRow + cellsPerRow)
    {
      ghost var original := heat[..];
      ghost var start := row * cellsPerRow;
      var column := 0;
      while column < cellsPerRow
        invariant 0 <= column <= cellsPerRow
        invariant heat[..] == DecayRange(original, start, start + column)
      {
        var offset := ByteOffset(row, column, cellsPerRow, typeSize);
        var headIndex := FloorDiv(offset, typeSize);
        MulFloorDiv(row * cellsPerRow + column, typeSize);
        DecayRangeStep(original, start, start + column);
        if 0 <= headIndex < heat.Length && heat[headIndex] > 0 {
          heat[headIndex] := Decayed(heat[headIndex]);
        }
        column := column + 1;
      }
    }

    /** `drawTable`'s content loop as far as heat goes: rows `firstRow` up to (not including)
        `lastRow` are painted once each. */
    method PaintVisibleCells(firstRow: int, lastRow: int, cellsPerRow: nat, typeSize: nat)
      requires typeSize >= 1
      modifies heat
      ensures heat[..] == DecayRows(old(heat[..]), firstRow, lastRow, cellsPerRow)
    {
      ghost var original := heat[..];
      ghost var lo := firstRow * cellsPerRow;
      ghost var painted := lo;
      var row := firstRow;
      while row < lastRow
        invariant firstRow <= row && (row <= lastRow || row == firstRow)
        invariant painted == row * cellsPerRow && lo <= painted
        invariant heat[..] == DecayRange(original, lo, painted)
      {
        PaintRow(row, cellsPerRow, typeSize);
        DecayRangeConcat(original, lo, painted, painted + cellsPerRow);
        row := row + 1;
        painted := painted + cellsPerRow;
      }
      if row != lastRow {
        MulMono(lastRow, firstRow, cellsPerRow);
        DecayRangeEmpty(original, lo, painted);
        DecayRangeEmpty(original, lo, lastRow * cellsPerRow);
      }
    }

    /** One frame of `drawTable` as far as the state is concerned: compute the geometry from
        the inputs and let the painted rows' heat decay. When the first painted row lies
        above row 0 (a negative scroll position), its first cell is read at a negative byte
        offset and the getter throws before any heat changes; `thrown` reports that. */
    method DrawTable(clientWidth: int, clientHeight: int, scrollTop: int, addressWidth: int, rowHeight: nat)
      returns (frame: Frame, thrown: bool)
      requires rowHeight > 0
      modifies heat
      ensures frame == ComputeFrame(dataType, hex, |data|, clientWidth, clientHeight, scrollTop, addressWidth, rowHeight)
      ensures thrown <==> frame.firstRow < 0 && frame.firstRow < frame.lastRow
      ensures thrown ==> heat[..] == old(heat[..])
      ensures !thrown ==> heat[..] == DecayRows(old(heat[..]), frame.firstRow, frame.lastRow, frame.layout.cellsPerRow)
    {
      frame := ComputeFrame(dataType, hex, |data|, clientWidth, clientHeight, scrollTop, addressWidth, rowHeight);
      SizePositive(dataType);
      if frame.firstRow < 0 && frame.firstRow < frame.lastRow {
        NegativeRowOffset(frame.firstRow, 0, frame.layout.cellsPerRow, Size(dataType));
        thrown := true;
        return;
      }
      thrown := false;
      PaintVisibleCells(frame.firstRow, frame.lastRow, frame.layout.cellsPerRow, Size(dataType));
    }
  }
}
