/**
  The older struct view: its own copy of the integer formats, which pads every
  unsigned value with zeros, and the header and body rows its render builds.
  Its sizes, character counts and cell widths are those of the registry in
  `DataType`; only the padding differs.
*/
module StructView {
  import opened Wrappers
  import opened Numerals
  import opened DataType
  import TableView
  import CanvasTable

  /** This copy's padding: spaces for signed formats, zeros for every unsigned one, decimal included. */
  function StructPadChar(t: DataType): char
  {
    if IsSigned(t) then ' ' else '0'
  }

  /** `format(data, offset, hex)` of this copy's integer formats. */
  function FormatStructInteger(t: DataType, data: seq<byte>, offset: nat, hex: bool): string
    requires IsIntegral(t) && offset + Size(t) <= |data|
  {
    ToUpper(PadStart(IntToString(DecodeInteger(t, data, offset), Radix(hex)), CharCount(t, hex), StructPadChar(t)))
  }

  /**
    Every formatted integer is exactly the format's character count long, has
    no lower-case letter, carries this copy's padding in front of its digits,
    and reads back, once trimmed, as the decoded value even when zero-padded in
    decimal.
  */
  lemma StructFormatProperties(t: DataType, data: seq<byte>, offset: nat, hex: bool)
    requires IsIntegral(t) && offset + Size(t) <= |data|
    ensures var s := FormatStructInteger(t, data, offset, hex);
      && |s| == CharCount(t, hex)
      && (forall i :: 0 <= i < |s| ==> !('a' <= s[i] <= 'z'))
      && (forall i :: 0 <= i < |s| - |IntToString(DecodeInteger(t, data, offset), Radix(hex))| ==>
            s[i] == StructPadChar(t))
      && ParseInt(Trim(s), Radix(hex)) == Some(DecodeInteger(t, data, offset))
  {
    var v := DecodeInteger(t, data, offset);
    var raw := IntToString(v, Radix(hex));
    var padded := PadStart(raw, CharCount(t, hex), StructPadChar(t));
    RawLength(t, data, offset, hex);
    ToUpperHasNoLowercase(padded);
    forall i | 0 <= i < CharCount(t, hex) - |raw|
      ensures ToUpper(padded)[i] == StructPadChar(t)
    {
      assert padded[i] == StructPadChar(t);
    }
    DecodeRange(t, data, offset);
    PaddedRoundTrip(v, Radix(hex), CharCount(t, hex), StructPadChar(t));
  }

  /**
    The two copies pad alike exactly for hex or signed values, and then format alike. An
    unsigned decimal value formats alike exactly when its digits fill the whole width, so
    that no padding is inserted.
  */
  lemma StructFormatAgrees(t: DataType, data: seq<byte>, offset: nat, hex: bool)
    requires IsIntegral(t) && offset + Size(t) <= |data|
    ensures hex || IsSigned(t) <==> StructPadChar(t) == PadChar(t, hex)
    ensures hex || IsSigned(t) ==> FormatStructInteger(t, data, offset, hex) == FormatInteger(t, data, offset, hex)
    ensures !hex && !IsSigned(t) ==>
              (FormatStructInteger(t, data, offset, hex) == FormatInteger(t, data, offset, hex)
               <==> |IntToString(DecodeInteger(t, data, offset), 10)| >= CharCount(t, hex))
  {
    if !hex && !IsSigned(t) && |IntToString(DecodeInteger(t, data, offset), 10)| < CharCount(t, hex) {
      assert FormatStructInteger(t, data, offset, hex)[0] == '0';
      assert FormatInteger(t, data, offset, hex)[0] == ' ';
    }
  }

  /** The text of a cell: `"??"` when its bytes run past the buffer, its formatted value otherwise. */
  function StructCellText(t: DataType, data: seq<byte>, offset: nat, hex: bool, printFloat: FloatPrinter): (text: string)
    ensures IsIntegral(t) ==> (text == "??" <==> offset + Size(t) > |data|)
  {
    if offset + Size(t) > |data| then "??"
    else if IsIntegral(t) then
      var v := DecodeInteger(t, data, offset);
      NoQuestionMark(IntToString(v, Radix(hex)), Radix(hex), CharCount(t, hex), StructPadChar(t), v);
      FormatStructInteger(t, data, offset, hex)
    else printFloat(t, data[offset..offset + Size(t)])
  }

  /** `Math.max(1, Math.floor(contentWidth / cellWidth))`. */
  function CellsPerRow(contentWidth: int, cellWidth: nat): (n: nat)
    requires cellWidth > 0
    ensures n >= 1
    ensures contentWidth >= cellWidth ==> n * cellWidth <= contentWidth < n * cellWidth + cellWidth
    ensures contentWidth < cellWidth ==> n == 1
  {
    Max(1, FloorDiv(contentWidth, cellWidth))
  }

  /** What the struct view shows. */
  datatype Struct = Struct(
    data: seq<byte>,
    byteCount: nat,
    baseAddress: int,
    dataType: DataType,
    hex: bool,
    cellsPerRow: nat)

  datatype StructRow = StructRow(address: string, cells: seq<string>)

  /** The first byte of the cell at (r, c): cell number `c + r * cellsPerRow` times the size. */
  function CellStart(v: Struct, r: nat, c: nat): nat
  {
    (c + r * v.cellsPerRow) * Size(v.dataType)
  }

  /** The cell at (r, c). */
  function StructCellAt(v: Struct, r: nat, c: nat, printFloat: FloatPrinter): string
  {
    StructCellText(v.dataType, v.data, CellStart(v, r, c), v.hex, printFloat)
  }

  /** The first `n` cells of row `r`, in column order. */
  function StructCells(v: Struct, r: nat, n: nat, printFloat: FloatPrinter): (cells: seq<string>)
    ensures |cells| == n
  {
    if n == 0 then [] else StructCells(v, r, n - 1, printFloat) + [StructCellAt(v, r, n - 1, printFloat)]
  }

  /** Cell `c` of the first `n` is the cell read at column `c`. */
  lemma {:induction false} StructCellsAt(v: Struct, r: nat, n: nat, printFloat: FloatPrinter, c: nat)
    requires c < n
    ensures StructCells(v, r, n, printFloat)[c] == StructCellAt(v, r, c, printFloat)
  {
    var prefix := StructCells(v, r, n - 1, printFloat);
    assert StructCells(v, r, n, printFloat) == prefix + [StructCellAt(v, r, n - 1, printFloat)];
    if c < n - 1 {
      StructCellsAt(v, r, n - 1, printFloat, c);
    }
  }

  /** Row `r`: its address label `formatHex(baseAddress + r)`, then its cells. */
  function StructRowAt(v: Struct, r: nat, printFloat: FloatPrinter): StructRow
  {
    StructRow(FormatHex(v.baseAddress + r), StructCells(v, r, v.cellsPerRow, printFloat))
  }

  /** The first `n` body rows. */
  function StructRows(v: Struct, n: nat, printFloat: FloatPrinter): (rows: seq<StructRow>)
    ensures |rows| == n
  {
    if n == 0 then [] else StructRows(v, n - 1, printFloat) + [StructRowAt(v, n - 1, printFloat)]
  }

  /** Row `r` of the first `n` is the row with that number. */
  lemma {:induction false} StructRowsAt(v: Struct, n: nat, printFloat: FloatPrinter, r: nat)
    requires r < n
    ensures StructRows(v, n, printFloat)[r] == StructRowAt(v, r, printFloat)
  {
    var prefix := StructRows(v, n - 1, printFloat);
    assert StructRows(v, n, printFloat) == prefix + [StructRowAt(v, n - 1, printFloat)];
    if r < n - 1 {
      StructRowsAt(v, n - 1, printFloat, r);
    }
  }

  /**
    Row labels read back as the base address plus the row number: consecutive
    rows are labelled one apart although they hold `cellsPerRow * size` bytes
    each.
  */
  lemma StructAddressLabel(v: Struct, r: nat, printFloat: FloatPrinter)
    ensures ParseInt(StructRowAt(v, r, printFloat).address, 16) == Some(v.baseAddress + r)
    ensures ParseInt(StructRowAt(v, r + 1, printFloat).address, 16) == Some(v.baseAddress + r + 1)
  {
    FormatHexParses(v.baseAddress + r);
    FormatHexParses(v.baseAddress + r + 1);
  }

  /** An integer cell shows `"??"` exactly when its bytes run past the buffer, and otherwise reads back as its value. */
  lemma StructCellShows(v: Struct, r: nat, c: nat, printFloat: FloatPrinter)
    requires IsIntegral(v.dataType)
    ensures var offset := CellStart(v, r, c);
      && (StructCellAt(v, r, c, printFloat) == "??" <==> offset + Size(v.dataType) > |v.data|)
      && (offset + Size(v.dataType) <= |v.data| ==>
            ParseInt(Trim(StructCellAt(v, r, c, printFloat)), Radix(v.hex))
            == Some(DecodeInteger(v.dataType, v.data, offset)))
  {
    var offset := CellStart(v, r, c);
    if offset + Size(v.dataType) <= |v.data| {
      StructFormatProperties(v.dataType, v.data, offset, v.hex);
    }
  }

  /** The header row: the address caption, then the byte offset of each column, as the table view's header row. */
  method RenderHeaders(cellsPerRow: nat, typeSize: nat) returns (headers: seq<string>)
    ensures headers == TableView.HeaderRow(cellsPerRow, typeSize, true)
  {
    headers := ["Address"];
    var i := 0;
    while i < cellsPerRow
      invariant 0 <= i <= cellsPerRow && |headers| == i + 1 && headers[0] == "Address"
      invariant forall k :: 0 <= k < i ==> headers[k + 1] == CanvasTable.OffsetHeader(k, typeSize)
    {
      headers := headers + [FormatHex(i * typeSize)];
      i := i + 1;
    }
    ghost var expected := TableView.HeaderRow(cellsPerRow, typeSize, true);
    assert forall k :: 0 <= k < |headers| ==> headers[k] == expected[k];
  }

  /** One body row: the address cell, then `cellsPerRow` cells. */
  method RenderStructRow(v: Struct, r: nat, printFloat: FloatPrinter) returns (row: StructRow)
    ensures row == StructRowAt(v, r, printFloat)
  {
    var size := Size(v.dataType);
    var cells: seq<string> := [];
    var c := 0;
    while c < v.cellsPerRow
      invariant 0 <= c <= v.cellsPerRow && |cells| == c
      invariant cells == StructCells(v, r, c, printFloat)
    {
      var cell := c + r * v.cellsPerRow;
      var offset := cell * size;
      assert offset == CellStart(v, r, c);
      var text := StructCellText(v.dataType, v.data, offset, v.hex, printFloat);
      cells := cells + [text];
      c := c + 1;
    }
    row := StructRow(FormatHex(v.baseAddress + r), cells);
  }

  /**
    The body rows: row `r` is rendered while `r < cellCount / cellsPerRow`,
    that is while its first byte lies below the byte count.
  */
  method RenderStructRows(v: Struct, printFloat: FloatPrinter) returns (rows: seq<StructRow>)
    requires v.cellsPerRow >= 1
    ensures rows == StructRows(v, TableView.RowCount(v.byteCount, Size(v.dataType), v.cellsPerRow), printFloat)
  {
    CanvasTable.SizePositive(v.dataType);
    var n := TableView.RowCount(v.byteCount, Size(v.dataType), v.cellsPerRow);
    rows := [];
    var r := 0;
    while r < n
      invariant 0 <= r <= n && rows == StructRows(v, r, printFloat)
    {
      var row := RenderStructRow(v, r, printFloat);
      rows := rows + [row];
      r := r + 1;
    }
  }
}
