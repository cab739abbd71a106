/**
  The DOM table view of the buffer: cell offsets, the byte-range selection and its copied
  text, change highlighting, the selection state machine behind the pointer, key and
  clipboard handlers, the display options, and the rows the view renders.
*/
module TableView {
  import opened Wrappers
  import opened Numerals
  import opened DataType
  import opened TableUtil
  import CanvasTable

  // ---------------------------------------------------------------------
  // Offsets and selection

  /** `getOffset(row, column)`. */
  function GetOffset(row: int, column: int, bytesPerRow: int, typeSize: nat): int
  {
    row * bytesPerRow + column * typeSize
  }

  /** A cell's offset is its row-major cell index `column + row * cellsPerRow` times the cell
      size, the offset its text is read from. */
  lemma GetOffsetIsCellOffset(row: int, column: int, cellsPerRow: nat, typeSize: nat)
    ensures GetOffset(row, column, cellsPerRow * typeSize, typeSize) == (column + row * cellsPerRow) * typeSize
  {
    assert row * (cellsPerRow * typeSize) == (row * cellsPerRow) * typeSize;
  }

  /** The selected bytes, `start` to `end` inclusive. */
  datatype SelectionRange = SelectionRange(start: int, end: int)

  /** `isSelected(row, column)`. */
  predicate IsSelected(selection: Option<SelectionRange>, row: int, column: int, bytesPerRow: int, typeSize: nat)
  {
    selection.Some? &&
    var offset := GetOffset(row, column, bytesPerRow, typeSize);
    selection.value.start <= offset <= selection.value.end
  }

  /** `setSelectionFromTableRange`: from the first byte of the start cell to the last byte of
      the end cell; no range clears the selection. */
  function SelectionFromTableRange(range: Option<TableRange>, bytesPerRow: int, typeSize: nat): (s: Option<SelectionRange>)
    ensures s.Some? <==> range.Some?
  {
    if range.None? then None
    else
      var start := GetOffset(range.value.start.row, range.value.start.column, bytesPerRow, typeSize);
      var end := GetOffset(range.value.end.row, range.value.end.column, bytesPerRow, typeSize) + typeSize - 1;
      Some(SelectionRange(start, end))
  }

  /** Row-major order of positions in the grid is the order of their cell indices. */
  lemma IndexOrder(a: TablePosition, b: TablePosition, cellsPerRow: nat)
    requires 0 <= a.column < cellsPerRow && 0 <= b.column < cellsPerRow
    ensures RowMajorLe(a, b) <==> a.column + a.row * cellsPerRow <= b.column + b.row * cellsPerRow
  {
    if a.row < b.row {
      MulMono(a.row + 1, b.row, cellsPerRow);
    } else if a.row > b.row {
      MulMono(b.row + 1, a.row, cellsPerRow);
    }
  }

  /** Scaling by a positive cell size keeps cell indices in order, where the upper end covers
      every byte of its cell. */
  lemma ScaledBetween(i: int, lo: int, hi: int, size: nat)
    requires size >= 1
    ensures lo * size <= i * size <= hi * size + size - 1 <==> lo <= i <= hi
  {
    MulSign(i - lo, size);
    MulSign(hi - i, size);
    assert (i - lo) * size == i * size - lo * size;
    assert (hi - i) * size == hi * size - i * size;
  }

  /** The cells a table range selects are exactly the cells between its ends in row-major
      order, for cells inside the grid's columns. */
  lemma SelectedCells(range: TableRange, cellsPerRow: nat, typeSize: nat, row: int, column: int)
    requires typeSize >= 1
    requires 0 <= range.start.column < cellsPerRow && 0 <= range.end.column < cellsPerRow
    requires 0 <= column < cellsPerRow
    ensures var bytesPerRow := cellsPerRow * typeSize;
            IsSelected(SelectionFromTableRange(Some(range), bytesPerRow, typeSize), row, column, bytesPerRow, typeSize)
            <==> RowMajorLe(range.start, TablePosition(row, column)) && RowMajorLe(TablePosition(row, column), range.end)
  {
    var p := TablePosition(row, column);
    var lo := range.start.column + range.start.row * cellsPerRow;
    var hi := range.end.column + range.end.row * cellsPerRow;
    var i := column + row * cellsPerRow;
    GetOffsetIsCellOffset(range.start.row, range.start.column, cellsPerRow, typeSize);
    GetOffsetIsCellOffset(range.end.row, range.end.column, cellsPerRow, typeSize);
    GetOffsetIsCellOffset(row, column, cellsPerRow, typeSize);
    IndexOrder(range.start, p, cellsPerRow);
    IndexOrder(p, range.end, cellsPerRow);
    ScaledBetween(i, lo, hi, typeSize);
  }

  /** A range whose ends are in row-major order selects at least the bytes of one cell. */
  lemma OrderedSelection(range: TableRange, cellsPerRow: nat, typeSize: nat)
    requires typeSize >= 1
    requires 0 <= range.start.column < cellsPerRow && 0 <= range.end.column < cellsPerRow
    requires RowMajorLe(range.start, range.end)
    ensures var s := SelectionFromTableRange(Some(range), cellsPerRow * typeSize, typeSize).value;
            s.start + typeSize - 1 <= s.end
  {
    var lo := range.start.column + range.start.row * cellsPerRow;
    var hi := range.end.column + range.end.row * cellsPerRow;
    GetOffsetIsCellOffset(range.start.row, range.start.column, cellsPerRow, typeSize);
    GetOffsetIsCellOffset(range.end.row, range.end.column, cellsPerRow, typeSize);
    IndexOrder(range.start, range.end, cellsPerRow);
    MulMono(lo, hi, typeSize);
  }

  // ---------------------------------------------------------------------
  // Copied text

  /** The offset of token `k`: `k` steps of `size` from `start`. */
  function TokenStart(start: nat, k: nat, size: nat): nat
  {
    start + k * size
  }

  lemma TokenStartNext(start: nat, k: nat, size: nat)
    ensures TokenStart(start, k + 1, size) == TokenStart(start, k, size) + size
  {
  }

  /** How many steps of `step` from `start` stay at or below `end`. */
  function StepCount(start: int, end: int, step: nat): nat
    requires step >= 1
  {
    if end < start then 0 else FloorDiv(end - start, step) + 1
  }

  /** Step `k` is taken exactly when it is below the step count. */
  lemma StepCountBound(start: nat, end: int, step: nat, k: nat)
    requires step >= 1
    ensures k < StepCount(start, end, step) <==> TokenStart(start, k, step) <= end
  {
    if end >= start {
      var q := FloorDiv(end - start, step);
      if k <= q {
        MulMono(k, q, step);
      } else {
        MulMono(q + 1, k, step);
      }
    }
  }

  /** `f(0), …, f(n - 1)`. */
  function Tabulate<T>(f: nat -> T, n: nat): (s: seq<T>)
    ensures |s| == n
  {
    if n == 0 then [] else Tabulate(f, n - 1) + [f(n - 1)]
  }

  /** Element `k` of a tabulation is `f(k)`. */
  lemma {:induction false} TabulateAt<T>(f: nat -> T, n: nat, k: nat)
    requires k < n
    ensures Tabulate(f, n)[k] == f(k)
  {
    if k < n - 1 {
      TabulateAt(f, n - 1, k);
    }
  }

  /** The text of the token `k` steps from `start`. */
  function TokenText(start: nat, data: seq<byte>, t: DataType, hex: bool, printFloat: FloatPrinter): nat -> string
  {
    (k: nat) => FormatCell(t, data, TokenStart(start, k, Size(t)), hex, printFloat)
  }

  /** One more token appends the cell text at the next step. */
  lemma TokensStep(start: nat, data: seq<byte>, t: DataType, hex: bool, printFloat: FloatPrinter, m: nat)
    ensures Tabulate(TokenText(start, data, t, hex, printFloat), m + 1)
            == Tabulate(TokenText(start, data, t, hex, printFloat), m)
               + [FormatCell(t, data, TokenStart(start, m, Size(t)), hex, printFloat)]
  {
  }

  /** The tokens `selectionText` collects: the cell text at every step of the cell size from
      the selection's start to its end. */
  function SelectionTokens(selection: SelectionRange, data: seq<byte>, t: DataType, hex: bool,
                           printFloat: FloatPrinter): (tokens: seq<string>)
    requires selection.start >= 0
    ensures |tokens| == StepCount(selection.start, selection.end, Size(t))
  {
    CanvasTable.SizePositive(t);
    Tabulate(TokenText(selection.start, data, t, hex, printFloat), StepCount(selection.start, selection.end, Size(t)))
  }

  /** `Array.prototype.join`. */
  function Join(tokens: seq<string>, separator: string): string
  {
    if |tokens| == 0 then ""
    else if |tokens| == 1 then tokens[0]
    else Join(tokens[..|tokens| - 1], separator) + separator + tokens[|tokens| - 1]
  }

  /** Where token `k` of a join of `w`-wide tokens starts. */
  function SlotStart(k: nat, w: nat, separatorLength: nat): nat
  {
    k * (w + separatorLength)
  }

  lemma SlotStartMono(a: nat, b: nat, w: nat, separatorLength: nat)
    requires a <= b
    ensures SlotStart(a, w, separatorLength) + (b - a) * (w + separatorLength) == SlotStart(b, w, separatorLength)
  {
  }

  /** With tokens of one width `w`, the joined text is `n * w` characters plus the separators. */
  lemma {:induction false} JoinLength(tokens: seq<string>, separator: string, w: nat)
    requires |tokens| >= 1
    requires forall k :: 0 <= k < |tokens| ==> |tokens[k]| == w
    ensures |Join(tokens, separator)| + |separator| == SlotStart(|tokens|, w, |separator|)
  {
    var n := |tokens|;
    if n > 1 {
      JoinLength(tokens[..n - 1], separator, w);
      SlotStartMono(n - 1, n, w, |separator|);
    }
  }

  /** With tokens of one width `w`, token `k` of the joined text starts at `k * (w + |sep|)`. */
  lemma {:induction false} JoinUniform(tokens: seq<string>, separator: string, w: nat)
    requires |tokens| >= 1
    requires forall k :: 0 <= k < |tokens| ==> |tokens[k]| == w
    ensures var text := Join(tokens, separator);
            forall k :: 0 <= k < |tokens| ==>
              SlotStart(k, w, |separator|) + w <= |text|
              && text[SlotStart(k, w, |separator|)..SlotStart(k, w, |separator|) + w] == tokens[k]
  {
    var n := |tokens|;
    if n > 1 {
      var front := tokens[..n - 1];
      JoinUniform(front, separator, w);
      JoinLength(front, separator, w);
      var j := Join(front, separator);
      var s := Join(tokens, separator);
      assert s == j + separator + tokens[n - 1];
      assert front + [tokens[n - 1]] == tokens;
      forall k | 0 <= k < n
        ensures SlotStart(k, w, |separator|) + w <= |s|
        ensures s[SlotStart(k, w, |separator|)..SlotStart(k, w, |separator|) + w] == tokens[k]
      {
        JoinUniformSlot(j, separator, tokens[n - 1], front, w, k);
      }
    }
  }

  /** One slot of the induction step of JoinUniform. */
  lemma JoinUniformSlot(j: string, separator: string, last: string, front: seq<string>, w: nat, k: nat)
    requires |front| >= 1 && |last| == w
    requires |j| + |separator| == SlotStart(|front|, w, |separator|)
    requires forall i :: 0 <= i < |front| ==>
               SlotStart(i, w, |separator|) + w <= |j|
               && j[SlotStart(i, w, |separator|)..SlotStart(i, w, |separator|) + w] == front[i]
    requires k <= |front|
    ensures var a := SlotStart(k, w, |separator|);
            var s := j + separator + last;
            a + w <= |s| && s[a..a + w] == (front + [last])[k]
  {
    var a := SlotStart(k, w, |separator|);
    var s := j + separator + last;
    if k < |front| {
      assert a + w <= |j|;
      assert s[a..a + w] == j[a..a + w];
    } else {
      assert a == |j| + |separator|;
      assert s[a..a + w] == last;
    }
  }

  /** The loop of `selectionText`: one token per step of the cell size from `start` while the
      offset stays at or below `end`, `"??"` for a cell that runs past the buffer. */
  method CollectTokens(start: nat, end: int, data: seq<byte>, t: DataType, hex: bool,
                       printFloat: FloatPrinter) returns (result: seq<string>)
    ensures result == SelectionTokens(SelectionRange(start, end), data, t, hex, printFloat)
  {
    var dataSize := Size(t);
    CanvasTable.SizePositive(t);
    result := [];
    var i := start;
    while i <= end
      invariant i == TokenStart(start, |result|, dataSize)
      invariant |result| <= StepCount(start, end, dataSize)
      invariant result == Tabulate(TokenText(start, data, t, hex, printFloat), |result|)
      decreases end - i
    {
      StepCountBound(start, end, dataSize, |result|);
      TokenStartNext(start, |result|, dataSize);
      TokensStep(start, data, t, hex, printFloat, |result|);
      result := result + [FormatCell(t, data, i, hex, printFloat)];
      i := i + dataSize;
    }
    StepCountBound(start, end, dataSize, |result|);
  }

  /** `selectionText`: the empty string without a selection, otherwise the selection's tokens
      joined by single spaces. */
  method SelectionText(selection: Option<SelectionRange>, data: seq<byte>, t: DataType, hex: bool,
                       printFloat: FloatPrinter) returns (text: string)
    requires selection.Some? ==> selection.value.start >= 0
    ensures selection.None? ==> text == ""
    ensures selection.Some? ==> text == Join(SelectionTokens(selection.value, data, t, hex, printFloat), " ")
  {
    if selection.None? {
      return "";
    }
    var result := CollectTokens(selection.value.start, selection.value.end, data, t, hex, printFloat);
    text := Join(result, " ");
  }

  /** Inside the buffer, every token of an integer selection is the formatted value of its
      cell, `charCount` characters long. */
  lemma InBoundsTokens(selection: SelectionRange, data: seq<byte>, t: DataType, hex: bool, printFloat: FloatPrinter)
    requires selection.start >= 0 && IsIntegral(t)
    requires selection.end < |data| - Size(t) + 1
    ensures var tokens := SelectionTokens(selection, data, t, hex, printFloat);
            forall k :: 0 <= k < |tokens| ==>
              TokenStart(selection.start, k, Size(t)) + Size(t) <= |data|
              && tokens[k] == FormatInteger(t, data, TokenStart(selection.start, k, Size(t)), hex)
              && |tokens[k]| == CharCount(t, hex)
  {
    var tokens := SelectionTokens(selection, data, t, hex, printFloat);
    forall k | 0 <= k < |tokens|
      ensures TokenStart(selection.start, k, Size(t)) + Size(t) <= |data|
      ensures tokens[k] == FormatInteger(t, data, TokenStart(selection.start, k, Size(t)), hex)
      ensures |tokens[k]| == CharCount(t, hex)
    {
      InBoundsToken(selection, data, t, hex, printFloat, k);
    }
  }

  /** One token of InBoundsTokens. */
  lemma InBoundsToken(selection: SelectionRange, data: seq<byte>, t: DataType, hex: bool, printFloat: FloatPrinter, k: nat)
    requires selection.start >= 0 && IsIntegral(t)
    requires selection.end < |data| - Size(t) + 1
    requires k < StepCount(selection.start, selection.end, Size(t))
    ensures var offset := TokenStart(selection.start, k, Size(t));
            && offset + Size(t) <= |data|
            && SelectionTokens(selection, data, t, hex, printFloat)[k] == FormatInteger(t, data, offset, hex)
            && |FormatInteger(t, data, offset, hex)| == CharCount(t, hex)
  {
    var offset := TokenStart(selection.start, k, Size(t));
    CanvasTable.SizePositive(t);
    StepCountBound(selection.start, selection.end, Size(t), k);
    TabulateAt(TokenText(selection.start, data, t, hex, printFloat), StepCount(selection.start, selection.end, Size(t)), k);
    FormatCellPlaceholder(t, data, offset, hex, printFloat);
    FormattedLength(t, data, offset, hex);
  }

  /** The copied text of a selection whose tokens all have width `w` (an integer selection
      inside the buffer, by InBoundsTokens): token `k` sits at `k * (w + 1)`, between single
      spaces. */
  lemma SelectionTextLayout(selection: SelectionRange, data: seq<byte>, t: DataType, hex: bool,
                            printFloat: FloatPrinter)
    requires selection.start >= 0 && IsIntegral(t)
    requires selection.start <= selection.end && selection.end < |data| - Size(t) + 1
    ensures var tokens := SelectionTokens(selection, data, t, hex, printFloat);
            var text := Join(tokens, " ");
            var w := CharCount(t, hex);
            |text| + 1 == SlotStart(|tokens|, w, 1)
            && forall k :: 0 <= k < |tokens| ==>
                 SlotStart(k, w, 1) + w <= |text| && text[SlotStart(k, w, 1)..SlotStart(k, w, 1) + w] == tokens[k]
  {
    var tokens := SelectionTokens(selection, data, t, hex, printFloat);
    var w := CharCount(t, hex);
    StepCountBound(selection.start, selection.end, Size(t), 0);
    forall k | 0 <= k < |tokens|
      ensures |tokens[k]| == w
    {
      InBoundsToken(selection, data, t, hex, printFloat, k);
    }
    JoinLength(tokens, " ", w);
    JoinUniform(tokens, " ", w);
  }

  // ---------------------------------------------------------------------
  // Change highlighting

  /** Some byte of the cell at `offset` lies in both buffers and differs. */
  predicate CellBytesChanged(last: seq<byte>, current: seq<byte>, offset: int, typeSize: nat)
  {
    exists j :: offset <= j < offset + typeSize && CanvasTable.ByteChanged(last, current, j)
  }

  /** `changedAt(offset)`: bytes past the end of either buffer are skipped; the first
      difference answers true. */
  method ChangedAt(current: seq<byte>, last: seq<byte>, offset: nat, typeSize: nat) returns (changed: bool)
    ensures changed <==> CellBytesChanged(last, current, offset, typeSize)
  {
    var i := 0;
    while i < typeSize
      invariant 0 <= i <= typeSize
      invariant forall j :: offset <= j < offset + i ==> !CanvasTable.ByteChanged(last, current, j)
    {
      var j := offset + i;
      if j >= |current| || j >= |last| {
        i := i + 1;
        continue;
      }
      if current[j] != last[j] {
        assert CanvasTable.ByteChanged(last, current, j);
        return true;
      }
      i := i + 1;
    }
    return false;
  }

  /** `j / size == k` exactly when `j` lies in the `k`-th block of `size`. */
  lemma DivBlock(j: nat, size: nat, k: int)
    requires size >= 1
    ensures j / size == k <==> k * size <= j < k * size + size
  {
    var q := j / size;
    assert (q - k) * size == q * size - k * size;
    MulSign(q - k, size);
  }

  /** The table view highlights a cell exactly when the canvas table would heat it. */
  lemma ChangedAtMatchesHeat(last: seq<byte>, current: seq<byte>, typeSize: nat, k: nat)
    requires typeSize >= 1
    ensures CellBytesChanged(last, current, k * typeSize, typeSize)
            <==> CanvasTable.CellChanged(last, current, typeSize, k, Min(|last|, |current|))
  {
    var m := Min(|last|, |current|);
    if CellBytesChanged(last, current, k * typeSize, typeSize) {
      var j :| k * typeSize <= j < k * typeSize + typeSize && CanvasTable.ByteChanged(last, current, j);
      DivBlock(j, typeSize, k);
      assert 0 <= j < m;
    }
    if CanvasTable.CellChanged(last, current, typeSize, k, m) {
      var j :| 0 <= j < m && j / typeSize == k && CanvasTable.ByteChanged(last, current, j);
      DivBlock(j, typeSize, k);
    }
  }

  /** The style classes a cell can carry. */
  datatype CellClass = Selected | Changed | Default

  /** The class choice for a cell. */
  function CellClasses(selected: bool, changed: bool): (classes: seq<CellClass>)
    ensures Selected in classes <==> selected
    ensures Changed in classes <==> changed
    ensures Default in classes <==> !selected && !changed
    ensures 1 <= |classes| <= 2
  {
    (if selected then [Selected] else [])
    + (if changed then [Changed] else [])
    + (if !selected && !changed then [Default] else [])
  }

  // ---------------------------------------------------------------------
  // Selection state machine

  /** The view's `selection` and `selectAnchored` state. */
  class TableSelection {
    var selection: Option<SelectionRange>
    var anchored: bool

    /** The selection starts at or after the first byte. */
    predicate Valid()
      reads this
    {
      selection.Some? ==> selection.value.start >= 0
    }

    constructor ()
      ensures selection.None? && !anchored && Valid()
    {
      selection := None;
      anchored := false;
    }

    method SetSelectionFromTableRange(range: Option<TableRange>, bytesPerRow: nat, typeSize: nat)
      requires range.Some? ==> range.value.start.row >= 0 && range.value.start.column >= 0
      modifies this
      ensures selection == SelectionFromTableRange(range, bytesPerRow, typeSize)
      ensures anchored == old(anchored) && Valid()
    {
      selection := SelectionFromTableRange(range, bytesPerRow, typeSize);
    }

    /** `onPointerMove`: ignored while anchored or when the target is not a node; otherwise
        the browser's selection wins, and without one the cell under the pointer is selected. */
    method OnPointerMove(target: Option<DomNode>, domSelection: Option<DomSelection>, bytesPerRow: nat, typeSize: nat)
      requires Valid()
      modifies this
      ensures anchored == old(anchored) && Valid()
      ensures old(anchored) || target.None? ==> selection == old(selection)
      ensures !old(anchored) && target.Some? && GetSelectionRange(domSelection).Some? ==>
                selection == SelectionFromTableRange(GetSelectionRange(domSelection), bytesPerRow, typeSize)
      ensures !old(anchored) && target.Some? && GetSelectionRange(domSelection).None? ==>
                selection == (var p := GetRowAndColumn(target);
                              if p.None? then old(selection)
                              else SelectionFromTableRange(Some(TableRange(p.value, p.value)), bytesPerRow, typeSize))
    {
      if anchored {
        return;
      }
      if target.None? {
        return;
      }
      var range := GetSelectionRange(domSelection);
      if range.Some? {
        SetSelectionFromTableRange(range, bytesPerRow, typeSize);
        return;
      }
      var position := GetRowAndColumn(target);
      if position.None? {
        return;
      }
      SetSelectionFromTableRange(Some(TableRange(position.value, position.value)), bytesPerRow, typeSize);
    }

    /** `onPointerUp`: takes the browser's selection (or clears it) and anchors. */
    method OnPointerUp(target: Option<DomNode>, domSelection: Option<DomSelection>, bytesPerRow: nat, typeSize: nat)
      requires Valid()
      modifies this
      ensures Valid()
      ensures target.None? ==> selection == old(selection) && anchored == old(anchored)
      ensures target.Some? ==> selection == SelectionFromTableRange(GetSelectionRange(domSelection), bytesPerRow, typeSize)
                               && anchored
    {
      if target.None? {
        return;
      }
      SetSelectionFromTableRange(GetSelectionRange(domSelection), bytesPerRow, typeSize);
      anchored := true;
    }

    /** `onKeyUp`: Escape clears the selection and releases the anchor. */
    method OnKeyUp(key: string)
      requires Valid()
      modifies this
      ensures Valid()
      ensures key == "Escape" ==> selection.None? && !anchored
      ensures key != "Escape" ==> selection == old(selection) && anchored == old(anchored)
    {
      if key == "Escape" {
        selection := None;
        anchored := false;
      }
    }

    /** `onPointerLeave`: an unanchored selection is dropped. */
    method OnPointerLeave()
      requires Valid()
      modifies this
      ensures Valid() && anchored == old(anchored)
      ensures selection == if old(anchored) then old(selection) else None
    {
      if !anchored {
        selection := None;
      }
    }

    /** `onCopy`: the clipboard receives the selection's text, and nothing without a selection. */
    method OnCopy(data: seq<byte>, t: DataType, hex: bool, printFloat: FloatPrinter) returns (clipboard: Option<string>)
      requires Valid()
      ensures clipboard.None? <==> selection.None?
      ensures clipboard.Some? ==> clipboard.value == Join(SelectionTokens(selection.value, data, t, hex, printFloat), " ")
    {
      if selection.None? {
        return None;
      }
      var text := SelectionText(selection, data, t, hex, printFloat);
      return Some(text);
    }
  }

  // ---------------------------------------------------------------------
  // Display options

  datatype DisplayOptions = DisplayOptions(dataType: DataType, hex: bool, showAddress: bool)

  /** The options a fresh view starts with. */
  const InitialOptions := DisplayOptions(Uint8, true, false)

  /** A `Partial<DisplayOptions>`: the options a change names. */
  datatype OptionsPatch = OptionsPatch(dataType: Option<DataType>, hex: Option<bool>, showAddress: Option<bool>)

  function Override<T>(value: T, patch: Option<T>): T
  {
    if patch.Some? then patch.value else value
  }

  /** `patch`: `{ ...options, ...patch }`. */
  function Patch(options: DisplayOptions, patch: OptionsPatch): DisplayOptions
  {
    DisplayOptions(Override(options.dataType, patch.dataType), Override(options.hex, patch.hex),
                   Override(options.showAddress, patch.showAddress))
  }

  /** The later of two patches wins field by field. */
  function Merge(first: OptionsPatch, second: OptionsPatch): OptionsPatch
  {
    OptionsPatch(if second.dataType.Some? then second.dataType else first.dataType,
                 if second.hex.Some? then second.hex else first.hex,
                 if second.showAddress.Some? then second.showAddress else first.showAddress)
  }

  /** Each setter changes only its own option; an empty patch changes nothing; two patches in a
      row are one merged patch. */
  lemma PatchProperties(options: DisplayOptions, first: OptionsPatch, second: OptionsPatch, t: DataType, b: bool)
    ensures Patch(options, OptionsPatch(Some(t), None, None)) == options.(dataType := t)
    ensures Patch(options, OptionsPatch(None, Some(b), None)) == options.(hex := b)
    ensures Patch(options, OptionsPatch(None, None, Some(b))) == options.(showAddress := b)
    ensures Patch(options, OptionsPatch(None, None, None)) == options
    ensures Patch(Patch(options, first), second) == Patch(options, Merge(first, second))
  {
  }

  /** The hex check box is disabled for formats without a hexadecimal form: the floats. */
  predicate HexDisabled(t: DataType)
  {
    !SupportsHex(t)
  }

  lemma HexDisabledForFloats(t: DataType)
    ensures HexDisabled(t) <==> t == Float32 || t == Float64
  {
  }

  // ---------------------------------------------------------------------
  // Rendered rows

  /** The number of rows the loop `r < cellCount / cellsPerRow` renders, in exact arithmetic. */
  function RowCount(byteCount: nat, typeSize: nat, cellsPerRow: nat): (n: nat)
    requires typeSize >= 1 && cellsPerRow >= 1
  {
    var bytesPerRow := typeSize * cellsPerRow;
    assert bytesPerRow >= 1 by { MulMono(1, typeSize, cellsPerRow); }
    Max(0, CeilDiv(byteCount, bytesPerRow))
  }

  /** Row `r` is rendered exactly when its first byte offset is below the byte count. */
  lemma RowCountBound(byteCount: nat, typeSize: nat, cellsPerRow: nat, r: nat)
    requires typeSize >= 1 && cellsPerRow >= 1
    ensures r < RowCount(byteCount, typeSize, cellsPerRow) <==> r * (typeSize * cellsPerRow) < byteCount
  {
    var b := typeSize * cellsPerRow;
    MulMono(1, typeSize, cellsPerRow);
    var q := CeilDiv(byteCount, b);
    if r < q {
      MulMono(r + 1, q, b);
    } else {
      MulMono(q, r, b);
    }
  }

  /** The label of row `r`: the full address or the offset, via `formatHex`. */
  function RowLabel(r: nat, baseAddress: int, bytesPerRow: nat, showAddress: bool): string
  {
    FormatHex(if showAddress then baseAddress + r * bytesPerRow else r * bytesPerRow)
  }

  /** A row label reads back as the row's first address or offset. */
  lemma RowLabelParses(r: nat, baseAddress: int, bytesPerRow: nat, showAddress: bool)
    ensures ParseInt(RowLabel(r, baseAddress, bytesPerRow, showAddress), 16)
            == Some(if showAddress then baseAddress + r * bytesPerRow else r * bytesPerRow)
  {
    FormatHexParses(if showAddress then baseAddress + r * bytesPerRow else r * bytesPerRow);
  }

  datatype RenderedCell = RenderedCell(classes: seq<CellClass>, text: string)
  datatype RenderedRow = RenderedRow(caption: string, cells: seq<RenderedCell>)

  /** What the view shows for one buffer and its display state. */
  datatype View = View(
    data: seq<byte>,
    last: seq<byte>,
    byteCount: nat,
    options: DisplayOptions,
    baseAddress: int,
    cellsPerRow: nat,
    selection: Option<SelectionRange>)

  /** The cell at (r, c): its classes and its text, read at `(c + r * cellsPerRow) * size`. */
  function CellAt(v: View, r: nat, c: nat, printFloat: FloatPrinter): RenderedCell
  {
    var size := Size(v.options.dataType);
    var bytesPerRow := v.cellsPerRow * size;
    var offset := GetOffset(r, c, bytesPerRow, size);
    var changed := CellBytesChanged(v.last, v.data, offset, size);
    var selected := IsSelected(v.selection, r, c, bytesPerRow, size);
    RenderedCell(CellClasses(selected, changed),
                 FormatCell(v.options.dataType, v.data, CellOffset(v, r, c), v.options.hex, printFloat))
  }

  /** The offset a cell's text is read from: its cell number `c + r * cellsPerRow` times the size. */
  function CellOffset(v: View, r: nat, c: nat): nat
  {
    (c + r * v.cellsPerRow) * Size(v.options.dataType)
  }

  /** The cells of row `r`, by column. */
  function RowCells(v: View, r: nat, printFloat: FloatPrinter): nat -> RenderedCell
  {
    (c: nat) => CellAt(v, r, c, printFloat)
  }

  /** Row `r`: its label, then `cellsPerRow` cells. */
  function RowAt(v: View, r: nat, printFloat: FloatPrinter): (row: RenderedRow)
    ensures |row.cells| == v.cellsPerRow
    ensures forall c :: 0 <= c < v.cellsPerRow ==> row.cells[c] == CellAt(v, r, c, printFloat)
  {
    var cells := Tabulate(RowCells(v, r, printFloat), v.cellsPerRow);
    forall c | 0 <= c < v.cellsPerRow
      ensures cells[c] == CellAt(v, r, c, printFloat)
    {
      TabulateAt(RowCells(v, r, printFloat), v.cellsPerRow, c);
    }
    RenderedRow(RowLabel(r, v.baseAddress, v.cellsPerRow * Size(v.options.dataType), v.options.showAddress), cells)
  }

  /** One row of the render loop. */
  method RenderRow(v: View, r: nat, printFloat: FloatPrinter) returns (row: RenderedRow)
    ensures row == RowAt(v, r, printFloat)
  {
    var size := Size(v.options.dataType);
    var bytesPerRow := v.cellsPerRow * size;
    MulMono(0, v.cellsPerRow, size);
    var cells: seq<RenderedCell> := [];
    var c := 0;
    while c < v.cellsPerRow
      invariant 0 <= c <= v.cellsPerRow && |cells| == c
      invariant cells == Tabulate(RowCells(v, r, printFloat), c)
    {
      var cell := RenderCell(v, r, c, printFloat);
      cells := cells + [cell];
      c := c + 1;
    }
    row := RenderedRow(RowLabel(r, v.baseAddress, bytesPerRow, v.options.showAddress), cells);
  }

  /** One cell of a row: its highlight classes and its text. */
  method RenderCell(v: View, r: nat, c: nat, printFloat: FloatPrinter) returns (cell: RenderedCell)
    ensures cell == CellAt(v, r, c, printFloat)
  {
    var size := Size(v.options.dataType);
    var bytesPerRow := v.cellsPerRow * size;
    var index := c + r * v.cellsPerRow;
    var offset := index * size;
    assert offset == CellOffset(v, r, c);
    GetOffsetIsCellOffset(r, c, v.cellsPerRow, size);
    assert GetOffset(r, c, bytesPerRow, size) == offset;
    var changed := ChangedAt(v.data, v.last, offset, size);
    var selected := IsSelected(v.selection, r, c, bytesPerRow, size);
    var text := FormatCell(v.options.dataType, v.data, offset, v.options.hex, printFloat);
    cell := RenderedCell(CellClasses(selected, changed), text);
  }

  /** The rows of the table, by number. */
  function Rows(v: View, printFloat: FloatPrinter): nat -> RenderedRow
  {
    (r: nat) => RowAt(v, r, printFloat)
  }

  /** The body rows of the table. */
  method RenderRows(v: View, printFloat: FloatPrinter) returns (rows: seq<RenderedRow>)
    requires v.cellsPerRow >= 1
    ensures |rows| == RowCount(v.byteCount, Size(v.options.dataType), v.cellsPerRow)
    ensures forall r :: 0 <= r < |rows| ==> rows[r] == RowAt(v, r, printFloat)
  {
    CanvasTable.SizePositive(v.options.dataType);
    var size := Size(v.options.dataType);
    var n := RowCount(v.byteCount, size, v.cellsPerRow);
    rows := [];
    var r := 0;
    while r < n
      invariant 0 <= r <= n && rows == Tabulate(Rows(v, printFloat), r)
    {
      var row := RenderRow(v, r, printFloat);
      rows := rows + [row];
      r := r + 1;
    }
    forall i | 0 <= i < n
      ensures rows[i] == RowAt(v, i, printFloat)
    {
      TabulateAt(Rows(v, printFloat), n, i);
    }
  }

  /** The header row: the address (or offset) caption, then each column's byte offset. */
  function HeaderRow(cellsPerRow: nat, typeSize: nat, showAddress: bool): (headers: seq<string>)
    ensures |headers| == cellsPerRow + 1
  {
    [if showAddress then "Address" else "Offset"] + seq(cellsPerRow, i requires 0 <= i => CanvasTable.OffsetHeader(i, typeSize))
  }

  /** The header loop: the caption, then `formatHex(i * size)` pushed for each column in turn. */
  method RenderHeaderRow(cellsPerRow: nat, typeSize: nat, showAddress: bool) returns (headers: seq<string>)
    ensures headers == HeaderRow(cellsPerRow, typeSize, showAddress)
  {
    headers := [if showAddress then "Address" else "Offset"];
    var i := 0;
    while i < cellsPerRow
      invariant 0 <= i <= cellsPerRow && |headers| == i + 1
      invariant headers[0] == HeaderRow(cellsPerRow, typeSize, showAddress)[0]
      invariant forall k :: 0 <= k < i ==> headers[k + 1] == CanvasTable.OffsetHeader(k, typeSize)
    {
      headers := headers + [FormatHex(i * typeSize)];
      i := i + 1;
    }
    ghost var expected := HeaderRow(cellsPerRow, typeSize, showAddress);
    assert forall k :: 0 <= k < |headers| ==> headers[k] == expected[k];
  }

  /** Each column header reads back as the byte offset of that column within a row. */
  lemma HeaderRowParses(cellsPerRow: nat, typeSize: nat, showAddress: bool, i: nat)
    requires i < cellsPerRow
    ensures ParseInt(HeaderRow(cellsPerRow, typeSize, showAddress)[i + 1], 16) == Some(i * typeSize)
  {
    FormatHexParses(i * typeSize);
  }
}
