# lucid-struct memory grid, modelled in Dafny

lucid-struct is a memory viewer for Windows processes. A Go backend reads a
block of another process's memory, follows pointer chains through it and
records timestamped frames of it. A TypeScript frontend shows the bytes as a
grid of fixed-width cells in one of ten scalar formats. It tracks which cells
changed since the last poll and lets the user select a range of cells and copy
their text.

This project models that memory-grid logic:

- `DataType` (`data_type.dfy`): the scalar format registry. It gives each
  format's size, character count and cell width, decodes integers
  little-endian, reading signed formats as two's complement, and formats them
  padded and upper-cased.
- `Numerals` (`numerals.dfy`): the JavaScript number-to-text operations that
  formatting relies on (`toString(radix)`, `padStart`, `toUpperCase`, `trim`),
  together with a reference parser used to state round trips.
- `CanvasTable` (`canvas_table.dfy`): the canvas grid.
  - Its arithmetic: cell count, layout, byte offsets, the `"??"` rule, the
    frame geometry and the labels.
  - Its mutable state `TableState`, whose heat array is marked on byte changes
    and decays as rows are painted.
- `TableUtil` (`table_util.dfy`): DOM positions of table cells over an
  abstract node, and the normalisation of a selection into row-major order.
- `TableView` (`table_view.dfy`): the HTML table view.
  - Cell offsets, the byte-range selection, the copied text and change
    detection.
  - Cell classes and the display options.
  - The rendered rows, and the selection state machine `TableSelection`.
- `UseDrag` (`use_drag.dfy`): the pointer-drag state record `DragState` and
  its three event handlers.
- `Record` (`record.dfy`): the recording `Recording`. It covers frame capture
  over an abstract read, the binary search from a time to a frame, and frame
  retrieval.
- `Memory` (`memory.dfy`): the pointer-width arithmetic (`IAbs`,
  `AddOffset`), memory reads over an abstract OS read, and the pointer-chain
  walk.
- `AppState` (`app_state.dfy`): address parsing, the poll tick, the
  recording-state transitions and the copy of a decoded string into a byte
  view.
- `StructView` (`struct_view.dfy`): the older struct view, with its own
  format copy and its row and cell arithmetic.
- `Wrappers` (`wrappers.dfy`): `Option` and `Result`.

## How the sources are represented

- **Bytes and integers.** Bytes are `byte` (0..255). Integers are unbounded,
  so widths are written out:
  - Go `int64` arithmetic wraps explicitly (`Memory.WrapInt64`).
  - Pointers are taken modulo 2^32 or 2^64 (`Memory.Modulus`).
  - Go's truncating division is `Numerals.TruncDiv`.
  - JavaScript's `Math.floor` and `Math.ceil` of a quotient are
    `Numerals.FloorDiv` and `Numerals.CeilDiv`.
- **Character counts.** The factor 1.204 is kept exact by scaling by 1000
  (`DataType.ScaledCharCount`).
- **Outside inputs become parameters.** Reads of process memory are a
  function parameter `Reader` that returns the bytes copied and an error
  number. Canvas and DOM measurements are given as numbers. A DOM node is a
  small datatype that records whether it is a table cell, its parent and its
  index among its siblings.
- **Mutable state becomes classes.**
  - The canvas table's state (`TableState`), the table view's selection
    (`TableSelection`), the drag state (`DragState`), the recording
    (`Recording`) and the app state (`AppModel`) are classes.
  - Their methods change the fields as the handlers do.
  - The heat buffer is an `array<byte>`.
- **Loops.** These source loops are loops here, each proved against a
  specification function through its invariants:
  - `updateTableData`'s marking loop and `drawTable`'s two content paint loops;
  - the table view's copy loop, `changedAt`, its header loop and its row and
    cell loops;
  - the struct view's header, row and cell loops;
  - the binary search in `FrameIndex`;
  - the walk in `_ResolvePointer`;
  - the copy loop in `base64ToDataView`.

  `drawTable`'s address-label and offset-header loops only paint text. They
  are given as the label each iteration paints (`CanvasTable.AddressLabel`,
  `CanvasTable.OffsetHeader`).

## Where the code and its description differ

The model follows the code in each of these cases:

- When `updateTableData` needs more heat cells than it has, it replaces the
  heat array with a fresh zero array. Every earlier heat value is lost,
  including in cells that did not change.
- The canvas `rowCount` divides the byte length, not the cell count, by the
  cells per row. For multi-byte formats the canvas is therefore taller than
  its rows need.
- `FrameIndex` returns 0 when no timestamp is at least the requested time. A
  time after the last frame therefore shows the first frame
  (`Record.AfterLastShowsFirst`).
- `parseAddress` parses `BigInt("0x" + text)`. That call strips white space
  around the whole literal, so only trailing white space is accepted after the
  digits. Leading white space, a sign, or any other character gives 0.
- The struct view labels row `r` with `baseAddress + r`, not
  `baseAddress + r * bytesPerRow`.
- The struct view pads every unsigned value with zeros, decimal included. The
  registry pads unsigned decimal values with spaces.

## Model

| member | source | states |
|---|---|---|
| AppState.ParseAddress | frontend/src/components/App.state.ts:178-184 | parseAddress: the text without trailing white space, read as hex digits of either case when it is a non-empty run of them, and 0 otherwise; its meaning is proved by ParseAddressDigits, ParseAddressInvalid and ParseAddressBlank |
| Numerals.FormatHex | frontend/src/components/TableView.tsx:250-252 | formatHex: the radix-16 digits, zero-padded to two characters and upper-cased; FormatHexShape and FormatHexParses state its meaning |
| DataType.CellWidth | frontend/src/components/TableView.DataType.ts:30-47 | charCount·11 + 4 for integer formats and 84 for floats; bounds in CellWidthPositive |
| DataType.DecodeInteger | frontend/src/components/TableView.DataType.ts:34 | the getter's little-endian read of size bytes at the offset, as two's complement for signed formats; DecodeRange and DecodeIsLittleEndian state its meaning |
| DataType.FormatInteger | frontend/src/components/TableView.DataType.ts:33-39 | format: the decoded value in radix 16 or 10, padded to the character count, upper-cased; FormattedLength, FormattedShape and FormatRoundTrip state its meaning |
| DataType.FormatCell | frontend/src/components/TableView.tsx:111-114 | the cell text: "??" when offset + size exceeds the byte length, the format's text otherwise; FormatCellPlaceholder states it |
| TableView.GetOffset | frontend/src/components/TableView.tsx:39-41 | getOffset: row·bytesPerRow + column·size; GetOffsetIsCellOffset ties it to the cell index |
| TableView.IsSelected | frontend/src/components/TableView.tsx:46-51 | isSelected: a selection exists and start ≤ getOffset(row, column) ≤ end; SelectedCells gives its meaning over table ranges |
| TableView.Patch | frontend/src/components/TableView.tsx:217 | patch: the spread of the current options then the partial ones, each option given in the patch replacing the current one; PatchProperties states its laws |
| TableView.RowCount | frontend/src/components/TableView.tsx:27-37 | the number of rows the row loop renders for the fractional bound cellCount / cellsPerRow; RowCountBound characterises it |
| TableView.RowLabel | frontend/src/components/TableView.tsx:98-99 | formatHex of the row's full address, or of its offset when addresses are hidden; RowLabelParses reads it back |
| TableView.CellAt | frontend/src/components/TableView.tsx:100-116 | a cell's classes from changedAt and isSelected and its text at offset (c + r·cellsPerRow)·size; RenderCell computes it |
| CanvasTable.TableState.SetProps | frontend/src/components/CanvasTable.tsx:239-240 | each render copies the base address and the hex flag into the state and changes nothing else |
| CanvasTable.AddressLabel | frontend/src/components/CanvasTable.tsx:162-165 | the label the address loop paints for a row: baseAddress + row·bytesPerRow in upper-case hex; AddressLabelParses reads it back |
| CanvasTable.OffsetHeader | frontend/src/components/CanvasTable.tsx:193-195 | the header the offset loop paints for a column: formatHex(column·size); HeaderRowParses reads it back |
| CanvasTable.MarkChanged | frontend/src/components/CanvasTable.tsx:53-58 | the heat after the marking loop, of the same length as before; MarkChangedCells and CellChangedStep state its meaning |
| CanvasTable.DecayRows | frontend/src/components/CanvasTable.tsx:138-150 | the heat after the rows [firstRow, lastRow) are painted once each, of the same length; DecayRowsProperties states its meaning |
| StructView.FormatStructInteger | frontend/src/components/StructView.tsx:143-149 | this copy's format: the decoded value in radix 16 or 10, padded with its own padding rule, upper-cased; StructFormatProperties states its meaning |
| StructView.StructRowAt | frontend/src/components/StructView.tsx:37-46 | row r: the label formatHex(baseAddress + r), then cellsPerRow cells; RenderStructRow computes it |
| Memory.Follow | backend/win32/memory.go:33-38 | the loop of _ResolvePointer from a given address over the remaining offsets, recording each address read; every address stays below 2^bits; FollowSteps and FollowEnd state its meaning |
| Memory.Resolve | backend/win32/memory.go:28-40 | _ResolvePointer: base for no offsets, otherwise the walk from base + offsets[0]; the address stays below 2^bits; ResolveTrace states its meaning |
| DataType.SizeTable | frontend/src/components/TableView.DataType.ts:1-12 | u/i 8, 16, 32, 64 have sizes 1, 2, 4, 8; float32 is 4 and float64 is 8; every size is 1, 2, 4 or 8 |
| DataType.CharCount | frontend/src/components/TableView.DataType.ts:20-25 | the character count is the ceiling of 2·size·(hex ? 1 : 1.204) + (signed ? 1 : 0), stated as the least n with 1000·n at or above the scaled count |
| DataType.CharCountTable | frontend/src/components/TableView.DataType.ts:20-25 | the character count of every integer format in both radixes, e.g. uint8 is 2 in hex and 3 in decimal, int64 is 21 in decimal |
| DataType.CellWidthPositive | frontend/src/components/TableView.DataType.ts:30-47 | every cell width is at least 26 (uint8 hex is exactly 26), so it is a safe divisor; float formats are 84 wide and do not support hex |
| DataType.DecodeRange | frontend/src/components/TableView.DataType.ts:34 | a decoded unsigned value lies in [0, 256^size), a signed one in [-2^(8·size-1), 2^(8·size-1)) |
| DataType.DecodeIsLittleEndian | frontend/src/components/TableView.DataType.ts:34 | the decoded value, taken modulo 256^size, written back as size little-endian bytes gives exactly the bytes read |
| DataType.DigitBudgetCovers | frontend/src/components/TableView.DataType.ts:20-25 | the digits a format allows cover every value of its size: 256^size ≤ radix^digits, and the sign takes the one extra character |
| DataType.FormattedLength | frontend/src/components/TableView.DataType.ts:33-39 | every formatted integer is exactly the format's character count long |
| DataType.FormattedShape | frontend/src/components/TableView.DataType.ts:35-38 | a formatted integer has no lower-case letter and is padded with '0' only for unsigned hex, with ' ' otherwise |
| DataType.FormatRoundTrip | frontend/src/components/TableView.DataType.ts:33-39 | trimming a formatted integer and parsing it in the same radix gives back the decoded value |
| DataType.FormatCellPlaceholder | frontend/src/components/TableView.DataType.ts:33-39 | a cell reads "??" exactly when its bytes run past the data, and shows the formatted integer otherwise |
| Numerals.FormatHexShape | frontend/src/components/TableView.tsx:250-252 | formatHex gives at least two characters, none lower-case |
| Numerals.FormatHexParses | frontend/src/components/TableView.tsx:250-252 | formatHex output parses in radix 16 back to its argument |
| CanvasTable.CellCount | frontend/src/components/CanvasTable.tsx:36-38 | the cell count is floor(byteLength / size): n·size ≤ byteLength < (n+1)·size |
| CanvasTable.ComputeLayout | frontend/src/components/CanvasTable.tsx:103-123 | there is at least one cell per row for every content width, zero and negative included |
| CanvasTable.LayoutProperties | frontend/src/components/CanvasTable.tsx:103-123 | when one minimum cell fits, the row holds as many minimum cells as fit, each widened cell is at least the minimum, the widened cells still fit, 0 ≤ leftover < cellsPerRow, and the padding is non-negative and at most half the leftover |
| CanvasTable.ByteOffset | frontend/src/components/CanvasTable.tsx:106-109 | the byte offset of (row, column) is (row·cellsPerRow + column)·size, non-negative for non-negative rows |
| CanvasTable.FormatValue | frontend/src/components/CanvasTable.tsx:110-115 | for integer formats the cell text is "??" exactly when offset + size exceeds the byte length |
| CanvasTable.AddressLabelParses | frontend/src/components/CanvasTable.tsx:162-165 | a row's address label parses in radix 16 to baseAddress + row·bytesPerRow |
| CanvasTable.ComputeFrame | frontend/src/components/CanvasTable.tsx:81-131 | the frame has at least one cell per row, and bytesPerRow is cellsPerRow·size |
| CanvasTable.FrameProperties | frontend/src/components/CanvasTable.tsx:81-131 | the painted rows [firstRow, lastRow) cover the viewport; rowCount is the ceiling of the byte length over cellsPerRow; the table is tall enough for a header and rowCount rows, and at least as tall as the viewport |
| CanvasTable.CellChangedStep | frontend/src/components/CanvasTable.tsx:53-58 | after byte i is scanned, a cell is marked exactly when it was marked before or i is a changed byte inside it |
| CanvasTable.MarkChangedInPlace | frontend/src/components/CanvasTable.tsx:53-58 | the marking loop leaves in the heat array exactly the specified marking of the previous heat |
| CanvasTable.MarkChangedCells | frontend/src/components/CanvasTable.tsx:46-58 | every byte below both lengths that differs puts 255 in its cell's heat when that cell is in range; a cell none of whose bytes changed keeps its heat |
| CanvasTable.DecayedTimesValue | frontend/src/components/CanvasTable.tsx:145-150 | painting a cell n times leaves max(0, h − 2n): heat falls by 2 per paint and is clamped at 0 |
| CanvasTable.DecayRangeConcat | frontend/src/components/CanvasTable.tsx:138-150 | decaying the cells [lo, mid) then [mid, hi) is decaying [lo, hi) |
| CanvasTable.DecayRowsProperties | frontend/src/components/CanvasTable.tsx:138-150 | a paint never raises heat, strictly lowers positive heat in painted rows, and leaves cells outside the painted rows unchanged |
| CanvasTable.TableState.constructor | frontend/src/components/CanvasTable.tsx:27-34 | a new state holds the data and type, base address 0 and hex on, and a zero heat array of the cell count's length |
| CanvasTable.TableState.UpdateTableData | frontend/src/components/CanvasTable.tsx:40-59 | the heat length becomes max(old length, new cell count) and never shrinks; on growth a fresh zero array replaces the old heat before marking; otherwise the same array is marked in place |
| CanvasTable.TableState.PaintRow | frontend/src/components/CanvasTable.tsx:140-150 | painting one row decays exactly that row's cells in the heat array |
| CanvasTable.TableState.PaintVisibleCells | frontend/src/components/CanvasTable.tsx:138-159 | the paint loop leaves the heat decayed over exactly the rows [firstRow, lastRow) |
| CanvasTable.TableState.DrawTable | frontend/src/components/CanvasTable.tsx:61-159 | a draw computes the frame from the state and the measurements; it throws, leaving the heat unchanged, exactly when a row above row 0 is to be painted; otherwise it decays the heat of the visible rows |
| CanvasTable.NegativeRowOffset | frontend/src/components/CanvasTable.tsx:107-114 | a cell in a row above row 0 starts at a negative offset and its bytes end at or before 0, so the "??" test does not catch it and the getter reads at a negative index |
| TableUtil.GetRowAndColumn | frontend/src/util/table.ts:5-22 | a position, when there is one, has a non-negative row and column |
| TableUtil.RenderedNodePosition | frontend/src/util/table.ts:17-21 | a cell (or its text) at row index i and cell index j maps to (i−1, j−1); the header row and the address column map to nothing |
| TableUtil.NoPosition | frontend/src/util/table.ts:6-16 | a null node, a node outside any cell, a cell without a row, and a row without a parent map to nothing |
| TableUtil.Normalize | frontend/src/util/table.ts:33-38 | the result is in row-major order, holds the same two positions as the inputs, and is unchanged when they are already ordered |
| TableUtil.NormalizeSymmetric | frontend/src/util/table.ts:33-37 | exchanging the two positions gives the same range |
| TableUtil.GetSelectionRange | frontend/src/util/table.ts:25-39 | a range exists exactly when there is a selection and both endpoints map to positions; it is ordered and non-negative |
| TableUtil.GetSelectionRangeSymmetric | frontend/src/util/table.ts:25-39 | exchanging anchor and focus gives the same range |
| TableView.GetOffsetIsCellOffset | frontend/src/components/TableView.tsx:36-41 | getOffset(r, c) is (c + r·cellsPerRow)·size, the same offset that chooses the cell's text |
| TableView.SelectionFromTableRange | frontend/src/components/TableView.tsx:52-60 | an absent range clears the selection, a present one sets it |
| TableView.SelectedCells | frontend/src/components/TableView.tsx:46-60 | a cell is selected exactly when it lies between the range's ends in row-major order |
| TableView.OrderedSelection | frontend/src/components/TableView.tsx:52-60 | an ordered range gives a selection spanning at least one cell's bytes: start + size − 1 ≤ end |
| TableView.StepCountBound | frontend/src/components/TableView.tsx:66 | the copy loop visits token k exactly when start + k·size ≤ end |
| TableView.SelectionTokens | frontend/src/components/TableView.tsx:64-71 | there is one token per step of size from start to end inclusive |
| TableView.CollectTokens | frontend/src/components/TableView.tsx:64-71 | the loop collects exactly the tokens of the selection |
| TableView.SelectionText | frontend/src/components/TableView.tsx:61-73 | the text is "" without a selection, and otherwise its tokens joined by single spaces |
| TableView.InBoundsTokens | frontend/src/components/TableView.tsx:66-70 | when the selection ends inside the data, each token is the formatted integer at its offset, of the format's character count |
| TableView.SelectionTextLayout | frontend/src/components/TableView.tsx:61-73 | the copied text of an in-bounds selection has token k exactly at position k·(w+1), with single separators between |
| TableView.JoinUniform | frontend/src/components/TableView.tsx:72 | joining tokens of equal width w places token k at k·(w + separator length) |
| TableView.ChangedAt | frontend/src/components/TableView.tsx:77-86 | the answer is true exactly when some byte of [offset, offset+size) lies below both lengths and differs |
| TableView.ChangedAtMatchesHeat | frontend/src/components/TableView.tsx:77-86 | changedAt of cell k holds exactly when the canvas table's update would mark that cell's heat |
| TableView.CellClasses | frontend/src/components/TableView.tsx:103-109 | a cell gets the selected class iff selected, the changed class iff changed, and the default class iff neither |
| TableView.TableSelection.constructor | frontend/src/components/TableView.tsx:43-45 | a new table has no selection and is not anchored |
| TableView.TableSelection.SetSelectionFromTableRange | frontend/src/components/TableView.tsx:52-60 | the selection becomes the one the range gives, and the anchor is untouched |
| TableView.TableSelection.OnPointerMove | frontend/src/components/TableView.tsx:121-138 | nothing changes while anchored or without a target; otherwise the DOM range, or else the single cell under the target, becomes the selection |
| TableView.TableSelection.OnPointerUp | frontend/src/components/TableView.tsx:139-146 | with a target, the DOM range becomes the selection and the selection is anchored |
| TableView.TableSelection.OnKeyUp | frontend/src/components/TableView.tsx:147-153 | Escape clears both the selection and the anchor; other keys change nothing |
| TableView.TableSelection.OnPointerLeave | frontend/src/components/TableView.tsx:154-157 | leaving clears the selection only when it is not anchored |
| TableView.TableSelection.OnCopy | frontend/src/components/TableView.tsx:158-163 | the clipboard is set exactly when there is a selection, to its selection text |
| TableView.PatchProperties | frontend/src/components/TableView.tsx:217-223 | patching one option changes that option only; an empty patch changes nothing; two patches compose as their merge |
| TableView.HexDisabledForFloats | frontend/src/components/TableView.tsx:238-239 | the hex box is disabled exactly for float32 and float64 |
| TableView.RowCountBound | frontend/src/components/TableView.tsx:27-37 | row r is rendered exactly when its first byte r·size·cellsPerRow lies below the byte count |
| TableView.RowLabelParses | frontend/src/components/TableView.tsx:98-99 | a row label parses in radix 16 to the row's full address, or to its offset when addresses are hidden |
| TableView.HeaderRow | frontend/src/components/TableView.tsx:88-93 | the header row has one caption and one header per column |
| TableView.RenderHeaderRow | frontend/src/components/TableView.tsx:88-93 | the header loop builds exactly the header row: the caption, then formatHex(i·size) for each column |
| TableView.HeaderRowParses | frontend/src/components/TableView.tsx:91-92 | column header i parses in radix 16 to i·size |
| TableView.RowAt | frontend/src/components/TableView.tsx:96-117 | a row has cellsPerRow cells, cell c being the cell at (r, c) |
| TableView.RenderCell | frontend/src/components/TableView.tsx:101-116 | one cell's classes and text are those of the cell at (r, c) |
| TableView.RenderRow | frontend/src/components/TableView.tsx:97-117 | the cell loop builds exactly the specified row |
| TableView.RenderRows | frontend/src/components/TableView.tsx:95-119 | the row loop builds rowCount rows, row r being the specified row r |
| UseDrag.Relative | frontend/src/hooks/useDrag.ts:47-65 | a position relative to the box is the client position minus the box's corner |
| UseDrag.DragState.constructor | frontend/src/hooks/useDrag.ts:8-16 | the initial state is not dragging, pointerId and button −1, origin and current (0, 0) |
| UseDrag.DragState.PointerDown | frontend/src/hooks/useDrag.ts:37-55 | while dragging, or with no box, nothing changes; otherwise dragging starts with the pointer's id and button and origin = current = client minus box |
| UseDrag.DragState.PointerMove | frontend/src/hooks/useDrag.ts:57-68 | only current changes, to client minus box, and only while dragging with the same pointer and with a box |
| UseDrag.DragState.PointerUp | frontend/src/hooks/useDrag.ts:70-81 | the matching pointer ends the drag, resetting pointerId and button to −1 and keeping origin and current; any other pointer changes nothing |
| Record.Recording.constructor | backend/record/record.go:23-28 | a new recording has the given start and size and no frames or timestamps |
| Record.Timestamp | backend/record/record.go:38-39 | without overflow, the timestamp is the midpoint of the two times in milliseconds, by integer division |
| Record.TimestampBetween | backend/record/record.go:35-39 | the timestamp lies between the start and end times in milliseconds |
| Record.CaptureFrame | backend/record/record.go:30-48 | a nil recording fails; a failed read fails and appends nothing; a good read appends one frame and one timestamp, so frames and timestamps stay in lockstep |
| Record.FirstAtLeast | backend/record/record.go:74-88 | the index of the first timestamp at or above t, every earlier one being below t |
| Record.FrameIndexOf | backend/record/record.go:74-88 | the search result is a valid index or 0, and a positive result has the one before it below t |
| Record.FrameIndex | backend/record/record.go:68-89 | a nil recording gives −1; over sorted timestamps the binary search gives the first timestamp at or above t, or 0 when none is |
| Record.AfterLastShowsFirst | backend/record/record.go:74-88 | a time after the last timestamp gives index 0 |
| Record.Clamp | backend/record/record.go:58-64 | the clamped index is valid, and a valid index is kept |
| Record.GetFrame | backend/record/record.go:50-66 | a nil recording or one without frames fails; otherwise the frame at the search index is returned |
| Memory.IAbs | backend/win32/memory.go:12-17 | IAbs is the absolute value wrapped to int64; it is negative only for the minimum int64 |
| Memory.AddOffset | backend/win32/memory.go:19-25 | AddOffset is (ptr + offset) mod 2^bits for 32- and 64-bit pointers, negative offsets and the minimum int64 included |
| Memory.AbsCongruent | backend/win32/memory.go:19-25 | subtracting IAbs(offset) is congruent to adding a negative offset |
| Memory.ReadMemory | backend/win32/memory.go:91-98 | a pointer-sized read succeeds exactly when the OS reports no error and copies the whole size, and the value is then the little-endian reading of the bytes |
| Memory.ReadBytes | backend/win32/memory.go:109-120 | count 0 gives an empty slice without error; an OS error is returned; a short read is an error; a good read returns the bytes copied |
| Memory.FollowSteps | backend/win32/memory.go:33-38 | each later address of the walk is the value read at the previous one moved by the next offset, and every read before the last one succeeded |
| Memory.FollowEnd | backend/win32/memory.go:33-39 | a failed walk stops at the address whose read failed, with that error; a good walk reads once per remaining offset and ends at the last value moved by the last offset |
| Memory.ResolveTrace | backend/win32/memory.go:28-40 | no offsets returns the base without reads; otherwise the walk starts at base + offsets[0], makes at most len(offsets) − 1 reads, and stops at the first failure |
| Memory.ResolvePointerAt | backend/win32/memory.go:28-40 | the loop computes exactly the specified walk's address and error |
| Memory.ResolvePointer | backend/win32/memory.go:42-54 | for x64 the walk is 64-bit; otherwise the base is truncated to 32 bits and the 32-bit result is zero-extended |
| AppState.ParseAddressDigits | frontend/src/components/App.state.ts:178-181 | hex digits of either case, optionally followed by white space, parse to their unbounded value |
| AppState.ParseAddressInvalid | frontend/src/components/App.state.ts:178-183 | a sign, a prefix, any other non-hex character, or leading or inner white space gives 0 |
| AppState.ParseAddressBlank | frontend/src/components/App.state.ts:178-183 | empty or blank text gives 0 |
| AppState.ParseAddressFormatHex | frontend/src/components/App.state.ts:178-184 | an address printed by formatHex parses back to itself |
| AppState.CharCodes | frontend/src/components/App.state.ts:186-194 | the byte view has the string's length, and byte i is the code of character i |
| AppState.CharCodesOfBinaryString | frontend/src/components/App.state.ts:186-194 | copying the binary string of some bytes into a view gives back those bytes |
| AppState.BytesToView | frontend/src/components/App.state.ts:186-194 | the copy loop fills a fresh buffer with exactly the character codes |
| AppState.PollDecision | frontend/src/components/App.state.ts:116-131 | while playing, idle; fetch exactly when a process with non-zero pid is chosen and nothing is recording; otherwise clear exactly when the data is not already empty |
| AppState.AppModel.constructor | frontend/src/components/App.state.ts:16-29 | the app starts with the empty view, not recording, with no stream and no recorder |
| AppState.AppModel.Poll | frontend/src/components/App.state.ts:116-131 | a tick leaves the data, clears it, or replaces it with the fetched bytes (empty on a failed fetch), as the decision says, and changes nothing else |
| AppState.AppModel.SetStream | frontend/src/components/App.state.ts:31-41 | a stream is only taken with a video element; clearing always succeeds |
| AppState.AppModel.RecordStream | frontend/src/components/App.state.ts:47-65 | without a stream nothing changes; otherwise a recorder starts and the state is Recording |
| AppState.AppModel.StopRecordStream | frontend/src/components/App.state.ts:66-74 | without a recorder nothing changes; otherwise the recorder is dropped and the state is Playing |
| AppState.AppModel.ClearRecording | frontend/src/components/App.state.ts:102-113 | the recording URL is always cleared, and the state returns to None only when a video element exists |
| StructView.StructFormatProperties | frontend/src/components/StructView.tsx:129-151 | this copy's formatted integers are exactly the character count long, upper-case, padded with '0' for all unsigned values and ' ' for signed ones, and parse back to the decoded value |
| StructView.StructFormatAgrees | frontend/src/components/StructView.tsx:143-149 | this copy and the registry pad alike exactly for hex or signed values, and then format alike; an unsigned decimal value formats alike exactly when its digits fill the width, so no padding is inserted |
| StructView.StructCellText | frontend/src/components/StructView.tsx:40-43 | for integer formats a cell is "??" exactly when its bytes run past the data |
| StructView.CellsPerRow | frontend/src/components/StructView.tsx:24-26 | there is at least one cell per row, and as many as fit when one does |
| StructView.StructAddressLabel | frontend/src/components/StructView.tsx:38 | row r's label parses to baseAddress + r, so consecutive rows are labelled one apart |
| StructView.StructCellShows | frontend/src/components/StructView.tsx:39-43 | cell (r, c) reads offset (c + r·cellsPerRow)·size, shows "??" exactly past the data, and otherwise parses back to the decoded value |
| StructView.RenderHeaders | frontend/src/components/StructView.tsx:29-33 | the header loop builds the caption and formatHex(i·size) for each column, as the table view's header row |
| StructView.RenderStructRow | frontend/src/components/StructView.tsx:37-46 | the cell loop builds exactly the specified row |
| StructView.RenderStructRows | frontend/src/components/StructView.tsx:35-47 | the row loop renders a row while its first byte lies below the byte count |

## Left out

- Float formatting: the `toFixed`/`toExponential` choice depends on IEEE 754
  printing. Float cells are printed by a `FloatPrinter` function parameter, and
  only the float sizes, widths and `supportsHex` are modelled.
- Canvas painting: `ctx` calls, fonts and colours, `measureText` for the
  address column, `getComputedStyle` for the row height, `updateSize`, and the
  `requestAnimationFrame` loop (frontend/src/components/CanvasTable.tsx:246-259).
  The address width, row height, scroll position and client size are inputs.
- `ReadProcessMemory` and the other Win32 calls are an abstract `Reader`
  function. Its `errNo` and `copied` bytes stand for the syscall's result.
- `WriteMemory`, `ReadUintptr`, `_ResolveModulePointer` and
  `GetExternalModuleHandle` are not part of this model. The last is a
  mutex-guarded cache over process-module enumeration.
- Memory.ReadBytes: on error, Go returns the buffer with whatever was copied.
  The model returns the copied bytes padded with zeros to the requested size.
- Memory.IAbs: modelled for `int64` only. The Go generic also accepts `int8`,
  `int16` and `int32`, but `AddOffset`, its only caller, passes an `int64`.
- Record.CaptureFrame takes the two clock readings as parameters rather than
  reading the clock.
- backend/app.go: its RPC bindings, string-to-number parsing, process handles
  and capture goroutine are not part of this model.
- React plumbing: `useSize`, `useLoop`, `debounce`, `useConstant`,
  `Resizable`, effects and the refs that hold the last data.
- The backend calls in the poll tick are asynchronous. Here each tick is
  handed the outcome of its fetch and applies it at once.
  `Backend.StartRecording` and `Backend.StopRecording` are left out.
- Media capture and playback (`MediaRecorder`, object URLs, video events) are
  reduced to booleans that say whether a stream, a recorder and a video
  element exist.
- `atob` base64 decoding is a browser built-in. The byte view is modelled
  from the decoded string.
- The table view's selection-info header, `removeAllRanges`, and the struct
  view's `getSelectedBytes` and its selection display are not modelled.
- UseDrag: pointer capture and the begin, update and end callbacks are not
  modelled. Client coordinates are `real`, standing in for JavaScript
  numbers.
- Heat writes at an index past the heat array, and canvas reads and writes at
  an index past the data, are silent no-ops in a typed array. The model marks
  only cells inside the heat array and decays only cells inside it.
- `drawTable` returns before touching the heat when there is no canvas, no
  container or no 2D context. The model assumes all three are present.
- `updateTableData`'s default type argument `"float32"` is not modelled. Its
  only caller passes the type.
- `cellsPerRow` is an input of the table view's and the struct view's render
  (`TableView.View`, `StructView.Struct`). `StructView.CellsPerRow` states the
  formula the views compute from their measured widths, but the render
  methods do not require the input to equal it.
