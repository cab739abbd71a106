/**
  Mapping DOM nodes of the rendered table back to (row, column) positions, and the
  row-major normalisation of the browser's selection into a table range.
*/
module TableUtil {
  import opened Wrappers

  datatype TablePosition = TablePosition(row: int, column: int)
  datatype TableRange = TableRange(start: TablePosition, end: TablePosition)

  /** A DOM node as far as position lookup needs it: whether it is a table cell element,
      its index among its parent's element children, and its parent, if any. */
  datatype DomNode = DomNode(isCell: bool, index: nat, parent: Option<DomNode>)

  /** The browser selection's two ends. */
  datatype DomSelection = DomSelection(anchorNode: Option<DomNode>, focusNode: Option<DomNode>)

  /** `getRowAndColumn`: the cell is the node itself or its parent element; its row is the
      cell's parent, and the row must itself have a parent. Indices are shifted by one for the
      address column and the header row, and a negative result means "no position". */
  function GetRowAndColumn(node: Option<DomNode>): (p: Option<TablePosition>)
    ensures p.Some? ==> p.value.row >= 0 && p.value.column >= 0
  {
    if node.None? then None
    else
      var cellElem := if node.value.isCell then node else node.value.parent;
      if cellElem.None? || !cellElem.value.isCell then None
      else if cellElem.value.parent.None? then None
      else
        var rowElem := cellElem.value.parent.value;
        if rowElem.parent.None? then None
        else
          var column := cellElem.value.index - 1;
          var row := rowElem.index - 1;
          if column < 0 || row < 0 then None
          else Some(TablePosition(row, column))
  }

  /** The DOM path of the rendered table: the row element at `rowIndex` in the table body, the
      cell element at `cellIndex` in that row, and, when `text` holds, the text node inside it. */
  function RenderedNode(rowIndex: nat, cellIndex: nat, text: bool): DomNode
  {
    var body := DomNode(false, 0, None);
    var rowElem := DomNode(false, rowIndex, Some(body));
    var cell := DomNode(true, cellIndex, Some(rowElem));
    if text then DomNode(false, 0, Some(cell)) else cell
  }

  /** A data cell (or its text) maps to its position, one less than its indices in the DOM;
      the header row (row index 0) and the address column (cell index 0) map to nothing. */
  lemma RenderedNodePosition(rowIndex: nat, cellIndex: nat, text: bool)
    ensures rowIndex >= 1 && cellIndex >= 1 ==>
              GetRowAndColumn(Some(RenderedNode(rowIndex, cellIndex, text))) == Some(TablePosition(rowIndex - 1, cellIndex - 1))
    ensures rowIndex == 0 || cellIndex == 0 ==> GetRowAndColumn(Some(RenderedNode(rowIndex, cellIndex, text))) == None
  {
  }

  /** A node that is not inside a cell, a cell without a row, or a row without a parent has no
      position. */
  lemma NoPosition(node: DomNode)
    ensures !node.isCell && (node.parent.None? || !node.parent.value.isCell) ==> GetRowAndColumn(Some(node)) == None
    ensures node.isCell && node.parent.None? ==> GetRowAndColumn(Some(node)) == None
    ensures node.isCell && node.parent.Some? && node.parent.value.parent.None? ==> GetRowAndColumn(Some(node)) == None
    ensures GetRowAndColumn(None) == None
  {
  }

  /** Row-major order on positions. */
  predicate RowMajorLe(a: TablePosition, b: TablePosition)
  {
    a.row < b.row || (a.row == b.row && a.column <= b.column)
  }

  /** The swap in `getSelectionRange`: the later position, in row-major order, goes last. */
  function Normalize(start: TablePosition, end: TablePosition): (r: TableRange)
    ensures RowMajorLe(r.start, r.end)
    ensures multiset{r.start, r.end} == multiset{start, end}
    ensures RowMajorLe(start, end) ==> r == TableRange(start, end)
  {
    if start.row > end.row || (start.row == end.row && start.column > end.column) then TableRange(end, start)
    else TableRange(start, end)
  }

  /** Exchanging the two ends does not change the normalised range. */
  lemma NormalizeSymmetric(a: TablePosition, b: TablePosition)
    ensures Normalize(a, b) == Normalize(b, a)
  {
  }

  /** `getSelectionRange`, given the window's selection. */
  function GetSelectionRange(selection: Option<DomSelection>): (r: Option<TableRange>)
    ensures r.Some? <==> selection.Some? && GetRowAndColumn(selection.value.anchorNode).Some?
                                          && GetRowAndColumn(selection.value.focusNode).Some?
    ensures r.Some? ==> r.value.start.row >= 0 && r.value.start.column >= 0
                        && r.value.end.row >= 0 && r.value.end.column >= 0
    ensures r.Some? ==> RowMajorLe(r.value.start, r.value.end)
                        && multiset{r.value.start, r.value.end}
                           == multiset{GetRowAndColumn(selection.value.anchorNode).value,
                                       GetRowAndColumn(selection.value.focusNode).value}
  {
    if selection.None? then None
    else
      var start := GetRowAndColumn(selection.value.anchorNode);
      var end := GetRowAndColumn(selection.value.focusNode);
      if start.None? || end.None? then None
      else Some(Normalize(start.value, end.value))
  }

  /** Selecting backwards (focus before anchor) gives the same range as selecting forwards. */
  lemma GetSelectionRangeSymmetric(anchor: Option<DomNode>, focus: Option<DomNode>)
    ensures GetSelectionRange(Some(DomSelection(anchor, focus))) == GetSelectionRange(Some(DomSelection(focus, anchor)))
  {
    var a := GetRowAndColumn(anchor);
    var f := GetRowAndColumn(focus);
    if a.Some? && f.Some? {
      NormalizeSymmetric(a.value, f.value);
    }
  }
}
