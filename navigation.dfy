/** Keyboard handling of a data cell: which row Enter inserts and where the
    caret lands on ArrowUp and ArrowDown. Positions are the table's own row
    and cell indices (the control row, when shown, is row 0). */
module Navigation {
  import opened CsvTable

  /** Where the caret ends up after an arrow key: unchanged, at an offset
      inside a cell, or nowhere because the range API rejected the offset. */
  datatype Caret = Stay | CaretAt(row: nat, col: nat, offset: nat) | RangeFault

  /** Index at which Enter inserts the new row: the current row's own index
      with Shift (the new row goes above), the next index without (below). */
  function EnterRowIndex(rowIndex: nat, shift: bool): (r: nat)
    ensures r == rowIndex || r == rowIndex + 1
    ensures r == rowIndex <==> shift
  {
    if shift then rowIndex else rowIndex + 1
  }

  /** The caption of the first button of a control cell, the node a
      range in that cell starts in; the cell's text begins with it. */
  function FirstButtonLabel(c: Cell, labels: Labels): (s: string)
    requires !c.Data?
    ensures s <= TextContent(c, labels)
    ensures c == ColumnControl ==> s == labels.addColumnBefore
    ensures c == RowControl ==> s == labels.addRowBefore
    ensures c == DeleteAllControl ==> s == labels.deleteAll
  {
    match c
    case ColumnControl => labels.addColumnBefore
    case RowControl => labels.addRowBefore
    case DeleteAllControl => labels.deleteAll
  }

  /** Moving the caret to the end of an existing cell. In a data cell the
      offset is the length of its text. In a control cell the range starts in
      its first button at that button's caption length, which the range API
      accepts only up to the button's child count (one text node, or none
      for an empty caption). */
  function JumpToEnd(t: Table, row: nat, col: nat, labels: Labels): (k: Caret)
    requires row < |t| && col < |t[row]|
    ensures t[row][col].Data? ==> k == CaretAt(row, col, |t[row][col].text|)
    ensures !t[row][col].Data? ==>
      var caption := FirstButtonLabel(t[row][col], labels);
      (k == RangeFault <==> |caption| > 1) && (k != RangeFault ==> k == CaretAt(row, col, |caption|))
  {
    match t[row][col]
    case Data(text) => CaretAt(row, col, |text|)
    case _ =>
      var caption := FirstButtonLabel(t[row][col], labels);
      var childCount := if caption == "" then 0 else 1;
      if |caption| <= childCount then CaretAt(row, col, |caption|) else RangeFault
  }

  /** ArrowUp (down == false) or ArrowDown (down == true) in cell (rowIndex,
      col): the cell in the same column one row up or down, if it exists. */
  function ArrowCaret(t: Table, rowIndex: nat, col: nat, down: bool, labels: Labels): (k: Caret)
    ensures var target := if down then rowIndex + 1 else rowIndex - 1;
      var present := 0 <= target < |t| && col < |t[target]|;
      (k == Stay <==> !present)
      && (present ==> k == JumpToEnd(t, target, col, labels))
    ensures !down && rowIndex == 0 ==> k == Stay
    ensures down && rowIndex + 1 >= |t| ==> k == Stay
    ensures k.CaretAt? ==> k.col == col && (k.row as int == rowIndex - 1 || k.row == rowIndex + 1)
  {
    var target := if down then rowIndex + 1 else rowIndex - 1;
    if 0 <= target < |t| && col < |t[target]| then JumpToEnd(t, target, col, labels) else Stay
  }

  /** Enter inserts the new row right beside the current one: above it with
      Shift, below it without; the current row moves down by one in the
      first case and stays put in the second, and every other row keeps its
      relative order. */
  lemma EnterInsertsBesideCurrent(t: Table, rowIndex: nat, shift: bool, showControls: bool)
    requires rowIndex < |t|
    ensures var n := EnterRowIndex(rowIndex, shift);
      var u := WithRowAdded(t, n, showControls);
      var cur := if shift then rowIndex + 1 else rowIndex;
      |u| == |t| + 1 && u[cur] == t[rowIndex]
      && (n == cur + 1 || n + 1 == cur)
      && u[n] == NewRow(FirstDataWidth(t, showControls), showControls)
      && (forall i :: 0 <= i < n ==> u[i] == t[i])
      && (forall i :: n < i < |u| ==> u[i] == t[i - 1])
  {
    var n := EnterRowIndex(rowIndex, shift);
    var u := WithRowAdded(t, n, showControls);
    if shift {
      assert u[rowIndex + 1] == t[rowIndex];
    } else {
      assert u[rowIndex] == t[rowIndex];
    }
  }

  /** With controls shown, ArrowUp from the first data row targets a column
      control cell and the range API rejects the caret offset whenever the
      add-column-before caption is longer than one character, as the default
      caption is. */
  lemma ArrowUpIntoControlRow(t: Table, col: nat, labels: Labels)
    requires ControlsInPlace(t, true) && Rectangular(t) && |t| >= 2
    requires col < |t[1]| - 1
    ensures |labels.addColumnBefore| > 1 ==> ArrowCaret(t, 1, col, false, labels) == RangeFault
    ensures |labels.addColumnBefore| <= 1 ==>
      ArrowCaret(t, 1, col, false, labels) == CaretAt(0, col, |labels.addColumnBefore|)
  {
    assert t[0][col] == ColumnControl;
  }
}
