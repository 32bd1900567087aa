# SimpleCsvEditor table model

A Dafny model of the table-synchronisation engine of `SimpleCsvEditor`, a
browser widget. The widget shows delimited text as an editable HTML table
and reads the table back as delimited text.

The model has three modules:

- `CsvTable` (`csv_table.dfy`) is the pure part:
  - the table as a sequence of rows of cells;
  - the grid that `setCsv` builds from the parser's token lines;
  - the data region that `getCsv` reads;
  - every structural edit as a function on tables, with lemmas saying what
    each edit does to the controls and to the data region.
- `Navigation` (`navigation.dfy`) is the keyboard logic of a data cell:
  - the row that Enter inserts;
  - the cell and caret offset that ArrowUp and ArrowDown move to.
- `Editor` (`editor.dfy`) holds the class `SimpleCsvEditor`. Its fields are:
  - the table;
  - `showControls`;
  - the recorded `delimiterUsed`, `lineBreakUsed` and `lastLineEmpty`;
  - the log of values handed to the change callback.

  Its methods change the table one row or one cell at a time, as the DOM
  calls do, and are proved against the functions of `CsvTable`.

A cell is one of four kinds:
- a data cell, holding its text;
- a column control (add before, delete, add after);
- a row control;
- the delete-all cell at the corner.

A control cell's text is the concatenation of its button captions.

The parser and the serialiser (PapaParse) are foreign code. They are
parameters of the editor here: `parse` returns the token lines, the line
break and the delimiter, and `unparse` is an uninterpreted function of the
data strings and the delimiter. The change callback is modelled by two
things: the flag `notifies` (whether a callback was given) and the
`notifications` log.

The DOM's `insertRow`/`insertCell` take an index from −1 to the length, and
−1 appends. `deleteRow`/`deleteCell` take an index from −1 to the length
minus one, and −1 removes the last. These rules are the `requires` of the
editing methods (`InsertPos`, `DeletePos`). An index out of range throws in
the browser, so the model does not clamp.

Some details of the code that the model keeps as written:

- **Trailing line break.** `lastLineEmpty` compares only the last character
  of the input with the detected line break. So it is never true when the
  line break is `"\r\n"`, and `getCsv` reads a text that ended in `"\r\n"`
  back without that final line break. `LastLineEmptyOnlySingleChar` sets this
  comparison against the whole-sequence test `EndsWithLineBreak`.
- **No clamping.** Indices are not clamped. An out-of-range index throws in
  the browser, and the `requires` clauses exclude it. The widget itself only
  passes an existing row's or cell's index, plus 0 or 1.
- **Width of a new row.** A new row has as many cells as the first data row
  has, control cell included. The code would build a row of 0 cells when no
  first data row exists, but no state the editor reaches lacks one
  (`NewRowWidthInValidTable`).
- **Empty lines before data.** `setCsv` throws when a line without tokens
  comes before a line with tokens. It reads the cell count of a row it never
  created. `TrailingEmptyOnly` excludes that input.

## Model

| member | source | states |
|---|---|---|
| CsvTable.TextContent | src/simple-csv-editor.js:174 | a data cell's `textContent` is its own text; a control cell's is its buttons' captions in button order (add before, delete, add after; the delete-all caption alone in the corner) |
| CsvTable.MinSize | src/simple-csv-editor.js:262-270 | the delete guards' bound: at least 1, and 2 exactly when controls are shown |
| CsvTable.InsertPos | src/simple-csv-editor.js:238 | the position `insertRow`/`insertCell` uses: −1 appends, otherwise the index itself; never past the end |
| CsvTable.DeletePos | src/simple-csv-editor.js:265 | the position `deleteRow`/`deleteCell` uses: −1 is the last, otherwise the index; always an existing position |
| CsvTable.Height | src/simple-csv-editor.js:200-208 | rows are created through the last line that has tokens: that line exists, and every later line is empty |
| CsvTable.MaxWidth | src/simple-csv-editor.js:203-213 | the width the rows grow to: at least every line's token count, 0 for no lines, and equal to some line's count |
| CsvTable.DataGrid | src/simple-csv-editor.js:200-219 | setCsv's data cells: at least 1×1, rectangular, data cells only |
| CsvTable.Layout | src/simple-csv-editor.js:220-232 | with controls, one extra row on top; without, the grid unchanged |
| CsvTable.RowTexts | src/simple-csv-editor.js:173-174 | a row's cell texts, without its last cell when controls are shown |
| CsvTable.DataRegion | src/simple-csv-editor.js:172-174 | every row but row 0 when controls are shown, each row read through RowTexts |
| CsvTable.FirstDataWidth | src/simple-csv-editor.js:236-239 | `numCells`: the cell count of row 1 with controls or row 0 without, 0 when that row does not exist; in a rectangular table, the common row width |
| CsvTable.WithRowAdded | src/simple-csv-editor.js:238-246 | the table after addRow: one more row, the new row at the insert position with FirstDataWidth cells, the rows before it in place and the rows after it one further down |
| CsvTable.ColumnCell | src/simple-csv-editor.js:252-256 | the cell addColumn puts into a row: a column control exactly in row 0 with controls shown, an empty data cell everywhere else |
| CsvTable.NewRow | src/simple-csv-editor.js:239-246 | the new row has exactly the requested number of cells |
| CsvTable.WithColumnAdded | src/simple-csv-editor.js:250-257 | inserting a cell into every row keeps the row count |
| CsvTable.WithColumnDeleted | src/simple-csv-editor.js:273-275 | deleting a cell from every row keeps the row count |
| CsvTable.LastLineEmpty | src/simple-csv-editor.js:196 | for a one-character line break: true exactly when the input ends in it; never true for a longer line break |
| CsvTable.EndsWithLineBreak | src/simple-csv-editor.js:196 | whether the input ends with the whole line-break sequence, the reference the one-character comparison is set against |
| CsvTable.LastLineEmptyOnlySingleChar | src/simple-csv-editor.js:196 | the one-character comparison agrees with EndsWithLineBreak for a one-character line break and is false for a longer one; on `"a\r\n"` with `"\r\n"` the input ends in the line break but `lastLineEmpty` is false |
| CsvTable.NewRowWidthInValidTable | src/simple-csv-editor.js:236-239 | in a rectangular table of at least the minimum size, `numCells` is the common row width and at least 1, so the 0-cell fallback never occurs |
| CsvTable.HeightCountsNonEmptyLines | src/simple-csv-editor.js:200-208 | when no empty line precedes a line with tokens, the row count is the number of lines with tokens, and every row's line has tokens |
| CsvTable.SetCsvTable | src/simple-csv-editor.js:200-232 | setCsv's table is rectangular, has the controls in place, is at least 1×1 (2×2 with controls) and is (h+1)×(w+1) with controls; its data region is the token lines padded with empty strings to the widest line, or one empty string when there are no tokens |
| CsvTable.DataGridRowTexts | src/simple-csv-editor.js:200-216 | token j of line i is the text of cell (i, j) and cells past a short line's end are empty, with or without the row control appended |
| CsvTable.LayoutShape | src/simple-csv-editor.js:220-232 | the control row holds one column control per data column and the delete-all cell; every other row is its data row plus a row control |
| CsvTable.AddRowData | src/simple-csv-editor.js:235-246 | addRow at a data position inserts one row of empty strings, as wide as the data, at that position of the data region; every other data row is unchanged |
| CsvTable.AddRowControls | src/simple-csv-editor.js:235-246 | addRow at a data position keeps the table rectangular and the controls in place |
| CsvTable.AddColumnData | src/simple-csv-editor.js:250-257 | addColumn at a data position inserts one empty string at that position into every data row; nothing else changes |
| CsvTable.AddColumnControls | src/simple-csv-editor.js:250-257 | addColumn keeps the table rectangular and the controls in place: a column control in row 0, data cells elsewhere |
| CsvTable.InsertKeepsKind | src/simple-csv-editor.js:252-256 | inserting addColumn's cell before a row's last cell keeps that row's kind (control row, controlled data row, plain data row) |
| CsvTable.RowTextsInsert | src/simple-csv-editor.js:172-174 | an empty data cell inserted into a row shows up as an empty string at the same position of the row's texts |
| CsvTable.DeleteRowData | src/simple-csv-editor.js:261-266 | past the guard, deleting a data row keeps the table rectangular with the controls in place and the minimum size, and removes exactly that row from the data region |
| CsvTable.DeleteRowControls | src/simple-csv-editor.js:261-266 | past the guard, deleting a data row keeps the table rectangular, the controls in place and the minimum row count |
| CsvTable.DeleteColumnData | src/simple-csv-editor.js:269-276 | past the guard, deleting a data column keeps the controls in place and removes the string at that position from every data row |
| CsvTable.DeleteColumnControls | src/simple-csv-editor.js:269-276 | past the guard, deleting a data column keeps the table rectangular, the controls in place and the minimum width |
| CsvTable.DeleteColumnRegion | src/simple-csv-editor.js:273-275 | deleting cell c from every row removes string c from every row of the data region |
| CsvTable.RemoveKeepsKind | src/simple-csv-editor.js:273-275 | removing a cell before a row's last cell keeps that row's kind |
| CsvTable.ColumnDeletedRow | src/simple-csv-editor.js:273-275 | in a rectangular table, deleting cell c from every row removes string c from that row's texts |
| CsvTable.RowTextsRemove | src/simple-csv-editor.js:172-174 | removing a data cell from a row removes the string at the same position of the row's texts |
| CsvTable.SetTextData | src/simple-csv-editor.js:145-147 | typing into a data cell keeps the controls in place and changes exactly that cell's string in the data region |
| CsvTable.RaggedLinesArePadded | src/simple-csv-editor.js:200-216 | the lines `a,b,c` and `1,2` give two rows of three, the short one padded with an empty string |
| CsvTable.NoTokensOneEmptyCell | src/simple-csv-editor.js:217-219 | without tokens the data grid is the single empty cell and the data region is one empty string |
| Navigation.EnterRowIndex | src/simple-csv-editor.js:153 | Enter inserts at the current row's index exactly when Shift is held, otherwise at the next index |
| Navigation.FirstButtonLabel | src/simple-csv-editor.js:133-135 | the caption of a control cell's first button, the node the range starts in: add-column-before, add-row-before or delete-all, and a prefix of the cell's text |
| Navigation.JumpToEnd | src/simple-csv-editor.js:126-140 | in a data cell the caret goes to the end of its text; in a control cell the offset is the first caption's length, which the range API rejects when it exceeds the first button's child count (one text node, or none for an empty caption) |
| Navigation.ArrowCaret | src/simple-csv-editor.js:158-165 | ArrowUp/ArrowDown target the same column one row up/down; nothing happens exactly when that cell does not exist (no wraparound at either end); otherwise the caret jumps to the end of the target |
| Navigation.EnterInsertsBesideCurrent | src/simple-csv-editor.js:151-155 | the new row sits right above (Shift) or right below the current row; the current row moves down by one or stays put, and the other rows keep their order |
| Navigation.ArrowUpIntoControlRow | src/simple-csv-editor.js:158-160 | with controls, ArrowUp from the first data row lands in a column control, and the range API rejects it when the add-column-before caption is longer than one character |
| Editor.FilledAddBlankRow | src/simple-csv-editor.js:202-207 | creating the missing row with the common width of empty cells keeps the rows built so far in step with the lines |
| Editor.FilledWiden | src/simple-csv-editor.js:209-213 | appending an empty cell to every row widens the filled grid by one |
| Editor.FilledStore | src/simple-csv-editor.js:214 | storing token ti extends the line in progress by that token |
| Editor.FilledIsDataGrid | src/simple-csv-editor.js:200-216 | once every line is processed, the rows built are DataGrid |
| Editor.FilledSkipEmptyLine | src/simple-csv-editor.js:200-201 | a line without tokens adds no row and no width |
| Editor.FilledEnterLine | src/simple-csv-editor.js:202-203 | before a line with tokens, exactly one row exists per earlier line |
| Editor.FilledLeaveLine | src/simple-csv-editor.js:200-216 | after its last token, a line's row is complete and the width is the widest line so far |
| Editor.RowAddedShape | src/simple-csv-editor.js:235-246 | addRow keeps the table rectangular and at its minimum size |
| Editor.SimpleCsvEditor.constructor | src/simple-csv-editor.js:33-48 | the editor starts as setCsv leaves it, with nothing notified |
| Editor.SimpleCsvEditor.GetCsv | src/simple-csv-editor.js:171-183 | the serialised data region, followed by the recorded line break exactly when `lastLineEmpty` |
| Editor.SimpleCsvEditor.Notice | src/simple-csv-editor.js:51-56 | one entry holding the current text when a callback exists, none otherwise |
| Editor.SimpleCsvEditor.TriggerOnChange | src/simple-csv-editor.js:51-56 | the log grows by exactly the notice of the current `getCsv()` value |
| Editor.SimpleCsvEditor.InsertCell | src/simple-csv-editor.js:143 | `insertCell(c)` on row r: only that row changes, by inserting the cell at the DOM position |
| Editor.SimpleCsvEditor.DeleteCell | src/simple-csv-editor.js:274 | `deleteCell(c)` on row r: only that row changes, by removing the cell at the DOM position |
| Editor.SimpleCsvEditor.AppendBlankRow | src/simple-csv-editor.js:204-207 | a new last row of n empty data cells |
| Editor.SimpleCsvEditor.AppendDataColumn | src/simple-csv-editor.js:210-212 | one empty data cell appended to every row |
| Editor.SimpleCsvEditor.FillLine | src/simple-csv-editor.js:200-215 | one more line processed: the rows stay in step with the lines so far and the widest of them |
| Editor.SimpleCsvEditor.FillToken | src/simple-csv-editor.js:201-214 | one more token processed: first the row is created if missing, then every row is widened if the token falls past the end, then the token is stored |
| Editor.SimpleCsvEditor.FillGrid | src/simple-csv-editor.js:198-219 | the emptied table filled from the token lines is exactly DataGrid |
| Editor.SimpleCsvEditor.AddControls | src/simple-csv-editor.js:220-232 | the table becomes Layout with controls |
| Editor.SimpleCsvEditor.SetCsv | src/simple-csv-editor.js:185-233 | the recorded metadata is the parser's; the table is setCsv's layout with the controls in place and at least the minimum size; `getCsv` then returns the serialised padded token lines plus the line break when `lastLineEmpty`; no notification |
| Editor.SimpleCsvEditor.FillNewRow | src/simple-csv-editor.js:240-246 | the new row gets n cells, the last a row control when controls are shown |
| Editor.SimpleCsvEditor.AddRow | src/simple-csv-editor.js:235-248 | exactly one row inserted at the DOM position, as wide as the first data row was; it stays rectangular; one notification; at a data position the data region gains one empty row there |
| Editor.SimpleCsvEditor.AddColumn | src/simple-csv-editor.js:250-259 | one cell inserted into every row, a column control in row 0 with controls; one notification; when the DOM position (−1 meaning the end) is a data position, every data row gains an empty string there |
| Editor.SimpleCsvEditor.DeleteRow | src/simple-csv-editor.js:261-267 | at or below the minimum row count, no change and no notification; otherwise exactly that row removed and one notification; at a data position that row leaves the data region |
| Editor.SimpleCsvEditor.DeleteColumn | src/simple-csv-editor.js:269-277 | at or below the minimum width of row 0, no change and no notification; otherwise that cell removed from every row and one notification; when the DOM position (−1 meaning the last) is a data position, that string leaves every data row |
| Editor.SimpleCsvEditor.DeleteAll | src/simple-csv-editor.js:279-282 | the table is setCsv of the empty text; exactly one notification; the data region is one empty string when the parser returns no lines for the empty text |
| Editor.SimpleCsvEditor.InputIntoCell | src/simple-csv-editor.js:145-147 | the edited cell's text is replaced; one notification; exactly that string of the data region changes |
| Editor.SimpleCsvEditor.PressEnter | src/simple-csv-editor.js:151-156 | addRow at EnterRowIndex, then focus on the same column of the new row, a data cell holding the empty text |

## Left out

- The parser and the serialiser (quoting, delimiter and line-break detection, `skipEmptyLines`, output formatting) are foreign code. They are parameters, and the round trip `getCsv(setCsv(x)) == x` is not claimed. The serialiser's `skipEmptyLines: 'greedy'`, which drops blank rows from the output, belongs to it too.
- The parser configuration (quote character, optional delimiter, `skipEmptyLines`) decides the token lines, and it is folded into the `parse` parameter. The filtering of `UndetectableDelimiter` diagnostics before `console.error` is left out, because it only logs.
- Captions containing a line break are not modelled. The `innerText` setter turns "\n" into a `<br>`, which changes both the button's child count and the length of its `textContent`, so JumpToEnd and TextContent do not hold for such captions.
- The constructor's checks for `Papa` and for the host element, and their errors, are left out. So are button construction, `tabIndex`, `contentEditable` and event-listener wiring. Labels enter only as the text of control cells.
- The `window.confirm` prompt in front of the delete buttons is left out. The delete methods model what happens once it is accepted, or when `warnOnDelete` is off.
- Selection and Range handling in `#jumpToEndOfCell` is reduced to the resulting caret offset, or to the range error. Focus in PressEnter is the returned cell position.
- Text lengths are counted in Dafny characters, not UTF-16 code units. Newlines that the browser inserts into an editable cell's `textContent` are not modelled.
- A callback that edits the table from inside the notification is not modelled. The log only records the values it receives.
- SetCsv: the input where a line without tokens precedes a line with tokens is excluded by `TrailingEmptyOnly`. The code throws a TypeError there and leaves the table half-built.
- DeleteAll: the 1×1 data region is stated under the condition that the parser returns no token lines for the empty text. The parser is not modelled, though PapaParse does return no lines in that case.
- AddRow, AddColumn, DeleteRow, DeleteColumn, InputIntoCell: the data-region facts are stated only when the controls are in place and the DOM position of the index (−1 included) is a data position. At other positions (a control row or column) only the new table is stated.
- `test/simple-csv-editor.test.js` only checks that construction fails without a DOM, so there is nothing to model.
