/** The editor's table as a value: its cells, its shape invariants, the grid
    that setCsv builds from the parser's token lines, the data region that
    getCsv reads back, and the structural edits as functions on tables. The
    class in editor.dfy mutates a field of type Table and is specified by
    these functions. */
module CsvTable {

  /** A table cell: an editable data cell holding its text, or one of the
      three kinds of control cell the editor adds when controls are shown. */
  datatype Cell =
    | Data(text: string)
    | ColumnControl     // add-column-before, delete-column, add-column-after
    | RowControl        // add-row-before, delete-row, add-row-after
    | DeleteAllControl  // the single delete-all button at the end of row 0

  /** The captions of the control buttons (the `controlLabels` option). */
  datatype Labels = Labels(
    addRowBefore: string, addRowAfter: string,
    addColumnBefore: string, addColumnAfter: string,
    deleteRow: string, deleteColumn: string, deleteAll: string)

  type Row = seq<Cell>
  type Table = seq<Row>

  /** The text a cell shows: its own text, or its buttons' captions in order. */
  function TextContent(c: Cell, labels: Labels): (s: string)
    ensures c.Data? ==> s == c.text
    ensures c == ColumnControl ==> s == labels.addColumnBefore + labels.deleteColumn + labels.addColumnAfter
    ensures c == RowControl ==> s == labels.addRowBefore + labels.deleteRow + labels.addRowAfter
    ensures c == DeleteAllControl ==> s == labels.deleteAll
  {
    match c
    case Data(t) => t
    case ColumnControl => labels.addColumnBefore + labels.deleteColumn + labels.addColumnAfter
    case RowControl => labels.addRowBefore + labels.deleteRow + labels.addRowAfter
    case DeleteAllControl => labels.deleteAll
  }

  function Max(a: nat, b: nat): nat { if a < b then b else a }

  /** The smallest row count and row width the delete guards keep. */
  function MinSize(showControls: bool): (n: nat)
    ensures n >= 1 && (n == 2 <==> showControls)
  {
    if showControls then 2 else 1
  }

  ghost predicate Rectangular(t: Table) {
    forall i :: 0 <= i < |t| ==> |t[i]| == |t[0]|
  }

  // ---------------------------------------------------------------------
  // Sequence positions as the DOM table API computes them

  /** Position used by insertRow/insertCell for index i among n: -1 appends. */
  function InsertPos(i: int, n: nat): (p: nat)
    requires -1 <= i <= n
    ensures p <= n
  {
    if i == -1 then n else i
  }

  /** Position used by deleteRow/deleteCell for index i among n > 0: -1 is the last. */
  function DeletePos(i: int, n: nat): (p: nat)
    requires 0 < n && -1 <= i < n
    ensures p < n
  {
    if i == -1 then n - 1 else i
  }

  function InsertAt<T>(s: seq<T>, p: nat, x: T): (r: seq<T>)
    requires p <= |s|
    ensures |r| == |s| + 1 && r[p] == x
    ensures forall k :: 0 <= k < p ==> r[k] == s[k]
    ensures forall k :: p < k < |r| ==> r[k] == s[k - 1]
  {
    s[..p] + [x] + s[p..]
  }

  function RemoveAt<T>(s: seq<T>, p: nat): (r: seq<T>)
    requires p < |s|
    ensures |r| == |s| - 1
    ensures forall k :: 0 <= k < p ==> r[k] == s[k]
    ensures forall k :: p <= k < |r| ==> r[k] == s[k + 1]
  {
    s[..p] + s[p + 1..]
  }

  // ---------------------------------------------------------------------
  // The grid setCsv builds from the parser's token lines

  /** The code throws when a token-less line is followed by a line with
      tokens (it reads the cell count of a row that was never created), so
      it only ever sees token-less lines at the end. */
  ghost predicate TrailingEmptyOnly(lines: seq<seq<string>>) {
    forall i, j :: 0 <= i < j < |lines| && lines[i] == [] ==> lines[j] == []
  }

  /** Number of rows the lines produce: everything up to the last line that
      has a token. */
  function Height(lines: seq<seq<string>>): (h: nat)
    ensures h <= |lines|
    ensures h > 0 ==> lines[h - 1] != []
    ensures forall k :: h <= k < |lines| ==> lines[k] == []
  {
    if lines == [] then 0
    else if lines[|lines| - 1] != [] then |lines|
    else Height(lines[..|lines| - 1])
  }

  /** The largest token count over all lines. */
  function MaxWidth(lines: seq<seq<string>>): (w: nat)
    ensures forall k :: 0 <= k < |lines| ==> |lines[k]| <= w
    ensures lines == [] ==> w == 0
    ensures lines != [] ==> exists k :: 0 <= k < |lines| && |lines[k]| == w
  {
    if lines == [] then 0
    else
      var init := lines[..|lines| - 1];
      var w := Max(MaxWidth(init), |lines[|lines| - 1]|);
      assert forall k :: 0 <= k < |init| ==> init[k] == lines[k];
      w
  }

  /** Cell j of the row built from one token line: the token, or empty past its end. */
  function Token(line: seq<string>, j: nat): Cell {
    if j < |line| then Data(line[j]) else Data("")
  }

  /** The data cells setCsv produces: one row per line, all as wide as the
      widest line, or a single empty cell when no line has a token. */
  function DataGrid(lines: seq<seq<string>>): (g: Table)
    ensures |g| >= 1 && Rectangular(g) && |g[0]| >= 1
    ensures forall i :: 0 <= i < |g| ==> DataOnly(g[i])
  {
    var h := Height(lines);
    if h == 0 then [[Data("")]]
    else
      var w := MaxWidth(lines);
      assert |lines[h - 1]| <= w;
      seq(h, i requires 0 <= i < h => seq(w, j requires 0 <= j < w => Token(lines[i], j)))
  }

  /** The table with its control row (w column controls and the delete-all
      cell) on top and a row control at the end of every data row. */
  function Layout(g: Table, showControls: bool): (t: Table)
    requires |g| >= 1
    ensures |t| == |g| + (if showControls then 1 else 0)
    ensures !showControls ==> t == g
  {
    if showControls then
      [seq(|g[0]|, _ => ColumnControl) + [DeleteAllControl]]
        + seq(|g|, i requires 0 <= i < |g| => g[i] + [RowControl])
    else g
  }

  /** The control row: column controls ending in the delete-all cell. */
  ghost predicate ControlRow(row: Row) {
    |row| >= 1 && row[|row| - 1] == DeleteAllControl
    && forall j :: 0 <= j < |row| - 1 ==> row[j] == ColumnControl
  }

  /** A data row followed by its row control. */
  ghost predicate ControlledDataRow(row: Row) {
    |row| >= 1 && row[|row| - 1] == RowControl
    && forall j :: 0 <= j < |row| - 1 ==> row[j].Data?
  }

  /** A row of data cells only. */
  ghost predicate DataOnly(row: Row) {
    forall j :: 0 <= j < |row| ==> row[j].Data?
  }

  /** The kind a row must have at position i: with controls, the control
      row at 0 and controlled data rows below; without, data only. */
  ghost predicate RowInPlace(row: Row, i: nat, showControls: bool) {
    if !showControls then DataOnly(row)
    else if i == 0 then ControlRow(row)
    else ControlledDataRow(row)
  }

  /** True when the controls sit where the editor puts them. */
  ghost predicate ControlsInPlace(t: Table, showControls: bool) {
    (showControls ==> |t| >= 1)
    && forall i :: 0 <= i < |t| ==> RowInPlace(t[i], i, showControls)
  }

  /** Number of data columns of a table whose controls are in place. */
  function DataWidth(t: Table, showControls: bool): nat {
    if |t| == 0 then 0
    else if showControls && |t[0]| > 0 then |t[0]| - 1
    else |t[0]|
  }

  // ---------------------------------------------------------------------
  // What getCsv reads

  /** The texts of a row's cells, without its last cell when controls are shown. */
  function RowTexts(row: Row, showControls: bool, labels: Labels): (r: seq<string>)
    ensures |r| == if showControls && |row| > 0 then |row| - 1 else |row|
    ensures forall j :: 0 <= j < |r| ==> r[j] == TextContent(row[j], labels)
  {
    var n := if showControls && |row| > 0 then |row| - 1 else |row|;
    seq(n, j requires 0 <= j < n => TextContent(row[j], labels))
  }

  /** The strings handed to the serialiser: every row but row 0 when controls
      are shown, each row without its last cell when controls are shown. */
  function DataRegion(t: Table, showControls: bool, labels: Labels): (d: seq<seq<string>>)
    ensures |d| == if showControls && |t| > 0 then |t| - 1 else |t|
    ensures forall i :: 0 <= i < |d| ==>
      d[i] == RowTexts(t[i + (if showControls && |t| > 0 then 1 else 0)], showControls, labels)
  {
    var from := if showControls && |t| > 0 then 1 else 0;
    seq(|t| - from, i requires 0 <= i < |t| - from => RowTexts(t[i + from], showControls, labels))
  }

  /** A token line padded with empty strings to width w. */
  function Pad(line: seq<string>, w: nat): seq<string> {
    if |line| < w then line + seq(w - |line|, _ => "") else line
  }

  /** The token lines made rectangular: every line that produces a row,
      padded to the widest; a single empty string when no line has a token. */
  function Normalized(lines: seq<seq<string>>): seq<seq<string>> {
    var h := Height(lines);
    if h == 0 then [[""]]
    else seq(h, i requires 0 <= i < h => Pad(lines[i], MaxWidth(lines)))
  }

  /** Number of lines that hold at least one token. */
  function NonEmptyCount(lines: seq<seq<string>>): nat {
    if lines == [] then 0
    else NonEmptyCount(lines[..|lines| - 1]) + (if lines[|lines| - 1] != [] then 1 else 0)
  }

  // ---------------------------------------------------------------------
  // Structural edits as functions on tables

  /** Cell count of the first data row (0 when there is none). */
  function FirstDataWidth(t: Table, showControls: bool): (w: nat)
    ensures var first := if showControls then 1 else 0;
      (|t| > first ==> w == |t[first]|) && (|t| <= first ==> w == 0)
    ensures Rectangular(t) && |t| > (if showControls then 1 else 0) ==> w == |t[0]|
  {
    var first := if showControls then 1 else 0;
    if |t| > first then |t[first]| else 0
  }

  /** The row addRow builds: n cells, the last a row control when controls are
      shown, all others empty data cells. */
  function NewRow(n: nat, showControls: bool): (r: Row)
    ensures |r| == n
  {
    seq(n, k => if showControls && k == n - 1 then RowControl else Data(""))
  }

  /** The table after addRow: the new row at position p, every row before
      it in place, every row after it one further down. */
  function WithRowAdded(t: Table, p: nat, showControls: bool): (u: Table)
    requires p <= |t|
    ensures |u| == |t| + 1 && u[p] == NewRow(FirstDataWidth(t, showControls), showControls)
    ensures forall k :: 0 <= k < p ==> u[k] == t[k]
    ensures forall k :: p < k < |u| ==> u[k] == t[k - 1]
  {
    InsertAt(t, p, NewRow(FirstDataWidth(t, showControls), showControls))
  }

  /** The cell addColumn puts into row r. */
  function ColumnCell(r: nat, showControls: bool): (c: Cell)
    ensures c == ColumnControl <==> showControls && r == 0
    ensures c != ColumnControl ==> c == Data("")
  {
    if showControls && r == 0 then ColumnControl else Data("")
  }

  function WithColumnAdded(t: Table, c: int, showControls: bool): (u: Table)
    requires forall r :: 0 <= r < |t| ==> -1 <= c <= |t[r]|
    ensures |u| == |t|
  {
    seq(|t|, r requires 0 <= r < |t| =>
      InsertAt(t[r], InsertPos(c, |t[r]|), ColumnCell(r, showControls)))
  }

  function WithColumnDeleted(t: Table, c: int): (u: Table)
    requires forall r :: 0 <= r < |t| ==> 0 < |t[r]| && -1 <= c < |t[r]|
    ensures |u| == |t|
  {
    seq(|t|, r requires 0 <= r < |t| => RemoveAt(t[r], DeletePos(c, |t[r]|)))
  }

  /** Last character of the input compared with the line break, as
      `data.slice(-1) === lineBreak` does. */
  function LastLineEmpty(data: string, lineBreak: string): (b: bool)
    ensures b ==> |lineBreak| <= 1
    ensures |lineBreak| == 1 ==> (b <==> |data| > 0 && data[|data| - 1] == lineBreak[0])
  {
    (if |data| == 0 then "" else [data[|data| - 1]]) == lineBreak
  }

  /** Whether the input ends with the whole line-break sequence. */
  function EndsWithLineBreak(data: string, lineBreak: string): (b: bool)
    ensures b <==> |lineBreak| <= |data| && data[|data| - |lineBreak|..] == lineBreak
  {
    |lineBreak| <= |data| && data[|data| - |lineBreak|..] == lineBreak
  }

  // =====================================================================
  // Lemmas

  /** Under the code's own input condition every row comes from a line with
      tokens and every such line gives one row. */
  lemma {:induction false} HeightCountsNonEmptyLines(lines: seq<seq<string>>)
    requires TrailingEmptyOnly(lines)
    ensures Height(lines) == NonEmptyCount(lines)
    ensures forall i :: 0 <= i < Height(lines) ==> lines[i] != []
  {
    if lines != [] {
      var init := lines[..|lines| - 1];
      assert TrailingEmptyOnly(init) by {
        forall i, j | 0 <= i < j < |init| && init[i] == [] ensures init[j] == [] {
          assert lines[i] == init[i] && lines[j] == init[j];
        }
      }
      HeightCountsNonEmptyLines(init);
      if lines[|lines| - 1] != [] {
        var last := lines[|lines| - 1];
        forall i | 0 <= i < |lines| ensures lines[i] != [] {
          if i < |lines| - 1 { assert lines[i] == [] ==> last == []; }
        }
        NonEmptyEverywhere(init);
      } else {
        assert forall i :: 0 <= i < Height(init) ==> init[i] == lines[i];
      }
    }
  }

  lemma {:induction false} NonEmptyEverywhere(lines: seq<seq<string>>)
    requires forall i :: 0 <= i < |lines| ==> lines[i] != []
    ensures NonEmptyCount(lines) == |lines|
  {
    if lines != [] {
      var init := lines[..|lines| - 1];
      assert forall i :: 0 <= i < |init| ==> init[i] == lines[i];
      NonEmptyEverywhere(init);
    }
  }

  /** setCsv's table: rectangular, at least 1×1 data cells, the control row
      and column in place (so (h+1)×(w+1) with controls), and the data region
      getCsv reads back is exactly the padded token lines. */
  lemma SetCsvTable(lines: seq<seq<string>>, showControls: bool, labels: Labels)
    ensures var g := DataGrid(lines); var t := Layout(g, showControls);
      Rectangular(t) && ControlsInPlace(t, showControls)
      && |t| >= MinSize(showControls) && |t[0]| >= MinSize(showControls)
      && |t[0]| == |g[0]| + (if showControls then 1 else 0)
      && DataWidth(t, showControls) == |g[0]|
      && DataRegion(t, showControls, labels) == Normalized(lines)
  {
    var g := DataGrid(lines);
    var t := Layout(g, showControls);
    LayoutShape(g, showControls);
    var d := DataRegion(t, showControls, labels);
    var n := Normalized(lines);
    assert |d| == |n|;
    forall i | 0 <= i < |d| ensures d[i] == n[i] {
      var row := t[i + (if showControls then 1 else 0)];
      assert row == if showControls then g[i] + [RowControl] else g[i];
      DataGridRowTexts(lines, i, row, showControls, labels);
    }
  }

  lemma DataGridRowTexts(lines: seq<seq<string>>, i: nat, row: Row, showControls: bool, labels: Labels)
    requires i < |DataGrid(lines)|
    requires row == if showControls then DataGrid(lines)[i] + [RowControl] else DataGrid(lines)[i]
    ensures i < |Normalized(lines)| && RowTexts(row, showControls, labels) == Normalized(lines)[i]
  {
    var g := DataGrid(lines);
    var r := RowTexts(row, showControls, labels);
    var n := Normalized(lines);
    assert |r| == |g[i]|;
    if Height(lines) == 0 {
      assert r == [""];
    } else {
      var w := MaxWidth(lines);
      assert |lines[i]| <= w;
      assert n[i] == Pad(lines[i], w);
      assert |n[i]| == w;
      forall j | 0 <= j < w ensures r[j] == n[i][j] {
        assert row[j] == g[i][j];
      }
    }
  }

  lemma LayoutShape(g: Table, showControls: bool)
    requires |g| >= 1 && Rectangular(g) && |g[0]| >= 1
    requires forall i :: 0 <= i < |g| ==> DataOnly(g[i])
    ensures var t := Layout(g, showControls);
      Rectangular(t) && ControlsInPlace(t, showControls)
      && |t[0]| == |g[0]| + (if showControls then 1 else 0)
      && (showControls ==> forall i :: 0 <= i < |g| ==> t[i + 1] == g[i] + [RowControl])
  {
    var t := Layout(g, showControls);
    if showControls {
      assert |t[0]| == |g[0]| + 1;
      assert ControlRow(t[0]);
      forall i | 1 <= i < |t| ensures |t[i]| == |t[0]| && ControlledDataRow(t[i]) {
        assert t[i] == g[i - 1] + [RowControl];
        assert DataOnly(g[i - 1]);
      }
    }
  }

  /** addRow at a data position keeps the controls in place and inserts
      one row of empty strings, as wide as the others, into the data region. */
  lemma AddRowData(t: Table, p: nat, showControls: bool, labels: Labels)
    requires Rectangular(t) && ControlsInPlace(t, showControls) && |t| >= MinSize(showControls)
    requires (showControls ==> 1 <= p) && p <= |t|
    ensures var u := WithRowAdded(t, p, showControls);
      Rectangular(u) && ControlsInPlace(u, showControls)
      && DataRegion(u, showControls, labels)
         == InsertAt(DataRegion(t, showControls, labels), p - (if showControls then 1 else 0),
                     seq(DataWidth(t, showControls), _ => ""))
  {
    AddRowControls(t, p, showControls);
    var u := WithRowAdded(t, p, showControls);
    var nr := NewRow(FirstDataWidth(t, showControls), showControls);
    assert u[p] == nr;
    var off := if showControls then 1 else 0;
    var du := DataRegion(u, showControls, labels);
    var dt := DataRegion(t, showControls, labels);
    var blank := seq(DataWidth(t, showControls), _ => "");
    var e := InsertAt(dt, p - off, blank);
    assert |du| == |e|;
    forall i | 0 <= i < |du| ensures du[i] == e[i] {
      if i + off == p {
        assert |nr| == |t[0]|;
        assert du[i] == RowTexts(nr, showControls, labels);
      } else if i + off < p {
        assert u[i + off] == t[i + off];
      } else {
        assert u[i + off] == t[i - 1 + off];
      }
    }
  }

  lemma AddRowControls(t: Table, p: nat, showControls: bool)
    requires Rectangular(t) && ControlsInPlace(t, showControls) && |t| >= MinSize(showControls)
    requires (showControls ==> 1 <= p) && p <= |t|
    ensures var u := WithRowAdded(t, p, showControls);
      Rectangular(u) && ControlsInPlace(u, showControls)
  {
    var u := WithRowAdded(t, p, showControls);
    var nr := NewRow(FirstDataWidth(t, showControls), showControls);
    assert |nr| == |t[0]|;
    assert u[p] == nr;
    assert u[0] == if p == 0 then nr else t[0];
    forall i | 0 <= i < |u| ensures |u[i]| == |u[0]| && RowInPlace(u[i], i, showControls) {
      if i > p {
        assert u[i] == t[i - 1] && RowInPlace(t[i - 1], i - 1, showControls);
      } else if i < p {
        assert u[i] == t[i];
      } else if showControls {
        assert ControlledDataRow(nr);
      } else {
        assert DataOnly(nr);
      }
    }
  }

  /** addColumn at a data position keeps the controls in place and inserts
      one empty string at that position into every data row. */
  lemma AddColumnData(t: Table, c: nat, showControls: bool, labels: Labels)
    requires Rectangular(t) && ControlsInPlace(t, showControls) && |t| >= 1
    requires c <= DataWidth(t, showControls)
    ensures var u := WithColumnAdded(t, c, showControls);
      var d := DataRegion(t, showControls, labels);
      Rectangular(u) && ControlsInPlace(u, showControls)
      && DataRegion(u, showControls, labels)
         == seq(|d|, i requires 0 <= i < |d| => InsertAt(d[i], c, ""))
  {
    var u := WithColumnAdded(t, c, showControls);
    AddColumnControls(t, c, showControls);
    var off := if showControls then 1 else 0;
    var du := DataRegion(u, showControls, labels);
    var d := DataRegion(t, showControls, labels);
    var e := seq(|d|, i requires 0 <= i < |d| => InsertAt(d[i], c, ""));
    assert |du| == |d| == |e|;
    forall i | 0 <= i < |du| ensures du[i] == e[i] {
      var tr := t[i + off];
      assert |tr| == |t[0]|;
      assert u[i + off] == InsertAt(tr, InsertPos(c, |tr|), ColumnCell(i + off, showControls));
      assert ColumnCell(i + off, showControls) == Data("");
      RowTextsInsert(tr, c, showControls, labels);
      assert du[i] == RowTexts(u[i + off], showControls, labels);
      assert d[i] == RowTexts(tr, showControls, labels);
    }
  }

  lemma AddColumnControls(t: Table, c: nat, showControls: bool)
    requires Rectangular(t) && ControlsInPlace(t, showControls) && |t| >= 1
    requires c <= DataWidth(t, showControls)
    ensures var u := WithColumnAdded(t, c, showControls);
      Rectangular(u) && ControlsInPlace(u, showControls)
  {
    var u := WithColumnAdded(t, c, showControls);
    forall i | 0 <= i < |u| ensures |u[i]| == |u[0]| && RowInPlace(u[i], i, showControls) {
      assert |t[i]| == |t[0]|;
      assert u[i] == InsertAt(t[i], c, ColumnCell(i, showControls));
      InsertKeepsKind(t[i], i, c, showControls);
    }
  }

  /** Inserting the column cell addColumn puts into row i, before the row's
      last cell when controls are shown, keeps the row's kind. */
  lemma InsertKeepsKind(row: Row, i: nat, c: nat, showControls: bool)
    requires RowInPlace(row, i, showControls)
    requires c <= |row| && (showControls ==> c < |row|)
    ensures RowInPlace(InsertAt(row, c, ColumnCell(i, showControls)), i, showControls)
  {
    var ur := InsertAt(row, c, ColumnCell(i, showControls));
    if showControls {
      assert ur[|ur| - 1] == row[|row| - 1];
    }
    forall j | 0 <= j < |ur| && j != c ensures ur[j] == row[if j < c then j else j - 1] { }
  }

  lemma RowTextsInsert(row: Row, c: nat, showControls: bool, labels: Labels)
    requires c <= |row| && (showControls ==> c < |row|)
    ensures RowTexts(InsertAt(row, c, Data("")), showControls, labels)
            == InsertAt(RowTexts(row, showControls, labels), c, "")
  {
    var ur := InsertAt(row, c, Data(""));
    var a := RowTexts(ur, showControls, labels);
    var b := InsertAt(RowTexts(row, showControls, labels), c, "");
    assert |a| == |b|;
    forall j | 0 <= j < |a| ensures a[j] == b[j] {
      if j > c { assert ur[j] == row[j - 1]; }
      if j < c { assert ur[j] == row[j]; }
    }
  }

  /** deleteRow at a data position, past the guard, keeps the controls in
      place and removes exactly that row from the data region. */
  lemma DeleteRowData(t: Table, p: nat, showControls: bool, labels: Labels)
    requires Rectangular(t) && ControlsInPlace(t, showControls) && |t| > MinSize(showControls)
    requires (showControls ==> 1 <= p) && p < |t|
    ensures var u := RemoveAt(t, p);
      Rectangular(u) && ControlsInPlace(u, showControls) && |u| >= MinSize(showControls)
      && DataRegion(u, showControls, labels)
         == RemoveAt(DataRegion(t, showControls, labels), p - (if showControls then 1 else 0))
  {
    DeleteRowControls(t, p, showControls);
    var u := RemoveAt(t, p);
    var off := if showControls then 1 else 0;
    var du := DataRegion(u, showControls, labels);
    var e := RemoveAt(DataRegion(t, showControls, labels), p - off);
    assert |du| == |e|;
    forall i | 0 <= i < |du| ensures du[i] == e[i] {
      if i + off >= p { assert u[i + off] == t[i + off + 1]; }
      else { assert u[i + off] == t[i + off]; }
    }
  }

  lemma DeleteRowControls(t: Table, p: nat, showControls: bool)
    requires Rectangular(t) && ControlsInPlace(t, showControls) && |t| > MinSize(showControls)
    requires (showControls ==> 1 <= p) && p < |t|
    ensures var u := RemoveAt(t, p);
      Rectangular(u) && ControlsInPlace(u, showControls) && |u| >= MinSize(showControls)
  {
    var u := RemoveAt(t, p);
    assert u[0] == if p == 0 then t[1] else t[0];
    forall i | 0 <= i < |u| ensures |u[i]| == |u[0]| && RowInPlace(u[i], i, showControls) {
      if i >= p {
        assert u[i] == t[i + 1] && RowInPlace(t[i + 1], i + 1, showControls);
      } else {
        assert u[i] == t[i];
      }
    }
  }

  /** deleteColumn at a data position, past the guard, keeps the controls in
      place and removes the string at that position from every data row. */
  lemma DeleteColumnData(t: Table, c: nat, showControls: bool, labels: Labels)
    requires Rectangular(t) && ControlsInPlace(t, showControls) && |t| >= 1
    requires |t[0]| > MinSize(showControls) && c < DataWidth(t, showControls)
    ensures var u := WithColumnDeleted(t, c);
      var d := DataRegion(t, showControls, labels);
      Rectangular(u) && ControlsInPlace(u, showControls) && |u[0]| >= MinSize(showControls)
      && DataRegion(u, showControls, labels)
         == seq(|d|, i requires 0 <= i < |d| => RemoveAt(d[i], c))
  {
    DeleteColumnControls(t, c, showControls);
    DeleteColumnRegion(t, c, showControls, labels);
  }

  lemma DeleteColumnRegion(t: Table, c: nat, showControls: bool, labels: Labels)
    requires Rectangular(t) && |t| >= 1
    requires |t[0]| > MinSize(showControls) && c < DataWidth(t, showControls)
    ensures var d := DataRegion(t, showControls, labels);
      DataRegion(WithColumnDeleted(t, c), showControls, labels)
         == seq(|d|, i requires 0 <= i < |d| => RemoveAt(d[i], c))
  {
    var u := WithColumnDeleted(t, c);
    var off := if showControls then 1 else 0;
    var du := DataRegion(u, showControls, labels);
    var d := DataRegion(t, showControls, labels);
    forall i | 0 <= i < |d| ensures c < |d[i]| {
      assert |t[i + off]| == |t[0]|;
    }
    var e := seq(|d|, i requires 0 <= i < |d| => RemoveAt(d[i], c));
    assert |du| == |d| == |e|;
    forall i | 0 <= i < |du| ensures du[i] == e[i] {
      ColumnDeletedRow(t, c, i + off, showControls, labels);
      assert du[i] == RowTexts(u[i + off], showControls, labels);
      assert d[i] == RowTexts(t[i + off], showControls, labels);
    }
  }

  lemma ColumnDeletedRow(t: Table, c: nat, r: nat, showControls: bool, labels: Labels)
    requires Rectangular(t) && r < |t|
    requires |t[0]| > MinSize(showControls) && c < DataWidth(t, showControls)
    ensures RowTexts(WithColumnDeleted(t, c)[r], showControls, labels)
            == RemoveAt(RowTexts(t[r], showControls, labels), c)
  {
    assert |t[r]| == |t[0]|;
    assert WithColumnDeleted(t, c)[r] == RemoveAt(t[r], c);
    RowTextsRemove(t[r], c, showControls, labels);
  }

  lemma DeleteColumnControls(t: Table, c: nat, showControls: bool)
    requires Rectangular(t) && ControlsInPlace(t, showControls) && |t| >= 1
    requires |t[0]| > MinSize(showControls) && c < DataWidth(t, showControls)
    ensures var u := WithColumnDeleted(t, c);
      Rectangular(u) && ControlsInPlace(u, showControls) && |u[0]| >= MinSize(showControls)
  {
    var u := WithColumnDeleted(t, c);
    forall i | 0 <= i < |u| ensures |u[i]| == |u[0]| && RowInPlace(u[i], i, showControls) {
      assert |t[i]| == |t[0]|;
      assert u[i] == RemoveAt(t[i], c);
      RemoveKeepsKind(t[i], i, c, showControls);
    }
  }

  /** Removing a cell before the row's last cell when controls are shown
      keeps the row's kind, provided a cell besides the last remains. */
  lemma RemoveKeepsKind(row: Row, i: nat, c: nat, showControls: bool)
    requires RowInPlace(row, i, showControls)
    requires c < |row| && (showControls ==> c < |row| - 1)
    ensures RowInPlace(RemoveAt(row, c), i, showControls)
  {
    var ur := RemoveAt(row, c);
    if showControls {
      assert ur[|ur| - 1] == row[|row| - 1];
    }
    forall j | 0 <= j < |ur| ensures ur[j] == row[if j < c then j else j + 1] { }
  }

  lemma RowTextsRemove(row: Row, c: nat, showControls: bool, labels: Labels)
    requires c < |row| && (showControls ==> c < |row| - 1)
    ensures RowTexts(RemoveAt(row, c), showControls, labels)
            == RemoveAt(RowTexts(row, showControls, labels), c)
  {
    var ur := RemoveAt(row, c);
    var a := RowTexts(ur, showControls, labels);
    var b := RemoveAt(RowTexts(row, showControls, labels), c);
    assert |a| == |b|;
    forall j | 0 <= j < |a| ensures a[j] == b[j] {
      if j >= c { assert ur[j] == row[j + 1]; }
    }
  }

  /** Typing into a data cell keeps the controls in place and changes
      exactly that cell's string in the data region. */
  lemma SetTextData(t: Table, r: nat, c: nat, text: string, showControls: bool, labels: Labels)
    requires ControlsInPlace(t, showControls) && r < |t| && c < |t[r]| && t[r][c].Data?
    ensures var u := t[r := t[r][c := Data(text)]];
      var off := if showControls then 1 else 0;
      var d := DataRegion(t, showControls, labels);
      ControlsInPlace(u, showControls) && off <= r && r - off < |d| && c < |d[r - off]|
      && DataRegion(u, showControls, labels) == d[r - off := d[r - off][c := text]]
  {
    var u := t[r := t[r][c := Data(text)]];
    var off := if showControls then 1 else 0;
    assert RowInPlace(t[r], r, showControls);
    if showControls {
      assert r != 0;
      assert c != |t[r]| - 1;
    }
    assert RowInPlace(u[r], r, showControls);
    var d := DataRegion(t, showControls, labels);
    var du := DataRegion(u, showControls, labels);
    var e := d[r - off := d[r - off][c := text]];
    assert |du| == |e|;
    forall i | 0 <= i < |du| ensures du[i] == e[i] {
      if i + off == r {
        assert |du[i]| == |e[i]|;
        forall j | 0 <= j < |du[i]| ensures du[i][j] == e[i][j] {
          if j != c { assert u[r][j] == t[r][j]; }
        }
      } else {
        assert u[i + off] == t[i + off];
      }
    }
  }

  /** The one-character comparison recognises a trailing line break exactly
      when the line break is one character long (or the input is empty); a
      text ending in "\r\n" is not recognised. */
  lemma LastLineEmptyOnlySingleChar(data: string, lineBreak: string)
    ensures |lineBreak| == 1 ==> (LastLineEmpty(data, lineBreak) <==> EndsWithLineBreak(data, lineBreak))
    ensures |lineBreak| > 1 ==> !LastLineEmpty(data, lineBreak)
    ensures EndsWithLineBreak("a\r\n", "\r\n") && !LastLineEmpty("a\r\n", "\r\n")
  {
    if |lineBreak| == 1 && |data| >= 1 {
      assert data[|data| - 1..] == [data[|data| - 1]];
    }
    assert "a\r\n"[1..] == "\r\n";
  }

  /** A row addRow inserts into a table the editor can be in is never empty:
      it is as wide as every other row. */
  lemma NewRowWidthInValidTable(t: Table, showControls: bool)
    requires Rectangular(t) && |t| >= MinSize(showControls) && |t[0]| >= MinSize(showControls)
    ensures FirstDataWidth(t, showControls) == |t[0]| >= 1
  {
    assert |t[if showControls then 1 else 0]| == |t[0]|;
  }

  /** The ragged input "a,b,c" / "1,2" becomes two rows of three, the
      short one padded with an empty string. */
  lemma RaggedLinesArePadded()
    ensures Normalized([["a", "b", "c"], ["1", "2"]]) == [["a", "b", "c"], ["1", "2", ""]]
  {
    var lines := [["a", "b", "c"], ["1", "2"]];
    assert lines[..1] == [["a", "b", "c"]];
    assert Height(lines) == 2;
    assert MaxWidth(lines[..1]) == 3;
    assert MaxWidth(lines) == 3;
    assert Pad(lines[1], 3) == ["1", "2", ""];
  }

  /** Without tokens the data grid is one empty cell, whatever the controls. */
  lemma NoTokensOneEmptyCell(lines: seq<seq<string>>, showControls: bool, labels: Labels)
    requires forall i :: 0 <= i < |lines| ==> lines[i] == []
    ensures DataGrid(lines) == [[Data("")]]
    ensures DataRegion(Layout(DataGrid(lines), showControls), showControls, labels) == [[""]]
  {
    assert Height(lines) == 0;
    SetCsvTable(lines, showControls, labels);
  }
}
