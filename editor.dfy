/** The editor object: a table that keeps its cells in step with delimited
    text. The delimited-text parser and serialiser are supplied as
    functions; the change callback is modelled by whether one was given
    and by the log of values it has received. */
module Editor {
  import opened CsvTable
  import opened Navigation

  /** What the parser reports: the token lines, and the line break and
      delimiter it detected. */
  datatype ParseResult = ParseResult(data: seq<seq<string>>, linebreak: string, delimiter: string)

  /** One row after another: the table holds exactly the rows built so far
      from `lines`, h of them, each w cells wide, with line i's tokens in
      row i and empty cells past a short line's end. */
  ghost predicate Filled(t: Table, lines: seq<seq<string>>, h: nat, w: nat)
    requires h <= |lines|
  {
    |t| == h
    && (forall i :: 0 <= i < h ==> |t[i]| == w)
    && (forall i, j :: 0 <= i < h && 0 <= j < w ==> t[i][j] == Token(lines[i], j))
  }

  lemma FilledSameRows(t: Table, a: seq<seq<string>>, b: seq<seq<string>>, h: nat, w: nat)
    requires h <= |a| && h <= |b| && Filled(t, a, h, w)
    requires forall i :: 0 <= i < h ==> a[i] == b[i]
    ensures Filled(t, b, h, w)
  {
  }

  /** Creating the missing row li: n empty cells, n being the common width. */
  lemma FilledAddBlankRow(t: Table, s: seq<seq<string>>, li: nat, w: nat, n: nat)
    requires li < |s| && Filled(t, s, li, w)
    requires forall j :: 0 <= j < n ==> Token(s[li], j) == Data("")
    requires li > 0 ==> n == w
    ensures Filled(t + [seq(n, _ => Data(""))], s, li + 1, if li == 0 then n else w)
  {
    var u := t + [seq(n, _ => Data(""))];
    forall i, j | 0 <= i < li && 0 <= j < w ensures u[i][j] == Token(s[i], j) {
      assert u[i] == t[i];
    }
  }

  /** Appending an empty cell to every row when every line is no wider. */
  lemma FilledWiden(t: Table, u: Table, s: seq<seq<string>>, h: nat, w: nat)
    requires h <= |s| && Filled(t, s, h, w)
    requires forall i :: 0 <= i < h ==> |s[i]| <= w
    requires |u| == |t| && forall i :: 0 <= i < |u| ==> u[i] == t[i] + [Data("")]
    ensures Filled(u, s, h, w + 1)
  {
    forall i, j | 0 <= i < h && 0 <= j < w + 1 ensures u[i][j] == Token(s[i], j) {
      if j < w { assert u[i][j] == t[i][j]; }
    }
  }

  /** Storing token ti of the line in progress. */
  lemma FilledStore(t: Table, done: seq<seq<string>>, line: seq<string>, ti: nat, w: nat)
    requires ti < |line| && ti < w
    requires Filled(t, done + [line[..ti]], |done| + 1, w)
    ensures Filled(t[|done| := t[|done|][ti := Data(line[ti])]], done + [line[..ti + 1]], |done| + 1, w)
  {
    var li := |done|;
    var u := t[li := t[li][ti := Data(line[ti])]];
    var a := done + [line[..ti]];
    var b := done + [line[..ti + 1]];
    forall i, j | 0 <= i < li + 1 && 0 <= j < w ensures u[i][j] == Token(b[i], j) {
      if i < li {
        assert a[i] == b[i];
      } else if j != ti {
        assert u[i][j] == t[i][j];
        assert Token(a[i], j) == Token(b[i], j);
      }
    }
  }

  /** Once every line is processed the rows built are setCsv's data grid. */
  lemma FilledIsDataGrid(t: Table, lines: seq<seq<string>>)
    requires Filled(t, lines, Height(lines), MaxWidth(lines)) && Height(lines) > 0
    ensures t == DataGrid(lines)
  {
    var g := DataGrid(lines);
    assert |t| == |g|;
    forall i | 0 <= i < |t| ensures t[i] == g[i] {
      assert |t[i]| == |g[i]|;
    }
  }

  /** A token-less line adds no row and no width. */
  lemma FilledSkipEmptyLine(t: Table, lines: seq<seq<string>>, li: nat)
    requires li < |lines| && lines[li] == []
    requires Filled(t, lines[..li], Height(lines[..li]), MaxWidth(lines[..li]))
    ensures Filled(t, lines[..li + 1], Height(lines[..li + 1]), MaxWidth(lines[..li + 1]))
  {
    var done := lines[..li];
    var next := lines[..li + 1];
    assert next[..li] == done;
    assert Height(next) == Height(done);
    assert MaxWidth(next) == MaxWidth(done);
    FilledSameRows(t, done, next, Height(done), MaxWidth(done));
  }

  /** Before a line with tokens every earlier line had tokens, so the rows
      built so far are exactly one per earlier line. */
  lemma FilledEnterLine(t: Table, lines: seq<seq<string>>, li: nat)
    requires li < |lines| && lines[li] != [] && TrailingEmptyOnly(lines)
    requires Filled(t, lines[..li], Height(lines[..li]), MaxWidth(lines[..li]))
    ensures Height(lines[..li]) == li
    ensures var done := lines[..li];
      Filled(t, done + [lines[li][..0]], li, MaxWidth(done))
      && (li == 0 ==> MaxWidth(done) == 0)
      && forall i :: 0 <= i < li ==> |done[i]| <= MaxWidth(done)
  {
    var done := lines[..li];
    assert li > 0 ==> lines[li - 1] != [];
    assert li > 0 ==> done[li - 1] == lines[li - 1];
    FilledSameRows(t, done, done + [lines[li][..0]], li, MaxWidth(done));
  }

  /** After its last token a line's row is complete and the width is the
      widest line so far. */
  lemma FilledLeaveLine(t: Table, lines: seq<seq<string>>, li: nat)
    requires li < |lines| && lines[li] != []
    requires var done := lines[..li]; var line := lines[li];
      Filled(t, done + [line[..|line|]], li + 1,
             Max(MaxWidth(done), |line|))
    ensures Filled(t, lines[..li + 1], Height(lines[..li + 1]), MaxWidth(lines[..li + 1]))
  {
    var done := lines[..li];
    var line := lines[li];
    assert line[..|line|] == line;
    var prefix := lines[..li + 1];
    assert prefix[..li] == done && prefix[li] == line;
    assert Height(prefix) == li + 1;
    assert MaxWidth(prefix) == Max(MaxWidth(done), |line|);
    FilledSameRows(t, done + [line], prefix, li + 1, Max(MaxWidth(done), |line|));
  }

  /** addRow keeps a valid table valid. */
  lemma RowAddedShape(t: Table, p: nat, showControls: bool)
    requires Rectangular(t) && |t| >= MinSize(showControls) && |t[0]| >= MinSize(showControls)
    requires p <= |t|
    ensures var u := WithRowAdded(t, p, showControls);
      Rectangular(u) && |u| >= MinSize(showControls) && |u[0]| >= MinSize(showControls)
  {
    var u := WithRowAdded(t, p, showControls);
    assert |u[p]| == |t[0]|;
    assert p > 0 ==> u[0] == t[0];
    forall i | 0 <= i < |u| ensures |u[i]| == |t[0]| {
      if i > p { assert u[i] == t[i - 1]; }
      if i < p { assert u[i] == t[i]; }
    }
  }

  class SimpleCsvEditor {
    var rows: Table
    var lineBreakUsed: string
    var delimiterUsed: string
    var lastLineEmpty: bool
    /** Every value passed to the change callback, oldest first. */
    var notifications: seq<string>

    const showControls: bool
    /** Whether a change callback was given (`onChange != null`). */
    const notifies: bool
    const labels: Labels
    const parse: string -> ParseResult
    const unparse: (seq<seq<string>>, string) -> string

    /** The shape every operation keeps: rectangular, and at least as many
        rows and columns as the delete guards leave. */
    ghost predicate Valid()
      reads this`rows
    {
      Rectangular(rows) && |rows| >= MinSize(showControls) && |rows[0]| >= MinSize(showControls)
    }

    constructor (data: string, showControls: bool, notifies: bool, labels: Labels,
                 parse: string -> ParseResult, unparse: (seq<seq<string>>, string) -> string)
      requires TrailingEmptyOnly(parse(data).data)
      ensures this.showControls == showControls && this.notifies == notifies && this.labels == labels
      ensures this.parse == parse && this.unparse == unparse
      ensures Valid() && ControlsInPlace(rows, showControls)
      ensures rows == Layout(DataGrid(parse(data).data), showControls)
      ensures lineBreakUsed == parse(data).linebreak && delimiterUsed == parse(data).delimiter
      ensures lastLineEmpty == LastLineEmpty(data, lineBreakUsed)
      ensures notifications == []
    {
      this.showControls := showControls;
      this.notifies := notifies;
      this.labels := labels;
      this.parse := parse;
      this.unparse := unparse;
      rows := [];
      lineBreakUsed, delimiterUsed, lastLineEmpty := "", "", false;
      notifications := [];
      new;
      SetCsv(data);
    }

    /** The current text: the serialised data region, followed by the
        recorded line break exactly when the last parsed input ended in one. */
    function GetCsv(): (csv: string)
      reads this`rows, this`delimiterUsed, this`lineBreakUsed, this`lastLineEmpty
      ensures lastLineEmpty ==> csv == unparse(DataRegion(rows, showControls, labels), delimiterUsed) + lineBreakUsed
      ensures !lastLineEmpty ==> csv == unparse(DataRegion(rows, showControls, labels), delimiterUsed)
    {
      unparse(DataRegion(rows, showControls, labels), delimiterUsed)
        + (if lastLineEmpty then lineBreakUsed else "")
    }

    /** What one call of the change notification appends to the log. */
    function Notice(csv: string): (log: seq<string>)
      ensures |log| == (if notifies then 1 else 0)
      ensures notifies ==> log[0] == csv
    {
      if notifies then [csv] else []
    }

    method TriggerOnChange()
      modifies this`notifications
      ensures notifications == old(notifications) + Notice(GetCsv())
    {
      if notifies {
        notifications := notifications + [GetCsv()];
      }
    }

    /** row.insertCell(c) on row r, filled as `cell` says. */
    method InsertCell(r: nat, c: int, cell: Cell)
      requires r < |rows| && -1 <= c <= |rows[r]|
      modifies this`rows
      ensures rows == old(rows)[r := InsertAt(old(rows)[r], InsertPos(c, |old(rows)[r]|), cell)]
    {
      rows := rows[r := InsertAt(rows[r], InsertPos(c, |rows[r]|), cell)];
    }

    /** row.deleteCell(c) on row r. */
    method DeleteCell(r: nat, c: int)
      requires r < |rows| && 0 < |rows[r]| && -1 <= c < |rows[r]|
      modifies this`rows
      ensures rows == old(rows)[r := RemoveAt(old(rows)[r], DeletePos(c, |old(rows)[r]|))]
    {
      rows := rows[r := RemoveAt(rows[r], DeletePos(c, |rows[r]|))];
    }

    /** insertRow(-1) followed by n empty data cells. */
    method AppendBlankRow(n: nat)
      modifies this`rows
      ensures rows == old(rows) + [seq(n, _ => Data(""))]
    {
      rows := rows + [[]];
      var k := 0;
      assert [] == seq(0, _ => Data(""));
      while k < n
        invariant 0 <= k <= n
        invariant rows == old(rows) + [seq(k, _ => Data(""))]
      {
        InsertCell(|rows| - 1, -1, Data(""));
        assert rows[|rows| - 1] == seq(k + 1, _ => Data(""));
        k := k + 1;
      }
    }

    /** One empty data cell appended to every row. */
    method AppendDataColumn()
      modifies this`rows
      ensures |rows| == |old(rows)|
      ensures forall i :: 0 <= i < |rows| ==> rows[i] == old(rows)[i] + [Data("")]
    {
      var r := 0;
      while r < |rows|
        invariant 0 <= r <= |rows| == |old(rows)|
        invariant forall i :: 0 <= i < r ==> rows[i] == old(rows)[i] + [Data("")]
        invariant forall i :: r <= i < |rows| ==> rows[i] == old(rows)[i]
      {
        InsertCell(r, -1, Data(""));
        r := r + 1;
      }
    }

    /** The tokens of line li, one at a time: create the row when it is
        missing (the first line's row as wide as that line, later rows as
        wide as the row above), widen every row when a token falls past the
        end, and store the token. */
    method FillLine(lines: seq<seq<string>>, li: nat)
      requires li < |lines| && TrailingEmptyOnly(lines)
      requires Filled(rows, lines[..li], Height(lines[..li]), MaxWidth(lines[..li]))
      modifies this`rows
      ensures Filled(rows, lines[..li + 1], Height(lines[..li + 1]), MaxWidth(lines[..li + 1]))
    {
      var line := lines[li];
      if line == [] {
        FilledSkipEmptyLine(rows, lines, li);
        return;
      }
      FilledEnterLine(rows, lines, li);
      ghost var done := lines[..li];
      ghost var mw := MaxWidth(done);
      var ti := 0;
      while ti < |line|
        invariant 0 <= ti <= |line|
        invariant Filled(rows, done + [line[..ti]], if ti == 0 then li else li + 1,
                         Max(mw, if li == 0 && ti > 0 then |line| else ti))
      {
        FillToken(done, line, li, ti, mw);
        ti := ti + 1;
      }
      FilledLeaveLine(rows, lines, li);
    }

    /** One pass of FillLine's loop: token ti of the line after `done`. */
    method FillToken(ghost done: seq<seq<string>>, line: seq<string>, li: nat, ti: nat, ghost mw: nat)
      requires li == |done| && ti < |line|
      requires forall i :: 0 <= i < |done| ==> |done[i]| <= mw
      requires |done| == 0 ==> mw == 0
      requires Filled(rows, done + [line[..ti]], if ti == 0 then |done| else |done| + 1,
                      Max(mw, if |done| == 0 && ti > 0 then |line| else ti))
      modifies this`rows
      ensures Filled(rows, done + [line[..ti + 1]], |done| + 1,
                     Max(mw, if |done| == 0 then |line| else ti + 1))
    {
      ghost var s := done + [line[..ti]];
      ghost var w := Max(mw, if li == 0 && ti > 0 then |line| else ti);
      assert forall i :: 0 <= i < li ==> |s[i]| <= mw by {
        forall i | 0 <= i < li ensures |s[i]| <= mw { assert s[i] == done[i]; }
      }
      if |rows| <= li {
        var numCells := if li == 0 then |line| else |rows[li - 1]|;
        FilledAddBlankRow(rows, s, li, w, numCells);
        AppendBlankRow(numCells);
      }
      ghost var w1 := if ti == 0 && li == 0 then |line| else w;
      assert Filled(rows, s, li + 1, w1);
      if |rows[li]| <= ti {
        ghost var narrow := rows;
        AppendDataColumn();
        FilledWiden(narrow, rows, s, li + 1, w1);
      }
      ghost var w2 := Max(w1, ti + 1);
      assert Filled(rows, s, li + 1, w2);
      FilledStore(rows, done, line, ti, w2);
      rows := rows[li := rows[li][ti := Data(line[ti])]];
    }

    /** setCsv's control pass: a control row on top, holding one column
        control per column and the delete-all cell, and a row control ending
        every other row. */
    method AddControls()
      requires |rows| >= 1
      modifies this`rows
      ensures rows == Layout(old(rows), true)
    {
      rows := [[]] + rows;
      var k := 0;
      assert [] == seq(0, _ => ColumnControl);
      while k < |rows[1]|
        invariant 0 <= k <= |old(rows)[0]|
        invariant rows == [seq(k, _ => ColumnControl)] + old(rows)
      {
        InsertCell(0, -1, ColumnControl);
        assert rows[0] == seq(k + 1, _ => ColumnControl);
        k := k + 1;
      }
      var r := 0;
      while r < |rows|
        invariant 0 <= r <= |rows| == |old(rows)| + 1
        invariant r == 0 ==> rows[0] == seq(|old(rows)[0]|, _ => ColumnControl)
        invariant r > 0 ==> rows[0] == seq(|old(rows)[0]|, _ => ColumnControl) + [DeleteAllControl]
        invariant forall i :: 1 <= i < r ==> rows[i] == old(rows)[i - 1] + [RowControl]
        invariant forall i :: r <= i < |rows| && 1 <= i ==> rows[i] == old(rows)[i - 1]
      {
        if r == 0 {
          InsertCell(0, -1, DeleteAllControl);
        } else {
          InsertCell(r, -1, RowControl);
        }
        r := r + 1;
      }
    }

    /** Replaces the whole table and the recorded metadata by what the
        parser makes of `data`; never notifies. */
    method SetCsv(data: string)
      requires TrailingEmptyOnly(parse(data).data)
      modifies this`rows, this`lineBreakUsed, this`delimiterUsed, this`lastLineEmpty
      ensures lineBreakUsed == parse(data).linebreak && delimiterUsed == parse(data).delimiter
      ensures lastLineEmpty == LastLineEmpty(data, lineBreakUsed)
      ensures rows == Layout(DataGrid(parse(data).data), showControls)
      ensures Valid() && ControlsInPlace(rows, showControls)
      ensures DataRegion(rows, showControls, labels) == Normalized(parse(data).data)
      ensures GetCsv() == unparse(Normalized(parse(data).data), delimiterUsed)
                          + (if lastLineEmpty then lineBreakUsed else "")
    {
      var result := parse(data);
      var lines := result.data;
      lineBreakUsed := result.linebreak;
      delimiterUsed := result.delimiter;
      lastLineEmpty := LastLineEmpty(data, lineBreakUsed);
      FillGrid(lines);
      if showControls {
        AddControls();
      }
      SetCsvTable(lines, showControls, labels);
    }

    /** setCsv's filling loop: the data cells built line by line and token
        by token into an emptied table, then the single empty cell when no
        row was built. */
    method FillGrid(lines: seq<seq<string>>)
      requires TrailingEmptyOnly(lines)
      modifies this`rows
      ensures rows == DataGrid(lines)
    {
      rows := [];
      var li := 0;
      while li < |lines|
        invariant 0 <= li <= |lines|
        invariant Filled(rows, lines[..li], Height(lines[..li]), MaxWidth(lines[..li]))
      {
        FillLine(lines, li);
        li := li + 1;
      }
      assert lines[..|lines|] == lines;
      ghost var built := rows;
      if |rows| == 0 {
        rows := [[]];
        InsertCell(0, 0, Data(""));
      }
      if Height(lines) > 0 {
        FilledIsDataGrid(built, lines);
      } else {
        assert rows[0] == [Data("")];
      }
    }

    /** The cells of a freshly inserted row p: n of them, the last a row
        control when controls are shown, the others empty data cells. */
    method FillNewRow(p: nat, n: nat)
      requires p < |rows| && rows[p] == []
      modifies this`rows
      ensures rows == old(rows)[p := NewRow(n, showControls)]
    {
      var k := 0;
      assert [] == NewRow(n, showControls)[..0];
      while k < n
        invariant 0 <= k <= n
        invariant rows == old(rows)[p := NewRow(n, showControls)[..k]]
      {
        if showControls && k == n - 1 {
          InsertCell(p, -1, RowControl);
        } else {
          InsertCell(p, -1, Data(""));
        }
        assert rows[p] == NewRow(n, showControls)[..k + 1];
        k := k + 1;
      }
      assert NewRow(n, showControls)[..n] == NewRow(n, showControls);
    }

    /** Inserts one row at rowIndex, as wide as the first data row was, its
        last cell a row control when controls are shown; notifies once. */
    method AddRow(rowIndex: int)
      requires Valid() && -1 <= rowIndex <= |rows|
      modifies this`rows, this`notifications
      ensures rows == WithRowAdded(old(rows), InsertPos(rowIndex, |old(rows)|), showControls)
      ensures Valid()
      ensures notifications == old(notifications) + Notice(GetCsv())
      ensures old(ControlsInPlace(rows, showControls)) && (showControls ==> rowIndex != 0) ==>
        ControlsInPlace(rows, showControls)
        && DataRegion(rows, showControls, labels)
           == InsertAt(old(DataRegion(rows, showControls, labels)),
                       InsertPos(rowIndex, |old(rows)|) - (if showControls then 1 else 0),
                       seq(old(DataWidth(rows, showControls)), _ => ""))
    {
      var firstDataRowIndex := if showControls then 1 else 0;
      var hasFirstDataRow := |rows| > firstDataRowIndex;
      var firstDataRowWidth := if hasFirstDataRow then |rows[firstDataRowIndex]| else 0;
      var p := InsertPos(rowIndex, |rows|);
      ghost var before := rows;
      rows := InsertAt(rows, p, []);
      // Without a first data row the code counts the new row's cells: none yet.
      var numCells := if hasFirstDataRow then firstDataRowWidth else 0;
      assert numCells == FirstDataWidth(before, showControls);
      FillNewRow(p, numCells);
      assert rows == WithRowAdded(before, p, showControls);
      RowAddedShape(before, p, showControls);
      if ControlsInPlace(before, showControls) && (showControls ==> rowIndex != 0) {
        AddRowData(before, p, showControls, labels);
      }
      TriggerOnChange();
    }

    /** Inserts one cell at cellIndex into every row: a column control in
        row 0 when controls are shown, an empty data cell elsewhere; notifies once. */
    method AddColumn(cellIndex: int)
      requires Valid() && -1 <= cellIndex <= |rows[0]|
      modifies this`rows, this`notifications
      ensures rows == WithColumnAdded(old(rows), cellIndex, showControls)
      ensures Valid()
      ensures notifications == old(notifications) + Notice(GetCsv())
      ensures old(ControlsInPlace(rows, showControls))
              && InsertPos(cellIndex, old(|rows[0]|)) <= old(DataWidth(rows, showControls)) ==>
        var d := old(DataRegion(rows, showControls, labels));
        var c := InsertPos(cellIndex, old(|rows[0]|));
        ControlsInPlace(rows, showControls)
        && DataRegion(rows, showControls, labels)
           == seq(|d|, i requires 0 <= i < |d| => InsertAt(d[i], c, ""))
    {
      ghost var before := rows;
      ghost var after := WithColumnAdded(before, cellIndex, showControls);
      var r := 0;
      while r < |rows|
        modifies this`rows
        invariant 0 <= r <= |rows| == |before|
        invariant forall i :: 0 <= i < r ==> rows[i] == after[i]
        invariant forall i :: r <= i < |rows| ==> rows[i] == before[i]
      {
        if showControls && r == 0 {
          InsertCell(r, cellIndex, ColumnControl);
        } else {
          InsertCell(r, cellIndex, Data(""));
        }
        r := r + 1;
      }
      assert rows == after;
      assert forall i :: 0 <= i < |rows| ==> |rows[i]| == |before[i]| + 1;
      ghost var c := InsertPos(cellIndex, |before[0]|);
      if ControlsInPlace(before, showControls) && c <= DataWidth(before, showControls) {
        assert WithColumnAdded(before, c, showControls) == after by {
          forall i | 0 <= i < |before| ensures InsertPos(c, |before[i]|) == InsertPos(cellIndex, |before[i]|) {
            assert |before[i]| == |before[0]|;
          }
        }
        AddColumnData(before, c, showControls, labels);
      }
      TriggerOnChange();
    }

    /** Removes row rowIndex and notifies once, unless only the minimum
        number of rows is left, in which case nothing happens. */
    method DeleteRow(rowIndex: int)
      requires Valid() && (|rows| > MinSize(showControls) ==> -1 <= rowIndex < |rows|)
      modifies this`rows, this`notifications
      ensures Valid()
      ensures old(|rows|) <= MinSize(showControls) ==>
        rows == old(rows) && notifications == old(notifications)
      ensures old(|rows|) > MinSize(showControls) ==>
        rows == RemoveAt(old(rows), DeletePos(rowIndex, old(|rows|)))
        && notifications == old(notifications) + Notice(GetCsv())
      ensures old(ControlsInPlace(rows, showControls)) && old(|rows|) > MinSize(showControls)
              && (showControls ==> rowIndex != 0) ==>
        ControlsInPlace(rows, showControls)
        && DataRegion(rows, showControls, labels)
           == RemoveAt(old(DataRegion(rows, showControls, labels)),
                       DeletePos(rowIndex, old(|rows|)) - (if showControls then 1 else 0))
    {
      if |rows| <= MinSize(showControls) {
        return;
      }
      ghost var before := rows;
      var p := DeletePos(rowIndex, |rows|);
      rows := RemoveAt(rows, p);
      forall i | 0 <= i < |rows| ensures |rows[i]| == |rows[0]| {
        if i >= p { assert rows[i] == before[i + 1]; }
        if p == 0 { assert rows[0] == before[1]; }
      }
      if ControlsInPlace(before, showControls) && (showControls ==> rowIndex != 0) {
        DeleteRowData(before, p, showControls, labels);
      }
      TriggerOnChange();
    }

    /** Removes the cell at columnIndex from every row and notifies once,
        unless row 0 has only the minimum number of cells, in which case
        nothing happens. */
    method DeleteColumn(columnIndex: int)
      requires Valid() && (|rows[0]| > MinSize(showControls) ==> -1 <= columnIndex < |rows[0]|)
      modifies this`rows, this`notifications
      ensures Valid()
      ensures old(|rows[0]|) <= MinSize(showControls) ==>
        rows == old(rows) && notifications == old(notifications)
      ensures old(|rows[0]|) > MinSize(showControls) ==>
        rows == WithColumnDeleted(old(rows), columnIndex)
        && notifications == old(notifications) + Notice(GetCsv())
      ensures old(ControlsInPlace(rows, showControls)) && old(|rows[0]|) > MinSize(showControls)
              && DeletePos(columnIndex, old(|rows[0]|)) < old(DataWidth(rows, showControls)) ==>
        var d := old(DataRegion(rows, showControls, labels));
        var c := DeletePos(columnIndex, old(|rows[0]|));
        ControlsInPlace(rows, showControls)
        && DataRegion(rows, showControls, labels)
           == seq(|d|, i requires 0 <= i < |d| => RemoveAt(d[i], c))
    {
      if |rows[0]| <= MinSize(showControls) {
        return;
      }
      ghost var before := rows;
      ghost var after := WithColumnDeleted(before, columnIndex);
      var r := 0;
      while r < |rows|
        modifies this`rows
        invariant 0 <= r <= |rows| == |before|
        invariant forall i :: 0 <= i < r ==> rows[i] == after[i]
        invariant forall i :: r <= i < |rows| ==> rows[i] == before[i]
      {
        DeleteCell(r, columnIndex);
        r := r + 1;
      }
      assert rows == after;
      assert forall i :: 0 <= i < |rows| ==> |rows[i]| == |before[i]| - 1;
      ghost var c := DeletePos(columnIndex, |before[0]|);
      if ControlsInPlace(before, showControls) && c < DataWidth(before, showControls) {
        assert WithColumnDeleted(before, c) == after by {
          forall i | 0 <= i < |before| ensures DeletePos(c, |before[i]|) == DeletePos(columnIndex, |before[i]|) {
            assert |before[i]| == |before[0]|;
          }
        }
        DeleteColumnData(before, c, showControls, labels);
      }
      TriggerOnChange();
    }

    /** setCsv of the empty text followed by exactly one notification (setCsv
        itself never notifies). */
    method DeleteAll()
      requires TrailingEmptyOnly(parse("").data)
      modifies this`rows, this`lineBreakUsed, this`delimiterUsed, this`lastLineEmpty, this`notifications
      ensures rows == Layout(DataGrid(parse("").data), showControls)
      ensures Valid() && ControlsInPlace(rows, showControls)
      ensures lineBreakUsed == parse("").linebreak && delimiterUsed == parse("").delimiter
      ensures lastLineEmpty == (lineBreakUsed == "")
      ensures notifications == old(notifications) + Notice(GetCsv())
      ensures parse("").data == [] ==> DataRegion(rows, showControls, labels) == [[""]]
    {
      SetCsv("");
      TriggerOnChange();
    }

    /** The `input` event of a data cell: the browser has replaced the cell's
        text, and the editor notifies once. */
    method InputIntoCell(r: nat, c: nat, text: string)
      requires Valid() && r < |rows| && c < |rows[r]| && rows[r][c].Data?
      modifies this`rows, this`notifications
      ensures rows == old(rows)[r := old(rows)[r][c := Data(text)]]
      ensures Valid()
      ensures notifications == old(notifications) + Notice(GetCsv())
      ensures old(ControlsInPlace(rows, showControls)) ==>
        var d := old(DataRegion(rows, showControls, labels));
        var off := if showControls then 1 else 0;
        ControlsInPlace(rows, showControls) && off <= r && r - off < |d| && c < |d[r - off]|
        && DataRegion(rows, showControls, labels) == d[r - off := d[r - off][c := text]]
    {
      ghost var before := rows;
      rows := rows[r := rows[r][c := Data(text)]];
      assert forall i :: 0 <= i < |rows| ==> |rows[i]| == |before[i]|;
      if ControlsInPlace(before, showControls) {
        SetTextData(before, r, c, text, showControls, labels);
      }
      TriggerOnChange();
    }

    /** Enter in data cell (rowIndex, cellIndex): a new row above (Shift) or
        below the current one, then focus on the same column of the new row. */
    method PressEnter(rowIndex: nat, cellIndex: nat, shift: bool) returns (focusRow: nat, focusCol: nat)
      requires Valid() && rowIndex < |rows| && cellIndex < |rows[rowIndex]|
      requires rows[rowIndex][cellIndex].Data?
      modifies this`rows, this`notifications
      ensures rows == WithRowAdded(old(rows), EnterRowIndex(rowIndex, shift), showControls)
      ensures Valid()
      ensures notifications == old(notifications) + Notice(GetCsv())
      ensures focusRow == EnterRowIndex(rowIndex, shift) && focusCol == cellIndex
      ensures focusRow < |rows| && focusCol < |rows[focusRow]|
      ensures old(ControlsInPlace(rows, showControls)) ==>
        ControlsInPlace(rows, showControls) && rows[focusRow][focusCol] == Data("")
    {
      var newRowIndex := EnterRowIndex(rowIndex, shift);
      ghost var before := rows;
      ghost var inPlace := ControlsInPlace(rows, showControls);
      assert inPlace && showControls ==> rowIndex != 0 && cellIndex < |rows[rowIndex]| - 1;
      AddRow(newRowIndex);
      focusRow, focusCol := newRowIndex, cellIndex;
    }
  }
}
