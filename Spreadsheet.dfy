/**
 * The spreadsheet viewer's core: the folder scan that keeps Excel files,
 * and the reader that turns each worksheet's used range into a header row
 * of column names and the non-empty data rows below it. The workbook
 * library is replaced by its used ranges, given as grids of cell strings.
 */
module Spreadsheet {
  import opened Wrappers
  import opened Text
  import opened WindowsPath

  // ----- the data -----

  /**
   * A worksheet's used range: its cells row by row, each row `colCount`
   * cells wide; the range's 1-based Cell(r, c) is cells[r - 1][c - 1].
   */
  datatype Range = Range(cells: seq<seq<string>>, colCount: nat)

  predicate Rectangular(u: Range) {
    forall r :: 0 <= r < |u.cells| ==> |u.cells[r]| == u.colCount
  }

  /** A range the workbook reports as used holds at least one cell. */
  predicate IsUsedRange(u: Range) {
    |u.cells| >= 1 && u.colCount >= 1 && Rectangular(u)
  }

  /** A worksheet of the workbook: its name and its used range, None where RangeUsed() is null. */
  datatype Worksheet = Worksheet(name: string, used: Option<Range>)

  datatype WorksheetModel = WorksheetModel(name: string, columns: seq<string>, rows: seq<seq<string>>)

  datatype SpreadsheetModel = SpreadsheetModel(filePath: string, worksheets: seq<WorksheetModel>)

  /** The FileNotFoundException for a path that does not exist. */
  datatype ReadError = FileNotFound(path: string)

  // ----- DetectHeaderRow -----

  /** How many non-empty cells a row must have to look like a header. */
  const MinNonEmptyCells: nat := 3

  /** The number of cells of a row that are not blank. */
  function NonBlankCount(row: seq<string>): nat {
    if row == [] then 0
    else NonBlankCount(row[..|row| - 1]) + (if IsBlank(row[|row| - 1]) then 0 else 1)
  }

  lemma {:induction false} NonBlankCountPrefix(row: seq<string>, j: nat)
    requires j <= |row|
    ensures NonBlankCount(row[..j]) <= NonBlankCount(row)
    decreases |row| - j
  {
    if j < |row| {
      NonBlankCountPrefix(row, j + 1);
      assert row[..j + 1][..j] == row[..j];
    } else {
      assert row[..j] == row;
    }
  }

  predicate LooksLikeHeader(row: seq<string>) {
    NonBlankCount(row) >= MinNonEmptyCells
  }

  /** The 1-based header row, searching from row index `k` on. */
  function HeaderRowFrom(cells: seq<seq<string>>, k: nat): nat
    requires k <= |cells|
    decreases |cells| - k
  {
    if k == |cells| then 1
    else if LooksLikeHeader(cells[k]) then k + 1
    else HeaderRowFrom(cells, k + 1)
  }

  function HeaderRow(cells: seq<seq<string>>): nat {
    HeaderRowFrom(cells, 0)
  }

  /**
   * The header row is the first row with at least three non-blank cells,
   * or the first row when no row has that many.
   */
  lemma HeaderRowMeaning(cells: seq<seq<string>>)
    ensures var h := HeaderRow(cells);
      || (1 <= h <= |cells| && LooksLikeHeader(cells[h - 1]) && forall k :: 0 <= k < h - 1 ==> !LooksLikeHeader(cells[k]))
      || (h == 1 && forall k :: 0 <= k < |cells| ==> !LooksLikeHeader(cells[k]))
  {
    HeaderRowFromMeaning(cells, 0);
  }

  lemma {:induction false} HeaderRowFromMeaning(cells: seq<seq<string>>, j: nat)
    requires j <= |cells|
    ensures var h := HeaderRowFrom(cells, j);
      || (j + 1 <= h <= |cells| && LooksLikeHeader(cells[h - 1]) && forall k :: j <= k < h - 1 ==> !LooksLikeHeader(cells[k]))
      || (h == 1 && forall k :: j <= k < |cells| ==> !LooksLikeHeader(cells[k]))
    decreases |cells| - j
  {
    if j < |cells| && !LooksLikeHeader(cells[j]) {
      HeaderRowFromMeaning(cells, j + 1);
    }
  }

  /** DetectHeaderRow: rows scanned in order, the non-blank cells counted up to the threshold. */
  method DetectHeaderRow(u: Range) returns (headerRow: int)
    requires Rectangular(u)
    ensures headerRow == HeaderRow(u.cells)
  {
    var rowCount := |u.cells|;
    var colCount := u.colCount;
    var r := 1;
    while r <= rowCount
      invariant 1 <= r <= rowCount + 1
      invariant forall k :: 0 <= k < r - 1 ==> !LooksLikeHeader(u.cells[k])
    {
      var row := u.cells[r - 1];
      var nonEmpty := 0;
      for c := 1 to colCount + 1
        invariant nonEmpty == NonBlankCount(row[..c - 1]) < MinNonEmptyCells
      {
        assert row[..c][..c - 1] == row[..c - 1];
        if !IsBlank(row[c - 1]) {
          nonEmpty := nonEmpty + 1;
          if nonEmpty >= MinNonEmptyCells {
            NonBlankCountPrefix(row, c);
            HeaderRowMeaning(u.cells);
            return r;
          }
        }
      }
      assert row[..colCount] == row;
      r := r + 1;
    }
    HeaderRowMeaning(u.cells);
    return 1;
  }

  // ----- column names -----

  /** The name of column `c` (1-based): its header cell, or "Колонка c" when that cell is blank. */
  function ColumnName(header: string, c: nat): string {
    if IsBlank(header) then "Колонка " + NatToString(c) else header
  }

  /** Column names are never blank, keep a non-blank header as it is, and the generated ones differ from column to column. */
  lemma ColumnNameMeaning(header: string, c: nat, other: string, d: nat)
    ensures !IsBlank(ColumnName(header, c))
    ensures !IsBlank(header) ==> ColumnName(header, c) == header
    ensures IsBlank(header) && IsBlank(other) && c != d ==> ColumnName(header, c) != ColumnName(other, d)
  {
    assert !IsWhiteSpace('К');
    if IsBlank(header) {
      assert ColumnName(header, c)[0] == 'К';
    }
    if IsBlank(header) && IsBlank(other) && ColumnName(header, c) == ColumnName(other, d) {
      var prefix := "Колонка ";
      assert NatToString(c) == ColumnName(header, c)[|prefix|..];
      assert NatToString(d) == ColumnName(other, d)[|prefix|..];
      DigitsOfNatToString(c);
      DigitsOfNatToString(d);
    }
  }

  /** The column names of a header row, column c named after its cell. */
  function Columns(headerCells: seq<string>): (r: seq<string>)
    ensures |r| == |headerCells|
  {
    seq(|headerCells|, i requires 0 <= i < |headerCells| => ColumnName(headerCells[i], i + 1))
  }

  method ReadColumns(u: Range, headerRow: int) returns (columns: seq<string>)
    requires Rectangular(u) && 1 <= headerRow <= |u.cells|
    ensures columns == Columns(u.cells[headerRow - 1])
  {
    columns := [];
    for c := 1 to u.colCount + 1
      invariant columns == Columns(u.cells[headerRow - 1][..c - 1])
    {
      var header := u.cells[headerRow - 1][c - 1];
      if IsBlank(header) {
        header := "Колонка " + NatToString(c);
      }
      columns := columns + [header];
    }
    assert u.cells[headerRow - 1][..u.colCount] == u.cells[headerRow - 1];
  }

  // ----- data rows -----

  predicate AllBlank(row: seq<string>) {
    forall i :: 0 <= i < |row| ==> IsBlank(row[i])
  }

  /** The rows with at least one non-blank cell, in their original order. */
  function NonEmptyRows(rows: seq<seq<string>>): seq<seq<string>> {
    if rows == [] then []
    else
      var last := rows[|rows| - 1];
      NonEmptyRows(rows[..|rows| - 1]) + (if AllBlank(last) then [] else [last])
  }

  /** The filter keeps exactly the rows that are not all blank, and never adds a row. */
  lemma {:induction false} NonEmptyRowsMeaning(rows: seq<seq<string>>)
    ensures forall x :: x in NonEmptyRows(rows) <==> x in rows && !AllBlank(x)
    ensures |NonEmptyRows(rows)| <= |rows|
  {
    if rows != [] {
      var n := |rows| - 1;
      NonEmptyRowsMeaning(rows[..n]);
      assert rows == rows[..n] + [rows[n]];
    }
  }

  /** The allEmpty scan of one row. */
  method AllEmpty(row: array<string>) returns (allEmpty: bool)
    ensures allEmpty <==> AllBlank(row[..])
  {
    allEmpty := true;
    for i := 0 to row.Length
      invariant allEmpty && forall k :: 0 <= k < i ==> IsBlank(row[k])
    {
      if !IsBlank(row[i]) {
        allEmpty := false;
        break;
      }
    }
  }

  lemma NonEmptyRowsSnoc(rows: seq<seq<string>>, x: seq<string>)
    ensures NonEmptyRows(rows + [x]) == NonEmptyRows(rows) + (if AllBlank(x) then [] else [x])
  {
    assert (rows + [x])[..|rows|] == rows;
  }

  /** The copy of sheet row r (1-based) into a fresh array of the range's width. */
  method CopyRow(u: Range, r: int) returns (row: array<string>)
    requires Rectangular(u) && 1 <= r <= |u.cells|
    ensures fresh(row) && row[..] == u.cells[r - 1]
  {
    var colCount := u.colCount;
    row := new string[colCount](_ => "");
    for c := 1 to colCount + 1
      invariant forall k :: 0 <= k < c - 1 ==> row[k] == u.cells[r - 1][k]
    {
      row[c - 1] := u.cells[r - 1][c - 1];
    }
  }

  /** The rows strictly below the header row, each copied into a fresh row and kept when not all blank. */
  method ReadRows(u: Range, headerRow: int) returns (rows: seq<seq<string>>)
    requires Rectangular(u) && 1 <= headerRow <= |u.cells|
    ensures rows == NonEmptyRows(u.cells[headerRow..])
  {
    var rowCount := |u.cells|;
    rows := [];
    for r := headerRow + 1 to rowCount + 1
      invariant rows == NonEmptyRows(u.cells[headerRow..r - 1])
    {
      var row := CopyRow(u, r);
      var allEmpty := AllEmpty(row);
      assert u.cells[headerRow..r] == u.cells[headerRow..r - 1] + [u.cells[r - 1]];
      NonEmptyRowsSnoc(u.cells[headerRow..r - 1], u.cells[r - 1]);
      if !allEmpty {
        rows := rows + [row[..]];
      }
    }
    assert u.cells[headerRow..rowCount] == u.cells[headerRow..];
  }

  // ----- ReadSpreadsheet -----

  /** The model of one worksheet with a used range. */
  function SheetModel(name: string, u: Range): WorksheetModel
    requires IsUsedRange(u)
  {
    var h := HeaderRow(u.cells);
    HeaderRowMeaning(u.cells);
    WorksheetModel(name, Columns(u.cells[h - 1]), NonEmptyRows(u.cells[h..]))
  }

  /**
   * A worksheet model has one column name per column, none blank; its rows
   * are exactly the rows below the header row that are not all blank, each
   * as wide as the range.
   */
  lemma SheetModelMeaning(name: string, u: Range)
    requires IsUsedRange(u)
    ensures var m := SheetModel(name, u); var h := HeaderRow(u.cells);
      && 1 <= h <= |u.cells|
      && m.name == name
      && |m.columns| == u.colCount
      && (forall c :: 0 <= c < |m.columns| ==> !IsBlank(m.columns[c]))
      && (forall x :: x in m.rows <==> x in u.cells[h..] && !AllBlank(x))
      && (forall x <- m.rows :: |x| == u.colCount)
  {
    var h := HeaderRow(u.cells);
    HeaderRowMeaning(u.cells);
    NonEmptyRowsMeaning(u.cells[h..]);
    var m := SheetModel(name, u);
    forall c | 0 <= c < |m.columns|
      ensures !IsBlank(m.columns[c])
    {
      ColumnNameMeaning(u.cells[h - 1][c], c + 1, "", 0);
    }
  }

  method ReadSheet(name: string, u: Range) returns (m: WorksheetModel)
    requires IsUsedRange(u)
    ensures m == SheetModel(name, u)
  {
    var headerRow := DetectHeaderRow(u);
    HeaderRowMeaning(u.cells);
    var columns := ReadColumns(u, headerRow);
    var rows := ReadRows(u, headerRow);
    m := WorksheetModel(name, columns, rows);
  }

  predicate WellFormed(sheets: seq<Worksheet>) {
    forall i :: 0 <= i < |sheets| ==> sheets[i].used.Some? ==> IsUsedRange(sheets[i].used.value)
  }

  /** The worksheet models of a workbook: one per sheet with a used range, in workbook order. */
  function Models(sheets: seq<Worksheet>): seq<WorksheetModel>
    requires WellFormed(sheets)
  {
    if sheets == [] then []
    else
      var last := sheets[|sheets| - 1];
      Models(sheets[..|sheets| - 1]) + (if last.used.None? then [] else [SheetModel(last.name, last.used.value)])
  }

  /** The sheets that have a used range, in workbook order. */
  function WithRange(sheets: seq<Worksheet>): seq<Worksheet> {
    if sheets == [] then []
    else
      var last := sheets[|sheets| - 1];
      WithRange(sheets[..|sheets| - 1]) + (if last.used.None? then [] else [last])
  }

  /**
   * Sheets without a used range produce no model; the others produce one
   * each, in workbook order, named after the sheet and built from its range.
   */
  lemma {:induction false} ModelsMeaning(sheets: seq<Worksheet>)
    requires WellFormed(sheets)
    ensures var w := WithRange(sheets);
      && (forall s :: s in w <==> s in sheets && s.used.Some?)
      && |Models(sheets)| == |w|
      && forall i :: 0 <= i < |w| ==> IsUsedRange(w[i].used.value) && Models(sheets)[i] == SheetModel(w[i].name, w[i].used.value)
  {
    if sheets != [] {
      var n := |sheets| - 1;
      ModelsMeaning(sheets[..n]);
      assert sheets == sheets[..n] + [sheets[n]];
    }
  }

  /** ReadSpreadsheet: a missing file is an error; otherwise every sheet with a used range is read in order. */
  method ReadSpreadsheet(filePath: string, fileExists: bool, sheets: seq<Worksheet>) returns (r: Result<SpreadsheetModel, ReadError>)
    requires WellFormed(sheets)
    ensures !fileExists ==> r == Failure(FileNotFound(filePath))
    ensures fileExists ==> r == Success(SpreadsheetModel(filePath, Models(sheets)))
  {
    if !fileExists {
      return Failure(FileNotFound(filePath));
    }
    var worksheets := [];
    for i := 0 to |sheets|
      invariant worksheets == Models(sheets[..i])
    {
      assert sheets[..i + 1][..i] == sheets[..i];
      var ws := sheets[i];
      if ws.used.None? {
        continue;
      }
      var m := ReadSheet(ws.name, ws.used.value);
      worksheets := worksheets + [m];
    }
    assert sheets[..|sheets|] == sheets;
    r := Success(SpreadsheetModel(filePath, worksheets));
  }

  // ----- ExcelFileScanner -----

  /** The extension is ".xlsx" or ".xls", in any capitalisation. */
  predicate IsExcelFile(path: string) {
    EqualsIgnoreCase(Extension(path), ".xlsx") || EqualsIgnoreCase(Extension(path), ".xls")
  }

  /** The files `keep` accepts, in their original order. */
  function Filter(files: seq<string>, keep: string -> bool): seq<string> {
    if files == [] then []
    else
      var last := files[|files| - 1];
      Filter(files[..|files| - 1], keep) + (if keep(last) then [last] else [])
  }

  /** The filter keeps exactly the accepted files, each at most as often as listed. */
  lemma {:induction false} FilterMeaning(files: seq<string>, keep: string -> bool)
    ensures forall f :: f in Filter(files, keep) <==> f in files && keep(f)
    ensures multiset(Filter(files, keep)) <= multiset(files)
  {
    if files != [] {
      var n := |files| - 1;
      FilterMeaning(files[..n], keep);
      assert files == files[..n] + [files[n]];
    }
  }

  function ExcelFiles(files: seq<string>): seq<string> {
    Filter(files, IsExcelFile)
  }

  /** Ordinal order of strings: character by character, a proper prefix first. */
  predicate OrdinalLe(a: string, b: string) {
    a == [] || (b != [] && (a[0] < b[0] || (a[0] == b[0] && OrdinalLe(a[1..], b[1..]))))
  }

  lemma {:induction false} OrdinalTotal(a: string, b: string)
    ensures OrdinalLe(a, b) || OrdinalLe(b, a)
  {
    if a != [] && b != [] && a[0] == b[0] {
      OrdinalTotal(a[1..], b[1..]);
    }
  }

  predicate ByName(a: string, b: string) {
    OrdinalLe(FileName(a), FileName(b))
  }

  predicate SortedByName(s: seq<string>) {
    forall i :: 0 < i < |s| ==> ByName(s[i - 1], s[i])
  }

  /** One file put into its place in a list ordered by file name. */
  function Insert(f: string, s: seq<string>): (r: seq<string>)
    ensures multiset(r) == multiset(s) + multiset{f}
    ensures r != [] && (r[0] == f || (s != [] && r[0] == s[0]))
  {
    if s == [] || ByName(f, s[0]) then [f] + s
    else
      assert s == [s[0]] + s[1..];
      [s[0]] + Insert(f, s[1..])
  }

  /** A name no greater than the head of a sorted list can go in front of it. */
  lemma ConsSorted(x: string, t: seq<string>)
    requires SortedByName(t) && (t != [] ==> ByName(x, t[0]))
    ensures SortedByName([x] + t)
  {
    var r := [x] + t;
    forall i | 0 < i < |r|
      ensures ByName(r[i - 1], r[i])
    {
      if i > 1 {
        assert r[i - 1] == t[i - 2] && r[i] == t[i - 1];
      }
    }
  }

  lemma {:induction false} InsertSorted(f: string, s: seq<string>)
    requires SortedByName(s)
    ensures SortedByName(Insert(f, s))
  {
    if s == [] || ByName(f, s[0]) {
      ConsSorted(f, s);
    } else {
      assert SortedByName(s[1..]) by {
        forall i | 0 < i < |s[1..]|
          ensures ByName(s[1..][i - 1], s[1..][i])
        {
          assert s[1..][i - 1] == s[i] && s[1..][i] == s[i + 1];
        }
      }
      InsertSorted(f, s[1..]);
      OrdinalTotal(FileName(f), FileName(s[0]));
      var t := Insert(f, s[1..]);
      assert ByName(s[0], t[0]) by {
        if t[0] != f {
          assert t[0] == s[1];
        }
      }
      ConsSorted(s[0], t);
    }
  }

  /** The files ordered by file name (an insertion sort). */
  function OrderByName(files: seq<string>): seq<string> {
    if files == [] then [] else Insert(files[0], OrderByName(files[1..]))
  }

  lemma {:induction false} OrderByNameMeaning(files: seq<string>)
    ensures SortedByName(OrderByName(files))
    ensures multiset(OrderByName(files)) == multiset(files)
  {
    if files != [] {
      OrderByNameMeaning(files[1..]);
      InsertSorted(files[0], OrderByName(files[1..]));
      assert files == [files[0]] + files[1..];
    }
  }

  /** ScanExcelFiles over the folder's top-level files, given with whether the folder exists. */
  function ScanExcelFiles(folderPath: string, folderExists: bool, files: seq<string>): seq<string> {
    if IsBlank(folderPath) || !folderExists then []
    else OrderByName(ExcelFiles(files))
  }

  /**
   * A blank or missing folder yields nothing; otherwise the result holds
   * exactly the folder's Excel files, each as often as listed, ordered by
   * file name.
   */
  lemma ScanMeaning(folderPath: string, folderExists: bool, files: seq<string>)
    ensures IsBlank(folderPath) || !folderExists ==> ScanExcelFiles(folderPath, folderExists, files) == []
    ensures !IsBlank(folderPath) && folderExists ==>
      var r := ScanExcelFiles(folderPath, folderExists, files);
      && SortedByName(r)
      && multiset(r) == multiset(ExcelFiles(files))
      && forall f :: f in r <==> f in files && IsExcelFile(f)
  {
    if !IsBlank(folderPath) && folderExists {
      OrderByNameMeaning(ExcelFiles(files));
      FilterMeaning(files, IsExcelFile);
      var r := ScanExcelFiles(folderPath, folderExists, files);
      assert forall f :: f in r <==> f in multiset(r);
    }
  }
}
