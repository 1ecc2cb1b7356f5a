/**
 * MazeTextSerializer: a maze grid as text, one line per row, the cell values
 * separated by single spaces and the rows by the platform line break, and
 * the parser that reads such text back, checking the shape and the cell
 * values and locating the entrance and the exit.
 */
module MazeText {
  import opened Wrappers
  import opened Text
  import opened MazeGrid

  /** Environment.NewLine on the Windows desktop the toolkit targets. */
  const NewLine: string := "\r\n"

  // ----- the text of a board -----

  /** Every cell of the board holds one of the four cell values. */
  predicate CellValues(b: seq<seq<int>>) {
    forall y, x :: 0 <= y < |b| && 0 <= x < |b[y]| ==> IsCellValue(b[y][x])
  }

  /** A non-empty board whose rows are non-empty and of equal length. */
  predicate Rectangular(b: seq<seq<int>>) {
    && |b| > 0 && |b[0]| > 0
    && forall y :: 0 <= y < |b| ==> |b[y]| == |b[0]|
  }

  /** The cell values of a row as decimal numbers. */
  predicate RowOfCellValues(row: seq<int>) {
    forall x :: 0 <= x < |row| ==> IsCellValue(row[x])
  }

  function RowTokens(row: seq<int>): (tokens: seq<string>)
    requires RowOfCellValues(row)
    ensures |tokens| == |row|
  {
    seq(|row|, x requires 0 <= x < |row| => NatToString(row[x]))
  }

  function RowText(row: seq<int>): string
    requires RowOfCellValues(row)
  {
    Join(RowTokens(row), " ")
  }

  function RowTexts(b: seq<seq<int>>): (texts: seq<string>)
    requires CellValues(b)
    ensures |texts| == |b|
  {
    seq(|b|, y requires 0 <= y < |b| => RowText(b[y]))
  }

  /** What SerializeToText returns for a grid with these rows. */
  function BoardText(b: seq<seq<int>>): string
    requires CellValues(b)
  {
    Join(RowTexts(b), NewLine)
  }

  /** The inner loop of SerializeToText: the values of row `y`, each but the last followed by a space. */
  method AppendRow(g: MazeGrid, y: int, s0: string) returns (s: string)
    requires g.Valid() && 0 <= y < g.height
    ensures s == s0 + RowText(g.Board()[y])
  {
    ghost var tokens := RowTokens(g.Board()[y]);
    s := s0;
    for x := 0 to g.width
      invariant s == s0 + JoinPrefix(tokens, x, " ")
    {
      var value := g.GetCell(x, y).value;
      assert NatToString(value) == tokens[x];
      JoinPrefixStep(tokens, x, " ");
      s := s + NatToString(value);
      if x < g.width - 1 {
        s := s + " ";
      }
    }
    JoinPrefixAll(tokens, " ");
  }

  /** SerializeToText: row by row, a line break between rows and nothing after the last. */
  method SerializeToText(g: MazeGrid) returns (s: string)
    requires g.Valid()
    ensures s == BoardText(g.Board())
  {
    ghost var texts := RowTexts(g.Board());
    s := "";
    for y := 0 to g.height
      invariant s == JoinPrefix(texts, y, NewLine)
    {
      s := AppendRow(g, y, s);
      JoinPrefixStep(texts, y, NewLine);
      if y < g.height - 1 {
        s := s + NewLine;
      }
    }
    JoinPrefixAll(texts, NewLine);
  }

  // ----- the parser, as a function -----

  datatype ParseError =
    | EmptyText                          // blank or white-space text
    | NoLines                            // no line left after trimming
    | RaggedRows                         // a line with another number of values than the first
    | NotANumber(token: string, line: nat)   // a token Int32.TryParse rejects, with its 1-based line
    | BadCellValue(value: int, line: nat)    // a number other than 0, 1, 5, 6
    | NoEntrance                         // no cell holds 5
    | NoExit                             // no cell holds 6

  predicate IsLineFeed(c: char) {
    c == '\n'
  }

  /** text.Replace("\r\n", "\n"), scanning from the left. */
  function ReplaceCrLf(s: string): string
    decreases |s|
  {
    if |s| >= 2 && s[0] == '\r' && s[1] == '\n' then "\n" + ReplaceCrLf(s[2..])
    else if s == [] then ""
    else [s[0]] + ReplaceCrLf(s[1..])
  }

  /** .Replace('\r', '\n') */
  function ReplaceCr(s: string): (r: string)
    ensures |r| == |s|
    ensures forall i :: 0 <= i < |s| ==> r[i] == if s[i] == '\r' then '\n' else s[i]
  {
    seq(|s|, i requires 0 <= i < |s| => if s[i] == '\r' then '\n' else s[i])
  }

  /** Every line break form becomes "\n". */
  function Normalize(text: string): string {
    ReplaceCr(ReplaceCrLf(text))
  }

  /** The loop over the raw lines: each trimmed, the empty ones dropped. */
  function TrimmedLines(raw: seq<string>): (lines: seq<string>)
    ensures |lines| <= |raw|
    ensures forall i :: 0 <= i < |lines| ==> lines[i] != []
  {
    if raw == [] then []
    else
      var lines := TrimmedLines(raw[..|raw| - 1]);
      var t := Trim(raw[|raw| - 1]);
      if t != [] then lines + [t] else lines
  }

  /** The maze lines of a text. */
  function Lines(text: string): seq<string> {
    TrimmedLines(NonEmpty(Split(Normalize(text), IsLineFeed)))
  }

  /** line.Split(null, RemoveEmptyEntries): the pieces between runs of white space. */
  function Tokens(line: string): seq<string> {
    NonEmpty(Split(line, IsWhiteSpace))
  }

  /** The values of one line, or the error of its first bad token; `y` is the 0-based line index. */
  function ParseCells(tokens: seq<string>, y: nat): Result<seq<int>, ParseError> {
    if tokens == [] then Success([])
    else
      var v := ParseInt32(tokens[0]);
      if v.None? then Failure(NotANumber(tokens[0], y + 1))
      else if !IsCellValue(v.value) then Failure(BadCellValue(v.value, y + 1))
      else
        var rest :- ParseCells(tokens[1..], y);
        Success([v.value] + rest)
  }

  /** A line parses exactly when every token is a number among 0, 1, 5, 6; otherwise the error names the line. */
  lemma {:induction false} ParseCellsMeaning(tokens: seq<string>, y: nat)
    ensures ParseCells(tokens, y).Success? <==> forall i :: 0 <= i < |tokens| ==>
      ParseInt32(tokens[i]).Some? && IsCellValue(ParseInt32(tokens[i]).value)
    ensures ParseCells(tokens, y).Success? ==> |ParseCells(tokens, y).value| == |tokens|
    ensures ParseCells(tokens, y).Success? ==>
      forall i :: 0 <= i < |tokens| ==> ParseCells(tokens, y).value[i] == ParseInt32(tokens[i]).value
    ensures ParseCells(tokens, y).Failure? ==>
      (ParseCells(tokens, y).error.NotANumber? || ParseCells(tokens, y).error.BadCellValue?) &&
      ParseCells(tokens, y).error.line == y + 1
    decreases |tokens|
  {
    if tokens != [] {
      ParseCellsMeaning(tokens[1..], y);
      assert forall i :: 1 <= i < |tokens| ==> tokens[1..][i - 1] == tokens[i];
    }
  }

  /** The rows of lines `y`, `y + 1`, ...; every line must have `width` values. */
  function ParseRows(lines: seq<string>, y: nat, width: nat): Result<seq<seq<int>>, ParseError>
    decreases |lines|
  {
    if lines == [] then Success([])
    else
      var tokens := Tokens(lines[0]);
      if |tokens| != width then Failure(RaggedRows)
      else
        var row :- ParseCells(tokens, y);
        var rest :- ParseRows(lines[1..], y + 1, width);
        Success([row] + rest)
  }

  /** A token Int32.TryParse accepts, with one of the four cell values. */
  predicate ValidToken(t: string) {
    ParseInt32(t).Some? && IsCellValue(ParseInt32(t).value)
  }

  /** A line with `width` tokens, all valid. */
  predicate LineOk(line: string, width: nat) {
    |Tokens(line)| == width && forall k :: 0 <= k < |Tokens(line)| ==> ValidToken(Tokens(line)[k])
  }

  lemma LineOkIff(line: string, y: nat, width: nat)
    ensures LineOk(line, width) <==> |Tokens(line)| == width && ParseCells(Tokens(line), y).Success?
  {
    ParseCellsMeaning(Tokens(line), y);
  }

  /** The lines parse exactly when each has `width` tokens, all valid. */
  lemma {:induction false} ParseRowsSuccess(lines: seq<string>, y: nat, width: nat)
    ensures ParseRows(lines, y, width).Success? <==> forall i :: 0 <= i < |lines| ==> LineOk(lines[i], width)
    decreases |lines|
  {
    if lines != [] {
      ParseRowsSuccess(lines[1..], y + 1, width);
      LineOkIff(lines[0], y, width);
      assert forall i :: 1 <= i < |lines| ==> lines[1..][i - 1] == lines[i];
    }
  }

  lemma ParseRowsCons(lines: seq<string>, y: nat, width: nat)
    requires lines != [] && ParseRows(lines, y, width).Success?
    ensures ParseCells(Tokens(lines[0]), y).Success? && ParseRows(lines[1..], y + 1, width).Success?
    ensures ParseRows(lines, y, width).value ==
      [ParseCells(Tokens(lines[0]), y).value] + ParseRows(lines[1..], y + 1, width).value
  {
  }

  /** Row i is the value of line i, read as sheet line y + i. */
  ghost predicate RowsOfLines(lines: seq<string>, y: nat, rows: seq<seq<int>>) {
    |rows| == |lines| && forall i :: 0 <= i < |lines| ==> ParseCells(Tokens(lines[i]), y + i) == Success(rows[i])
  }

  lemma RowsOfLinesCons(lines: seq<string>, y: nat, row: seq<int>, rest: seq<seq<int>>)
    requires lines != [] && ParseCells(Tokens(lines[0]), y) == Success(row)
    requires RowsOfLines(lines[1..], y + 1, rest)
    ensures RowsOfLines(lines, y, [row] + rest)
  {
    var rows := [row] + rest;
    forall i | 0 <= i < |lines|
      ensures ParseCells(Tokens(lines[i]), y + i) == Success(rows[i])
    {
      if i > 0 {
        assert lines[1..][i - 1] == lines[i] && rows[i] == rest[i - 1] && y + 1 + (i - 1) == y + i;
      }
    }
  }

  /** The rows are the lines' values in order. */
  lemma {:induction false} ParseRowsValues(lines: seq<string>, y: nat, width: nat)
    requires ParseRows(lines, y, width).Success?
    ensures RowsOfLines(lines, y, ParseRows(lines, y, width).value)
    decreases |lines|
  {
    if lines != [] {
      ParseRowsCons(lines, y, width);
      ParseRowsValues(lines[1..], y + 1, width);
      RowsOfLinesCons(lines, y, ParseCells(Tokens(lines[0]), y).value, ParseRows(lines[1..], y + 1, width).value);
    }
  }

  /** A failure is a ragged row or the error of a bad token. */
  lemma {:induction false} ParseRowsErrors(lines: seq<string>, y: nat, width: nat)
    requires ParseRows(lines, y, width).Failure?
    ensures ParseRows(lines, y, width).error.RaggedRows? ||
      ParseRows(lines, y, width).error.NotANumber? || ParseRows(lines, y, width).error.BadCellValue?
    decreases |lines|
  {
    var tokens := Tokens(lines[0]);
    if |tokens| == width {
      ParseCellsMeaning(tokens, y);
      if ParseCells(tokens, y).Success? {
        ParseRowsErrors(lines[1..], y + 1, width);
      }
    }
  }

  /** The first index of `v` in `row`. */
  function FirstInRow(row: seq<int>, v: int): Option<nat> {
    if row == [] then None
    else
      var f := FirstInRow(row[..|row| - 1], v);
      if f.Some? then f else if row[|row| - 1] == v then Some(|row| - 1) else None
  }

  lemma {:induction false} FirstInRowMeaning(row: seq<int>, v: int)
    ensures var r := FirstInRow(row, v);
      r.Some? ==> r.value < |row| && row[r.value] == v && forall i :: 0 <= i < r.value ==> row[i] != v
    ensures FirstInRow(row, v).None? ==> forall i :: 0 <= i < |row| ==> row[i] != v
    decreases |row|
  {
    if row != [] {
      FirstInRowMeaning(row[..|row| - 1], v);
    }
  }

  /** Position p comes before position q in row-major order. */
  predicate Before(p: CellPosition, q: CellPosition) {
    p.y < q.y || (p.y == q.y && p.x < q.x)
  }

  /** The first cell holding `v` in row-major order, as the parser records it. */
  function FirstOf(rows: seq<seq<int>>, v: int): Option<CellPosition> {
    if rows == [] then None
    else
      var f := FirstOf(rows[..|rows| - 1], v);
      if f.Some? then f
      else
        var x := FirstInRow(rows[|rows| - 1], v);
        if x.Some? then Some(CellPosition(x.value, |rows| - 1)) else None
  }

  /** FirstOf finds a cell holding `v` with no such cell before it in row-major order, or reports that there is none. */
  lemma {:induction false} FirstOfMeaning(rows: seq<seq<int>>, v: int)
    ensures var r := FirstOf(rows, v);
      r.Some? ==> 0 <= r.value.y < |rows| && 0 <= r.value.x < |rows[r.value.y]| && rows[r.value.y][r.value.x] == v
    ensures var r := FirstOf(rows, v);
      r.Some? ==> forall j, i :: 0 <= j < |rows| && 0 <= i < |rows[j]| && Before(CellPosition(i, j), r.value) ==>
        rows[j][i] != v
    ensures FirstOf(rows, v).None? ==> forall j, i :: 0 <= j < |rows| && 0 <= i < |rows[j]| ==> rows[j][i] != v
    decreases |rows|
  {
    if rows != [] {
      var n := |rows| - 1;
      FirstOfMeaning(rows[..n], v);
      FirstInRowMeaning(rows[n], v);
      assert forall j :: 0 <= j < n ==> rows[..n][j] == rows[j];
    }
  }

  /** Extending the last row by one value: the first position either stays or is the new cell. */
  lemma FirstOfStep(rows: seq<seq<int>>, row: seq<int>, c: int, v: int)
    ensures FirstOf(rows + [row + [c]], v) ==
      if FirstOf(rows + [row], v).Some? then FirstOf(rows + [row], v)
      else if c == v then Some(CellPosition(|row|, |rows|))
      else None
  {
    assert (rows + [row + [c]])[..|rows|] == rows;
    assert (rows + [row])[..|rows|] == rows;
    assert (row + [c])[..|row|] == row;
  }

  datatype ParsedMaze = ParsedMaze(rows: seq<seq<int>>, entrance: CellPosition, exit: CellPosition)

  /** What ParseFromText returns, or the exception it throws. */
  function Parse(text: string): Result<ParsedMaze, ParseError> {
    if IsBlank(text) then Failure(EmptyText)
    else
      var lines := Lines(text);
      if lines == [] then Failure(NoLines)
      else
        var rows :- ParseRows(lines, 0, |Tokens(lines[0])|);
        Locate(rows)
  }

  /** The last step of ParseFromText: the first 5 is the entrance and the first 6 the exit, and both must occur. */
  function Locate(rows: seq<seq<int>>): (r: Result<ParsedMaze, ParseError>)
    ensures r.Success? ==> r.value.rows == rows
    ensures r.Failure? ==> r.error == NoEntrance || r.error == NoExit
  {
    var entrance := FirstOf(rows, CellValue(Entrance));
    var exit := FirstOf(rows, CellValue(Exit));
    if entrance.None? then Failure(NoEntrance)
    else if exit.None? then Failure(NoExit)
    else Success(ParsedMaze(rows, entrance.value, exit.value))
  }

  // ----- the parser's loops -----

  /** Puts `front` before a successful result and passes an error through. */
  function Prepend<T>(front: seq<T>, r: Result<seq<T>, ParseError>): Result<seq<T>, ParseError> {
    if r.Success? then Success(front + r.value) else r
  }

  lemma PrependNil<T>(r: Result<seq<T>, ParseError>)
    ensures Prepend([], r) == r
  {
    if r.Success? {
      assert [] + r.value == r.value;
    }
  }

  lemma PrependSnoc<T>(front: seq<T>, v: T, r: Result<seq<T>, ParseError>)
    ensures Prepend(front, Prepend([v], r)) == Prepend(front + [v], r)
  {
    if r.Success? {
      assert front + ([v] + r.value) == (front + [v]) + r.value;
    }
  }

  /** One step of ParseCells from token `x` on. */
  lemma ParseCellsStep(tokens: seq<string>, x: nat, y: nat)
    requires x < |tokens|
    ensures var v := ParseInt32(tokens[x]);
      ParseCells(tokens[x..], y) ==
        if v.None? then Failure(NotANumber(tokens[x], y + 1))
        else if !IsCellValue(v.value) then Failure(BadCellValue(v.value, y + 1))
        else Prepend([v.value], ParseCells(tokens[x + 1..], y))
  {
    assert tokens[x..][0] == tokens[x] && tokens[x..][1..] == tokens[x + 1..];
  }

  /** One step of ParseRows from line `y` on. */
  lemma ParseRowsStep(lines: seq<string>, y: nat, width: nat)
    requires y < |lines|
    ensures var tokens := Tokens(lines[y]);
      ParseRows(lines[y..], y, width) ==
        if |tokens| != width then Failure(RaggedRows)
        else if ParseCells(tokens, y).Failure? then Failure(ParseCells(tokens, y).error)
        else Prepend([ParseCells(tokens, y).value], ParseRows(lines[y + 1..], y + 1, width))
  {
    assert lines[y..][0] == lines[y] && lines[y..][1..] == lines[y + 1..];
  }

  /** The inner loop over the tokens of line `y`, recording the first entrance and exit. */
  method ParseLine(tokens: seq<string>, y: nat, rows: seq<seq<int>>, entrance0: Option<CellPosition>, exit0: Option<CellPosition>)
    returns (r: Result<seq<int>, ParseError>, entrance: Option<CellPosition>, exit: Option<CellPosition>)
    requires |rows| == y
    requires entrance0 == FirstOf(rows, CellValue(Entrance)) && exit0 == FirstOf(rows, CellValue(Exit))
    ensures r == ParseCells(tokens, y)
    ensures r.Success? ==> entrance == FirstOf(rows + [r.value], CellValue(Entrance))
    ensures r.Success? ==> exit == FirstOf(rows + [r.value], CellValue(Exit))
  {
    var rowValues := new int[|tokens|];
    entrance, exit := entrance0, exit0;
    assert (rows + [rowValues[..0]])[..|rows|] == rows;
    assert tokens[0..] == tokens;
    PrependNil(ParseCells(tokens, y));
    for x := 0 to |tokens|
      invariant ParseCells(tokens, y) == Prepend(rowValues[..x], ParseCells(tokens[x..], y))
      invariant entrance == FirstOf(rows + [rowValues[..x]], CellValue(Entrance))
      invariant exit == FirstOf(rows + [rowValues[..x]], CellValue(Exit))
    {
      ParseCellsStep(tokens, x, y);
      var cell := ParseInt32(tokens[x]);
      if cell.None? {
        r := Failure(NotANumber(tokens[x], y + 1));
        assert Prepend(rowValues[..x], r) == r;
        return r, entrance, exit;
      }
      if !IsCellValue(cell.value) {
        r := Failure(BadCellValue(cell.value, y + 1));
        assert Prepend(rowValues[..x], r) == r;
        return r, entrance, exit;
      }
      PrependSnoc(rowValues[..x], cell.value, ParseCells(tokens[x + 1..], y));
      rowValues[x] := cell.value;
      FirstOfStep(rows, rowValues[..x], cell.value, CellValue(Entrance));
      FirstOfStep(rows, rowValues[..x], cell.value, CellValue(Exit));
      assert rowValues[..x + 1] == rowValues[..x] + [cell.value];
      if cell.value == CellValue(Entrance) && entrance.None? {
        entrance := Some(CellPosition(x, y));
      }
      if cell.value == CellValue(Exit) && exit.None? {
        exit := Some(CellPosition(x, y));
      }
    }
    assert tokens[|tokens|..] == [];
    assert rowValues[..|tokens|] == rowValues[..];
    assert rowValues[..] + [] == rowValues[..];
    r := Success(rowValues[..]);
  }

  /** The loop over the lines: each line's values become a row once its width is checked. */
  method ParseAllRows(lines: seq<string>, width: nat)
    returns (r: Result<seq<seq<int>>, ParseError>, entrance: Option<CellPosition>, exit: Option<CellPosition>)
    ensures r == ParseRows(lines, 0, width)
    ensures r.Success? ==> entrance == FirstOf(r.value, CellValue(Entrance)) && exit == FirstOf(r.value, CellValue(Exit))
  {
    var rows: seq<seq<int>> := [];
    entrance, exit := None, None;
    assert lines[0..] == lines;
    PrependNil(ParseRows(lines, 0, width));
    for y := 0 to |lines|
      invariant |rows| == y
      invariant ParseRows(lines, 0, width) == Prepend(rows, ParseRows(lines[y..], y, width))
      invariant entrance == FirstOf(rows, CellValue(Entrance)) && exit == FirstOf(rows, CellValue(Exit))
    {
      ParseRowsStep(lines, y, width);
      var tokens := Tokens(lines[y]);
      if |tokens| != width {
        r := Failure(RaggedRows);
        assert Prepend(rows, r) == r;
        return r, entrance, exit;
      }
      var row;
      row, entrance, exit := ParseLine(tokens, y, rows, entrance, exit);
      if row.Failure? {
        r := Failure(row.error);
        assert Prepend(rows, r) == r;
        return r, entrance, exit;
      }
      PrependSnoc(rows, row.value, ParseRows(lines[y + 1..], y + 1, width));
      rows := rows + [row.value];
    }
    assert lines[|lines|..] == [];
    assert rows + [] == rows;
    r := Success(rows);
  }

  /** A non-empty line that does not start with white space has a token. */
  lemma LineHasToken(line: string)
    requires line != [] && !IsWhiteSpace(line[0])
    ensures Tokens(line) != []
  {
    var parts := Split(line, IsWhiteSpace);
    assert parts[0] != [];
    assert parts == [parts[0]] + parts[1..];
  }

  /**
   * Every maze line has at least one token, so the parser's skip of a line
   * without tokens and its "maze is empty" check never fire.
   */
  lemma EveryLineHasTokens(text: string)
    ensures forall y :: 0 <= y < |Lines(text)| ==> Tokens(Lines(text)[y]) != []
  {
    var lines := Lines(text);
    forall y | 0 <= y < |lines|
      ensures Tokens(lines[y]) != []
    {
      TrimmedLinesTrimmed(NonEmpty(Split(Normalize(text), IsLineFeed)));
      LineHasToken(lines[y]);
    }
  }

  lemma {:induction false} TrimmedLinesTrimmed(raw: seq<string>)
    ensures forall i :: 0 <= i < |TrimmedLines(raw)| ==> !IsWhiteSpace(TrimmedLines(raw)[i][0])
  {
    if raw != [] {
      TrimmedLinesTrimmed(raw[..|raw| - 1]);
    }
  }

  /** Writes the parsed rows into a fresh grid, as ParseFromText does through SetCell. */
  method FillGrid(maze: MazeGrid, rows: seq<seq<int>>)
    requires maze.Valid() && |rows| == maze.height && CellValues(rows)
    requires forall y :: 0 <= y < |rows| ==> |rows[y]| == maze.width
    modifies maze.cells
    ensures maze.Valid()
    ensures forall y, x :: 0 <= y < maze.height && 0 <= x < maze.width ==> maze.cells[y, x] == rows[y][x]
  {
    for y := 0 to maze.height
      invariant maze.Valid()
      invariant forall j, i :: 0 <= j < y && 0 <= i < maze.width ==> maze.cells[j, i] == rows[j][i]
    {
      for x := 0 to maze.width
        invariant maze.Valid()
        invariant forall j, i :: 0 <= j < y && 0 <= i < maze.width ==> maze.cells[j, i] == rows[j][i]
        invariant forall i :: 0 <= i < x ==> maze.cells[y, i] == rows[y][i]
      {
        ValueOfType(rows[y][x]);
        var _ := maze.SetCell(x, y, TypeOfValue(rows[y][x]));
      }
    }
  }

  /** Every line has as many tokens as the first, and every token is valid. */
  predicate WellFormedLines(lines: seq<string>)
    requires lines != []
  {
    forall y :: 0 <= y < |lines| ==> LineOk(lines[y], |Tokens(lines[0])|)
  }

  /** Some token of the lines reads as `v`. */
  predicate Occurs(lines: seq<string>, v: int) {
    exists y, i :: 0 <= y < |lines| && 0 <= i < |Tokens(lines[y])| && ParseInt32(Tokens(lines[y])[i]) == Some(v)
  }

  /** Once the lines parse, a value occurs among the tokens exactly when FirstOf finds it in the rows. */
  lemma OccursIff(lines: seq<string>, v: int)
    requires lines != [] && ParseRows(lines, 0, |Tokens(lines[0])|).Success?
    ensures Occurs(lines, v) <==> FirstOf(ParseRows(lines, 0, |Tokens(lines[0])|).value, v).Some?
  {
    var width := |Tokens(lines[0])|;
    ParseRowsValues(lines, 0, width);
    var rows := ParseRows(lines, 0, width).value;
    forall y | 0 <= y < |lines|
      ensures |rows[y]| == |Tokens(lines[y])|
      ensures forall i :: 0 <= i < |Tokens(lines[y])| ==> Some(rows[y][i]) == ParseInt32(Tokens(lines[y])[i])
    {
      ParseCellsMeaning(Tokens(lines[y]), y);
    }
    FirstOfMeaning(rows, v);
  }

  /**
   * ParseFromText succeeds exactly when the text is not blank, has a maze
   * line, every line has as many values as the first, every value is one of
   * 0, 1, 5, 6, and a 5 and a 6 occur; otherwise it throws.
   */
  lemma ParseSucceedsIff(text: string)
    ensures Parse(text).Success? <==>
      && !IsBlank(text) && Lines(text) != [] && WellFormedLines(Lines(text))
      && Occurs(Lines(text), CellValue(Entrance)) && Occurs(Lines(text), CellValue(Exit))
  {
    var lines := Lines(text);
    if !IsBlank(text) && lines != [] {
      ParseRowsSuccess(lines, 0, |Tokens(lines[0])|);
      if ParseRows(lines, 0, |Tokens(lines[0])|).Success? {
        OccursIff(lines, CellValue(Entrance));
        OccursIff(lines, CellValue(Exit));
      }
    }
  }

  /** The loop that trims the raw lines and keeps the non-empty ones. */
  method CollectLines(rawLines: seq<string>) returns (lines: seq<string>)
    ensures lines == TrimmedLines(rawLines)
  {
    lines := [];
    for i := 0 to |rawLines|
      invariant lines == TrimmedLines(rawLines[..i])
    {
      assert rawLines[..i + 1][..i] == rawLines[..i];
      var trimmedLine := Trim(rawLines[i]);
      if |trimmedLine| > 0 {
        lines := lines + [trimmedLine];
      }
    }
    assert rawLines[..|rawLines|] == rawLines;
  }

  /** Parsed rows all have `width` values, each one of the four cell values. */
  lemma ParsedRowsShape(lines: seq<string>, width: nat)
    requires ParseRows(lines, 0, width).Success?
    ensures |ParseRows(lines, 0, width).value| == |lines|
    ensures forall y :: 0 <= y < |lines| ==> |ParseRows(lines, 0, width).value[y]| == width
    ensures CellValues(ParseRows(lines, 0, width).value)
  {
    ParseRowsSuccess(lines, 0, width);
    ParseRowsValues(lines, 0, width);
    var rows := ParseRows(lines, 0, width).value;
    forall y | 0 <= y < |rows|
      ensures |rows[y]| == width && forall x :: 0 <= x < |rows[y]| ==> IsCellValue(rows[y][x])
    {
      assert LineOk(lines[y], width);
      ParseCellsMeaning(Tokens(lines[y]), y);
    }
  }

  /**
   * Parse fails with EmptyText exactly on blank text; a parsed maze is a
   * rectangle of as many rows as the text has lines, as wide as the first
   * line has tokens, and holds only the four cell values.
   */
  lemma ParseShape(text: string)
    ensures IsBlank(text) <==> Parse(text) == Failure(EmptyText)
    ensures Parse(text).Success? ==>
      var p := Parse(text).value;
      && Rectangular(p.rows) && CellValues(p.rows)
      && |p.rows| == |Lines(text)| && |p.rows[0]| == |Tokens(Lines(text)[0])|
  {
    var lines := Lines(text);
    if !IsBlank(text) && lines != [] {
      var width := |Tokens(lines[0])|;
      var parsed := ParseRows(lines, 0, width);
      if parsed.Failure? {
        ParseRowsErrors(lines, 0, width);
      } else {
        ParsedRowsShape(lines, width);
        EveryLineHasTokens(text);
      }
    }
  }

  /** The entrance of a parsed maze is its first 5 and the exit its first 6 in row-major order. */
  lemma ParseEndpoints(text: string)
    requires Parse(text).Success?
    ensures var p := Parse(text).value;
      && 0 <= p.entrance.y < |p.rows| && 0 <= p.entrance.x < |p.rows[p.entrance.y]|
      && p.rows[p.entrance.y][p.entrance.x] == CellValue(Entrance)
      && (forall j, i :: 0 <= j < |p.rows| && 0 <= i < |p.rows[j]| && Before(CellPosition(i, j), p.entrance) ==>
            p.rows[j][i] != CellValue(Entrance))
    ensures var p := Parse(text).value;
      && 0 <= p.exit.y < |p.rows| && 0 <= p.exit.x < |p.rows[p.exit.y]|
      && p.rows[p.exit.y][p.exit.x] == CellValue(Exit)
      && (forall j, i :: 0 <= j < |p.rows| && 0 <= i < |p.rows[j]| && Before(CellPosition(i, j), p.exit) ==>
            p.rows[j][i] != CellValue(Exit))
  {
    var rows := Parse(text).value.rows;
    FirstOfMeaning(rows, CellValue(Entrance));
    FirstOfMeaning(rows, CellValue(Exit));
  }

  /** The end of ParseFromText: a new grid of the parsed size, filled cell by cell, with the recorded entrance and exit. */
  method BuildGrid(rows: seq<seq<int>>, entrance: CellPosition, exit: CellPosition) returns (maze: MazeGrid)
    requires Rectangular(rows) && CellValues(rows)
    ensures fresh(maze) && maze.Valid()
    ensures maze.height == |rows| && maze.width == |rows[0]|
    ensures forall y, x :: 0 <= y < maze.height && 0 <= x < maze.width ==> maze.cells[y, x] == rows[y][x]
    ensures maze.entrance == entrance && maze.exit == exit
  {
    maze := new MazeGrid(|rows[0]|, |rows|);
    FillGrid(maze, rows);
    maze.entrance := entrance;
    maze.exit := exit;
  }

  /** ParseFromText: the grid `Parse` describes, or the error it reports. */
  method ParseFromText(text: string) returns (r: Result<MazeGrid, ParseError>)
    ensures r.Failure? ==> Parse(text) == Failure(r.error)
    ensures r.Success? ==> Parse(text).Success? && fresh(r.value) && r.value.Valid()
    ensures r.Success? ==> r.value.height == |Parse(text).value.rows|
    ensures r.Success? ==> forall y :: 0 <= y < r.value.height ==> |Parse(text).value.rows[y]| == r.value.width
    ensures r.Success? ==> forall y, x :: 0 <= y < r.value.height && 0 <= x < r.value.width ==>
      r.value.cells[y, x] == Parse(text).value.rows[y][x]
    ensures r.Success? ==> r.value.entrance == Parse(text).value.entrance && r.value.exit == Parse(text).value.exit
  {
    if IsBlank(text) {
      return Failure(EmptyText);
    }
    var normalized := Normalize(text);
    var rawLines := NonEmpty(Split(normalized, IsLineFeed));
    var lines := CollectLines(rawLines);
    assert lines == Lines(text);
    if |lines| == 0 {
      return Failure(NoLines);
    }
    var width := |Tokens(lines[0])|;
    var rows, entrance, exit := ParseAllRows(lines, width);
    if rows.Failure? {
      return Failure(rows.error);
    }
    if entrance.None? {
      return Failure(NoEntrance);
    }
    if exit.None? {
      return Failure(NoExit);
    }
    ghost var parsed := ParsedMaze(rows.value, entrance.value, exit.value);
    assert Parse(text) == Success(parsed);
    ParseShape(text);
    var maze := BuildGrid(rows.value, entrance.value, exit.value);
    r := Success(maze);
  }

  // ----- the round trip -----

  predicate DigitOrSpace(c: char) {
    IsDigit(c) || c == ' '
  }

  /** A row's text is made of digits and spaces, starts and ends with a digit, and splits back into its tokens. */
  lemma RowTextFacts(row: seq<int>)
    requires |row| > 0 && RowOfCellValues(row)
    ensures var t := RowText(row);
      && t != [] && IsDigit(t[0]) && IsDigit(t[|t| - 1])
      && (forall i :: 0 <= i < |t| ==> DigitOrSpace(t[i]))
    ensures Tokens(RowText(row)) == RowTokens(row)
  {
    var tokens := RowTokens(row);
    JoinChars(tokens, " ", DigitOrSpace);
    JoinStart(tokens, " ");
    JoinEnd(tokens, " ");
    forall k | 0 <= k < |tokens|
      ensures NoSeparator(tokens[k], IsWhiteSpace) && tokens[k] != []
    {
    }
    SplitJoin(tokens, ' ', IsWhiteSpace);
    NonEmptyOfNonEmpty(tokens);
  }

  lemma {:induction false} ReplaceCrLfPlain(p: string, s: string)
    requires forall i :: 0 <= i < |p| ==> p[i] != '\r'
    ensures ReplaceCrLf(p + s) == p + ReplaceCrLf(s)
    decreases |p|
  {
    if p == [] {
      assert p + s == s;
    } else {
      assert (p + s)[0] == p[0] && (p + s)[1..] == p[1..] + s;
      ReplaceCrLfPlain(p[1..], s);
      assert [p[0]] + (p[1..] + ReplaceCrLf(s)) == p + ReplaceCrLf(s);
    }
  }

  lemma ReplaceCrLfOfNewLine(rest: string)
    ensures ReplaceCrLf(NewLine + rest) == "\n" + ReplaceCrLf(rest)
  {
    assert (NewLine + rest)[2..] == rest;
  }

  /** Rows joined with "\r\n" come out of the first replacement joined with "\n". */
  lemma {:induction false} ReplaceCrLfJoin(parts: seq<string>)
    requires |parts| >= 1
    requires forall k, i :: 0 <= k < |parts| && 0 <= i < |parts[k]| ==> parts[k][i] != '\r'
    ensures ReplaceCrLf(Join(parts, NewLine)) == Join(parts, "\n")
    decreases |parts|
  {
    if |parts| == 1 {
      ReplaceCrLfPlain(parts[0], "");
      assert parts[0] + "" == parts[0];
    } else {
      var tail := parts[1..];
      forall k, i | 0 <= k < |tail| && 0 <= i < |tail[k]|
        ensures tail[k][i] != '\r'
      {
        assert tail[k] == parts[k + 1];
      }
      ReplaceCrLfJoin(tail);
      var rest := Join(tail, NewLine);
      assert Join(parts, NewLine) == parts[0] + (NewLine + rest);
      ReplaceCrLfPlain(parts[0], NewLine + rest);
      ReplaceCrLfOfNewLine(rest);
      assert Join(parts, "\n") == parts[0] + ("\n" + Join(tail, "\n"));
    }
  }

  lemma {:induction false} TrimmedLinesOfTrimmed(raw: seq<string>)
    requires forall k :: 0 <= k < |raw| ==>
      raw[k] != [] && !IsWhiteSpace(raw[k][0]) && !IsWhiteSpace(raw[k][|raw[k]| - 1])
    ensures TrimmedLines(raw) == raw
    decreases |raw|
  {
    if raw != [] {
      var n := |raw| - 1;
      TrimmedLinesOfTrimmed(raw[..n]);
      TrimOfTrimmed(raw[n]);
      assert raw[..n] + [raw[n]] == raw;
    }
  }

  /** Digits and spaces only, starting and ending with a digit: what a row's text looks like. */
  predicate CleanLine(t: string) {
    && t != [] && IsDigit(t[0]) && IsDigit(t[|t| - 1])
    && (forall i :: 0 <= i < |t| ==> DigitOrSpace(t[i]))
  }

  lemma NormalizeCleanJoin(texts: seq<string>)
    requires |texts| >= 1 && forall k :: 0 <= k < |texts| ==> CleanLine(texts[k])
    ensures Normalize(Join(texts, NewLine)) == Join(texts, "\n")
  {
    ReplaceCrLfJoin(texts);
    var joined := Join(texts, "\n");
    JoinChars(texts, "\n", c => c != '\r');
    assert ReplaceCr(joined) == joined;
  }

  /** Clean lines joined with the line break come back as themselves once the text is split into lines. */
  lemma {:induction false} LinesOfCleanJoin(texts: seq<string>)
    requires |texts| >= 1 && forall k :: 0 <= k < |texts| ==> CleanLine(texts[k])
    ensures Lines(Join(texts, NewLine)) == texts
  {
    NormalizeCleanJoin(texts);
    var joined := Join(texts, "\n");
    forall k | 0 <= k < |texts|
      ensures NoSeparator(texts[k], IsLineFeed)
    {
    }
    SplitJoin(texts, '\n', IsLineFeed);
    NonEmptyOfNonEmpty(texts);
    forall k | 0 <= k < |texts|
      ensures texts[k] != [] && !IsWhiteSpace(texts[k][0]) && !IsWhiteSpace(texts[k][|texts[k]| - 1])
    {
      var t := texts[k];
      assert CleanLine(t);
      assert IsDigit(t[0]) && IsDigit(t[|t| - 1]);
    }
    TrimmedLinesOfTrimmed(texts);
  }

  /** The serialised text is not blank and its maze lines are the row texts. */
  lemma LinesOfBoardText(b: seq<seq<int>>)
    requires Rectangular(b) && CellValues(b)
    ensures !IsBlank(BoardText(b))
    ensures Lines(BoardText(b)) == RowTexts(b)
  {
    var texts := RowTexts(b);
    forall k | 0 <= k < |b|
      ensures CleanLine(texts[k])
    {
      RowTextFacts(b[k]);
    }
    JoinStart(texts, NewLine);
    assert BoardText(b)[0] == texts[0][0];
    LinesOfCleanJoin(texts);
  }

  /** The text of a row parses back to the row. */
  lemma ParseRowText(row: seq<int>, y: nat)
    requires |row| > 0 && RowOfCellValues(row)
    ensures ParseCells(Tokens(RowText(row)), y) == Success(row)
  {
    RowTextFacts(row);
    var tokens := RowTokens(row);
    forall x | 0 <= x < |row|
      ensures ParseInt32(tokens[x]) == Some(row[x])
    {
      ParseNatToString(row[x]);
    }
    ParseCellsMeaning(tokens, y);
    assert ParseCells(tokens, y).value == row;
  }

  /** The row texts parse back to the rows. */
  lemma ParseRowTexts(b: seq<seq<int>>)
    requires Rectangular(b) && CellValues(b)
    ensures ParseRows(RowTexts(b), 0, |b[0]|) == Success(b)
  {
    var lines := RowTexts(b);
    var width := |b[0]|;
    forall y | 0 <= y < |lines|
      ensures LineOk(lines[y], width) && ParseCells(Tokens(lines[y]), y) == Success(b[y])
    {
      RowTextFacts(b[y]);
      ParseRowText(b[y], y);
      LineOkIff(lines[y], y, width);
    }
    ParseRowsSuccess(lines, 0, width);
    ParseRowsValues(lines, 0, width);
    assert ParseRows(lines, 0, width).value == b;
  }

  /**
   * Parsing the serialised text of a rectangle of cell values that holds a 5
   * and a 6 gives back the same rows, with the entrance at the first 5 and
   * the exit at the first 6.
   */
  lemma RoundTrip(b: seq<seq<int>>)
    requires Rectangular(b) && CellValues(b)
    requires exists y, x :: 0 <= y < |b| && 0 <= x < |b[y]| && b[y][x] == CellValue(Entrance)
    requires exists y, x :: 0 <= y < |b| && 0 <= x < |b[y]| && b[y][x] == CellValue(Exit)
    ensures Parse(BoardText(b)).Success? && Parse(BoardText(b)).value.rows == b
    ensures Some(Parse(BoardText(b)).value.entrance) == FirstOf(b, CellValue(Entrance))
    ensures Some(Parse(BoardText(b)).value.exit) == FirstOf(b, CellValue(Exit))
  {
    LinesOfBoardText(b);
    RowTextFacts(b[0]);
    ParseRowTexts(b);
    FirstOfMeaning(b, CellValue(Entrance));
    FirstOfMeaning(b, CellValue(Exit));
  }
}
