/**
 * The randomised depth-first maze generator. The grid starts as all walls;
 * logical cell (i, j) sits at grid cell (1 + 2i, 1 + 2j), and the depth-first
 * walk over logical cells carves each visited cell and the wall between it and
 * the cell it was reached from. Two columns next to the border are then
 * given a road if they lack one, and the entrance and exit are cut into the
 * left and right borders next to a road. Every random pick is an arbitrary
 * choice among the allowed values.
 */
module MazeGenerator {
  import opened Wrappers
  import opened MazeGrid
  import MazePaths

  /** Math.Min(Math.Max(5, requested), 200). */
  function Clamp(requested: int): (c: int)
    ensures 5 <= c <= 200
    ensures 5 <= requested <= 200 ==> c == requested
    ensures requested < 5 ==> c == 5
    ensures requested > 200 ==> c == 200
  {
    var atLeast := if requested < 5 then 5 else requested;
    if atLeast > 200 then 200 else atLeast
  }

  predicate OnBorder(g: MazeGrid, y: int, x: int) {
    y == 0 || y == g.height - 1 || x == 0 || x == g.width - 1
  }

  /** During generation every cell is a road or a wall, and the border is all wall. */
  ghost predicate Carving(g: MazeGrid)
    reads g, g.cells
  {
    && g.Valid()
    && forall y, x :: 0 <= y < g.height && 0 <= x < g.width ==>
         (g.cells[y, x] == CellValue(Road) || g.cells[y, x] == CellValue(Wall))
         && (OnBorder(g, y, x) ==> g.cells[y, x] == CellValue(Wall))
  }

  /** Some cell holds a road. */
  ghost predicate HasRoad(g: MazeGrid)
    reads g, g.cells
    requires g.Valid()
  {
    exists y, x :: 0 <= y < g.height && 0 <= x < g.width && g.cells[y, x] == CellValue(Road)
  }

  /** Column `column` holds a road in some row strictly inside the border. */
  ghost predicate ColumnHasRoad(g: MazeGrid, column: int)
    reads g, g.cells
    requires g.Valid()
  {
    exists y :: 1 <= y < g.height - 1 && 0 <= column < g.width && g.cells[y, column] == CellValue(Road)
  }

  /** The nested loops that set every cell to Wall. */
  method FillWalls(g: MazeGrid)
    requires g.Valid()
    modifies g.cells
    ensures g.Valid()
    ensures forall y, x :: 0 <= y < g.height && 0 <= x < g.width ==> g.cells[y, x] == CellValue(Wall)
  {
    for y := 0 to g.height
      invariant g.Valid()
      invariant forall j, i :: 0 <= j < y && 0 <= i < g.width ==> g.cells[j, i] == CellValue(Wall)
    {
      for x := 0 to g.width
        invariant g.Valid()
        invariant forall j, i :: 0 <= j < y && 0 <= i < g.width ==> g.cells[j, i] == CellValue(Wall)
        invariant forall i :: 0 <= i < x ==> g.cells[y, i] == CellValue(Wall)
      {
        var _ := g.SetCell(x, y, Wall);
      }
    }
  }

  /** SetLogicalCellAsRoad: grid cell (1 + 2x, 1 + 2y) becomes Road when it is inside. */
  method SetLogicalCellAsRoad(g: MazeGrid, logicalX: int, logicalY: int)
    requires g.Valid()
    modifies g.cells
    ensures g.Valid()
    ensures g.IsInside(1 + logicalX * 2, 1 + logicalY * 2) ==>
      g.cells[1 + logicalY * 2, 1 + logicalX * 2] == CellValue(Road)
    ensures forall y, x :: 0 <= y < g.height && 0 <= x < g.width && !(x == 1 + logicalX * 2 && y == 1 + logicalY * 2) ==>
      g.cells[y, x] == old(g.cells[y, x])
  {
    var x := 1 + logicalX * 2;
    var y := 1 + logicalY * 2;
    if g.IsInside(x, y) {
      var _ := g.SetCell(x, y, Road);
    }
  }

  /** The local TryAdd: a logical cell inside the logical grid and not yet visited joins the list. */
  method TryAdd(neighbors: seq<CellPosition>, nx: int, ny: int, logicalWidth: int, logicalHeight: int, visited: array2<bool>)
    returns (r: seq<CellPosition>)
    requires visited.Length0 == logicalWidth && visited.Length1 == logicalHeight
    ensures r == if 0 <= nx < logicalWidth && 0 <= ny < logicalHeight && !visited[nx, ny]
                 then neighbors + [CellPosition(nx, ny)] else neighbors
  {
    r := neighbors;
    if nx >= 0 && nx < logicalWidth && ny >= 0 && ny < logicalHeight && !visited[nx, ny] {
      r := neighbors + [CellPosition(nx, ny)];
    }
  }

  predicate Adjacent(a: CellPosition, b: CellPosition) {
    || b == CellPosition(a.x + 1, a.y) || b == CellPosition(a.x - 1, a.y)
    || b == CellPosition(a.x, a.y + 1) || b == CellPosition(a.x, a.y - 1)
  }

  /** A logical cell inside the logical grid that is not yet visited. */
  predicate Unvisited(n: CellPosition, logicalWidth: int, logicalHeight: int, visited: array2<bool>)
    requires visited.Length0 == logicalWidth && visited.Length1 == logicalHeight
    reads visited
  {
    0 <= n.x < logicalWidth && 0 <= n.y < logicalHeight && !visited[n.x, n.y]
  }

  lemma InUnvisited(neighbors: seq<CellPosition>, c: CellPosition, n: CellPosition, b: bool)
    ensures n in (if b then neighbors + [c] else neighbors) <==> n in neighbors || (b && n == c)
  {
  }

  /** GetUnvisitedNeighbors: the unvisited logical cells right, left, below and above, in that order. */
  method GetUnvisitedNeighbors(cx: int, cy: int, logicalWidth: int, logicalHeight: int, visited: array2<bool>)
    returns (r: seq<CellPosition>)
    requires visited.Length0 == logicalWidth && visited.Length1 == logicalHeight
    ensures forall n :: n in r <==>
      (Adjacent(CellPosition(cx, cy), n) && 0 <= n.x < logicalWidth && 0 <= n.y < logicalHeight && !visited[n.x, n.y])
  {
    var right, left := CellPosition(cx + 1, cy), CellPosition(cx - 1, cy);
    var below, above := CellPosition(cx, cy + 1), CellPosition(cx, cy - 1);
    var r1 := TryAdd([], cx + 1, cy, logicalWidth, logicalHeight, visited);
    var r2 := TryAdd(r1, cx - 1, cy, logicalWidth, logicalHeight, visited);
    var r3 := TryAdd(r2, cx, cy + 1, logicalWidth, logicalHeight, visited);
    r := TryAdd(r3, cx, cy - 1, logicalWidth, logicalHeight, visited);
    forall n
      ensures n in r <==> Adjacent(CellPosition(cx, cy), n) && Unvisited(n, logicalWidth, logicalHeight, visited)
    {
      InUnvisited([], right, n, Unvisited(right, logicalWidth, logicalHeight, visited));
      InUnvisited(r1, left, n, Unvisited(left, logicalWidth, logicalHeight, visited));
      InUnvisited(r2, below, n, Unvisited(below, logicalWidth, logicalHeight, visited));
      InUnvisited(r3, above, n, Unvisited(above, logicalWidth, logicalHeight, visited));
      assert n in r <==>
        || (n == right && Unvisited(right, logicalWidth, logicalHeight, visited))
        || (n == left && Unvisited(left, logicalWidth, logicalHeight, visited))
        || (n == below && Unvisited(below, logicalWidth, logicalHeight, visited))
        || (n == above && Unvisited(above, logicalWidth, logicalHeight, visited));
      assert Adjacent(CellPosition(cx, cy), n) <==> n == right || n == left || n == below || n == above;
    }
  }

  /** The grid cells of logical cells lie strictly inside the border. */
  predicate LogicalInside(g: MazeGrid, c: CellPosition) {
    0 <= c.x && 0 <= c.y && 2 * c.x + 2 < g.width - 1 && 2 * c.y + 2 < g.height - 1
  }

  /** CarvePassage: both logical cells and the grid cell half way between them become Road; every other cell keeps its value. */
  method CarvePassage(g: MazeGrid, cx1: int, cy1: int, cx2: int, cy2: int)
    requires Carving(g)
    requires LogicalInside(g, CellPosition(cx1, cy1)) && LogicalInside(g, CellPosition(cx2, cy2))
    modifies g.cells
    ensures Carving(g)
    ensures g.cells[1 + cy1 * 2, 1 + cx1 * 2] == CellValue(Road)
    ensures g.cells[1 + cy2 * 2, 1 + cx2 * 2] == CellValue(Road)
    ensures g.cells[(2 + cy1 * 2 + cy2 * 2) / 2, (2 + cx1 * 2 + cx2 * 2) / 2] == CellValue(Road)
    ensures forall y, x :: 0 <= y < g.height && 0 <= x < g.width ==>
      g.cells[y, x] == old(g.cells[y, x]) || g.cells[y, x] == CellValue(Road)
    ensures forall y, x | 0 <= y < g.height && 0 <= x < g.width ::
      ((y, x) != (1 + cy1 * 2, 1 + cx1 * 2) && (y, x) != (1 + cy2 * 2, 1 + cx2 * 2)
        && (y, x) != ((2 + cy1 * 2 + cy2 * 2) / 2, (2 + cx1 * 2 + cx2 * 2) / 2))
      ==> g.cells[y, x] == old(g.cells[y, x])
  {
    var x1 := 1 + cx1 * 2;
    var y1 := 1 + cy1 * 2;
    var x2 := 1 + cx2 * 2;
    var y2 := 1 + cy2 * 2;
    if g.IsInside(x1, y1) {
      var _ := g.SetCell(x1, y1, Road);
    }
    if g.IsInside(x2, y2) {
      var _ := g.SetCell(x2, y2, Road);
    }
    var midX := (x1 + x2) / 2;
    var midY := (y1 + y2) / 2;
    if g.IsInside(midX, midY) {
      var _ := g.SetCell(midX, midY, Road);
    }
  }

  /** The logical cells of a grid with logical width lw and height lh. */
  function AllLogical(lw: nat, lh: nat): set<CellPosition> {
    set x, y | 0 <= x < lw && 0 <= y < lh :: CellPosition(x, y)
  }

  /** The depth-first walk's bookkeeping: the visited array and the ghost set of visited cells agree, and the stack holds visited cells. */
  ghost predicate Walk(visited: array2<bool>, seen: set<CellPosition>, stack: seq<CellPosition>, lw: nat, lh: nat)
    reads visited
  {
    && visited.Length0 == lw && visited.Length1 == lh
    && seen <= AllLogical(lw, lh)
    && (forall x, y :: 0 <= x < lw && 0 <= y < lh ==> (visited[x, y] <==> CellPosition(x, y) in seen))
    && (forall k :: 0 <= k < |stack| ==> stack[k] in seen)
  }

  lemma InAllLogical(c: CellPosition, lw: nat, lh: nat)
    requires 0 <= c.x < lw && 0 <= c.y < lh
    ensures c in AllLogical(lw, lh)
  {
    assert c == CellPosition(c.x, c.y);
  }

  /** The loop of Generate that walks the logical grid from its start cell, carving as it goes. */
  method CarveMaze(g: MazeGrid, lw: nat, lh: nat, startX: int, startY: int)
    requires Carving(g) && lw >= 1 && lh >= 1
    requires 2 * lw + 1 < g.width && 2 * lh + 1 < g.height
    requires 0 <= startX < lw && 0 <= startY < lh
    modifies g.cells
    ensures Carving(g) && HasRoad(g)
    ensures forall y, x :: 0 <= y < g.height && 0 <= x < g.width ==>
      g.cells[y, x] == old(g.cells[y, x]) || g.cells[y, x] == CellValue(Road)
  {
    var visited := new bool[lw, lh]((_, _) => false);
    var stack: seq<CellPosition> := [];
    visited[startX, startY] := true;
    ghost var seen := {CellPosition(startX, startY)};
    InAllLogical(CellPosition(startX, startY), lw, lh);
    stack := stack + [CellPosition(startX, startY)];
    SetLogicalCellAsRoad(g, startX, startY);
    ghost var u := AllLogical(lw, lh);
    while |stack| > 0
      invariant Carving(g)
      invariant g.cells[1 + startY * 2, 1 + startX * 2] == CellValue(Road)
      invariant forall y, x :: 0 <= y < g.height && 0 <= x < g.width ==>
        g.cells[y, x] == old(g.cells[y, x]) || g.cells[y, x] == CellValue(Road)
      invariant Walk(visited, seen, stack, lw, lh)
      decreases u - seen, |stack|
    {
      stack, seen := WalkStep(g, visited, stack, seen, lw, lh);
    }
  }

  /** One pass of the walk's loop: go forward to an unvisited neighbour of the top cell, or pop it. */
  method WalkStep(g: MazeGrid, visited: array2<bool>, stack0: seq<CellPosition>, ghost seen0: set<CellPosition>,
                  lw: nat, lh: nat)
    returns (stack: seq<CellPosition>, ghost seen: set<CellPosition>)
    requires Carving(g) && Walk(visited, seen0, stack0, lw, lh) && |stack0| > 0
    requires 2 * lw + 1 < g.width && 2 * lh + 1 < g.height
    modifies g.cells, visited
    ensures Carving(g) && Walk(visited, seen, stack, lw, lh)
    ensures forall y, x :: 0 <= y < g.height && 0 <= x < g.width ==>
      g.cells[y, x] == old(g.cells[y, x]) || g.cells[y, x] == CellValue(Road)
    ensures (seen == seen0 && |stack| < |stack0|) || AllLogical(lw, lh) - seen < AllLogical(lw, lh) - seen0
  {
    var current := stack0[|stack0| - 1];
    var neighbors := GetUnvisitedNeighbors(current.x, current.y, lw, lh, visited);
    if |neighbors| == 0 {
      stack, seen := stack0[..|stack0| - 1], seen0;
      return;
    }
    var nextIndex :| 0 <= nextIndex < |neighbors|;
    var next := neighbors[nextIndex];
    LogicalRange(current, lw, lh);
    stack, seen := Advance(g, visited, stack0, seen0, lw, lh, current, next);
  }

  lemma LogicalRange(c: CellPosition, lw: nat, lh: nat)
    requires c in AllLogical(lw, lh)
    ensures 0 <= c.x < lw && 0 <= c.y < lh
  {
  }

  /** One step forward of the walk: the passage to `next` is carved, `next` marked visited and pushed. */
  method Advance(g: MazeGrid, visited: array2<bool>, stack0: seq<CellPosition>, ghost seen0: set<CellPosition>,
                 lw: nat, lh: nat, current: CellPosition, next: CellPosition)
    returns (stack: seq<CellPosition>, ghost seen: set<CellPosition>)
    requires Carving(g) && Walk(visited, seen0, stack0, lw, lh)
    requires 2 * lw + 1 < g.width && 2 * lh + 1 < g.height
    requires 0 <= current.x < lw && 0 <= current.y < lh
    requires 0 <= next.x < lw && 0 <= next.y < lh && !visited[next.x, next.y]
    modifies g.cells, visited
    ensures Carving(g) && Walk(visited, seen, stack, lw, lh)
    ensures forall y, x :: 0 <= y < g.height && 0 <= x < g.width ==>
      g.cells[y, x] == old(g.cells[y, x]) || g.cells[y, x] == CellValue(Road)
    ensures AllLogical(lw, lh) - seen < AllLogical(lw, lh) - seen0
  {
    CarvePassage(g, current.x, current.y, next.x, next.y);
    visited[next.x, next.y] := true;
    InAllLogical(next, lw, lh);
    MazePaths.Shrinks(AllLogical(lw, lh), seen0, seen0 + {next});
    seen := seen0 + {next};
    stack := stack0 + [next];
  }

  /**
   * EnsureColumnHasRoad: a column that already has a road is left as it is; one
   * without a road gets one, carved along the row of some road cell.
   */
  method EnsureColumnHasRoad(g: MazeGrid, columnIndex: int)
    requires Carving(g) && 1 <= columnIndex < g.width - 1
    modifies g.cells
    ensures Carving(g)
    ensures old(HasRoad(g)) ==> ColumnHasRoad(g, columnIndex)
    ensures forall y, x :: 0 <= y < g.height && 0 <= x < g.width ==>
      g.cells[y, x] == old(g.cells[y, x]) || g.cells[y, x] == CellValue(Road)
    ensures old(ColumnHasRoad(g, columnIndex)) ==>
      forall y, x :: 0 <= y < g.height && 0 <= x < g.width ==> g.cells[y, x] == old(g.cells[y, x])
  {
    var height := g.height;
    var width := g.width;
    var y := 1;
    while y < height - 1
      invariant 1 <= y
      invariant forall j :: 1 <= j < y && j < height - 1 ==> g.cells[j, columnIndex] != CellValue(Road)
    {
      if g.GetCell(columnIndex, y) == Some(CellValue(Road)) {
        return;
      }
      y := y + 1;
    }
    var roadCells := CollectRoads(g);
    if |roadCells| == 0 {
      return;
    }
    var choice :| 0 <= choice < |roadCells|;
    var chosen := roadCells[choice];
    var step := if chosen.x < columnIndex then 1 else -1;
    var xCurrent := chosen.x;
    while xCurrent != columnIndex
      invariant 1 <= xCurrent < width - 1
      invariant step == 1 ==> xCurrent <= columnIndex
      invariant step == -1 ==> xCurrent >= columnIndex
      invariant Carving(g)
      invariant forall y, x :: 0 <= y < height && 0 <= x < width ==>
        g.cells[y, x] == old(g.cells[y, x]) || g.cells[y, x] == CellValue(Road)
      invariant g.cells[chosen.y, xCurrent] == CellValue(Road)
      decreases if step == 1 then columnIndex - xCurrent else xCurrent - columnIndex
    {
      xCurrent := xCurrent + step;
      if !g.IsInside(xCurrent, chosen.y) {
        break;
      }
      var _ := g.SetCell(xCurrent, chosen.y, Road);
    }
  }

  /** The nested loops of EnsureColumnHasRoad that list the road cells strictly inside the border. */
  method CollectRoads(g: MazeGrid) returns (roadCells: seq<CellPosition>)
    requires Carving(g)
    ensures forall k :: 0 <= k < |roadCells| ==>
      1 <= roadCells[k].y < g.height - 1 && 1 <= roadCells[k].x < g.width - 1
      && g.cells[roadCells[k].y, roadCells[k].x] == CellValue(Road)
    ensures HasRoad(g) ==> roadCells != []
  {
    roadCells := [];
    var y := 1;
    while y < g.height - 1
      invariant 1 <= y
      invariant forall k :: 0 <= k < |roadCells| ==>
        1 <= roadCells[k].y < g.height - 1 && 1 <= roadCells[k].x < g.width - 1
        && g.cells[roadCells[k].y, roadCells[k].x] == CellValue(Road)
      invariant roadCells == [] ==>
        forall j, i :: 1 <= j < y && j < g.height - 1 && 1 <= i < g.width - 1 ==> g.cells[j, i] != CellValue(Road)
    {
      var x := 1;
      while x < g.width - 1
        invariant 1 <= x
        invariant forall k :: 0 <= k < |roadCells| ==>
          1 <= roadCells[k].y < g.height - 1 && 1 <= roadCells[k].x < g.width - 1
          && g.cells[roadCells[k].y, roadCells[k].x] == CellValue(Road)
        invariant roadCells == [] ==>
          forall j, i :: 1 <= j < y && j < g.height - 1 && 1 <= i < g.width - 1 ==> g.cells[j, i] != CellValue(Road)
        invariant roadCells == [] ==> forall i :: 1 <= i < x && i < g.width - 1 ==> g.cells[y, i] != CellValue(Road)
      {
        if g.GetCell(x, y) == Some(CellValue(Road)) {
          roadCells := roadCells + [CellPosition(x, y)];
        }
        x := x + 1;
      }
      y := y + 1;
    }
  }

  /** ChooseRandomRoadYInColumn: some row strictly inside the border whose cell in the column is a road, else the middle row. */
  method ChooseRandomRoadYInColumn(g: MazeGrid, columnIndex: int) returns (y: int)
    requires g.Valid() && 0 <= columnIndex < g.width
    ensures ColumnHasRoad(g, columnIndex) ==> 1 <= y < g.height - 1 && g.cells[y, columnIndex] == CellValue(Road)
    ensures !ColumnHasRoad(g, columnIndex) ==> y == g.height / 2
  {
    var height := g.height;
    var candidates: seq<int> := [];
    var j := 1;
    while j < height - 1
      invariant 1 <= j
      invariant forall k :: 0 <= k < |candidates| ==>
        1 <= candidates[k] < height - 1 && g.cells[candidates[k], columnIndex] == CellValue(Road)
      invariant candidates == [] ==> forall i :: 1 <= i < j && i < height - 1 ==> g.cells[i, columnIndex] != CellValue(Road)
    {
      if g.GetCell(columnIndex, j) == Some(CellValue(Road)) {
        candidates := candidates + [j];
      }
      j := j + 1;
    }
    if |candidates| == 0 {
      return height / 2;
    }
    var index :| 0 <= index < |candidates|;
    y := candidates[index];
  }

  /** The part of Generate before the openings: walls everywhere, the walk carved, both columns next to the border given a road. */
  method CarvedGrid(width: int, height: int) returns (g: MazeGrid)
    requires 5 <= width <= 200 && 5 <= height <= 200
    ensures fresh(g) && fresh(g.cells) && Carving(g)
    ensures g.width == width && g.height == height
    ensures ColumnHasRoad(g, 1) && ColumnHasRoad(g, width - 2)
  {
    g := new MazeGrid(width, height);
    FillWalls(g);
    var innerWidth := width - 2;
    var innerHeight := height - 2;
    var logicalWidth := innerWidth / 2;
    var logicalHeight := innerHeight / 2;
    var startX :| 0 <= startX < logicalWidth;
    var startY :| 0 <= startY < logicalHeight;
    CarveMaze(g, logicalWidth, logicalHeight, startX, startY);
    EnsureColumnHasRoad(g, 1);
    ghost var y1 :| 1 <= y1 < height - 1 && g.cells[y1, 1] == CellValue(Road);
    EnsureColumnHasRoad(g, width - 2);
    assert g.cells[y1, 1] == CellValue(Road);
  }

  /** The end of Generate: the entrance cut into the left border at row `entranceY`, the exit into the right border at row `exitY`. */
  method OpenBorders(g: MazeGrid, entranceY: int, exitY: int)
    requires Carving(g) && 5 <= g.width
    requires 1 <= entranceY < g.height - 1 && g.cells[entranceY, 1] == CellValue(Road)
    requires 1 <= exitY < g.height - 1 && g.cells[exitY, g.width - 2] == CellValue(Road)
    modifies g, g.cells
    ensures g.Valid()
    ensures g.entrance == CellPosition(0, entranceY) && g.exit == CellPosition(g.width - 1, exitY)
    ensures g.cells[entranceY, 0] == CellValue(Entrance) && g.cells[entranceY, 1] == CellValue(Road)
    ensures g.cells[exitY, g.width - 1] == CellValue(Exit) && g.cells[exitY, g.width - 2] == CellValue(Road)
    ensures forall y, x :: 0 <= y < g.height && 0 <= x < g.width && CellPosition(x, y) != g.entrance && CellPosition(x, y) != g.exit ==>
      (g.cells[y, x] == CellValue(Road) || g.cells[y, x] == CellValue(Wall))
      && (OnBorder(g, y, x) ==> g.cells[y, x] == CellValue(Wall))
  {
    var _ := g.SetCell(0, entranceY, Entrance);
    g.entrance := CellPosition(0, entranceY);
    var _ := g.SetCell(g.width - 1, exitY, Exit);
    g.exit := CellPosition(g.width - 1, exitY);
  }

  /**
   * Generate: the dimensions clamped to 5..200, the entrance cut into the
   * left border and the exit into the right border, each next to a road,
   * the rest of the border wall and every other cell a road or a wall.
   */
  method Generate(requestedWidth: int, requestedHeight: int) returns (g: MazeGrid)
    ensures fresh(g) && g.Valid()
    ensures g.width == Clamp(requestedWidth) && g.height == Clamp(requestedHeight)
    ensures g.entrance.x == 0 && 1 <= g.entrance.y < g.height - 1
    ensures g.cells[g.entrance.y, 0] == CellValue(Entrance) && g.cells[g.entrance.y, 1] == CellValue(Road)
    ensures g.exit.x == g.width - 1 && 1 <= g.exit.y < g.height - 1
    ensures g.cells[g.exit.y, g.width - 1] == CellValue(Exit) && g.cells[g.exit.y, g.width - 2] == CellValue(Road)
    ensures forall y, x :: 0 <= y < g.height && 0 <= x < g.width && CellPosition(x, y) != g.entrance && CellPosition(x, y) != g.exit ==>
      (g.cells[y, x] == CellValue(Road) || g.cells[y, x] == CellValue(Wall))
      && (OnBorder(g, y, x) ==> g.cells[y, x] == CellValue(Wall))
  {
    var width := if requestedWidth > 5 then requestedWidth else 5;
    var height := if requestedHeight > 5 then requestedHeight else 5;
    width := if width < 200 then width else 200;
    height := if height < 200 then height else 200;
    g := CarvedGrid(width, height);
    var entranceY := ChooseRandomRoadYInColumn(g, 1);
    var exitY := ChooseRandomRoadYInColumn(g, width - 2);
    OpenBorders(g, entranceY, exitY);
  }
}
