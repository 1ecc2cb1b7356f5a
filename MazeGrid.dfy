/**
 * The maze grid of the maze toolkit: a rectangle of integer cells, each cell
 * Road (0), Wall (1), Entrance (5) or Exit (6), stored row by row as
 * `cells[y, x]`, together with an entrance and an exit position that callers
 * may reassign.
 */
module MazeGrid {
  import opened Wrappers

  datatype CellPosition = CellPosition(x: int, y: int)

  datatype CellType = Road | Wall | Entrance | Exit

  /** The integer a cell type is stored as (the enum's underlying value). */
  function CellValue(t: CellType): (v: int)
    ensures IsCellValue(v)
    ensures TypeOfValue(v) == t
  {
    match t
    case Road => 0
    case Wall => 1
    case Entrance => 5
    case Exit => 6
  }

  predicate IsCellValue(v: int) {
    v == 0 || v == 1 || v == 5 || v == 6
  }

  /** The cast `(MazeCellType)v` for a value the parser has already checked. */
  function TypeOfValue(v: int): CellType
    requires IsCellValue(v)
  {
    if v == 0 then Road else if v == 1 then Wall else if v == 5 then Entrance else Exit
  }

  lemma ValueOfType(v: int)
    requires IsCellValue(v)
    ensures CellValue(TypeOfValue(v)) == v
  {
  }

  /** The values a route may step on: Road, Entrance and Exit. */
  predicate IsWalkableValue(v: int) {
    v == 0 || v == 5 || v == 6
  }

  datatype GridError = NonPositiveWidth | NonPositiveHeight

  class MazeGrid {
    const width: int
    const height: int
    const cells: array2<int>
    var entrance: CellPosition
    var exit: CellPosition

    /** The grid has positive dimensions matching its cell array, and every cell holds one of the four cell values. */
    ghost predicate Valid()
      reads this, cells
    {
      && 0 < width && 0 < height
      && cells.Length0 == height && cells.Length1 == width
      && forall y, x :: 0 <= y < height && 0 <= x < width ==> IsCellValue(cells[y, x])
    }

    /** The constructor: every cell Road, the entrance top left, the exit bottom right. */
    constructor (w: int, h: int)
      requires w > 0 && h > 0
      ensures Valid() && fresh(cells)
      ensures width == w && height == h
      ensures forall y, x :: 0 <= y < h && 0 <= x < w ==> cells[y, x] == CellValue(Road)
      ensures entrance == CellPosition(0, 0) && exit == CellPosition(w - 1, h - 1)
    {
      width, height := w, h;
      cells := new int[h, w]((_, _) => 0);
      entrance := CellPosition(0, 0);
      exit := CellPosition(w - 1, h - 1);
    }

    predicate IsInside(x: int, y: int) {
      0 <= x < width && 0 <= y < height
    }

    /** GetCell; `None` is the ArgumentOutOfRangeException for coordinates outside the grid. */
    function GetCell(x: int, y: int): (r: Option<int>)
      reads this, cells
      requires Valid()
      ensures r.Some? <==> IsInside(x, y)
      ensures r.Some? ==> r.value == cells[y, x] && IsCellValue(r.value)
    {
      if IsInside(x, y) then Some(cells[y, x]) else None
    }

    /** SetCell; `ok` is false (the ArgumentOutOfRangeException) when (x, y) lies outside, and then nothing changes. */
    method SetCell(x: int, y: int, t: CellType) returns (ok: bool)
      requires Valid()
      modifies cells
      ensures Valid()
      ensures ok <==> IsInside(x, y)
      ensures ok ==> cells[y, x] == CellValue(t)
      ensures forall j, i :: 0 <= j < height && 0 <= i < width && !(ok && j == y && i == x) ==>
        cells[j, i] == old(cells[j, i])
    {
      if !IsInside(x, y) {
        return false;
      }
      cells[y, x] := CellValue(t);
      ok := true;
    }

    /** IsWalkable: inside the grid and holding Road, Entrance or Exit. */
    predicate IsWalkable(x: int, y: int)
      reads this, cells
      requires Valid()
    {
      IsInside(x, y) && IsWalkableValue(cells[y, x])
    }

    /** The cells as a sequence of rows. */
    function Board(): (b: seq<seq<int>>)
      reads this, cells
      requires Valid()
      ensures |b| == height
      ensures forall y :: 0 <= y < height ==> |b[y]| == width
      ensures forall y, x :: 0 <= y < height && 0 <= x < width ==> b[y][x] == cells[y, x]
    {
      seq(height, y reads this, cells requires 0 <= y < height =>
        seq(width, x reads this, cells requires 0 <= x < width => cells[y, x]))
    }

    /** Snapshot: a fresh copy of the cell array. */
    method Snapshot() returns (copy: array2<int>)
      requires Valid()
      ensures fresh(copy)
      ensures copy.Length0 == height && copy.Length1 == width
      ensures forall y, x :: 0 <= y < height && 0 <= x < width ==> copy[y, x] == cells[y, x]
    {
      copy := new int[height, width];
      for y := 0 to height
        invariant forall j, i :: 0 <= j < y && 0 <= i < width ==> copy[j, i] == cells[j, i]
      {
        for x := 0 to width
          modifies copy
          invariant forall j, i :: 0 <= j < y && 0 <= i < width ==> copy[j, i] == cells[j, i]
          invariant forall i :: 0 <= i < x ==> copy[y, i] == cells[y, i]
        {
          copy[y, x] := cells[y, x];
        }
      }
    }
  }

  /** The constructor's argument checks: a non-positive width, then a non-positive height, is rejected. */
  method NewGrid(w: int, h: int) returns (r: Result<MazeGrid, GridError>)
    ensures w <= 0 ==> r == Failure(NonPositiveWidth)
    ensures w > 0 && h <= 0 ==> r == Failure(NonPositiveHeight)
    ensures w > 0 && h > 0 ==> r.Success?
    ensures r.Success? ==> fresh(r.value) && fresh(r.value.cells) && r.value.Valid()
    ensures r.Success? ==> r.value.width == w && r.value.height == h
    ensures r.Success? ==> forall y, x :: 0 <= y < h && 0 <= x < w ==> r.value.cells[y, x] == CellValue(Road)
    ensures r.Success? ==> r.value.entrance == CellPosition(0, 0) && r.value.exit == CellPosition(w - 1, h - 1)
  {
    if w <= 0 {
      return Failure(NonPositiveWidth);
    }
    if h <= 0 {
      return Failure(NonPositiveHeight);
    }
    var g := new MazeGrid(w, h);
    r := Success(g);
  }

  /** A walkable cell is one GetCell reads as Road, Entrance or Exit. */
  lemma WalkableByGetCell(g: MazeGrid, x: int, y: int)
    requires g.Valid()
    ensures g.IsWalkable(x, y) <==> g.GetCell(x, y).Some? && g.GetCell(x, y).value != CellValue(Wall)
  {
  }
}
