/**
 * The route validator: the moves are replayed from the entrance; the replay
 * stops at the first move that leaves the grid or runs into a wall, and
 * otherwise the route succeeds when it ends on an exit cell.
 */
module MazeValidator {
  import opened Wrappers
  import opened MazeGrid
  import opened MazePaths

  /** What the result message reports, with the numbers the message shows. */
  datatype Outcome =
    | Reached(count: int)
    | LeftGrid(step: int)
    | HitWall(step: int)
    | NotAtExit(count: int, at: CellPosition)

  /** MazePathValidationResult, the message replaced by its outcome. */
  datatype Validation = Validation(successful: bool, outcome: Outcome, stepsTaken: int, finalPosition: CellPosition)

  /** The final GetCell's ArgumentOutOfRangeException. */
  datatype ValidationError = OutOfRange

  predicate Inside(b: seq<seq<int>>, p: CellPosition) {
    0 <= p.y < |b| && 0 <= p.x < |b[p.y]|
  }

  predicate IsExitCell(b: seq<seq<int>>, p: CellPosition) {
    Inside(b, p) && b[p.y][p.x] == CellValue(Exit)
  }

  /** Every cell of the board holds one of the four cell values, as in a valid grid. */
  predicate CellsValid(b: seq<seq<int>>) {
    forall y, x :: 0 <= y < |b| && 0 <= x < |b[y]| ==> IsCellValue(b[y][x])
  }

  /** The replay from move `i` on, standing on `current`. */
  function Run(b: seq<seq<int>>, current: CellPosition, moves: seq<Direction>, i: nat): Result<Validation, ValidationError>
    requires i <= |moves|
    decreases |moves| - i
  {
    if i == |moves| then
      if !Inside(b, current) then Failure(OutOfRange)
      else if b[current.y][current.x] == CellValue(Exit) then Success(Validation(true, Reached(|moves|), |moves|, current))
      else Success(Validation(false, NotAtExit(|moves|, current), |moves|, current))
    else
      var next := ApplyMove(current, moves[i]);
      if !Inside(b, next) then Success(Validation(false, LeftGrid(i + 1), i, current))
      else if b[next.y][next.x] == CellValue(Wall) then Success(Validation(false, HitWall(i + 1), i + 1, next))
      else Run(b, next, moves, i + 1)
  }

  /** ValidatePath. */
  method ValidatePath(g: MazeGrid, moves: seq<Direction>) returns (r: Result<Validation, ValidationError>)
    requires g.Valid()
    ensures r == Run(g.Board(), g.entrance, moves, 0)
  {
    ghost var b := g.Board();
    var current := g.entrance;
    for i := 0 to |moves|
      invariant Run(b, g.entrance, moves, 0) == Run(b, current, moves, i)
    {
      var next := ApplyMove(current, moves[i]);
      if !g.IsInside(next.x, next.y) {
        return Success(Validation(false, LeftGrid(i + 1), i, current));
      }
      var cellValue := g.GetCell(next.x, next.y).value;
      if cellValue == CellValue(Wall) {
        return Success(Validation(false, HitWall(i + 1), i + 1, next));
      }
      current := next;
    }
    var finalValue := g.GetCell(current.x, current.y);
    if finalValue.None? {
      return Failure(OutOfRange);
    }
    if finalValue.value == CellValue(Exit) {
      return Success(Validation(true, Reached(|moves|), |moves|, current));
    }
    r := Success(Validation(false, NotAtExit(|moves|, current), |moves|, current));
  }

  // ----- routes read by prefixes -----

  lemma EndPrefix(p: CellPosition, ms: seq<Direction>, j: nat)
    requires j < |ms|
    ensures End(p, ms[..j + 1]) == ApplyMove(End(p, ms[..j]), ms[j])
  {
    assert ms[..j + 1][..j] == ms[..j];
  }

  lemma WalksPrefix(b: seq<seq<int>>, p: CellPosition, ms: seq<Direction>, j: nat)
    requires j < |ms|
    ensures Walks(b, p, ms[..j + 1]) <==> Walks(b, p, ms[..j]) && Open(b, End(p, ms[..j + 1]))
  {
    assert ms[..j + 1][..j] == ms[..j];
  }

  /** A walkable route is walkable up to every point. */
  lemma {:induction false} WalksShorter(b: seq<seq<int>>, p: CellPosition, ms: seq<Direction>, j: nat)
    requires j <= |ms| && Walks(b, p, ms)
    ensures Walks(b, p, ms[..j])
    decreases |ms| - j
  {
    if j < |ms| {
      WalksShorter(b, p, ms, j + 1);
      WalksPrefix(b, p, ms, j);
    } else {
      assert ms[..j] == ms;
    }
  }

  /**
   * The replay from move i, for a route walkable up to i: it reports success
   * exactly when the whole route is walkable and ends on an exit; it fails
   * only at the end of a route that never left an outside entrance; its final
   * position is where the first `stepsTaken` moves lead; and each outcome
   * names the step the replay stopped at.
   */
  lemma {:induction false} RunFrom(b: seq<seq<int>>, e: CellPosition, moves: seq<Direction>, i: nat)
    requires CellsValid(b) && i <= |moves| && Walks(b, e, moves[..i])
    ensures var r := Run(b, End(e, moves[..i]), moves, i);
      && (r.Success? && r.value.successful <==> Walks(b, e, moves) && IsExitCell(b, End(e, moves)))
      && (r.Failure? <==> moves == [] && !Inside(b, e))
      && (r.Success? ==> Stopped(b, e, moves, r.value))
    decreases |moves| - i
  {
    var cur := End(e, moves[..i]);
    if i == |moves| {
      assert moves[..i] == moves;
      if moves != [] {
        WalksPrefix(b, e, moves, |moves| - 1);
        assert moves[..|moves|] == moves;
      }
    } else {
      var next := ApplyMove(cur, moves[i]);
      EndPrefix(e, moves, i);
      WalksPrefix(b, e, moves, i);
      if !Inside(b, next) || b[next.y][next.x] == CellValue(Wall) {
        if Walks(b, e, moves) {
          WalksShorter(b, e, moves, i + 1);
        }
      } else {
        RunFrom(b, e, moves, i + 1);
      }
    }
  }

  /** The outcome's account of where the replay stopped. */
  ghost predicate Stopped(b: seq<seq<int>>, e: CellPosition, moves: seq<Direction>, v: Validation) {
    && 0 <= v.stepsTaken <= |moves|
    && v.finalPosition == End(e, moves[..v.stepsTaken])
    && match v.outcome
       case LeftGrid(step) =>
         && step == v.stepsTaken + 1 <= |moves| && Walks(b, e, moves[..v.stepsTaken])
         && !Inside(b, End(e, moves[..step]))
       case HitWall(step) =>
         && 1 <= step == v.stepsTaken && Walks(b, e, moves[..step - 1])
         && Inside(b, v.finalPosition) && b[v.finalPosition.y][v.finalPosition.x] == CellValue(Wall)
       case Reached(count) => count == v.stepsTaken == |moves| && v.successful && Walks(b, e, moves)
       case NotAtExit(count, at) =>
         count == v.stepsTaken == |moves| && at == v.finalPosition && !v.successful && Walks(b, e, moves)
  }

  /**
   * ValidatePath's verdict: successful exactly when every move enters a
   * walkable cell and the last one is an exit; the exception only for no moves
   * from an entrance outside the grid; otherwise the outcome names the step
   * at which the route left the grid or hit a wall.
   */
  lemma ValidationMeaning(b: seq<seq<int>>, e: CellPosition, moves: seq<Direction>)
    requires CellsValid(b)
    ensures var r := Run(b, e, moves, 0);
      && (r.Success? && r.value.successful <==> Walks(b, e, moves) && IsExitCell(b, End(e, moves)))
      && (r.Failure? <==> moves == [] && !Inside(b, e))
      && (r.Success? ==> Stopped(b, e, moves, r.value))
  {
    assert moves[..0] == [];
    RunFrom(b, e, moves, 0);
  }

  /** A route the path finder returns passes the validator when the grid's exit holds an exit cell. */
  lemma FoundRouteValidates(g: MazeGrid, route: seq<Direction>)
    requires g.Valid() && IsRoute(g.Board(), g.entrance, route, g.exit)
    requires g.GetCell(g.exit.x, g.exit.y) == Some(CellValue(Exit))
    ensures Run(g.Board(), g.entrance, route, 0).Success?
    ensures Run(g.Board(), g.entrance, route, 0).value.successful
  {
    ValidationMeaning(g.Board(), g.entrance, route);
  }
}
