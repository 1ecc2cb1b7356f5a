/**
 * Routes through a maze grid and the breadth-first path finder. A route is a
 * sequence of moves; it is walkable when every cell it enters lies inside the
 * grid and holds Road, Entrance or Exit. The cell a route starts from is not
 * checked, as in the finder.
 */
module MazePaths {
  import opened MazeGrid

  datatype Direction = Up | Down | Left | Right

  /** The cell one move away; up decreases y, left decreases x. */
  function ApplyMove(p: CellPosition, d: Direction): CellPosition {
    match d
    case Up => CellPosition(p.x, p.y - 1)
    case Down => CellPosition(p.x, p.y + 1)
    case Left => CellPosition(p.x - 1, p.y)
    case Right => CellPosition(p.x + 1, p.y)
  }

  /** IsWalkable read off the grid's rows: inside the board and holding 0, 5 or 6. */
  predicate Open(b: seq<seq<int>>, p: CellPosition) {
    0 <= p.y < |b| && 0 <= p.x < |b[p.y]| && IsWalkableValue(b[p.y][p.x])
  }

  /** The grid's IsWalkable is Open on its board. */
  lemma OpenIsWalkable(g: MazeGrid, p: CellPosition)
    requires g.Valid()
    ensures Open(g.Board(), p) <==> g.IsWalkable(p.x, p.y)
  {
  }

  /** The cell the moves `ms` lead to from `p`. */
  function End(p: CellPosition, ms: seq<Direction>): CellPosition
    decreases |ms|
  {
    if ms == [] then p else ApplyMove(End(p, ms[..|ms| - 1]), ms[|ms| - 1])
  }

  /** Every cell the moves `ms` enter from `p` is walkable. */
  predicate Walks(b: seq<seq<int>>, p: CellPosition, ms: seq<Direction>)
    decreases |ms|
  {
    ms == [] || (Walks(b, p, ms[..|ms| - 1]) && Open(b, End(p, ms)))
  }

  /** A walkable route from `s` that ends on `t`. */
  predicate IsRoute(b: seq<seq<int>>, s: CellPosition, ms: seq<Direction>, t: CellPosition) {
    Walks(b, s, ms) && End(s, ms) == t
  }

  /** A walkable first move in front of a walkable route gives a walkable route to the same end. */
  lemma {:induction false} PrependStep(b: seq<seq<int>>, p: CellPosition, d: Direction, ms: seq<Direction>)
    requires Open(b, ApplyMove(p, d)) && Walks(b, ApplyMove(p, d), ms)
    ensures Walks(b, p, [d] + ms) && End(p, [d] + ms) == End(ApplyMove(p, d), ms)
    decreases |ms|
  {
    if ms == [] {
      assert [d] + ms == [d] && [d][..0] == [];
      assert End(p, [d]) == ApplyMove(End(p, []), d);
      assert Walks(b, p, [d]);
    } else {
      var front := ms[..|ms| - 1];
      PrependStep(b, p, d, front);
      assert ([d] + ms)[..|ms|] == [d] + front;
    }
  }

  datatype Neighbor = Neighbor(position: CellPosition, direction: Direction)

  /** The position of a direction in GetNeighbors' candidate table. */
  function Rank(d: Direction): nat {
    match d
    case Up => 0
    case Down => 1
    case Left => 2
    case Right => 3
  }

  /**
   * GetNeighbors: the candidates up, down, left and right, in that order,
   * each kept when the cell it leads to is walkable.
   */
  method GetNeighbors(g: MazeGrid, current: CellPosition) returns (r: seq<Neighbor>)
    requires g.Valid()
    ensures forall k :: 0 <= k < |r| ==>
      r[k].position == ApplyMove(current, r[k].direction) && Open(g.Board(), r[k].position)
    ensures forall d :: Open(g.Board(), ApplyMove(current, d)) ==> Neighbor(ApplyMove(current, d), d) in r
    ensures forall i, j :: 0 <= i < j < |r| ==> Rank(r[i].direction) < Rank(r[j].direction)
  {
    var candidates := [Up, Down, Left, Right];
    r := [];
    for c := 0 to 4
      invariant forall k :: 0 <= k < |r| ==>
        r[k].position == ApplyMove(current, r[k].direction) && Open(g.Board(), r[k].position)
      invariant forall d :: Rank(d) < c && Open(g.Board(), ApplyMove(current, d)) ==> Neighbor(ApplyMove(current, d), d) in r
      invariant forall i, j :: 0 <= i < j < |r| ==> Rank(r[i].direction) < Rank(r[j].direction)
      invariant forall k :: 0 <= k < |r| ==> Rank(r[k].direction) < c
    {
      var direction := candidates[c];
      assert Rank(direction) == c;
      var next := ApplyMove(current, direction);
      OpenIsWalkable(g, next);
      if g.IsWalkable(next.x, next.y) {
        r := r + [Neighbor(next, direction)];
      }
    }
  }

  /** Moves `|s|` in reverse order (List.Reverse). */
  function Reversed<T>(s: seq<T>): (r: seq<T>)
    ensures |r| == |s| && forall i :: 0 <= i < |s| ==> r[i] == s[|s| - 1 - i]
  {
    seq(|s|, i requires 0 <= i < |s| => s[|s| - 1 - i])
  }

  // ----- the search invariants -----

  /** The cells of the board, and the start: everything the search can reach. */
  function Universe(b: seq<seq<int>>, s: CellPosition): set<CellPosition> {
    (set y, x | 0 <= y < |b| && 0 <= x < |b[y]| :: CellPosition(x, y)) + {s}
  }

  /** Every queued cell has been reached; levels never decrease along the queue and span at most h..h+1. */
  ghost predicate Frontier(queue: seq<CellPosition>, dist: map<CellPosition, nat>, h: nat) {
    && (forall i :: 0 <= i < |queue| ==> queue[i] in dist && h <= dist[queue[i]] <= h + 1)
    && (forall i, j :: 0 <= i <= j < |queue| ==> dist[queue[i]] <= dist[queue[j]])
  }

  /** Each reached cell but the start records where it was reached from and by which move, one level deeper. */
  ghost predicate Parents(b: seq<seq<int>>, s: CellPosition, parent: map<CellPosition, CellPosition>,
                          moveFrom: map<CellPosition, Direction>, dist: map<CellPosition, nat>) {
    forall v {:trigger parent[v]} {:trigger v in parent} :: v in dist && v != s ==>
      && v in parent && v in moveFrom && parent[v] in dist
      && ApplyMove(parent[v], moveFrom[v]) == v && Open(b, v)
      && dist[v] == dist[parent[v]] + 1
  }

  /** Every walkable neighbour of a finished cell has been reached, at most one level deeper. */
  ghost predicate Closed(b: seq<seq<int>>, done: set<CellPosition>, dist: map<CellPosition, nat>) {
    && done <= dist.Keys
    && forall u, d :: u in done && Open(b, ApplyMove(u, d)) ==>
      ApplyMove(u, d) in dist && dist[ApplyMove(u, d)] <= dist[u] + 1
  }

  /** Every cell a walkable route of at most h moves ends on has been reached, no deeper than the route is long. */
  ghost predicate Explored(b: seq<seq<int>>, s: CellPosition, dist: map<CellPosition, nat>, h: nat) {
    forall ms :: Walks(b, s, ms) && |ms| <= h ==> End(s, ms) in dist && dist[End(s, ms)] <= |ms|
  }

  /** The loop invariant of the search; `done` holds the cells taken off the queue and expanded. */
  ghost predicate Searching(b: seq<seq<int>>, s: CellPosition, t: CellPosition, queue: seq<CellPosition>,
                            visited: set<CellPosition>, parent: map<CellPosition, CellPosition>,
                            moveFrom: map<CellPosition, Direction>, dist: map<CellPosition, nat>,
                            done: set<CellPosition>, h: nat) {
    && visited == dist.Keys && visited <= Universe(b, s)
    && s in dist && dist[s] == 0
    && t !in done && (forall u :: u in done && u in dist ==> dist[u] <= h)
    && (forall v :: v in visited ==> v in done || v in queue)
    && Frontier(queue, dist, h)
    && Parents(b, s, parent, moveFrom, dist)
    && Closed(b, done, dist)
    && Explored(b, s, dist, h)
  }

  /** When the queue's head is one level deeper than h, every route of h + 1 moves has been reached. */
  lemma LevelUp(b: seq<seq<int>>, s: CellPosition, queue: seq<CellPosition>, dist: map<CellPosition, nat>,
                done: set<CellPosition>, h: nat)
    requires Explored(b, s, dist, h) && Closed(b, done, dist)
    requires forall v :: v in dist ==> v in done || v in queue
    requires Frontier(queue, dist, h) && queue != [] && dist[queue[0]] == h + 1
    ensures Explored(b, s, dist, h + 1)
  {
    forall ms | Walks(b, s, ms) && |ms| <= h + 1
      ensures End(s, ms) in dist && dist[End(s, ms)] <= |ms|
    {
      if |ms| == h + 1 {
        var front := ms[..|ms| - 1];
        var y := End(s, front);
        assert Walks(b, s, front);
        assert y in dist && dist[y] <= h;
        assert End(s, ms) == ApplyMove(y, ms[|ms| - 1]);
      }
    }
  }

  /** Once every reached cell is finished, every walkable route from the start ends on a reached cell. */
  lemma {:induction false} AllReached(b: seq<seq<int>>, s: CellPosition, dist: map<CellPosition, nat>,
                                     done: set<CellPosition>, ms: seq<Direction>)
    requires s in dist && dist.Keys <= done && Closed(b, done, dist) && Walks(b, s, ms)
    ensures End(s, ms) in dist
    decreases |ms|
  {
    if ms != [] {
      AllReached(b, s, dist, done, ms[..|ms| - 1]);
    }
  }

  /** A reached cell at level h is at least as near as any walkable route to it. */
  lemma Nearest(b: seq<seq<int>>, s: CellPosition, t: CellPosition, dist: map<CellPosition, nat>, h: nat)
    requires Explored(b, s, dist, h) && t in dist && dist[t] == h
    ensures forall ms :: IsRoute(b, s, ms, t) ==> h <= |ms|
  {
  }

  /** Pushing a newly reached cell one level deeper keeps the queue's order. */
  lemma FrontierPush(queue: seq<CellPosition>, dist: map<CellPosition, nat>, h: nat, n: CellPosition)
    requires Frontier(queue, dist, h) && n !in dist
    ensures Frontier(queue + [n], dist[n := h + 1], h)
  {
  }

  /** Taking the head off the queue moves the level to the head's. */
  lemma FrontierPop(queue: seq<CellPosition>, dist: map<CellPosition, nat>, h: nat)
    requires Frontier(queue, dist, h) && queue != []
    ensures Frontier(queue[1..], dist, dist[queue[0]])
  {
  }

  lemma ParentsAdd(b: seq<seq<int>>, s: CellPosition, parent: map<CellPosition, CellPosition>,
                   moveFrom: map<CellPosition, Direction>, dist: map<CellPosition, nat>,
                   current: CellPosition, n: CellPosition, d: Direction)
    requires Parents(b, s, parent, moveFrom, dist) && s in dist && current in dist
    requires n !in dist && Open(b, n) && ApplyMove(current, d) == n
    ensures Parents(b, s, parent[n := current], moveFrom[n := d], dist[n := dist[current] + 1])
  {
  }

  lemma ClosedExtends(b: seq<seq<int>>, done: set<CellPosition>, dist0: map<CellPosition, nat>,
                      dist: map<CellPosition, nat>)
    requires Closed(b, done, dist0) && Extends(dist, dist0)
    ensures Closed(b, done, dist)
  {
  }

  lemma ExploredExtends(b: seq<seq<int>>, s: CellPosition, dist0: map<CellPosition, nat>,
                        dist: map<CellPosition, nat>, h: nat)
    requires Explored(b, s, dist0, h) && Extends(dist, dist0)
    ensures Explored(b, s, dist, h)
  {
  }

  /** Reaching more cells of the universe leaves strictly fewer unreached. */
  lemma Shrinks(u: set<CellPosition>, a: set<CellPosition>, c: set<CellPosition>)
    requires a <= c <= u && a != c
    ensures u - c < u - a
  {
    var e :| e in c && e !in a;
    assert e in u - a && e !in u - c;
  }

  lemma OpenInUniverse(b: seq<seq<int>>, s: CellPosition, n: CellPosition)
    requires Open(b, n)
    ensures n in Universe(b, s)
  {
    assert n == CellPosition(n.x, n.y);
  }

  /** The state while the neighbours of `current`, taken off the queue at level h, are being visited. */
  ghost predicate Expanding(b: seq<seq<int>>, s: CellPosition, t: CellPosition, current: CellPosition,
                            queue: seq<CellPosition>, visited: set<CellPosition>,
                            parent: map<CellPosition, CellPosition>, moveFrom: map<CellPosition, Direction>,
                            dist: map<CellPosition, nat>, done: set<CellPosition>, h: nat) {
    && visited == dist.Keys && visited <= Universe(b, s)
    && s in dist && dist[s] == 0
    && current in dist && dist[current] == h && current != t
    && t !in done && done <= dist.Keys && (forall u :: u in done && u in dist ==> dist[u] <= h)
    && (forall v :: v in dist ==> dist[v] <= h + 1)
    && (forall v :: v in visited ==> v in done || v in queue || v == current)
    && Frontier(queue, dist, h)
    && Parents(b, s, parent, moveFrom, dist)
  }

  /** `dist` keeps every level recorded in `dist0`. */
  ghost predicate Extends(dist: map<CellPosition, nat>, dist0: map<CellPosition, nat>) {
    forall v :: v in dist0 ==> v in dist && dist[v] == dist0[v]
  }

  /** Taking a cell other than the exit off the queue starts its expansion at the cell's level. */
  lemma Dequeue(b: seq<seq<int>>, s: CellPosition, t: CellPosition, queue: seq<CellPosition>,
                visited: set<CellPosition>, parent: map<CellPosition, CellPosition>,
                moveFrom: map<CellPosition, Direction>, dist: map<CellPosition, nat>,
                done: set<CellPosition>, h: nat)
    requires Searching(b, s, t, queue, visited, parent, moveFrom, dist, done, h)
    requires queue != [] && queue[0] != t
    ensures queue[0] in dist
    ensures Expanding(b, s, t, queue[0], queue[1..], visited, parent, moveFrom, dist, done, dist[queue[0]])
    ensures Closed(b, done, dist) && Explored(b, s, dist, dist[queue[0]])
  {
    if dist[queue[0]] == h + 1 {
      LevelUp(b, s, queue, dist, done, h);
    }
    FrontierPop(queue, dist, h);
    forall v | v in visited
      ensures v in done || v in queue[1..] || v == queue[0]
      ensures dist[v] <= dist[queue[0]] + 1
    {
      if v in queue {
        var i :| 0 <= i < |queue| && queue[i] == v;
        if i > 0 {
          assert queue[1..][i - 1] == v;
        }
      }
    }
  }

  /** Taking the exit off the queue: every walkable route reaches it in no fewer moves than its level. */
  lemma ExitTaken(b: seq<seq<int>>, s: CellPosition, t: CellPosition, queue: seq<CellPosition>,
                  visited: set<CellPosition>, parent: map<CellPosition, CellPosition>,
                  moveFrom: map<CellPosition, Direction>, dist: map<CellPosition, nat>,
                  done: set<CellPosition>, h: nat)
    requires Searching(b, s, t, queue, visited, parent, moveFrom, dist, done, h)
    requires queue != [] && queue[0] == t
    ensures t in dist && forall ms :: IsRoute(b, s, ms, t) ==> dist[t] <= |ms|
  {
    if dist[t] == h + 1 {
      LevelUp(b, s, queue, dist, done, h);
    }
    Nearest(b, s, t, dist, dist[t]);
  }

  /** Visiting one walkable neighbour not yet reached. */
  lemma VisitStep(b: seq<seq<int>>, s: CellPosition, t: CellPosition, current: CellPosition,
                  queue: seq<CellPosition>, visited: set<CellPosition>,
                  parent: map<CellPosition, CellPosition>, moveFrom: map<CellPosition, Direction>,
                  dist: map<CellPosition, nat>, done: set<CellPosition>, h: nat, n: CellPosition, d: Direction)
    requires Expanding(b, s, t, current, queue, visited, parent, moveFrom, dist, done, h)
    requires n !in visited && Open(b, n) && n == ApplyMove(current, d)
    ensures Expanding(b, s, t, current, queue + [n], visited + {n}, parent[n := current], moveFrom[n := d],
                      dist[n := h + 1], done, h)
  {
    FrontierPush(queue, dist, h, n);
    ParentsAdd(b, s, parent, moveFrom, dist, current, n, d);
    OpenInUniverse(b, s, n);
  }

  /** Once every walkable neighbour of `current` is reached, `current` is finished. */
  lemma Finish(b: seq<seq<int>>, s: CellPosition, t: CellPosition, current: CellPosition,
               neighbors: seq<Neighbor>,
               queue: seq<CellPosition>, visited: set<CellPosition>,
               parent: map<CellPosition, CellPosition>, moveFrom: map<CellPosition, Direction>,
               dist: map<CellPosition, nat>, dist0: map<CellPosition, nat>, done: set<CellPosition>, h: nat)
    requires Expanding(b, s, t, current, queue, visited, parent, moveFrom, dist, done, h)
    requires Extends(dist, dist0) && Closed(b, done, dist0) && Explored(b, s, dist0, h)
    requires forall d :: Open(b, ApplyMove(current, d)) ==> Neighbor(ApplyMove(current, d), d) in neighbors
    requires forall k :: 0 <= k < |neighbors| ==> neighbors[k].position in visited
    ensures Searching(b, s, t, queue, visited, parent, moveFrom, dist, done + {current}, h)
  {
    forall d | Open(b, ApplyMove(current, d))
      ensures ApplyMove(current, d) in dist && dist[ApplyMove(current, d)] <= h + 1
    {
      var j :| 0 <= j < |neighbors| && neighbors[j] == Neighbor(ApplyMove(current, d), d);
      assert neighbors[j].position in visited;
    }
    ClosedExtends(b, done, dist0, dist);
    ExploredExtends(b, s, dist0, dist, h);
  }

  // ----- the search -----

  /**
   * One pass of the foreach over GetNeighbors(current): a neighbour not yet
   * visited is marked visited, gets `current` as parent and the move as its
   * move, and joins the queue one level deeper than `current`; a visited one
   * is skipped.
   */
  method Visit(ghost b: seq<seq<int>>, s: CellPosition, ghost t: CellPosition, current: CellPosition,
               neighbor: CellPosition, direction: Direction,
               queue0: seq<CellPosition>, visited0: set<CellPosition>,
               parent0: map<CellPosition, CellPosition>, moveFrom0: map<CellPosition, Direction>,
               ghost dist0: map<CellPosition, nat>, ghost done: set<CellPosition>, ghost h: nat)
    returns (queue: seq<CellPosition>, visited: set<CellPosition>,
             parent: map<CellPosition, CellPosition>, moveFrom: map<CellPosition, Direction>,
             ghost dist: map<CellPosition, nat>)
    requires Open(b, neighbor) && neighbor == ApplyMove(current, direction)
    requires Expanding(b, s, t, current, queue0, visited0, parent0, moveFrom0, dist0, done, h)
    ensures Expanding(b, s, t, current, queue, visited, parent, moveFrom, dist, done, h)
    ensures Extends(dist, dist0) && neighbor in visited
    ensures visited0 <= visited && (visited == visited0 ==> queue == queue0)
  {
    queue, visited, parent, moveFrom, dist := queue0, visited0, parent0, moveFrom0, dist0;
    if neighbor in visited {
      return;
    }
    VisitStep(b, s, t, current, queue, visited, parent, moveFrom, dist, done, h, neighbor, direction);
    visited := visited + {neighbor};
    parent := parent[neighbor := current];
    moveFrom := moveFrom[neighbor := direction];
    queue := queue + [neighbor];
    dist := dist[neighbor := h + 1];
  }

  /** The foreach over GetNeighbors(current): afterwards every neighbour has been visited. */
  method VisitNeighbors(ghost b: seq<seq<int>>, s: CellPosition, ghost t: CellPosition, current: CellPosition,
                        neighbors: seq<Neighbor>,
                        queue0: seq<CellPosition>, visited0: set<CellPosition>,
                        parent0: map<CellPosition, CellPosition>, moveFrom0: map<CellPosition, Direction>,
                        ghost dist0: map<CellPosition, nat>, ghost done: set<CellPosition>, ghost h: nat)
    returns (queue: seq<CellPosition>, visited: set<CellPosition>,
             parent: map<CellPosition, CellPosition>, moveFrom: map<CellPosition, Direction>,
             ghost dist: map<CellPosition, nat>)
    requires forall k :: 0 <= k < |neighbors| ==>
      neighbors[k].position == ApplyMove(current, neighbors[k].direction) && Open(b, neighbors[k].position)
    requires Expanding(b, s, t, current, queue0, visited0, parent0, moveFrom0, dist0, done, h)
    ensures Expanding(b, s, t, current, queue, visited, parent, moveFrom, dist, done, h)
    ensures Extends(dist, dist0)
    ensures forall k :: 0 <= k < |neighbors| ==> neighbors[k].position in visited
    ensures visited0 <= visited && (visited == visited0 ==> queue == queue0)
  {
    queue, visited, parent, moveFrom, dist := queue0, visited0, parent0, moveFrom0, dist0;
    for k := 0 to |neighbors|
      invariant Expanding(b, s, t, current, queue, visited, parent, moveFrom, dist, done, h)
      invariant Extends(dist, dist0)
      invariant forall j :: 0 <= j < k ==> neighbors[j].position in visited
      invariant visited0 <= visited && (visited == visited0 ==> queue == queue0)
    {
      ghost var before := visited;
      queue, visited, parent, moveFrom, dist :=
        Visit(b, s, t, current, neighbors[k].position, neighbors[k].direction,
              queue, visited, parent, moveFrom, dist, done, h);
      forall j | 0 <= j < k + 1
        ensures neighbors[j].position in visited
      {
        if j < k {
          assert neighbors[j].position in before;
        }
      }
    }
  }

  /** Reading the moves back along the parents from the exit to the entrance, then reversing them. */
  method ReadBack(ghost b: seq<seq<int>>, start: CellPosition, goal: CellPosition,
                  parent: map<CellPosition, CellPosition>, moveFrom: map<CellPosition, Direction>,
                  ghost dist: map<CellPosition, nat>)
    returns (r: seq<Direction>)
    requires Parents(b, start, parent, moveFrom, dist) && start in dist && dist[start] == 0 && goal in dist
    ensures IsRoute(b, start, r, goal) && |r| == dist[goal]
  {
    var reversed: seq<Direction> := [];
    var cursor := goal;
    while cursor != start
      invariant cursor in dist && |reversed| + dist[cursor] == dist[goal]
      invariant IsRoute(b, cursor, Reversed(reversed), goal)
      decreases dist[cursor]
    {
      var direction := moveFrom[cursor];
      var previous := parent[cursor];
      PrependStep(b, previous, direction, Reversed(reversed));
      assert Reversed(reversed + [direction]) == [direction] + Reversed(reversed);
      reversed := reversed + [direction];
      cursor := previous;
    }
    r := Reversed(reversed);
  }

  /**
   * One turn of the search loop for a head other than the exit: dequeue it,
   * then visit its neighbours.
   */
  method ExpandHead(g: MazeGrid, ghost b: seq<seq<int>>, start: CellPosition, ghost goal: CellPosition,
                    queue0: seq<CellPosition>, visited0: set<CellPosition>,
                    parent0: map<CellPosition, CellPosition>, moveFrom0: map<CellPosition, Direction>,
                    ghost dist0: map<CellPosition, nat>, ghost done0: set<CellPosition>, ghost h0: nat)
    returns (queue: seq<CellPosition>, visited: set<CellPosition>,
             parent: map<CellPosition, CellPosition>, moveFrom: map<CellPosition, Direction>,
             ghost dist: map<CellPosition, nat>, ghost done: set<CellPosition>, ghost h: nat)
    requires g.Valid() && b == g.Board()
    requires Searching(b, start, goal, queue0, visited0, parent0, moveFrom0, dist0, done0, h0)
    requires queue0 != [] && queue0[0] != goal
    ensures Searching(b, start, goal, queue, visited, parent, moveFrom, dist, done, h)
    ensures Universe(b, start) - visited < Universe(b, start) - visited0 || (visited == visited0 && |queue| < |queue0|)
  {
    var current := queue0[0];
    Dequeue(b, start, goal, queue0, visited0, parent0, moveFrom0, dist0, done0, h0);
    h := dist0[current];
    var neighbors := GetNeighbors(g, current);
    queue, visited, parent, moveFrom, dist :=
      VisitNeighbors(b, start, goal, current, neighbors, queue0[1..], visited0, parent0, moveFrom0, dist0, done0, h);
    Finish(b, start, goal, current, neighbors, queue, visited, parent, moveFrom, dist, dist0, done0, h);
    if visited != visited0 {
      Shrinks(Universe(b, start), visited0, visited);
    }
    done := done0 + {current};
  }

  /** With the queue empty and the exit never reached, no walkable route leads to the exit. */
  lemma NoRoute(b: seq<seq<int>>, s: CellPosition, t: CellPosition,
                visited: set<CellPosition>, parent: map<CellPosition, CellPosition>,
                moveFrom: map<CellPosition, Direction>, dist: map<CellPosition, nat>,
                done: set<CellPosition>, h: nat)
    requires Searching(b, s, t, [], visited, parent, moveFrom, dist, done, h)
    ensures t !in visited
    ensures forall ms :: !IsRoute(b, s, ms, t)
  {
    forall ms | Walks(b, s, ms)
      ensures End(s, ms) != t
    {
      AllReached(b, s, dist, done, ms);
    }
  }

  /**
   * MazePathFinderService.FindPath: breadth-first search from the entrance,
   * stopping when the exit is taken off the queue, then the moves read back
   * along the parents. A non-empty result is a walkable route from the
   * entrance to the exit and no walkable route is shorter; an empty result
   * means the entrance is the exit or no walkable route exists.
   */
  method FindPath(g: MazeGrid) returns (r: seq<Direction>)
    requires g.Valid()
    ensures r != [] ==> IsRoute(g.Board(), g.entrance, r, g.exit)
    ensures r == [] ==> g.entrance == g.exit || forall ms :: !IsRoute(g.Board(), g.entrance, ms, g.exit)
    ensures forall ms :: IsRoute(g.Board(), g.entrance, ms, g.exit) ==> IsRoute(g.Board(), g.entrance, r, g.exit) && |r| <= |ms|
  {
    ghost var b := g.Board();
    var start := g.entrance;
    var goal := g.exit;
    var queue := [start];
    var visited := {start};
    var parent: map<CellPosition, CellPosition> := map[];
    var moveFrom: map<CellPosition, Direction> := map[];
    ghost var dist: map<CellPosition, nat> := map[start := 0];
    ghost var done: set<CellPosition> := {};
    ghost var h: nat := 0;
    while queue != []
      invariant Searching(b, start, goal, queue, visited, parent, moveFrom, dist, done, h)
      decreases Universe(b, start) - visited, |queue|
    {
      var current := queue[0];
      if current == goal {
        ExitTaken(b, start, goal, queue, visited, parent, moveFrom, dist, done, h);
        queue := queue[1..];
        break;
      }
      queue, visited, parent, moveFrom, dist, done, h :=
        ExpandHead(g, b, start, goal, queue, visited, parent, moveFrom, dist, done, h);
    }
    if goal !in visited {
      NoRoute(b, start, goal, visited, parent, moveFrom, dist, done, h);
      return [];
    }
    r := ReadBack(b, start, goal, parent, moveFrom, dist);
  }
}
