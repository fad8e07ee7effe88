/** Chronoscape's maze level: the `Maze` object with its cell array,
    generation stack, player position and trail, and the per-frame input
    handler that drives it. The global game state is passed in and handed
    back rather than kept in a global variable. */
module Chronoscape {
  import opened MazeGrid
  import opened Generation
  import opened Game
  import opened Movement

  class Maze {
    /** `cells[x, y]`, a fixed `MazeWidth` by `MazeHeight` array. */
    var cells: array2<Cell>
    /** The generation stack; its top is the last element. */
    var stack: seq<Pos>
    /** The cells the player has moved into, oldest first. */
    var path: seq<Pos>
    var playerPos: Pos
    const exitPos: Pos := ExitPos
    /** The contents of `cells`, as a value. */
    ghost var grid: Grid

    ghost predicate Valid()
      reads this, cells
    {
      && cells.Length0 == MazeWidth && cells.Length1 == MazeHeight
      && WellFormed(grid)
      && (forall x, y {:trigger cells[x, y]} | 0 <= x < MazeWidth && 0 <= y < MazeHeight :: cells[x, y] == grid[x][y])
      && InBounds(playerPos)
    }

    /** A freshly constructed maze is fully generated, with the player on the
        start cell and an empty trail. */
    constructor ()
      ensures Valid() && fresh(cells)
      ensures playerPos == Origin && path == [] && stack == []
      ensures exitPos == ExitPos
      ensures forall p {:trigger Visited(grid, p)} | InBounds(p) :: Visited(grid, p)
      ensures WallsSymmetric(grid) && BorderIntact(grid)
      ensures |OpenPairs(grid)| == MazeWidth * MazeHeight - 1
      ensures forall p {:trigger Reachable(grid, p)} | InBounds(p) :: Reachable(grid, p)
    {
      cells := new Cell[MazeWidth, MazeHeight]((_, _) => InitialCell);
      stack := [];
      path := [];
      playerPos := Origin;
      grid := InitialGrid();
      new;
      GenerateMaze();
    }

    /** Randomized depth-first backtracking from the start cell. The random
        pick among the unvisited neighbours is left open: any choice gives
        a maze in which every cell is reached, exactly one wall pair fewer
        than there are cells is open, and every cell can be walked to from
        the start. */
    method GenerateMaze()
      requires Valid() && grid == InitialGrid() && stack == []
      modifies this`stack, this`grid, cells
      ensures Valid() && stack == []
      ensures forall p {:trigger Visited(grid, p)} | InBounds(p) :: Visited(grid, p)
      ensures WallsSymmetric(grid) && BorderIntact(grid)
      ensures |OpenPairs(grid)| == MazeWidth * MazeHeight - 1
      ensures forall p {:trigger Reachable(grid, p)} | InBounds(p) :: Reachable(grid, p)
    {
      stack := [Origin];
      SetVisited(Origin);
      ghost var parent: map<Pos, Pos> := map[];
      ghost var depth: map<Pos, nat> := map[Origin := 0];
      InitialBacktracking();
      VisitedBound(grid);
      while stack != []
        invariant Valid()
        invariant Backtracking(grid, stack) && Rooted(grid, parent, depth)
        invariant |VisitedCells(grid)| <= MazeWidth * MazeHeight
        decreases 2 * (MazeWidth * MazeHeight - |VisitedCells(grid)|) + |stack|
      {
        parent, depth := Backtrack(parent, depth);
      }
      Finished(grid, parent, depth);
    }

    /** One turn of the loop in `GenerateMaze`: the top cell's unvisited
        neighbours are collected; with some left, one of them (the source
        picks it with `rand()`) is carved into and pushed, otherwise the
        top cell is popped. The loop invariant is kept and the measure
        `2 * unvisited + |stack|` goes down. */
    method Backtrack(ghost parent: map<Pos, Pos>, ghost depth: map<Pos, nat>)
      returns (ghost parent': map<Pos, Pos>, ghost depth': map<Pos, nat>)
      requires Valid() && Backtracking(grid, stack) && Rooted(grid, parent, depth) && stack != []
      modifies this`stack, this`grid, cells
      ensures Valid() && Backtracking(grid, stack) && Rooted(grid, parent', depth')
      ensures |VisitedCells(grid)| <= MazeWidth * MazeHeight
      ensures 2 * (MazeWidth * MazeHeight - |VisitedCells(grid)|) + |stack| <
        2 * (MazeWidth * MazeHeight - |VisitedCells(old(grid))|) + |old(stack)|
      ensures Turn(old(grid), old(stack), grid, stack)
    {
      ghost var g, s := grid, stack;
      var current := stack[|stack| - 1];
      var neighbors := GetUnvisitedNeighbors(current);
      if neighbors != [] {
        var i :| 0 <= i < |neighbors|;
        var next := neighbors[i];
        NeighborFacts(g, current, next);
        Open(current, next);
        PushStep(g, s, current, next, parent, depth);
        PushTurn(g, s, current, next);
        parent', depth' := parent[next := current], depth[next := depth[current] + 1];
      } else {
        stack := stack[..|stack| - 1];
        PopStep(g, s);
        PopTurn(g, s, current);
        parent', depth' := parent, depth;
      }
      VisitedBound(grid);
    }

    /** The writes of a push: the walls between `current` and `next` come
        down, `next` is marked visited and pushed. */
    method Open(current: Pos, next: Pos)
      requires Valid() && InBounds(current) && InBounds(next)
      modifies this`stack, this`grid, cells
      ensures Valid() && grid == Advance(old(grid), current, next) && stack == old(stack) + [next]
    {
      RemoveWallBetween(current, next);
      SetVisited(next);
      stack := stack + [next];
    }

    /** The write `cells[x][y].visited = true`. */
    method SetVisited(p: Pos)
      requires Valid() && InBounds(p)
      modifies cells, this`grid
      ensures Valid() && grid == MarkVisited(old(grid), p)
    {
      cells[p.x, p.y] := cells[p.x, p.y].(visited := true);
      grid := MarkVisited(grid, p);
    }

    /** The write `cells[x][y].walls[d] = false`. */
    method LowerWall(p: Pos, d: Side)
      requires Valid() && InBounds(p)
      modifies cells, this`grid
      ensures Valid() && grid == ClearWall(old(grid), p, d)
    {
      cells[p.x, p.y] := cells[p.x, p.y].(walls := cells[p.x, p.y].walls[d := false]);
      grid := ClearWall(grid, p, d);
    }

    /** The unvisited neighbours of `cell`, tested up, right, down, left. */
    method GetUnvisitedNeighbors(cell: Pos) returns (neighbors: seq<Pos>)
      requires Valid() && InBounds(cell)
      ensures neighbors == UnvisitedNeighbors(grid, cell)
    {
      ghost var up, right := Probe(grid, cell, Up), Probe(grid, cell, Right);
      ghost var down, left := Probe(grid, cell, Down), Probe(grid, cell, Left);
      neighbors := [];
      if cell.y > 0 && !cells[cell.x, cell.y - 1].visited {
        neighbors := neighbors + [Pos(cell.x, cell.y - 1)];
      }
      assert neighbors == up by { ProbeCell(cell, Up); }
      if cell.x < MazeWidth - 1 && !cells[cell.x + 1, cell.y].visited {
        neighbors := neighbors + [Pos(cell.x + 1, cell.y)];
      }
      assert neighbors == up + right by { ProbeCell(cell, Right); }
      if cell.y < MazeHeight - 1 && !cells[cell.x, cell.y + 1].visited {
        neighbors := neighbors + [Pos(cell.x, cell.y + 1)];
      }
      assert neighbors == up + right + down by { ProbeCell(cell, Down); }
      if cell.x > 0 && !cells[cell.x - 1, cell.y].visited {
        neighbors := neighbors + [Pos(cell.x - 1, cell.y)];
      }
      assert neighbors == up + right + down + left by { ProbeCell(cell, Left); }
      NeighborsInOrder(grid, cell);
    }

    /** The test on side `d` reads the neighbouring cell of the array. */
    lemma ProbeCell(cell: Pos, d: Side)
      requires Valid() && InBounds(cell)
      ensures var q := Step(cell, d);
        Probe(grid, cell, d) == if InBounds(q) && !cells[q.x, q.y].visited then [q] else []
    {
      var q := Step(cell, d);
      if InBounds(q) {
        assert cells[q.x, q.y] == grid[q.x][q.y];
      }
    }

    /** Lowers the pair of walls between `current` and `next`, as the
        function `RemoveWall` describes. */
    method RemoveWallBetween(current: Pos, next: Pos)
      requires Valid() && InBounds(current) && InBounds(next)
      modifies cells, this`grid
      ensures Valid() && grid == RemoveWall(old(grid), current, next)
    {
      if current.x == next.x {
        if current.y > next.y {
          LowerWall(current, Up);
          LowerWall(next, Down);
        } else {
          LowerWall(current, Down);
          LowerWall(next, Up);
        }
      } else if current.y == next.y {
        if current.x > next.x {
          LowerWall(current, Left);
          LowerWall(next, Right);
        } else {
          LowerWall(current, Right);
          LowerWall(next, Left);
        }
      }
    }

    /** `MovePlayer(dx, dy)`, with the game state passed in and returned. */
    method MovePlayer(dx: int, dy: int, state: GameState) returns (state': GameState)
      requires Valid()
      modifies this`playerPos, this`path
      ensures Valid()
      ensures Session(playerPos, path, state') ==
        Move(grid, Session(old(playerPos), old(path), state), dx, dy)
    {
      var newPos := Pos(playerPos.x + dx, playerPos.y + dy);
      state' := state;
      if 0 <= newPos.x < MazeWidth && 0 <= newPos.y < MazeHeight {
        var walls := cells[playerPos.x, playerPos.y].walls;
        if (dx == 1 && !walls[1]) || (dx == -1 && !walls[3]) ||
           (dy == 1 && !walls[2]) || (dy == -1 && !walls[0]) {
          playerPos := newPos;
          path := path + [playerPos];
        }
      }
      if playerPos.x == exitPos.x && playerPos.y == exitPos.y {
        state' := Menu;
      }
    }
  }

  /** One frame of input: the number keys select a state, and in the maze
      state each pressed arrow (right, left, down, up) calls `MovePlayer`. */
  method HandleInput(maze: Maze, state: GameState, keys: Keys) returns (state': GameState)
    requires maze.Valid()
    modifies maze`playerPos, maze`path
    ensures maze.Valid()
    ensures Session(maze.playerPos, maze.path, state') ==
      Frame(maze.grid, Session(old(maze.playerPos), old(maze.path), state), keys)
  {
    state' := state;
    if keys.one { state' := ChessKingdom; }
    if keys.two { state' := EscapeChronolab; }
    if keys.three { state' := MythicalMaze; }
    assert state' == SelectState(state, keys);
    if state' == MythicalMaze {
      ghost var g := maze.grid;
      ghost var expected := Session(maze.playerPos, maze.path, state');
      if keys.right { state' := maze.MovePlayer(1, 0, state'); }
      expected := Press(g, expected, keys.right, Right);
      assert Session(maze.playerPos, maze.path, state') == expected;
      if keys.left { state' := maze.MovePlayer(-1, 0, state'); }
      expected := Press(g, expected, keys.left, Left);
      assert Session(maze.playerPos, maze.path, state') == expected;
      if keys.down { state' := maze.MovePlayer(0, 1, state'); }
      expected := Press(g, expected, keys.down, Down);
      assert Session(maze.playerPos, maze.path, state') == expected;
      if keys.up { state' := maze.MovePlayer(0, -1, state'); }
      expected := Press(g, expected, keys.up, Up);
      FrameInOrder(g, Session(old(maze.playerPos), old(maze.path), state), keys);
    }
  }
}
