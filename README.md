# Chronoscape maze core in Dafny

Chronoscape is a small game shell: a menu plus three sub-games. Only one of them, a maze game, has any behaviour. This project models the core of that maze game in `chronoscape13.cpp`:

- the `Cell` record, with a visited flag and four wall flags numbered up, right, down, left;
- the `Maze` object, with its 15 × 10 cell array, generation stack, player position, trail and exit;
- the randomized depth-first backtracker `GenerateMaze`, with its helpers `GetUnvisitedNeighbors` and `RemoveWallBetween`;
- player movement `MovePlayer`;
- the per-frame key dispatch `HandleInput`, which selects a state with the number keys and moves the player with the arrow keys while in the maze state.

It then proves properties of that model.

Layout:

- `grid.dfy` (module `MazeGrid`): positions, sides, cells and grid snapshots (`seq<seq<Cell>>`). It holds the pure grid operations the object performs: lowering a wall, marking a cell visited, `RemoveWall`, and the neighbour list. It also defines wall symmetry, passages, walks, reachability and the set of open wall pairs. A wall pair is one physical wall, named by its upper or left cell.
- `generation.dfy` (module `Generation`): the loop invariant of the backtracker and the lemmas that a push keeps it, a pop keeps it, and an empty stack implies the promised result. The stack's top is its last element. Ghost parent links and depths record the search tree.
- `game.dfy` (module `Game`): the five game states and the number-key selection.
- `movement.dfy` (module `Movement`): the move guard, `Move`, the trail as a walk through open passages, and `Frame`, the value-level meaning of one `HandleInput` call.
- `maze.dfy` (module `Chronoscape`): class `Maze` and method `HandleInput`.
  - `Maze` keeps `cells` as an `array2<Cell>`, tied to a ghost snapshot `grid` by `Valid()`.
  - Its methods update that array in place, in the source's order. They are proved against the functions above.
  - `GenerateMaze` is proved to leave every cell visited, the walls symmetric and the outer border closed. It opens exactly `15 * 10 - 1 = 149` wall pairs, and every cell can be reached from the start through open passages.
  - The loop terminates with measure `2 * (cells not visited) + |stack|`.

In the source, the game state is a global variable. Here `MovePlayer` and `HandleInput` take the state as an argument and return the new one. The source's `rand() % neighbors.size()` becomes an arbitrary choice of index (`:|`), so every property of `GenerateMaze` holds for every sequence of random picks. The keys `IsKeyPressed` reports for a frame are passed in as a `Keys` value.

Three behaviours of the code that a reader may not expect, kept as written:

- `MovePlayer` sends the game back to the menu whenever the player stands on the exit after the call. This holds even when the move was refused, not only after an accepted move.
- `MovePlayer` does not reject diagonal deltas. It accepts a move when the target is in bounds and a component of the delta equal to +1 or -1 faces an open wall of the current cell; a delta such as (2, 0) is always refused. `Move` models this guard for every integer delta. The walk property (`MoveKeepsTrail`) is proved for the four arrow deltas the caller passes.
- `HandleInput` tests the maze state once. Every pressed arrow is then applied, even after an earlier arrow in the same frame has reached the exit and switched the state to the menu.

## Model

| member | source | states |
|---|---|---|
| MazeGrid.InitialGrid | chronoscape13.cpp:14-17 | every cell of the fresh array is unvisited with all four walls standing |
| MazeGrid.ClearWall | chronoscape13.cpp:68 | `walls[d] = false` on one cell lowers exactly that wall and changes no visited flag and no other wall |
| MazeGrid.MarkVisited | chronoscape13.cpp:44 | `visited = true` marks exactly that cell and changes no wall |
| MazeGrid.RemoveWall | chronoscape13.cpp:65-83 | no visited flag changes; for adjacent cells exactly the two facing walls between them are lowered and every other wall keeps its value |
| MazeGrid.UnvisitedNeighbors | chronoscape13.cpp:52-63 | the neighbour list has at most four entries |
| MazeGrid.UnvisitedFromMembers | chronoscape13.cpp:52-63 | the sides tested from side `d` onwards yield exactly the in-bounds adjacent unvisited cells on those sides |
| MazeGrid.NeighborsSpec | chronoscape13.cpp:52-63 | a cell is in the neighbour list if and only if it is in bounds, 4-adjacent and unvisited |
| MazeGrid.NeighborFacts | chronoscape13.cpp:52-63 | every entry of the neighbour list is in bounds, 4-adjacent and unvisited |
| MazeGrid.NeighborsInOrder | chronoscape13.cpp:54-61 | the list is the up, right, down and left tests concatenated in that order, each contributing its cell when in bounds and unvisited |
| MazeGrid.CellCount | chronoscape13.cpp:8-9 | the grid has exactly `MAZE_WIDTH * MAZE_HEIGHT` cells |
| Generation.NoNeighborsExhausted | chronoscape13.cpp:39-41 | the neighbour list is empty if and only if every in-bounds neighbour is visited |
| Generation.StartGrid | chronoscape13.cpp:33-35 | marking the start cell visited keeps a 15 by 10 grid |
| Generation.InitialBacktracking | chronoscape13.cpp:33-35 | after pushing the start cell and marking it visited, the loop invariant holds (all border walls standing, no wall pair open) with a search tree rooted at the start |
| Generation.VisitedBound | chronoscape13.cpp:21 | at most `MAZE_WIDTH * MAZE_HEIGHT` cells are visited, so the termination measure is never negative |
| Generation.Advance | chronoscape13.cpp:43-44 | a push's grid change (lower the shared walls, mark `next` visited) keeps a 15 by 10 grid |
| Generation.AdvanceCells | chronoscape13.cpp:43-44 | after a push exactly `next` becomes visited and exactly the wall of `current` towards `next` and the opposite wall of `next` come down |
| Generation.AdvanceStack | chronoscape13.cpp:38-45 | after a push every stack entry is visited and in bounds, and each entry is adjacent to the one below it |
| Generation.AdvanceSymmetric | chronoscape13.cpp:43 | lowering the pair of walls between two neighbours keeps every pair of facing walls equal |
| Generation.AdvanceBorder | chronoscape13.cpp:43 | a push never lowers a wall on the outer border of the maze |
| Generation.AdvanceSealed | chronoscape13.cpp:43-44 | after a push every unvisited cell still has all four walls standing |
| Generation.AdvanceExhausted | chronoscape13.cpp:41-45 | after a push every visited cell not on the stack still has no unvisited neighbour |
| Generation.AdvanceOpenPairs | chronoscape13.cpp:42-44 | a push into a sealed cell opens exactly one wall pair, the one between the two cells, which was closed before |
| Generation.AdvanceVisitedCells | chronoscape13.cpp:44 | a push adds exactly the previously unvisited `next` to the visited cells |
| Generation.AdvanceTally | chronoscape13.cpp:42-45 | a push adds one visited cell and keeps "open pairs + 1 = visited cells" |
| Generation.AdvanceRooted | chronoscape13.cpp:42-45 | after a push every visited cell other than the start has a parent of smaller depth joined to it by an open passage |
| Generation.PushReady | chronoscape13.cpp:38-42 | the picked neighbour is in bounds, adjacent to the visited top cell, unvisited and sealed |
| Generation.PushStep | chronoscape13.cpp:41-45 | a push keeps the whole loop invariant and the search tree, and visits exactly one more cell |
| Generation.PopStack | chronoscape13.cpp:47 | popping keeps every remaining entry visited and adjacent to the one below |
| Generation.PopExhausted | chronoscape13.cpp:46-48 | a popped cell has no unvisited neighbour, so every visited cell off the stack stays exhausted |
| Generation.PopStep | chronoscape13.cpp:46-48 | a pop when the top cell has no unvisited neighbour keeps the loop invariant |
| Generation.PushTurn | chronoscape13.cpp:41-45 | carving into a listed neighbour and pushing it is the push case of one loop turn |
| Generation.PopTurn | chronoscape13.cpp:46-48 | popping a top cell with an empty neighbour list, grid unchanged, is the pop case of one loop turn |
| Generation.Covered | chronoscape13.cpp:37-49 | when the start is visited and no visited cell has an unvisited neighbour, every cell is visited |
| Generation.Route | chronoscape13.cpp:42-45 | the parent links give a walk through open passages from the start to every visited cell |
| Generation.Finished | chronoscape13.cpp:37-49 | with the stack empty all cells are visited, exactly 149 wall pairs are open, and every cell is reachable from the start |
| Game.SelectState | chronoscape13.cpp:128-130 | the highest pressed number key decides the state (3: maze, 2: second sub-game, 1: first sub-game), no key keeps it, and the maze state results exactly when 3 is pressed or no key is pressed while already in the maze |
| Movement.Move | chronoscape13.cpp:85-99 | an accepted move sets the position to old position plus delta and appends it to the trail; a refused move changes neither; the state becomes the menu exactly when the player then stands on the exit, and is unchanged otherwise |
| Movement.CardinalMove | chronoscape13.cpp:87-91 | for an arrow delta the guard holds if and only if the target is in bounds and the wall on that side is down; with symmetric walls, if and only if there is a passage |
| Movement.StartTrail | chronoscape13.cpp:23-24 | in the starting session (player on the start cell, empty trail) the trail is a walk ending at the player |
| Movement.MoveKeepsTrail | chronoscape13.cpp:85-95 | with symmetric walls an arrow move keeps start-plus-trail a walk through open passages that ends at the player |
| Movement.ApplyMoves | chronoscape13.cpp:132-135 | any sequence of arrow moves keeps the player in bounds |
| Movement.ApplyOneMore | chronoscape13.cpp:132-135 | one more arrow move is one more `Move` after the earlier ones |
| Movement.ApplyKeepsTrail | chronoscape13.cpp:132-135 | any sequence of arrow moves keeps the trail a walk through open passages |
| Movement.ApplyHistory | chronoscape13.cpp:132-135 | moves only append to the trail, at most one cell each; the state stays or becomes the menu, and after at least one move a player on the exit is at the menu |
| Movement.Arrows | chronoscape13.cpp:132-135 | the arrow list holds each side at most once, and holds a side exactly when its key is pressed |
| Movement.Frame | chronoscape13.cpp:127-136 | a frame leaves the player in bounds |
| Movement.Press | chronoscape13.cpp:132-135 | a tested arrow key leaves the player in bounds whether pressed or not |
| Movement.PressedOrNot | chronoscape13.cpp:132-135 | testing one arrow key extends the applied moves by that side exactly when it is pressed |
| Movement.FrameInOrder | chronoscape13.cpp:131-136 | in the maze state a frame is the right, left, down and up tests applied in that order |
| Movement.FrameFacts | chronoscape13.cpp:127-136 | outside the maze state only the state changes; the trail only grows, by at most four cells; the state is the selected one or the menu, the menu when a move ended on the exit; the trail stays a walk |
| Chronoscape.Maze.constructor | chronoscape13.cpp:21-29 | a new maze has the player on the start cell, an empty trail and stack, the exit at the bottom-right corner, and a fully generated maze (all cells visited, symmetric walls, every border wall standing, 149 open pairs, every cell reachable) |
| Chronoscape.Maze.GenerateMaze | chronoscape13.cpp:31-50 | on a fresh array: the loop terminates with the stack empty, every cell visited, walls symmetric, every border wall standing, exactly 149 open wall pairs and every cell reachable from the start |
| Chronoscape.Maze.Backtrack | chronoscape13.cpp:38-48 | one loop turn either carves into one listed unvisited neighbour of the top cell and pushes it (when the list is non-empty) or pops the top cell leaving the grid unchanged (when it is empty); it keeps the invariant and strictly decreases `2 * (cells not visited) + |stack|` |
| Chronoscape.Maze.Open | chronoscape13.cpp:43-45 | the three writes of a push give the grid `Advance` describes and push `next` |
| Chronoscape.Maze.SetVisited | chronoscape13.cpp:44 | the array write matches `MarkVisited` on the snapshot |
| Chronoscape.Maze.LowerWall | chronoscape13.cpp:68 | the array write matches `ClearWall` on the snapshot |
| Chronoscape.Maze.GetUnvisitedNeighbors | chronoscape13.cpp:52-63 | the four array tests return exactly `UnvisitedNeighbors` of the snapshot |
| Chronoscape.Maze.ProbeCell | chronoscape13.cpp:54-61 | each side's test on the array agrees with the same test on the snapshot |
| Chronoscape.Maze.RemoveWallBetween | chronoscape13.cpp:65-83 | the array writes turn the snapshot into `RemoveWall` of the old one |
| Chronoscape.Maze.MovePlayer | chronoscape13.cpp:85-99 | the new position, trail and state are exactly what `Move` gives for the old ones |
| Chronoscape.HandleInput | chronoscape13.cpp:127-137 | the new position, trail and state are exactly what `Frame` gives for the old ones and the pressed keys |

## Left out

- Rendering (`Draw`, `DrawTrail`), the window and the frame loop in `main` are drawing glue with no state of the maze core.
- `srand(time(nullptr))` and `rand()`: the clock and the generator are not modelled; the pick among the neighbours is an arbitrary choice, so the results are proved for every pick and no distribution is claimed.
- `IsKeyPressed`: keyboard polling is replaced by a `Keys` value given to `HandleInput`.
- `Vector2` float coordinates and the `(int)` casts: cell coordinates are modelled as integers, since the source only stores small whole numbers in them.
- The global `currentGameState` and `maze` objects: the state is passed to and returned from `MovePlayer` and `HandleInput`, and the maze is a parameter of `HandleInput`.
- The two placeholder sub-games and the unused `EXIT` state have no behaviour in the source; only their names are modelled.
- Chronoscape.Maze.GenerateMaze: requires a freshly initialised cell array and an empty stack, which is the only way the constructor calls it; a second call on a generated maze is not modelled.
- Generation.Finished: proves that every cell is reachable and exactly 149 wall pairs are open, which together make the passages a spanning tree; the graph fact that this excludes cycles is not proved separately.
- Movement.MoveKeepsTrail: the walk property is proved for the four arrow deltas only; `Move` itself models the guard for every delta.
