/** The player's side of the maze: the move guard of `Maze::MovePlayer`,
    the trail it records, and what one frame of `HandleInput` does to the
    player's position, trail and the game state. */
module Movement {
  import opened MazeGrid
  import opened Game

  /** What the input handler changes: the player's cell, the trail of cells
      moved into (the start cell is not on it) and the global game state. */
  datatype Session = Session(pos: Pos, path: seq<Pos>, state: GameState)

  /** The player on the start cell with an empty trail, and the game at the
      menu, as the program starts. */
  const StartSession: Session := Session(Origin, [], Menu)

  /** The guard of `MovePlayer(dx, dy)`: the target is inside the maze, and
      a component of the delta equal to +1 or -1 points through an open wall
      of the current cell. */
  predicate CanMove(g: Grid, pos: Pos, dx: int, dy: int)
    requires WellFormed(g) && InBounds(pos)
  {
    InBounds(Pos(pos.x + dx, pos.y + dy)) &&
    ((dx == 1 && !Wall(g, pos, Right)) ||
     (dx == -1 && !Wall(g, pos, Left)) ||
     (dy == 1 && !Wall(g, pos, Down)) ||
     (dy == -1 && !Wall(g, pos, Up)))
  }

  /** `MovePlayer(dx, dy)`: an accepted move enters the target and appends
      it to the trail, a refused one changes neither; standing on the exit
      afterwards switches the game back to the menu. */
  function Move(g: Grid, s: Session, dx: int, dy: int): (r: Session)
    requires WellFormed(g) && InBounds(s.pos)
    ensures InBounds(r.pos)
    ensures CanMove(g, s.pos, dx, dy) ==>
      r.pos == Pos(s.pos.x + dx, s.pos.y + dy) && r.path == s.path + [r.pos]
    ensures !CanMove(g, s.pos, dx, dy) ==> r.pos == s.pos && r.path == s.path
    ensures r.state == if r.pos == ExitPos then Menu else s.state
  {
    var moved :=
      if CanMove(g, s.pos, dx, dy) then
        var target := Pos(s.pos.x + dx, s.pos.y + dy);
        s.(pos := target, path := s.path + [target])
      else s;
    if moved.pos == ExitPos then moved.(state := Menu) else moved
  }

  /** The delta an arrow key passes for side `d`. */
  function DX(d: Side): int {
    if d == Right then 1 else if d == Left then -1 else 0
  }

  function DY(d: Side): int {
    if d == Down then 1 else if d == Up then -1 else 0
  }

  /** For the four arrow deltas the guard is exactly "the wall on that side
      is down"; with symmetric walls, exactly "there is a passage". */
  lemma CardinalMove(g: Grid, p: Pos, d: Side)
    requires WellFormed(g) && InBounds(p)
    ensures Pos(p.x + DX(d), p.y + DY(d)) == Step(p, d)
    ensures CanMove(g, p, DX(d), DY(d)) <==> InBounds(Step(p, d)) && !Wall(g, p, d)
    ensures WallsSymmetric(g) ==> (CanMove(g, p, DX(d), DY(d)) <==> Passage(g, p, Step(p, d)))
  {
    StepFacts(p, d);
  }

  /** The start cell followed by the trail is a walk through open passages
      that ends where the player stands. */
  predicate Trail(g: Grid, s: Session)
    requires WellFormed(g)
  {
    InBounds(s.pos) && IsWalk(g, [Origin] + s.path) && ([Origin] + s.path)[|s.path|] == s.pos
  }

  lemma StartTrail(g: Grid)
    requires WellFormed(g)
    ensures Trail(g, StartSession)
  {
  }

  /** An arrow move keeps the trail a walk: the player only ever passes
      through open walls. */
  lemma MoveKeepsTrail(g: Grid, s: Session, d: Side)
    requires WellFormed(g) && WallsSymmetric(g) && Trail(g, s)
    ensures Trail(g, Move(g, s, DX(d), DY(d)))
  {
    CardinalMove(g, s.pos, d);
    if CanMove(g, s.pos, DX(d), DY(d)) {
      var w, q := [Origin] + s.path, Step(s.pos, d);
      assert [Origin] + (s.path + [q]) == w + [q];
      assert (w + [q])[..|w|] == w;
    }
  }

  /** The arrow moves `ds` made one after the other. */
  function ApplyMoves(g: Grid, s: Session, ds: seq<Side>): (r: Session)
    requires WellFormed(g) && InBounds(s.pos)
    ensures InBounds(r.pos)
    decreases |ds|
  {
    if ds == [] then s
    else
      var d := ds[|ds| - 1];
      Move(g, ApplyMoves(g, s, ds[..|ds| - 1]), DX(d), DY(d))
  }

  /** Making one more move after `done`. */
  lemma ApplyOneMore(g: Grid, s: Session, done: seq<Side>, d: Side)
    requires WellFormed(g) && InBounds(s.pos)
    ensures ApplyMoves(g, s, done + [d]) == Move(g, ApplyMoves(g, s, done), DX(d), DY(d))
  {
    assert (done + [d])[..|done|] == done;
  }

  lemma {:induction false} ApplyKeepsTrail(g: Grid, s: Session, ds: seq<Side>)
    requires WellFormed(g) && WallsSymmetric(g) && Trail(g, s)
    ensures Trail(g, ApplyMoves(g, s, ds))
    decreases |ds|
  {
    if ds != [] {
      ApplyKeepsTrail(g, s, ds[..|ds| - 1]);
      MoveKeepsTrail(g, ApplyMoves(g, s, ds[..|ds| - 1]), ds[|ds| - 1]);
    }
  }

  /** Moves only ever append to the trail, at most one cell per move; the
      state stays what it was or becomes the menu, and after at least one
      move a player on the exit is always back at the menu. */
  lemma {:induction false} ApplyHistory(g: Grid, s: Session, ds: seq<Side>)
    requires WellFormed(g) && InBounds(s.pos)
    ensures var r := ApplyMoves(g, s, ds);
      && s.path <= r.path && |r.path| <= |s.path| + |ds|
      && (r.state == s.state || r.state == Menu)
      && (ds != [] && r.pos == ExitPos ==> r.state == Menu)
    decreases |ds|
  {
    if ds != [] {
      ApplyHistory(g, s, ds[..|ds| - 1]);
    }
  }

  /** The arrow keys pressed this frame, in the order the handler tests them. */
  function Arrows(k: Keys): (ds: seq<Side>)
    ensures |ds| <= 4
    ensures forall i, j | 0 <= i < j < |ds| :: ds[i] != ds[j]
    ensures (Right in ds <==> k.right) && (Left in ds <==> k.left)
    ensures (Down in ds <==> k.down) && (Up in ds <==> k.up)
  {
    (if k.right then [Right] else []) + (if k.left then [Left] else []) +
    (if k.down then [Down] else []) + (if k.up then [Up] else [])
  }

  /** One call of `HandleInput`: the digits pick the state; only when that
      state is the maze do the pressed arrows move the player, and then all
      of them do, even after an earlier arrow reached the exit. */
  function Frame(g: Grid, s: Session, k: Keys): (r: Session)
    requires WellFormed(g) && InBounds(s.pos)
    ensures InBounds(r.pos)
  {
    var selected := s.(state := SelectState(s.state, k));
    if selected.state == MythicalMaze then ApplyMoves(g, selected, Arrows(k)) else selected
  }

  /** The move an arrow key makes when it is pressed. */
  function Press(g: Grid, s: Session, pressed: bool, d: Side): (r: Session)
    requires WellFormed(g) && InBounds(s.pos)
    ensures InBounds(r.pos)
  {
    if pressed then Move(g, s, DX(d), DY(d)) else s
  }

  /** A frame in the maze state tests the four arrows one after the other. */
  lemma {:induction false} FrameInOrder(g: Grid, s: Session, k: Keys)
    requires WellFormed(g) && InBounds(s.pos) && SelectState(s.state, k) == MythicalMaze
    ensures var selected := s.(state := MythicalMaze);
      Frame(g, s, k) ==
        Press(g, Press(g, Press(g, Press(g, selected, k.right, Right), k.left, Left), k.down, Down), k.up, Up)
  {
    var selected := s.(state := MythicalMaze);
    var r := if k.right then [Right] else [];
    var rl := r + (if k.left then [Left] else []);
    var rld := rl + (if k.down then [Down] else []);
    var rldu := rld + (if k.up then [Up] else []);
    assert Arrows(k) == rldu;
    PressedOrNot(g, selected, [], k.right, Right);
    PressedOrNot(g, selected, r, k.left, Left);
    PressedOrNot(g, selected, rl, k.down, Down);
    PressedOrNot(g, selected, rld, k.up, Up);
  }

  lemma PressedOrNot(g: Grid, s: Session, done: seq<Side>, pressed: bool, d: Side)
    requires WellFormed(g) && InBounds(s.pos)
    ensures ApplyMoves(g, s, done + (if pressed then [d] else [])) ==
      Press(g, ApplyMoves(g, s, done), pressed, d)
  {
    if pressed {
      ApplyOneMore(g, s, done, d);
    } else {
      assert done + [] == done;
    }
  }

  /** What a frame promises: outside the maze only the state changes; the
      trail only grows, by at most four cells; the state is the selected
      one or the menu, the menu whenever a move ended on the exit; and the
      trail stays a walk through open passages. */
  lemma FrameFacts(g: Grid, s: Session, k: Keys)
    requires WellFormed(g) && InBounds(s.pos)
    ensures var r, selected := Frame(g, s, k), SelectState(s.state, k);
      && (selected != MythicalMaze ==> r == s.(state := selected))
      && s.path <= r.path && |r.path| <= |s.path| + 4
      && (r.state == selected || r.state == Menu)
      && (selected == MythicalMaze && Arrows(k) != [] && r.pos == ExitPos ==> r.state == Menu)
      && (WallsSymmetric(g) && Trail(g, s) ==> Trail(g, r))
  {
    var selected := s.(state := SelectState(s.state, k));
    ApplyHistory(g, selected, Arrows(k));
    if WallsSymmetric(g) && Trail(g, s) {
      assert Trail(g, selected);
      ApplyKeepsTrail(g, selected, Arrows(k));
    }
  }
}
