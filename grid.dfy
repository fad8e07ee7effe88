/** The maze grid of Chronoscape's maze game: cell positions, cells with a
    visited flag and four wall flags, and the pure operations that the maze
    generator performs on a snapshot of the grid. */
module MazeGrid {

  const MazeWidth: int := 15
  const MazeHeight: int := 10

  /** A cell coordinate; the source keeps these as exact small integers in floats. */
  datatype Pos = Pos(x: int, y: int)

  const Origin: Pos := Pos(0, 0)
  const ExitPos: Pos := Pos(MazeWidth - 1, MazeHeight - 1)

  predicate InBounds(p: Pos) {
    0 <= p.x < MazeWidth && 0 <= p.y < MazeHeight
  }

  /** A wall index, numbered as the source numbers them. */
  type Side = d: int | 0 <= d < 4

  const Up: Side := 0
  const Right: Side := 1
  const Down: Side := 2
  const Left: Side := 3

  function Opposite(d: Side): Side {
    (d + 2) % 4
  }

  /** The cell one step from `p` towards side `d` (y grows downwards). */
  function Step(p: Pos, d: Side): Pos {
    if d == Up then Pos(p.x, p.y - 1)
    else if d == Right then Pos(p.x + 1, p.y)
    else if d == Down then Pos(p.x, p.y + 1)
    else Pos(p.x - 1, p.y)
  }

  /** 4-adjacency on the grid. */
  predicate Adjacent(a: Pos, b: Pos) {
    (a.x == b.x && (a.y == b.y + 1 || b.y == a.y + 1)) ||
    (a.y == b.y && (a.x == b.x + 1 || b.x == a.x + 1))
  }

  /** The side of `a` that faces its neighbour `b`. */
  function SideTowards(a: Pos, b: Pos): (d: Side)
    requires Adjacent(a, b)
    ensures Step(a, d) == b
  {
    if b.y < a.y then Up
    else if b.x > a.x then Right
    else if b.y > a.y then Down
    else Left
  }

  lemma StepFacts(p: Pos, d: Side)
    ensures Adjacent(p, Step(p, d)) && SideTowards(p, Step(p, d)) == d
    ensures SideTowards(Step(p, d), p) == Opposite(d)
    ensures Step(Step(p, d), Opposite(d)) == p && Opposite(Opposite(d)) == d
  {
  }

  type Walls = w: seq<bool> | |w| == 4 witness [true, true, true, true]

  /** A grid unit: the generator's visited flag and the walls up, right, down, left. */
  datatype Cell = Cell(visited: bool, walls: Walls)

  /** A cell as the source's member initialisers leave it. */
  const InitialCell: Cell := Cell(false, [true, true, true, true])

  /** A snapshot of the cell array, indexed `[x][y]` as the source indexes it. */
  type Grid = seq<seq<Cell>>

  predicate WellFormed(g: Grid) {
    |g| == MazeWidth && forall x | 0 <= x < MazeWidth :: |g[x]| == MazeHeight
  }

  function At(g: Grid, p: Pos): Cell
    requires WellFormed(g) && InBounds(p)
  {
    g[p.x][p.y]
  }

  predicate Visited(g: Grid, p: Pos)
    requires WellFormed(g) && InBounds(p)
  {
    At(g, p).visited
  }

  predicate Wall(g: Grid, p: Pos, d: Side)
    requires WellFormed(g) && InBounds(p)
  {
    At(g, p).walls[d]
  }

  /** The grid before generation: nothing visited, every wall standing. */
  function InitialGrid(): (g: Grid)
    ensures WellFormed(g)
    ensures forall p {:trigger At(g, p)} | InBounds(p) :: At(g, p) == InitialCell
  {
    seq(MazeWidth, _ => seq(MazeHeight, _ => InitialCell))
  }

  /** The grid with the cell at `p` replaced by `c`. */
  function Put(g: Grid, p: Pos, c: Cell): (r: Grid)
    requires WellFormed(g) && InBounds(p)
    ensures WellFormed(r) && At(r, p) == c
    ensures forall q {:trigger At(r, q)} | InBounds(q) && q != p :: At(r, q) == At(g, q)
  {
    g[p.x := g[p.x][p.y := c]]
  }

  /** Lowering wall `d` of the cell at `p`: the write `walls[d] = false`. */
  function ClearWall(g: Grid, p: Pos, d: Side): (r: Grid)
    requires WellFormed(g) && InBounds(p)
    ensures WellFormed(r)
    ensures forall q {:trigger Visited(r, q)} | InBounds(q) :: Visited(r, q) == Visited(g, q)
    ensures forall q, e: Side | InBounds(q) :: Wall(r, q, e) == (Wall(g, q, e) && !(q == p && e == d))
  {
    Put(g, p, At(g, p).(walls := At(g, p).walls[d := false]))
  }

  /** Marking the cell at `p` visited: the write `visited = true`. */
  function MarkVisited(g: Grid, p: Pos): (r: Grid)
    requires WellFormed(g) && InBounds(p)
    ensures WellFormed(r)
    ensures forall q {:trigger Visited(r, q)} | InBounds(q) :: Visited(r, q) == (Visited(g, q) || q == p)
    ensures forall q, e: Side | InBounds(q) :: Wall(r, q, e) == Wall(g, q, e)
  {
    Put(g, p, At(g, p).(visited := true))
  }

  /** What `RemoveWallBetween(current, next)` does to the grid, for any two
      cells in bounds. For adjacent cells it lowers exactly the pair of
      walls the two cells share and changes nothing else. */
  function RemoveWall(g: Grid, current: Pos, next: Pos): (r: Grid)
    requires WellFormed(g) && InBounds(current) && InBounds(next)
    ensures WellFormed(r)
    ensures forall q {:trigger Visited(r, q)} | InBounds(q) :: Visited(r, q) == Visited(g, q)
    ensures Adjacent(current, next) ==>
      forall q, e: Side | InBounds(q) ::
        Wall(r, q, e) == (Wall(g, q, e) && !(q == current && e == SideTowards(current, next))
                                        && !(q == next && e == SideTowards(next, current)))
  {
    if current.x == next.x then
      if current.y > next.y then ClearWall(ClearWall(g, current, Up), next, Down)
      else ClearWall(ClearWall(g, current, Down), next, Up)
    else if current.y == next.y then
      if current.x > next.x then ClearWall(ClearWall(g, current, Left), next, Right)
      else ClearWall(ClearWall(g, current, Right), next, Left)
    else g
  }

  /** Where `q` comes in the order up, right, down, left around `p`; 4 when
      `q` is no neighbour of `p`. */
  function Rank(p: Pos, q: Pos): nat {
    if Adjacent(p, q) then SideTowards(p, q) else 4
  }

  /** The test `GetUnvisitedNeighbors` makes on side `d` of `p`. */
  function Probe(g: Grid, p: Pos, d: Side): (r: seq<Pos>)
    requires WellFormed(g) && InBounds(p)
  {
    var q := Step(p, d);
    if InBounds(q) && !Visited(g, q) then [q] else []
  }

  /** The not-yet-visited in-bounds neighbours of `p`, looked at from side
      `d` onwards in the order up, right, down, left. */
  function UnvisitedFrom(g: Grid, p: Pos, d: nat): (r: seq<Pos>)
    requires WellFormed(g) && InBounds(p) && d <= 4
    ensures |r| <= 4 - d
    decreases 4 - d
  {
    if d == 4 then [] else Probe(g, p, d) + UnvisitedFrom(g, p, d + 1)
  }

  /** `UnvisitedFrom(g, p, d)` holds exactly the unvisited neighbours of
      `p` on side `d` or later. */
  lemma {:induction false} UnvisitedFromMembers(g: Grid, p: Pos, d: nat)
    requires WellFormed(g) && InBounds(p) && d <= 4
    ensures forall q {:trigger q in UnvisitedFrom(g, p, d)} :: q in UnvisitedFrom(g, p, d) <==>
      InBounds(q) && Adjacent(p, q) && !Visited(g, q) && d <= Rank(p, q)
    decreases 4 - d
  {
    if d < 4 {
      var q0 := Step(p, d);
      StepFacts(p, d);
      var head, rest := Probe(g, p, d), UnvisitedFrom(g, p, d + 1);
      UnvisitedFromMembers(g, p, d + 1);
      forall q
        ensures q in head + rest <==> InBounds(q) && Adjacent(p, q) && !Visited(g, q) && d <= Rank(p, q)
      {
        if q != q0 {
          assert q !in head;
          assert Adjacent(p, q) ==> Rank(p, q) != d;
        }
      }
    }
  }

  /** What `GetUnvisitedNeighbors(p)` returns. */
  function UnvisitedNeighbors(g: Grid, p: Pos): (r: seq<Pos>)
    requires WellFormed(g) && InBounds(p)
    ensures |r| <= 4
  {
    UnvisitedFrom(g, p, 0)
  }

  /** The neighbour list holds exactly the in-bounds, 4-adjacent, unvisited
      cells. */
  lemma NeighborsSpec(g: Grid, p: Pos)
    requires WellFormed(g) && InBounds(p)
    ensures forall q {:trigger q in UnvisitedNeighbors(g, p)} :: q in UnvisitedNeighbors(g, p) <==>
      InBounds(q) && Adjacent(p, q) && !Visited(g, q)
  {
    UnvisitedFromMembers(g, p, 0);
  }

  /** One entry of the neighbour list, as `NeighborsSpec` describes it. */
  lemma NeighborFacts(g: Grid, p: Pos, q: Pos)
    requires WellFormed(g) && InBounds(p) && q in UnvisitedNeighbors(g, p)
    ensures InBounds(q) && Adjacent(p, q) && !Visited(g, q)
  {
    NeighborsSpec(g, p);
  }

  /** The four sides are tested in the order up, right, down, left. */
  lemma NeighborsInOrder(g: Grid, p: Pos)
    requires WellFormed(g) && InBounds(p)
    ensures UnvisitedNeighbors(g, p) == Probe(g, p, Up) + Probe(g, p, Right) + Probe(g, p, Down) + Probe(g, p, Left)
  {
    var up, right, down, left := Probe(g, p, Up), Probe(g, p, Right), Probe(g, p, Down), Probe(g, p, Left);
    assert UnvisitedFrom(g, p, 3) == left + [];
    assert UnvisitedFrom(g, p, 0) == up + (right + (down + (left + [])));
    assert left + [] == left;
    assert up + (right + (down + left)) == up + right + down + left;
  }

  /** Two walls facing each other are either both standing or both down. */
  ghost predicate WallsSymmetric(g: Grid)
    requires WellFormed(g)
  {
    forall p, d: Side | InBounds(p) && InBounds(Step(p, d)) ::
      Wall(g, p, d) == Wall(g, Step(p, d), Opposite(d))
  }

  /** Every wall on the outer border of the maze is standing. */
  ghost predicate BorderIntact(g: Grid)
    requires WellFormed(g)
  {
    forall p, d: Side | InBounds(p) && !InBounds(Step(p, d)) :: Wall(g, p, d)
  }

  /** An open passage between two adjacent cells: both facing walls are down. */
  predicate Passage(g: Grid, a: Pos, b: Pos)
    requires WellFormed(g)
  {
    InBounds(a) && InBounds(b) && Adjacent(a, b) &&
    !Wall(g, a, SideTowards(a, b)) && !Wall(g, b, SideTowards(b, a))
  }

  /** A sequence of cells, each one reached from the previous through a passage. */
  predicate IsWalk(g: Grid, w: seq<Pos>)
    requires WellFormed(g)
    decreases |w|
  {
    |w| <= 1 || (IsWalk(g, w[..|w| - 1]) && Passage(g, w[|w| - 2], w[|w| - 1]))
  }

  /** Some walk through open passages leads from the start cell to `p`. */
  ghost predicate Reachable(g: Grid, p: Pos)
    requires WellFormed(g)
  {
    exists w: seq<Pos> {:trigger IsWalk(g, w)} :: |w| > 0 && w[0] == Origin && w[|w| - 1] == p && IsWalk(g, w)
  }

  /** The cells of a `w` by `h` rectangle at the origin. */
  ghost function Block(w: int, h: int): (s: set<Pos>)
    ensures forall p {:trigger p in s} :: p in s <==> 0 <= p.x < w && 0 <= p.y < h
  {
    var s := set x, y | 0 <= x < w && 0 <= y < h :: Pos(x, y);
    assert forall p: Pos | 0 <= p.x < w && 0 <= p.y < h :: Pos(p.x, p.y) in s;
    s
  }

  ghost function AllCells(): (s: set<Pos>)
    ensures forall p {:trigger p in s} :: p in s <==> InBounds(p)
  {
    Block(MazeWidth, MazeHeight)
  }

  /** The cells of column `x` with rows below `h`. */
  ghost function Column(x: int, h: int): (s: set<Pos>)
    ensures forall p {:trigger p in s} :: p in s <==> p.x == x && 0 <= p.y < h
  {
    var s := set y | 0 <= y < h :: Pos(x, y);
    assert forall p: Pos | p.x == x && 0 <= p.y < h :: Pos(x, p.y) in s;
    s
  }

  lemma {:induction false} ColumnSize(x: int, h: nat)
    ensures |Column(x, h)| == h
  {
    if h > 0 {
      assert Column(x, h) == Column(x, h - 1) + {Pos(x, h - 1)};
      ColumnSize(x, h - 1);
    } else {
      assert Column(x, h) == {};
    }
  }

  lemma {:induction false} BlockSize(w: nat, h: nat)
    ensures |Block(w, h)| == w * h
  {
    if w > 0 {
      var left, column := Block(w - 1, h), Column(w - 1, h);
      assert Block(w, h) == left + column;
      assert left !! column;
      BlockSize(w - 1, h);
      ColumnSize(w - 1, h);
      calc {
        |Block(w, h)|;
        |left| + |column|;
        (w - 1) * h + h;
        w * h;
      }
    } else {
      assert Block(w, h) == {};
    }
  }

  /** The grid has exactly `MazeWidth * MazeHeight` cells. */
  lemma CellCount()
    ensures |AllCells()| == MazeWidth * MazeHeight
  {
    BlockSize(MazeWidth, MazeHeight);
  }

  /** One physical wall, named by the upper or left cell and its right or down side. */
  datatype WallPair = WallPair(cell: Pos, side: Side)

  predicate IsWallPair(w: WallPair) {
    InBounds(w.cell) && (w.side == Right || w.side == Down) && InBounds(Step(w.cell, w.side))
  }

  ghost function AllWallPairs(): (s: set<WallPair>)
    ensures forall w {:trigger w in s} :: w in s <==> IsWallPair(w)
  {
    var s := set p, d: Side | p in AllCells() && d in {Right, Down} && InBounds(Step(p, d)) :: WallPair(p, d);
    assert forall w | IsWallPair(w) :: WallPair(w.cell, w.side) in s;
    s
  }

  /** The wall pair that separates two adjacent cells. */
  function PairBetween(a: Pos, b: Pos): (w: WallPair)
    requires Adjacent(a, b)
  {
    var d := SideTowards(a, b);
    if d == Right || d == Down then WallPair(a, d) else WallPair(b, Opposite(d))
  }

  /** The wall pairs that generation has opened. */
  ghost function OpenPairs(g: Grid): set<WallPair>
    requires WellFormed(g)
  {
    set w | w in AllWallPairs() && Opened(g, w)
  }

  predicate Opened(g: Grid, w: WallPair)
    requires WellFormed(g)
  {
    IsWallPair(w) && !Wall(g, w.cell, w.side)
  }

  ghost function VisitedCells(g: Grid): set<Pos>
    requires WellFormed(g)
  {
    set p | p in AllCells() && Visited(g, p)
  }
}
