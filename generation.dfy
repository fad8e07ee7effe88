/** The randomized depth-first backtracker of `Maze::GenerateMaze`, as facts
    about grid snapshots: what holds at the head of every iteration, why a
    push or a pop keeps it, and what it gives once the stack is empty. */
module Generation {
  import opened MazeGrid

  /** A cell whose four walls all stand. */
  ghost predicate Sealed(g: Grid, p: Pos)
    requires WellFormed(g) && InBounds(p)
  {
    Wall(g, p, Up) && Wall(g, p, Right) && Wall(g, p, Down) && Wall(g, p, Left)
  }

  /** No neighbour of `p` is left unvisited. */
  ghost predicate Exhausted(g: Grid, p: Pos)
    requires WellFormed(g)
  {
    forall d: Side | InBounds(Step(p, d)) :: Visited(g, Step(p, d))
  }

  lemma NoNeighborsExhausted(g: Grid, p: Pos)
    requires WellFormed(g) && InBounds(p)
    ensures UnvisitedNeighbors(g, p) == [] <==> Exhausted(g, p)
  {
    NeighborsSpec(g, p);
    if UnvisitedNeighbors(g, p) != [] {
      var q := UnvisitedNeighbors(g, p)[0];
      assert q in UnvisitedNeighbors(g, p);
      assert Step(p, SideTowards(p, q)) == q;
    } else {
      forall d: Side | InBounds(Step(p, d)) ensures Visited(g, Step(p, d)) {
        StepFacts(p, d);
        assert Step(p, d) !in UnvisitedNeighbors(g, p);
      }
    }
  }

  /** Every stack entry is a visited cell, grid-adjacent to the entry below it. */
  ghost predicate StackShape(g: Grid, stack: seq<Pos>)
    requires WellFormed(g)
  {
    (forall i | 0 <= i < |stack| :: InBounds(stack[i]) && Visited(g, stack[i])) &&
    (forall i | 0 < i < |stack| :: Adjacent(stack[i - 1], stack[i]))
  }

  /** The invariant of the generation loop (the stack's top is its last element). */
  ghost predicate Backtracking(g: Grid, stack: seq<Pos>)
    requires WellFormed(g)
  {
    && Visited(g, Origin)
    && StackShape(g, stack)
    && WallsSymmetric(g)
    && BorderIntact(g)
    && UnvisitedSealed(g)
    && OffStackExhausted(g, stack)
    && Tallied(g)
  }

  /** One wall pair has been opened per cell reached after the start. */
  ghost predicate Tallied(g: Grid)
    requires WellFormed(g)
  {
    |OpenPairs(g)| + 1 == |VisitedCells(g)|
  }

  /** A cell's walls are touched only once it is reached. */
  ghost predicate UnvisitedSealed(g: Grid)
    requires WellFormed(g)
  {
    forall p {:trigger Visited(g, p)} | InBounds(p) && !Visited(g, p) :: Sealed(g, p)
  }

  /** A visited cell that has left the stack has no unvisited neighbour. */
  ghost predicate OffStackExhausted(g: Grid, stack: seq<Pos>)
    requires WellFormed(g)
  {
    forall p {:trigger Exhausted(g, p)} | InBounds(p) && Visited(g, p) && p !in stack :: Exhausted(g, p)
  }

  /** The parent link of a visited cell other than the start: a visited cell of
      smaller depth, joined to it by an open passage. */
  ghost predicate Linked(g: Grid, parent: map<Pos, Pos>, depth: map<Pos, nat>, p: Pos)
    requires WellFormed(g)
  {
    p in parent && p in depth &&
    var q := parent[p];
    InBounds(q) && Visited(g, q) && q in depth && depth[q] < depth[p] && Passage(g, q, p)
  }

  /** The search tree recorded by ghost parent links and depths. */
  ghost predicate Rooted(g: Grid, parent: map<Pos, Pos>, depth: map<Pos, nat>)
    requires WellFormed(g)
  {
    && (forall p {:trigger p in depth} | InBounds(p) && Visited(g, p) :: p in depth)
    && (forall p {:trigger Linked(g, parent, depth, p)} | InBounds(p) && Visited(g, p) && p != Origin ::
          Linked(g, parent, depth, p))
  }

  /** The grid once the start cell is marked visited, before the loop. */
  function StartGrid(): (g: Grid)
    ensures WellFormed(g)
  {
    MarkVisited(InitialGrid(), Origin)
  }

  lemma InitialBacktracking()
    ensures Backtracking(StartGrid(), [Origin])
    ensures Rooted(StartGrid(), map[], map[Origin := 0])
  {
    var g := StartGrid();
    assert OpenPairs(g) == {};
    assert VisitedCells(g) == {Origin};
  }

  lemma VisitedBound(g: Grid)
    requires WellFormed(g)
    ensures |VisitedCells(g)| <= MazeWidth * MazeHeight
  {
    var v := VisitedCells(g);
    assert AllCells() == v + (AllCells() - v);
    CellCount();
  }

  /** The grid after one push: the wall pair between `current` and `next`
      comes down and `next` is marked visited. */
  function Advance(g: Grid, current: Pos, next: Pos): (g': Grid)
    requires WellFormed(g) && InBounds(current) && InBounds(next)
    ensures WellFormed(g')
  {
    MarkVisited(RemoveWall(g, current, next), next)
  }

  lemma AdvanceCells(g: Grid, current: Pos, next: Pos)
    requires WellFormed(g) && InBounds(current) && InBounds(next) && Adjacent(current, next)
    ensures var g', s := Advance(g, current, next), SideTowards(current, next);
      && Step(current, s) == next && SideTowards(next, current) == Opposite(s)
      && (forall q {:trigger Visited(g', q)} | InBounds(q) :: Visited(g', q) == (Visited(g, q) || q == next))
      && (forall q, e: Side | InBounds(q) ::
            Wall(g', q, e) == (Wall(g, q, e) && !(q == current && e == s) && !(q == next && e == Opposite(s))))
  {
    StepFacts(current, SideTowards(current, next));
  }

  /** A push keeps the stack's shape. */
  lemma AdvanceStack(g: Grid, stack: seq<Pos>, current: Pos, next: Pos)
    requires WellFormed(g) && StackShape(g, stack)
    requires stack != [] && current == stack[|stack| - 1]
    requires InBounds(next) && Adjacent(current, next)
    ensures StackShape(Advance(g, current, next), stack + [next])
  {
    var g', stack' := Advance(g, current, next), stack + [next];
    AdvanceCells(g, current, next);
    forall i | 0 <= i < |stack'|
      ensures InBounds(stack'[i]) && Visited(g', stack'[i])
    {
      if i < |stack| { assert stack'[i] == stack[i]; }
    }
  }

  /** Lowering the pair of walls two neighbours share keeps the walls symmetric. */
  lemma AdvanceSymmetric(g: Grid, current: Pos, next: Pos)
    requires WellFormed(g) && InBounds(current) && InBounds(next) && Adjacent(current, next)
    requires WallsSymmetric(g)
    ensures WallsSymmetric(Advance(g, current, next))
  {
    var g' := Advance(g, current, next);
    AdvanceCells(g, current, next);
    forall p, d: Side | InBounds(p) && InBounds(Step(p, d))
      ensures Wall(g', p, d) == Wall(g', Step(p, d), Opposite(d))
    {
      StepFacts(p, d);
    }
  }

  /** A push lowers only walls between two cells of the maze, never one on
      its border. */
  lemma AdvanceBorder(g: Grid, current: Pos, next: Pos)
    requires WellFormed(g) && InBounds(current) && InBounds(next) && Adjacent(current, next)
    requires BorderIntact(g)
    ensures BorderIntact(Advance(g, current, next))
  {
    AdvanceCells(g, current, next);
    StepFacts(current, SideTowards(current, next));
  }

  /** Only the two cells of a push lose walls, and both are visited afterwards. */
  lemma AdvanceSealed(g: Grid, current: Pos, next: Pos)
    requires WellFormed(g) && InBounds(current) && InBounds(next) && Adjacent(current, next)
    requires Visited(g, current)
    requires UnvisitedSealed(g)
    ensures UnvisitedSealed(Advance(g, current, next))
  {
    AdvanceCells(g, current, next);
  }

  /** Visiting more cells keeps exhausted cells exhausted. */
  lemma AdvanceExhausted(g: Grid, stack: seq<Pos>, current: Pos, next: Pos)
    requires WellFormed(g) && InBounds(current) && InBounds(next) && Adjacent(current, next)
    requires OffStackExhausted(g, stack)
    ensures OffStackExhausted(Advance(g, current, next), stack + [next])
  {
    var g' := Advance(g, current, next);
    AdvanceCells(g, current, next);
    forall p | InBounds(p) && Visited(g', p) && p !in stack + [next]
      ensures Exhausted(g', p)
    {
      assert Exhausted(g, p);
    }
  }

  /** A push towards a sealed neighbour opens exactly one wall pair, one
      that was closed before. */
  lemma AdvanceOpenPairs(g: Grid, current: Pos, next: Pos)
    requires WellFormed(g) && InBounds(current) && InBounds(next) && Adjacent(current, next)
    requires WallsSymmetric(g) && Sealed(g, next)
    ensures PairBetween(current, next) !in OpenPairs(g)
    ensures OpenPairs(Advance(g, current, next)) == OpenPairs(g) + {PairBetween(current, next)}
  {
    var g', s := Advance(g, current, next), SideTowards(current, next);
    AdvanceCells(g, current, next);
    var w := PairBetween(current, next);
    assert IsWallPair(w);
    if s == Right || s == Down {
      assert Wall(g, current, s) == Wall(g, next, Opposite(s));
    }
  }

  /** A push reaches exactly one cell, one that was not reached before. */
  lemma AdvanceVisitedCells(g: Grid, current: Pos, next: Pos)
    requires WellFormed(g) && InBounds(current) && InBounds(next) && !Visited(g, next)
    ensures next !in VisitedCells(g)
    ensures VisitedCells(Advance(g, current, next)) == VisitedCells(g) + {next}
  {
    var g' := Advance(g, current, next);
    assert forall q {:trigger Visited(g', q)} | InBounds(q) :: Visited(g', q) == (Visited(g, q) || q == next);
  }

  /** Hence a push adds one to both counts. */
  lemma AdvanceTally(g: Grid, current: Pos, next: Pos)
    requires WellFormed(g) && InBounds(current) && InBounds(next) && Adjacent(current, next)
    requires WallsSymmetric(g) && Visited(g, current) && !Visited(g, next) && Sealed(g, next)
    ensures var g' := Advance(g, current, next);
      && |VisitedCells(g')| == |VisitedCells(g)| + 1
      && (Tallied(g) ==> Tallied(g'))
  {
    AdvanceOpenPairs(g, current, next);
    AdvanceVisitedCells(g, current, next);
    AddOne(OpenPairs(g), PairBetween(current, next));
    AddOne(VisitedCells(g), next);
  }

  lemma AddOne<T>(a: set<T>, x: T)
    requires x !in a
    ensures |a + {x}| == |a| + 1
  {
  }

  /** A push links `next` to `current` in the search tree. */
  lemma AdvanceRooted(g: Grid, parent: map<Pos, Pos>, depth: map<Pos, nat>, current: Pos, next: Pos)
    requires WellFormed(g) && InBounds(current) && InBounds(next) && Adjacent(current, next)
    requires Rooted(g, parent, depth) && Visited(g, current) && !Visited(g, next)
    ensures current in depth
    ensures Rooted(Advance(g, current, next), parent[next := current], depth[next := depth[current] + 1])
  {
    var g' := Advance(g, current, next);
    var parent', depth' := parent[next := current], depth[next := depth[current] + 1];
    AdvanceCells(g, current, next);
    assert Linked(g', parent', depth', next);
    forall p | InBounds(p) && Visited(g', p) && p != next
      ensures p in depth' && (p != Origin ==> Linked(g', parent', depth', p))
    {
      if p != Origin {
        assert Linked(g, parent, depth, p);
        var q := parent[p];
        assert Passage(g', q, p);
      }
    }
  }

  /** The cell a push moves to is an unvisited, still sealed neighbour of
      the visited top cell. */
  lemma PushReady(g: Grid, stack: seq<Pos>, current: Pos, next: Pos)
    requires WellFormed(g) && Backtracking(g, stack)
    requires stack != [] && current == stack[|stack| - 1]
    requires InBounds(current) && next in UnvisitedNeighbors(g, current)
    ensures Visited(g, current) && InBounds(next) && Adjacent(current, next)
    ensures !Visited(g, next) && Sealed(g, next)
  {
    NeighborsSpec(g, current);
  }

  /** A push: the top cell `current` has an unvisited neighbour `next`; the
      wall between them comes down, `next` is marked visited and pushed.
      Exactly one more cell is visited and one more wall pair is open. */
  lemma PushStep(g: Grid, stack: seq<Pos>, current: Pos, next: Pos, parent: map<Pos, Pos>, depth: map<Pos, nat>)
    requires WellFormed(g) && Backtracking(g, stack) && Rooted(g, parent, depth)
    requires stack != [] && current == stack[|stack| - 1]
    requires next in UnvisitedNeighbors(g, current)
    ensures current in depth
    ensures Backtracking(Advance(g, current, next), stack + [next])
    ensures Rooted(Advance(g, current, next), parent[next := current], depth[next := depth[current] + 1])
    ensures |VisitedCells(Advance(g, current, next))| == |VisitedCells(g)| + 1
  {
    PushReady(g, stack, current, next);
    AdvanceStack(g, stack, current, next);
    AdvanceSymmetric(g, current, next);
    AdvanceBorder(g, current, next);
    AdvanceSealed(g, current, next);
    AdvanceExhausted(g, stack, current, next);
    AdvanceTally(g, current, next);
    AdvanceRooted(g, parent, depth, current, next);
  }

  lemma PopStack(g: Grid, stack: seq<Pos>)
    requires WellFormed(g) && StackShape(g, stack) && stack != []
    ensures StackShape(g, stack[..|stack| - 1])
  {
  }

  lemma PopExhausted(g: Grid, stack: seq<Pos>)
    requires WellFormed(g) && stack != [] && InBounds(stack[|stack| - 1])
    requires OffStackExhausted(g, stack)
    requires UnvisitedNeighbors(g, stack[|stack| - 1]) == []
    ensures OffStackExhausted(g, stack[..|stack| - 1])
  {
    var stack' := stack[..|stack| - 1];
    NoNeighborsExhausted(g, stack[|stack| - 1]);
    assert stack == stack' + [stack[|stack| - 1]];
    forall p | InBounds(p) && Visited(g, p) && p !in stack'
      ensures Exhausted(g, p)
    {
      if p in stack {
        assert p == stack[|stack| - 1];
      }
    }
  }

  /** A pop: the top cell has no unvisited neighbour left. */
  lemma PopStep(g: Grid, stack: seq<Pos>)
    requires WellFormed(g) && Backtracking(g, stack) && stack != []
    requires UnvisitedNeighbors(g, stack[|stack| - 1]) == []
    ensures Backtracking(g, stack[..|stack| - 1])
  {
    PopStack(g, stack);
    PopExhausted(g, stack);
  }

  /** One turn of the generation loop on a non-empty stack: with unvisited
      neighbours left around the top cell, the wall to one of them comes
      down, it is marked visited and pushed; with none left, the top cell
      is popped and the grid is unchanged. */
  ghost predicate Turn(g: Grid, stack: seq<Pos>, g': Grid, stack': seq<Pos>)
    requires WellFormed(g) && stack != [] && InBounds(stack[|stack| - 1])
  {
    var top := stack[|stack| - 1];
    if UnvisitedNeighbors(g, top) != [] then
      exists next ::
        next in UnvisitedNeighbors(g, top) && InBounds(next) &&
        g' == Advance(g, top, next) && stack' == stack + [next]
    else
      g' == g && stack' == stack[..|stack| - 1]
  }

  lemma PushTurn(g: Grid, stack: seq<Pos>, current: Pos, next: Pos)
    requires WellFormed(g) && stack != [] && current == stack[|stack| - 1] && InBounds(current)
    requires next in UnvisitedNeighbors(g, current)
    ensures InBounds(next) && Turn(g, stack, Advance(g, current, next), stack + [next])
  {
    NeighborsSpec(g, current);
  }

  lemma PopTurn(g: Grid, stack: seq<Pos>, current: Pos)
    requires WellFormed(g) && stack != [] && current == stack[|stack| - 1] && InBounds(current)
    requires UnvisitedNeighbors(g, current) == []
    ensures Turn(g, stack, g, stack[..|stack| - 1])
  {
  }

  /** A cell is visited when the start is and no visited cell has an
      unvisited neighbour (induction on the distance from the start). */
  lemma {:induction false} Covered(g: Grid, p: Pos)
    requires WellFormed(g) && InBounds(p) && Visited(g, Origin)
    requires OffStackExhausted(g, [])
    ensures Visited(g, p)
    decreases p.x + p.y
  {
    if p != Origin {
      var d := if p.x > 0 then Left else Up;
      var q := Step(p, d);
      Covered(g, q);
      StepFacts(p, d);
      assert Exhausted(g, q);
      assert Step(q, Opposite(d)) == p;
    }
  }

  /** The walk from the start to `p` along the parent links. */
  ghost function Route(g: Grid, parent: map<Pos, Pos>, depth: map<Pos, nat>, p: Pos): (w: seq<Pos>)
    requires WellFormed(g) && Rooted(g, parent, depth) && InBounds(p) && Visited(g, p)
    ensures |w| > 0 && w[0] == Origin && w[|w| - 1] == p && IsWalk(g, w)
    decreases depth[p]
  {
    if p == Origin then [p]
    else
      assert Linked(g, parent, depth, p);
      var w := Route(g, parent, depth, parent[p]) + [p];
      assert w[..|w| - 1] == Route(g, parent, depth, parent[p]);
      w
  }

  /** Once the stack is empty every cell has been reached, exactly one wall
      pair fewer than there are cells has been opened, and every cell can be
      walked to from the start through open passages. */
  lemma Finished(g: Grid, parent: map<Pos, Pos>, depth: map<Pos, nat>)
    requires WellFormed(g) && Backtracking(g, []) && Rooted(g, parent, depth)
    ensures forall p {:trigger Visited(g, p)} | InBounds(p) :: Visited(g, p)
    ensures |OpenPairs(g)| == MazeWidth * MazeHeight - 1
    ensures forall p {:trigger Reachable(g, p)} | InBounds(p) :: Reachable(g, p)
  {
    forall p | InBounds(p) ensures Visited(g, p) {
      Covered(g, p);
    }
    assert VisitedCells(g) == AllCells();
    CellCount();
    forall p | InBounds(p) ensures Reachable(g, p) {
      var w := Route(g, parent, depth, p);
      assert |w| > 0 && w[0] == Origin && w[|w| - 1] == p && IsWalk(g, w);
    }
  }
}
