/** Grids of cells as values: positions, neighbours, the candidate list and the
    wall knock-out of the carving step, routes through absent walls, and the
    facts about them that the carving and solving recursions of class Grid
    (graphics.py) are proved with. */
module Board {
  import opened Cells

  datatype Option<T> = None | Some(value: T)

  /** The index (i, j) of `_cells[i][j]`: column i, row j. */
  datatype Pos = Pos(col: nat, row: nat)

  /** The column-major list of columns `_cells`. */
  type CellGrid = seq<seq<Cell>>

  /** At least one column and one row, every column as long as the first. */
  predicate Rect(g: CellGrid)
  {
    |g| > 0 && |g[0]| > 0 && forall i :: 0 <= i < |g| ==> |g[i]| == |g[0]|
  }

  predicate InBounds(g: CellGrid, p: Pos)
  {
    |g| > 0 && p.col < |g| && p.row < |g[0]|
  }

  function At(g: CellGrid, p: Pos): Cell
    requires Rect(g) && InBounds(g, p)
  {
    g[p.col][p.row]
  }

  predicate SameShape(g0: CellGrid, g1: CellGrid)
  {
    Rect(g0) && Rect(g1) && |g0| == |g1| && |g0[0]| == |g1[0]|
  }

  /** The entrance cell (0, 0). */
  function Origin(): Pos
  {
    Pos(0, 0)
  }

  /** The exit cell (num_cols - 1, num_rows - 1). */
  function Exit(g: CellGrid): (p: Pos)
    requires Rect(g)
    ensures InBounds(g, p)
  {
    Pos(|g| - 1, |g[0]| - 1)
  }

  /** The grid with the cell at `p` replaced by `c`. */
  function SetCell(g: CellGrid, p: Pos, c: Cell): (r: CellGrid)
    requires Rect(g) && InBounds(g, p)
    ensures SameShape(g, r)
    ensures forall q :: InBounds(g, q) ==> At(r, q) == if q == p then c else At(g, q)
  {
    g[p.col := g[p.col][p.row := c]]
  }

  /** The grid with the wall on side `d` of the cell at `p` cleared. */
  function ClearWall(g: CellGrid, p: Pos, d: Dir): (r: CellGrid)
    requires Rect(g) && InBounds(g, p)
    ensures SameShape(g, r)
    ensures forall q :: InBounds(g, q) ==> At(r, q) == if q == p then WithoutWall(At(g, p), d) else At(g, q)
  {
    SetCell(g, p, WithoutWall(At(g, p), d))
  }

  /** The in-bounds neighbour of `p` across side `d`, with the bounds tests of
      the maze code (i > 0, i < num_cols - 1, j > 0, j < num_rows - 1). */
  function Step(g: CellGrid, p: Pos, d: Dir): (r: Option<Pos>)
    requires Rect(g)
    ensures InBounds(g, p) && r.Some? ==> InBounds(g, r.value)
  {
    match d
    case Left => if p.col > 0 then Some(Pos(p.col - 1, p.row)) else None
    case Right => if p.col < |g| - 1 then Some(Pos(p.col + 1, p.row)) else None
    case Up => if p.row > 0 then Some(Pos(p.col, p.row - 1)) else None
    case Down => if p.row < |g[0]| - 1 then Some(Pos(p.col, p.row + 1)) else None
  }

  /** The side of `p` that faces `q`, tested in the knock-out's order (right,
      left, down, up). For a `q` next to `p` exactly one test holds; for other
      positions the result is not used. */
  function Toward(p: Pos, q: Pos): Dir
  {
    if q.col == p.col + 1 then Right
    else if q.col + 1 == p.col then Left
    else if q.row == p.row + 1 then Down
    else Up
  }

  /** On the four neighbours of `p`, `Toward` gives the side whose coordinate
      test in the knock-out holds. */
  lemma TowardNeighbours(p: Pos)
    ensures Toward(p, Pos(p.col + 1, p.row)) == Right
    ensures p.col > 0 ==> Toward(p, Pos(p.col - 1, p.row)) == Left
    ensures Toward(p, Pos(p.col, p.row + 1)) == Down
    ensures p.row > 0 ==> Toward(p, Pos(p.col, p.row - 1)) == Up
  {
  }

  /** Neighbourhood is symmetric, and the side is recovered from the coordinates. */
  lemma StepBack(g: CellGrid, p: Pos, d: Dir)
    requires Rect(g) && InBounds(g, p) && Step(g, p, d).Some?
    ensures Step(g, Step(g, p, d).value, Opposite(d)) == Some(p)
    ensures Toward(p, Step(g, p, d).value) == d
    ensures Toward(Step(g, p, d).value, p) == Opposite(d)
  {
  }

  // ---------------------------------------------------------------------------
  // Predicates on one grid

  /** No cell is marked visited. */
  ghost predicate NoneVisited(g: CellGrid)
  {
    Rect(g) && forall c :: InBounds(g, c) ==> !At(g, c).visited
  }

  /** Walls between neighbours agree on both sides. */
  ghost predicate Consistent(g: CellGrid)
  {
    Rect(g) &&
    forall c, d :: InBounds(g, c) && Step(g, c, d).Some? ==>
      HasWall(At(g, c), d) == HasWall(At(g, Step(g, c, d).value), Opposite(d))
  }

  /** Every in-bounds neighbour of `c` is visited. */
  ghost predicate NeighboursVisited(g: CellGrid, c: Pos)
    requires Rect(g) && InBounds(g, c)
  {
    forall d :: Step(g, c, d).Some? ==> At(g, Step(g, c, d).value).visited
  }

  /** The solver may move from `p` across side `d`: a neighbour exists there and
      the wall on `p`'s own side is absent. */
  predicate CanMove(g: CellGrid, p: Pos, d: Dir)
    requires Rect(g) && InBounds(g, p)
  {
    Step(g, p, d).Some? && !HasWall(At(g, p), d)
  }

  /** `CanMove` is the bounds-and-wall half of each of the solver's four
      direction tests, written with the source's own comparisons; the move it
      allows leads to the neighbour, which leads back across the opposite side. */
  lemma CanMoveTests(g: CellGrid, p: Pos)
    requires Rect(g) && InBounds(g, p)
    ensures CanMove(g, p, Left) <==> p.col > 0 && !At(g, p).hasLeftWall
    ensures CanMove(g, p, Right) <==> p.col < |g| - 1 && !At(g, p).hasRightWall
    ensures CanMove(g, p, Up) <==> p.row > 0 && !At(g, p).hasTopWall
    ensures CanMove(g, p, Down) <==> p.row < |g[0]| - 1 && !At(g, p).hasBottomWall
    ensures forall d :: CanMove(g, p, d) ==>
      InBounds(g, Step(g, p, d).value) && Step(g, Step(g, p, d).value, Opposite(d)) == Some(p)
  {
    forall d | CanMove(g, p, d)
      ensures Step(g, Step(g, p, d).value, Opposite(d)) == Some(p)
    {
      StepBack(g, p, d);
    }
  }

  /** Moving from `p` across `d` is impossible or leads to a visited cell. */
  ghost predicate Settled(g: CellGrid, p: Pos, d: Dir)
    requires Rect(g) && InBounds(g, p)
  {
    CanMove(g, p, d) ==> At(g, Step(g, p, d).value).visited
  }

  /** Every move out of `c` leads to a visited cell. */
  ghost predicate MovesClosed(g: CellGrid, c: Pos)
    requires Rect(g) && InBounds(g, c)
  {
    forall d :: Settled(g, c, d)
  }

  /** The unvisited cells: what the two recursions consume. */
  ghost function Unvisited(g: CellGrid): set<Pos>
    requires Rect(g)
  {
    set i: nat, j: nat | i < |g| && j < |g[0]| && !g[i][j].visited :: Pos(i, j)
  }

  lemma UnvisitedMembers(g: CellGrid)
    requires Rect(g)
    ensures forall p :: p in Unvisited(g) <==> InBounds(g, p) && !At(g, p).visited
  {
    forall p | InBounds(g, p) && !At(g, p).visited
      ensures p in Unvisited(g)
    {
      assert p == Pos(p.col, p.row);
    }
  }

  // ---------------------------------------------------------------------------
  // Relations between a grid and a later grid

  ghost predicate VisitedGrows(g0: CellGrid, g1: CellGrid)
  {
    SameShape(g0, g1) &&
    forall c :: InBounds(g0, c) && At(g0, c).visited ==> At(g1, c).visited
  }

  ghost predicate WallsOnlyCleared(g0: CellGrid, g1: CellGrid)
  {
    SameShape(g0, g1) &&
    forall c, d :: InBounds(g0, c) && HasWall(At(g1, c), d) ==> HasWall(At(g0, c), d)
  }

  ghost predicate SameWalls(g0: CellGrid, g1: CellGrid)
  {
    SameShape(g0, g1) &&
    forall c, d :: InBounds(g0, c) ==> HasWall(At(g1, c), d) == HasWall(At(g0, c), d)
  }

  /** Walls on the outer edge of the grid (sides with no neighbour) are unchanged. */
  ghost predicate BoundaryKept(g0: CellGrid, g1: CellGrid)
  {
    SameShape(g0, g1) &&
    forall c, d :: InBounds(g0, c) && Step(g0, c, d).None? ==> HasWall(At(g1, c), d) == HasWall(At(g0, c), d)
  }

  /** `c` is the cell a recursion started at, or a cell it marked visited. */
  ghost predicate Touched(g0: CellGrid, g1: CellGrid, p: Pos, c: Pos)
    requires SameShape(g0, g1)
  {
    InBounds(g0, c) && (c == p || (!At(g0, c).visited && At(g1, c).visited))
  }

  lemma UnvisitedShrinks(g0: CellGrid, g1: CellGrid)
    requires VisitedGrows(g0, g1)
    ensures Unvisited(g1) <= Unvisited(g0)
  {
    UnvisitedMembers(g0);
    UnvisitedMembers(g1);
  }

  // ---------------------------------------------------------------------------
  // The carving step of Grid._break_walls_r

  /** One entry of the candidate list: the neighbour across `d` when it exists
      and is unvisited. */
  function Unexplored(g: CellGrid, p: Pos, d: Dir): (r: seq<Pos>)
    requires Rect(g) && InBounds(g, p)
    ensures |r| <= 1
    ensures forall x :: x in r ==> Toward(p, x) == d && Step(g, p, d) == Some(x) && !At(g, x).visited
    ensures Step(g, p, d).Some? && !At(g, Step(g, p, d).value).visited ==> r == [Step(g, p, d).value]
  {
    match Step(g, p, d)
    case Some(q) => if !At(g, q).visited then [q] else []
    case None => []
  }

  /** The positions of `r` lie on sides of `p` strictly increasing in scan order. */
  predicate InScanOrder(p: Pos, r: seq<Pos>)
  {
    forall a, b :: 0 <= a < b < |r| ==> Rank(Toward(p, r[a])) < Rank(Toward(p, r[b]))
  }

  lemma ScanOrderAppend(p: Pos, r: seq<Pos>, s: seq<Pos>)
    requires InScanOrder(p, r) && InScanOrder(p, s)
    requires forall x, y :: x in r && y in s ==> Rank(Toward(p, x)) < Rank(Toward(p, y))
    ensures InScanOrder(p, r + s)
  {
    forall a, b | 0 <= a < b < |r + s|
      ensures Rank(Toward(p, (r + s)[a])) < Rank(Toward(p, (r + s)[b]))
    {
      if b >= |r| && a < |r| {
        assert (r + s)[a] in r && (r + s)[b] in s;
      }
    }
  }

  /** The four one-side lists, joined in scan order, are in scan order. */
  lemma ScanListInOrder(g: CellGrid, p: Pos, left: seq<Pos>, right: seq<Pos>, up: seq<Pos>, down: seq<Pos>)
    requires Rect(g) && InBounds(g, p)
    requires left == Unexplored(g, p, Left) && right == Unexplored(g, p, Right)
    requires up == Unexplored(g, p, Up) && down == Unexplored(g, p, Down)
    ensures InScanOrder(p, left + right + up + down)
  {
    ScanOrderAppend(p, left, right);
    ScanOrderAppend(p, left + right, up);
    ScanOrderAppend(p, left + right + up, down);
  }

  /** The list `next_index_list` built by Grid._break_walls_r at `p`. */
  function Candidates(g: CellGrid, p: Pos): (r: seq<Pos>)
    requires Rect(g) && InBounds(g, p)
    ensures |r| <= 4
    ensures forall n :: n in r ==> Step(g, p, Toward(p, n)) == Some(n) && !At(g, n).visited
    ensures forall d :: Step(g, p, d).Some? && !At(g, Step(g, p, d).value).visited ==>
      Step(g, p, d).value in r
    ensures InScanOrder(p, r)
  {
    var left := Unexplored(g, p, Left);
    var right := Unexplored(g, p, Right);
    var up := Unexplored(g, p, Up);
    var down := Unexplored(g, p, Down);
    ScanListInOrder(g, p, left, right, up, down);
    left + right + up + down
  }

  /** The knock-out of Grid._break_walls_r: the four coordinate tests of the
      source, in its order, each clearing one wall on each of the two cells. */
  function KnockDown(g: CellGrid, p: Pos, q: Pos): (r: CellGrid)
    requires Rect(g) && InBounds(g, p) && Step(g, p, Toward(p, q)) == Some(q)
    ensures SameShape(g, r)
    ensures forall c, e :: InBounds(g, c) ==>
      HasWall(At(r, c), e) ==
        (HasWall(At(g, c), e) && !(c == p && e == Toward(p, q)) && !(c == q && e == Opposite(Toward(p, q))))
    ensures forall c :: InBounds(g, c) ==> At(r, c).visited == At(g, c).visited
  {
    var g1 := if q.col == p.col + 1 then ClearWall(ClearWall(g, p, Right), q, Left) else g;
    var g2 := if q.col + 1 == p.col then ClearWall(ClearWall(g1, p, Left), q, Right) else g1;
    var g3 := if q.row == p.row + 1 then ClearWall(ClearWall(g2, p, Down), q, Up) else g2;
    if q.row + 1 == p.row then ClearWall(ClearWall(g3, p, Up), q, Down) else g3
  }

  /** The knock-out leaves every cell other than the two it opens unchanged. */
  lemma KnockDownElsewhere(g: CellGrid, p: Pos, q: Pos)
    requires Rect(g) && InBounds(g, p) && Step(g, p, Toward(p, q)) == Some(q)
    ensures forall c :: InBounds(g, c) && c != p && c != q ==> At(KnockDown(g, p, q), c) == At(g, c)
  {
    var r := KnockDown(g, p, q);
    forall c | InBounds(g, c) && c != p && c != q
      ensures At(r, c) == At(g, c)
    {
      assert HasWall(At(r, c), Left) == HasWall(At(g, c), Left);
      assert HasWall(At(r, c), Right) == HasWall(At(g, c), Right);
      assert HasWall(At(r, c), Up) == HasWall(At(g, c), Up);
      assert HasWall(At(r, c), Down) == HasWall(At(g, c), Down);
    }
  }

  /** Knocking out a shared wall pair keeps walls between neighbours symmetric. */
  lemma KnockDownKeepsConsistent(g: CellGrid, p: Pos, q: Pos)
    requires Rect(g) && InBounds(g, p) && Step(g, p, Toward(p, q)) == Some(q)
    requires Consistent(g)
    ensures Consistent(KnockDown(g, p, q))
  {
    var r := KnockDown(g, p, q);
    var dir := Toward(p, q);
    StepBack(g, p, dir);
    forall c, d | InBounds(r, c) && Step(r, c, d).Some?
      ensures HasWall(At(r, c), d) == HasWall(At(r, Step(r, c, d).value), Opposite(d))
    {
      var n := Step(g, c, d).value;
      StepBack(g, c, d);
      assert HasWall(At(g, c), d) == HasWall(At(g, n), Opposite(d));
      assert (c == p && d == dir) <==> (n == q && Opposite(d) == Opposite(dir));
      assert (c == q && d == Opposite(dir)) <==> (n == p && Opposite(d) == dir);
    }
  }

  /** The knock-out only clears walls between two neighbours, never an outer one. */
  lemma KnockDownKeepsBoundary(g: CellGrid, p: Pos, q: Pos)
    requires Rect(g) && InBounds(g, p) && Step(g, p, Toward(p, q)) == Some(q)
    ensures BoundaryKept(g, KnockDown(g, p, q))
    ensures WallsOnlyCleared(g, KnockDown(g, p, q))
  {
    StepBack(g, p, Toward(p, q));
  }

  // ---------------------------------------------------------------------------
  // Routes

  /** Where the moves lead from `p`, each crossing a side whose wall is absent on
      the cell being left; None as soon as a move is blocked. */
  function Follow(g: CellGrid, p: Pos, moves: seq<Dir>): (r: Option<Pos>)
    requires Rect(g) && InBounds(g, p)
    ensures r.Some? ==> InBounds(g, r.value)
    decreases |moves|
  {
    if moves == [] then Some(p)
    else if CanMove(g, p, moves[0]) then Follow(g, Step(g, p, moves[0]).value, moves[1..])
    else None
  }

  /** `b` can be reached from `a` through absent walls. */
  ghost predicate Reachable(g: CellGrid, a: Pos, b: Pos)
  {
    Rect(g) && InBounds(g, a) && exists moves :: Follow(g, a, moves) == Some(b)
  }

  lemma {:induction false} FollowAppend(g: CellGrid, a: Pos, m1: seq<Dir>, m2: seq<Dir>)
    requires Rect(g) && InBounds(g, a) && Follow(g, a, m1).Some?
    ensures Follow(g, a, m1 + m2) == Follow(g, Follow(g, a, m1).value, m2)
    decreases |m1|
  {
    if m1 == [] {
      assert m1 + m2 == m2;
    } else {
      assert (m1 + m2)[0] == m1[0];
      assert (m1 + m2)[1..] == m1[1..] + m2;
      FollowAppend(g, Step(g, a, m1[0]).value, m1[1..], m2);
    }
  }

  lemma ReachableTrans(g: CellGrid, a: Pos, b: Pos, c: Pos)
    requires Reachable(g, a, b) && Reachable(g, b, c)
    ensures Reachable(g, a, c)
  {
    var m1 :| Follow(g, a, m1) == Some(b);
    var m2 :| Follow(g, b, m2) == Some(c);
    FollowAppend(g, a, m1, m2);
    assert Follow(g, a, m1 + m2) == Some(c);
  }

  /** One open side is a route of one move. */
  lemma ReachableStep(g: CellGrid, a: Pos, d: Dir)
    requires Rect(g) && InBounds(g, a) && CanMove(g, a, d)
    ensures Reachable(g, a, Step(g, a, d).value)
  {
    assert [d][1..] == [];
    assert Follow(g, a, [d]) == Some(Step(g, a, d).value);
  }

  lemma ReachableRefl(g: CellGrid, a: Pos)
    requires Rect(g) && InBounds(g, a)
    ensures Reachable(g, a, a)
  {
    assert Follow(g, a, []) == Some(a);
  }

  /** Clearing walls never blocks a route. */
  lemma {:induction false} FollowMonotone(g0: CellGrid, g1: CellGrid, a: Pos, moves: seq<Dir>)
    requires WallsOnlyCleared(g0, g1) && InBounds(g0, a) && Follow(g0, a, moves).Some?
    ensures Follow(g1, a, moves) == Follow(g0, a, moves)
    decreases |moves|
  {
    if moves != [] {
      FollowMonotone(g0, g1, Step(g0, a, moves[0]).value, moves[1..]);
    }
  }

  lemma ReachableMonotone(g0: CellGrid, g1: CellGrid, a: Pos, b: Pos)
    requires WallsOnlyCleared(g0, g1) && Reachable(g0, a, b)
    ensures Reachable(g1, a, b)
  {
    var m :| Follow(g0, a, m) == Some(b);
    FollowMonotone(g0, g1, a, m);
  }

  /** Reachability depends on the walls alone. */
  lemma ReachableSameWalls(g0: CellGrid, g1: CellGrid, a: Pos, b: Pos)
    requires SameWalls(g0, g1) && InBounds(g0, a)
    ensures Reachable(g0, a, b) <==> Reachable(g1, a, b)
  {
    assert WallsOnlyCleared(g0, g1) && WallsOnlyCleared(g1, g0);
    if Reachable(g0, a, b) {
      ReachableMonotone(g0, g1, a, b);
    }
    if Reachable(g1, a, b) {
      ReachableMonotone(g1, g0, a, b);
    }
  }

  /** Every visited cell has only visited cells behind its open sides. */
  ghost predicate ClosedUnderMoves(g: CellGrid)
  {
    Rect(g) && forall c :: InBounds(g, c) && At(g, c).visited ==> MovesClosed(g, c)
  }

  lemma {:induction false} FollowStaysVisited(g: CellGrid, a: Pos, moves: seq<Dir>)
    requires ClosedUnderMoves(g) && InBounds(g, a) && At(g, a).visited
    requires Follow(g, a, moves).Some?
    ensures At(g, Follow(g, a, moves).value).visited
    decreases |moves|
  {
    if moves != [] {
      assert Settled(g, a, moves[0]);
      FollowStaysVisited(g, Step(g, a, moves[0]).value, moves[1..]);
    }
  }

  /** A set of visited cells closed under moves cannot be left: no unvisited
      cell is reachable from a visited one. */
  lemma ClosedBlocks(g: CellGrid, a: Pos, b: Pos)
    requires ClosedUnderMoves(g) && InBounds(g, a) && At(g, a).visited
    requires InBounds(g, b) && !At(g, b).visited
    ensures !Reachable(g, a, b)
  {
    forall moves | Follow(g, a, moves).Some?
      ensures Follow(g, a, moves) != Some(b)
    {
      FollowStaysVisited(g, a, moves);
    }
  }

  /** Helper for AllVisitedFromOrigin: induction on column, then row. */
  lemma {:induction false} VisitedFromOrigin(g: CellGrid, c: Pos)
    requires Rect(g) && InBounds(g, Origin()) && At(g, Origin()).visited
    requires forall x :: InBounds(g, x) && At(g, x).visited ==> NeighboursVisited(g, x)
    requires InBounds(g, c)
    ensures At(g, c).visited
    decreases c.col + c.row
  {
    if c.col > 0 {
      var w := Pos(c.col - 1, c.row);
      VisitedFromOrigin(g, w);
      assert Step(g, w, Right) == Some(c);
    } else if c.row > 0 {
      var u := Pos(c.col, c.row - 1);
      VisitedFromOrigin(g, u);
      assert Step(g, u, Down) == Some(c);
    }
  }

  /** A set of visited cells that holds the origin and is closed under taking
      neighbours covers the whole grid. */
  lemma AllVisitedFromOrigin(g: CellGrid)
    requires Rect(g) && At(g, Origin()).visited
    requires forall x :: InBounds(g, x) && At(g, x).visited ==> NeighboursVisited(g, x)
    ensures forall c :: InBounds(g, c) ==> At(g, c).visited
  {
    forall c | InBounds(g, c)
      ensures At(g, c).visited
    {
      VisitedFromOrigin(g, c);
    }
  }

  /** Changing walls only on outer sides keeps walls between neighbours symmetric. */
  lemma OuterChangeKeepsConsistent(g0: CellGrid, g1: CellGrid)
    requires Consistent(g0) && SameShape(g0, g1)
    requires forall c, d :: InBounds(g0, c) && Step(g0, c, d).Some? ==> HasWall(At(g1, c), d) == HasWall(At(g0, c), d)
    ensures Consistent(g1)
  {
    forall c, d | InBounds(g1, c) && Step(g1, c, d).Some?
      ensures HasWall(At(g1, c), d) == HasWall(At(g1, Step(g1, c, d).value), Opposite(d))
    {
      StepBack(g0, c, d);
    }
  }

  /** With walls kept symmetric, a cell whose four walls are all set is never
      entered from another cell. */
  lemma {:induction false} SealedCellNotEntered(g: CellGrid, a: Pos, moves: seq<Dir>, s: Pos)
    requires Consistent(g) && InBounds(g, s) && forall d :: HasWall(At(g, s), d)
    requires InBounds(g, a) && a != s
    ensures Follow(g, a, moves) != Some(s)
    decreases |moves|
  {
    if moves != [] && CanMove(g, a, moves[0]) {
      var n := Step(g, a, moves[0]).value;
      StepBack(g, a, moves[0]);
      assert HasWall(At(g, a), moves[0]) == HasWall(At(g, n), Opposite(moves[0]));
      assert n != s;
      SealedCellNotEntered(g, n, moves[1..], s);
    }
  }

  /** With walls kept symmetric, setting all four walls of the exit cell makes
      it unreachable from the entrance (unless the grid is a single cell). */
  lemma SealedExitUnreachable(g: CellGrid)
    requires Consistent(g) && Origin() != Exit(g)
    requires forall d :: HasWall(At(g, Exit(g)), d)
    ensures !Reachable(g, Origin(), Exit(g))
  {
    forall moves
      ensures Follow(g, Origin(), moves) != Some(Exit(g))
    {
      SealedCellNotEntered(g, Origin(), moves, Exit(g));
    }
  }

  /** On two columns and one row, every grid meeting the constructor's
      postconditions (nothing visited, symmetric walls, outer edge open only at
      the ends, one passage fewer than cells) is the same maze: the wall pair
      between the two cells knocked out, the entrance's top and the exit's
      bottom open, every other wall set. */
  lemma TwoByOneMazeUnique(g: CellGrid)
    requires Rect(g) && |g| == 2 && |g[0]| == 1
    requires NoneVisited(g) && Consistent(g) && OpenOnlyAtEnds(g) && |Passages(g)| == 1
    ensures g == [[Cell(true, false, false, true, false)], [Cell(false, true, true, false, false)]]
  {
    var a, b := Origin(), Pos(1, 0);
    PassagesMembers(g);
    forall x | x in Passages(g)
      ensures x == (a, Right)
    {
      assert InBounds(g, x.0) && Step(g, x.0, x.1).Some?;
    }
    assert Passages(g) == {(a, Right)} by {
      var x :| x in Passages(g);
      assert Passages(g) <= {(a, Right)};
    }
    assert !HasWall(At(g, a), Right);
    assert Step(g, a, Right) == Some(b);
    assert !HasWall(At(g, b), Left);
    assert Step(g, a, Left).None? && Step(g, a, Up).None? && Step(g, a, Down).None?;
    assert Step(g, b, Right).None? && Step(g, b, Up).None? && Step(g, b, Down).None?;
    assert Exit(g) == b;
    assert At(g, a) == Cell(true, false, false, true, false);
    assert At(g, b) == Cell(false, true, true, false, false);
    assert |g[1]| == 1;
    assert g[0] == [At(g, a)] && g[1] == [At(g, b)];
  }

  /** The maze of `TwoByOneMazeUnique` meets the constructor's postconditions,
      so construction on two columns and one row always leaves it (first
      ensures). Setting the four walls of its exit cell afterwards does not
      make the exit unreachable (second ensures): the solver tests only the
      wall on the side of the cell it leaves, and the entrance's right wall is
      still absent. */
  lemma SealingExitAloneDoesNotBlock()
    ensures var maze := [[Cell(true, false, false, true, false)], [Cell(false, true, true, false, false)]];
      Rect(maze) && NoneVisited(maze) && Consistent(maze) && OpenOnlyAtEnds(maze) && |Passages(maze)| == 1
    ensures var g := [[Cell(true, false, false, true, false)], [NewCell()]];
      Rect(g) && (forall d :: HasWall(At(g, Exit(g)), d)) && Reachable(g, Origin(), Exit(g))
  {
    var maze := [[Cell(true, false, false, true, false)], [Cell(false, true, true, false, false)]];
    PassagesMembers(maze);
    assert Passages(maze) == {(Origin(), Right)};
    var g := [[Cell(true, false, false, true, false)], [NewCell()]];
    assert [Right][1..] == [];
    assert Follow(g, Origin(), [Right]) == Some(Exit(g));
  }

  // ---------------------------------------------------------------------------
  // Open passages and their number

  /** The open passages between neighbours, each named once: by its left or
      upper cell and the side (right or down) that faces the other cell. */
  ghost function Passages(g: CellGrid): set<(Pos, Dir)>
    requires Rect(g)
  {
    set i: nat, j: nat, d: Dir | i < |g| && j < |g[0]| && (d == Right || d == Down) &&
      Step(g, Pos(i, j), d).Some? && !HasWall(g[i][j], d) :: (Pos(i, j), d)
  }

  lemma PassagesMembers(g: CellGrid)
    requires Rect(g)
    ensures forall x :: x in Passages(g) <==>
      InBounds(g, x.0) && (x.1 == Right || x.1 == Down) && Step(g, x.0, x.1).Some? && !HasWall(At(g, x.0), x.1)
  {
    forall x: (Pos, Dir) | InBounds(g, x.0) && (x.1 == Right || x.1 == Down) && Step(g, x.0, x.1).Some? && !HasWall(At(g, x.0), x.1)
      ensures x in Passages(g)
    {
      assert x == (Pos(x.0.col, x.0.row), x.1);
    }
  }

  /** Grids whose walls agree on every side that has a neighbour have the same
      passages. */
  lemma SamePassages(g0: CellGrid, g1: CellGrid)
    requires SameShape(g0, g1)
    requires forall c, d :: InBounds(g0, c) && Step(g0, c, d).Some? ==> HasWall(At(g1, c), d) == HasWall(At(g0, c), d)
    ensures Passages(g1) == Passages(g0)
  {
    PassagesMembers(g0);
    PassagesMembers(g1);
    forall x | x in Passages(g1)
      ensures x in Passages(g0)
    {
      assert Step(g0, x.0, x.1) == Step(g1, x.0, x.1);
    }
  }

  /** Knocking out a wall pair that was closed on both sides opens exactly one
      new passage. */
  lemma KnockDownOpensOne(g: CellGrid, p: Pos, n: Pos)
    requires Rect(g) && InBounds(g, p) && Step(g, p, Toward(p, n)) == Some(n)
    requires HasWall(At(g, p), Toward(p, n)) && HasWall(At(g, n), Opposite(Toward(p, n)))
    ensures |Passages(KnockDown(g, p, n))| == |Passages(g)| + 1
  {
    var k := KnockDown(g, p, n);
    var dir := Toward(p, n);
    StepBack(g, p, dir);
    var e := if dir == Right || dir == Down then (p, dir) else (n, Opposite(dir));
    KnockDownPassages(g, p, n, e);
    assert Passages(k) == Passages(g) + {e};
  }

  /** The passages after the knock-out: the old ones and the one between `p` and `n`. */
  lemma KnockDownPassages(g: CellGrid, p: Pos, n: Pos, e: (Pos, Dir))
    requires Rect(g) && InBounds(g, p) && Step(g, p, Toward(p, n)) == Some(n)
    requires HasWall(At(g, p), Toward(p, n)) && HasWall(At(g, n), Opposite(Toward(p, n)))
    requires Step(g, n, Opposite(Toward(p, n))) == Some(p)
    requires e == if Toward(p, n) == Right || Toward(p, n) == Down then (p, Toward(p, n)) else (n, Opposite(Toward(p, n)))
    ensures e !in Passages(g)
    ensures forall x :: x in Passages(KnockDown(g, p, n)) <==> x in Passages(g) || x == e
  {
    var k := KnockDown(g, p, n);
    var dir := Toward(p, n);
    PassagesMembers(g);
    PassagesMembers(k);
    forall x: (Pos, Dir)
      ensures x in Passages(k) <==> x in Passages(g) || x == e
    {
      if InBounds(g, x.0) {
        assert Step(g, x.0, x.1) == Step(k, x.0, x.1);
        assert HasWall(At(k, x.0), x.1) ==
          (HasWall(At(g, x.0), x.1) && !(x.0 == p && x.1 == dir) && !(x.0 == n && x.1 == Opposite(dir)));
      }
    }
  }

  /** Every unvisited cell other than `p` has its wall set on each side that
      has a neighbour. */
  ghost predicate WalledIn(g: CellGrid, p: Pos)
  {
    Rect(g) &&
    forall c, d :: InBounds(g, c) && c != p && !At(g, c).visited && Step(g, c, d).Some? ==> HasWall(At(g, c), d)
  }

  /** The positions of the first `n` rows of column `i`. */
  ghost function Column(i: nat, n: nat): set<Pos>
  {
    set j: nat | j < n :: Pos(i, j)
  }

  lemma {:induction false} ColumnSize(i: nat, n: nat)
    ensures |Column(i, n)| == n
  {
    if n == 0 {
      assert Column(i, n) == {};
    } else {
      assert Column(i, n) == Column(i, n - 1) + {Pos(i, n - 1)};
      ColumnSize(i, n - 1);
    }
  }

  /** The positions of an `m` by `n` grid. */
  ghost function Block(m: nat, n: nat): set<Pos>
  {
    set i: nat, j: nat | i < m && j < n :: Pos(i, j)
  }

  lemma {:induction false} BlockSize(m: nat, n: nat)
    ensures |Block(m, n)| == m * n
  {
    if m == 0 {
      assert Block(m, n) == {};
    } else {
      var smaller, column := |Block(m - 1, n)|, |Column(m - 1, n)|;
      assert |Block(m, n)| == smaller + column by { BlockSplit(m - 1, n); }
      assert smaller == (m - 1) * n by { BlockSize(m - 1, n); }
      assert column == n by { ColumnSize(m - 1, n); }
      assert (m - 1) * n + n == m * n;
    }
  }

  /** One more column: the block is the smaller block and the new column, apart. */
  lemma BlockSplit(m: nat, n: nat)
    ensures Block(m + 1, n) == Block(m, n) + Column(m, n)
    ensures Block(m, n) !! Column(m, n)
    ensures |Block(m + 1, n)| == |Block(m, n)| + |Column(m, n)|
  {
    forall x | x in Block(m + 1, n)
      ensures x in Block(m, n) + Column(m, n)
    {
      if x.col < m {
        assert x in Block(m, n);
      } else {
        assert x in Column(m, n);
      }
    }
  }

  /** A grid with nothing visited has every one of its cells unvisited. */
  lemma BlankUnvisitedCount(g: CellGrid)
    requires NoneVisited(g)
    ensures |Unvisited(g)| == |g| * |g[0]|
  {
    UnvisitedMembers(g);
    forall x | x in Block(|g|, |g[0]|)
      ensures x in Unvisited(g)
    {
      assert InBounds(g, x);
    }
    assert Unvisited(g) == Block(|g|, |g[0]|);
    BlockSize(|g|, |g[0]|);
  }

  /** A grid with every cell visited has no unvisited cell. */
  lemma FullUnvisitedCount(g: CellGrid)
    requires Rect(g) && forall c :: InBounds(g, c) ==> At(g, c).visited
    ensures |Unvisited(g)| == 0
  {
    UnvisitedMembers(g);
    assert Unvisited(g) == {};
  }

  // ---------------------------------------------------------------------------
  // The recursion of Grid._break_walls_r

  /** What the carving recursion started at `p` guarantees about the grid `g`
      relative to the grid `g0` it was called on: visited flags only get set,
      walls only get cleared and never on the outer edge, symmetric walls stay
      symmetric, `p` is visited, every other cell it marked has no unvisited
      neighbour left, every cell it marked is reachable from `p`, and every
      cell it did not mark is exactly as it was. When `g0` had symmetric walls
      and every unvisited cell but `p` walled in, each cell marked after `p`
      opened exactly one passage. */
  ghost predicate CarvingFrom(g0: CellGrid, g: CellGrid, p: Pos)
  {
    SameShape(g0, g) && InBounds(g0, p) &&
    VisitedGrows(g0, g) && WallsOnlyCleared(g0, g) && BoundaryKept(g0, g) &&
    (forall c :: InBounds(g0, c) && !Touched(g0, g, p, c) ==> At(g, c) == At(g0, c)) &&
    (Consistent(g0) ==> Consistent(g)) &&
    At(g, p).visited &&
    (forall c :: Touched(g0, g, p, c) && c != p ==> NeighboursVisited(g, c)) &&
    (forall c :: Touched(g0, g, p, c) ==> Reachable(g, p, c)) &&
    (Consistent(g0) && WalledIn(g0, p) ==>
      |Passages(g)| + |Unvisited(g)| + (if At(g0, p).visited then 0 else 1) == |Passages(g0)| + |Unvisited(g0)|)
  }

  lemma GrowsTrans(g0: CellGrid, g1: CellGrid, g2: CellGrid)
    requires VisitedGrows(g0, g1) && VisitedGrows(g1, g2)
    ensures VisitedGrows(g0, g2)
  {
  }

  lemma ClearedTrans(g0: CellGrid, g1: CellGrid, g2: CellGrid)
    requires WallsOnlyCleared(g0, g1) && WallsOnlyCleared(g1, g2)
    ensures WallsOnlyCleared(g0, g2)
  {
  }

  lemma BoundaryTrans(g0: CellGrid, g1: CellGrid, g2: CellGrid)
    requires BoundaryKept(g0, g1) && BoundaryKept(g1, g2)
    ensures BoundaryKept(g0, g2)
  {
  }

  /** The frame part of CarveStep: flags, walls, outer edge and symmetry. */
  lemma CarveStepFrame(g0: CellGrid, g: CellGrid, k: CellGrid, g2: CellGrid, p: Pos, n: Pos)
    requires CarvingFrom(g0, g, p)
    requires Step(g, p, Toward(p, n)) == Some(n)
    requires k == KnockDown(g, p, n)
    requires CarvingFrom(k, g2, n)
    ensures VisitedGrows(g, g2) && WallsOnlyCleared(g, g2)
    ensures VisitedGrows(g0, g2) && WallsOnlyCleared(g0, g2) && BoundaryKept(g0, g2)
    ensures Consistent(g0) ==> Consistent(g2)
  {
    KnockDownKeepsBoundary(g, p, n);
    if Consistent(g) {
      KnockDownKeepsConsistent(g, p, n);
    }
    assert VisitedGrows(g, k);
    GrowsTrans(g, k, g2);
    GrowsTrans(g0, g, g2);
    ClearedTrans(g, k, g2);
    ClearedTrans(g0, g, g2);
    BoundaryTrans(g, k, g2);
    BoundaryTrans(g0, g, g2);
  }

  /** The closure and reachability part of CarveStep, for one marked cell `c`:
      it was marked before the turn, or by the recursion at `n`. */
  lemma CarveStepCell(g0: CellGrid, g: CellGrid, k: CellGrid, g2: CellGrid, p: Pos, n: Pos, c: Pos)
    requires SameShape(g0, g) && SameShape(g, k) && SameShape(k, g2)
    requires VisitedGrows(g0, g) && VisitedGrows(g, g2) && WallsOnlyCleared(g, g2)
    requires InBounds(g0, p) && InBounds(g0, c) && At(k, c).visited == At(g, c).visited
    requires Touched(g0, g, p, c) ==> Reachable(g, p, c) && (c != p ==> NeighboursVisited(g, c))
    requires Touched(k, g2, n, c) ==> Reachable(g2, n, c) && NeighboursVisited(g2, c)
    requires Reachable(g2, p, n)
    requires Touched(g0, g2, p, c)
    ensures Reachable(g2, p, c) && (c != p ==> NeighboursVisited(g2, c))
  {
    if c == p {
      ReachableRefl(g2, p);
    } else if At(g, c).visited {
      ReachableMonotone(g, g2, p, c);
      assert NeighboursVisited(g, c);
      forall d | Step(g2, c, d).Some?
        ensures At(g2, Step(g2, c, d).value).visited
      {
        assert Step(g2, c, d) == Step(g, c, d);
      }
    } else {
      assert Touched(k, g2, n, c);
      ReachableTrans(g2, p, n, c);
    }
  }

  /** The closure and reachability part of CarveStep, for every marked cell. */
  lemma CarveStepClosure(g0: CellGrid, g: CellGrid, k: CellGrid, g2: CellGrid, p: Pos, n: Pos)
    requires CarvingFrom(g0, g, p)
    requires Step(g, p, Toward(p, n)) == Some(n)
    requires k == KnockDown(g, p, n)
    requires CarvingFrom(k, g2, n) && NeighboursVisited(g2, n)
    requires VisitedGrows(g, g2) && WallsOnlyCleared(g, g2)
    ensures forall c :: Touched(g0, g2, p, c) ==> Reachable(g2, p, c) && (c != p ==> NeighboursVisited(g2, c))
  {
    var dir := Toward(p, n);
    assert !HasWall(At(k, p), dir);
    assert CanMove(g2, p, dir);
    ReachableStep(g2, p, dir);
    forall c | Touched(g0, g2, p, c)
      ensures Reachable(g2, p, c) && (c != p ==> NeighboursVisited(g2, c))
    {
      assert Touched(g0, g, p, c) ==> Reachable(g, p, c) && (c != p ==> NeighboursVisited(g, c));
      assert Touched(k, g2, n, c) ==> Reachable(g2, n, c) && (c != n ==> NeighboursVisited(g2, c));
      CarveStepCell(g0, g, k, g2, p, n, c);
    }
  }

  /** The cells CarveStep leaves alone: not marked before the turn and not
      marked by the recursion at `n`. */
  lemma CarveStepUntouched(g0: CellGrid, g: CellGrid, k: CellGrid, g2: CellGrid, p: Pos, n: Pos)
    requires SameShape(g0, g) && SameShape(g, k) && SameShape(k, g2) && InBounds(g0, p)
    requires VisitedGrows(g0, g) && VisitedGrows(g, g2) && At(g, p).visited
    requires InBounds(g, n) && !At(g, n).visited && At(g2, n).visited
    requires forall c :: InBounds(g0, c) && !Touched(g0, g, p, c) ==> At(g, c) == At(g0, c)
    requires forall c :: InBounds(g, c) && c != p && c != n ==> At(k, c) == At(g, c)
    requires forall c :: InBounds(k, c) && !Touched(k, g2, n, c) ==> At(g2, c) == At(k, c)
    ensures forall c :: InBounds(g0, c) && !Touched(g0, g2, p, c) ==> At(g2, c) == At(g0, c)
  {
    forall c | InBounds(g0, c) && !Touched(g0, g2, p, c)
      ensures At(g2, c) == At(g0, c)
    {
      assert !Touched(g0, g, p, c);
      assert c != n;
      assert !Touched(k, g2, n, c);
    }
  }

  /** The passage count of one turn of the carving loop: the knock-out opens
      one passage towards the unvisited `n`, and the recursion at `n` opens one
      for each further cell it marks. */
  lemma CarveStepCount(g0: CellGrid, g: CellGrid, k: CellGrid, g2: CellGrid, p: Pos, n: Pos)
    requires SameShape(g0, g) && InBounds(g0, p) && VisitedGrows(g0, g) && At(g, p).visited
    requires forall c :: InBounds(g0, c) && !Touched(g0, g, p, c) ==> At(g, c) == At(g0, c)
    requires Consistent(g0) && WalledIn(g0, p) && Consistent(g)
    requires |Passages(g)| + |Unvisited(g)| + (if At(g0, p).visited then 0 else 1) == |Passages(g0)| + |Unvisited(g0)|
    requires Step(g, p, Toward(p, n)) == Some(n) && !At(g, n).visited
    requires k == KnockDown(g, p, n) && SameShape(k, g2)
    requires Consistent(k) && WalledIn(k, n) ==> |Passages(g2)| + |Unvisited(g2)| + 1 == |Passages(k)| + |Unvisited(k)|
    ensures |Passages(g2)| + |Unvisited(g2)| + (if At(g0, p).visited then 0 else 1) == |Passages(g0)| + |Unvisited(g0)|
  {
    var dir := Toward(p, n);
    StepBack(g, p, dir);
    assert !Touched(g0, g, p, n);
    assert At(g, n) == At(g0, n);
    assert HasWall(At(g, n), Opposite(dir));
    KnockDownOpensOne(g, p, n);
    KnockDownKeepsConsistent(g, p, n);
    UnvisitedSameFlags(g, k);
    KnockDownElsewhere(g, p, n);
    KnockDownWalledIn(g0, g, k, p, n);
  }

  /** After the knock-out towards `n`, every unvisited cell but `n` is still
      walled in: it was not marked, so it is as it was in `g0`. */
  lemma KnockDownWalledIn(g0: CellGrid, g: CellGrid, k: CellGrid, p: Pos, n: Pos)
    requires SameShape(g0, g) && SameShape(g, k) && InBounds(g0, p) && At(g, p).visited
    requires VisitedGrows(g0, g) && WalledIn(g0, p)
    requires forall c :: InBounds(g0, c) && !Touched(g0, g, p, c) ==> At(g, c) == At(g0, c)
    requires forall c :: InBounds(g, c) && c != p && c != n ==> At(k, c) == At(g, c)
    requires At(k, p).visited
    ensures WalledIn(k, n)
  {
    forall c, d | InBounds(k, c) && c != n && !At(k, c).visited && Step(k, c, d).Some?
      ensures HasWall(At(k, c), d)
    {
      assert c != p && !Touched(g0, g, p, c);
      assert Step(g0, c, d) == Step(k, c, d);
    }
  }

  /** One turn of the carving loop at `p`: knock out the wall pair towards the
      chosen candidate `n`, recurse there, and the carving invariant at `p`
      still holds while the unvisited cells strictly shrink. */
  lemma CarveStep(g0: CellGrid, g: CellGrid, k: CellGrid, g2: CellGrid, p: Pos, n: Pos)
    requires CarvingFrom(g0, g, p)
    requires Step(g, p, Toward(p, n)) == Some(n) && !At(g, n).visited
    requires k == KnockDown(g, p, n)
    requires CarvingFrom(k, g2, n) && NeighboursVisited(g2, n)
    ensures CarvingFrom(g0, g2, p)
    ensures Unvisited(g2) < Unvisited(g)
  {
    CarveStepFrame(g0, g, k, g2, p, n);
    CarveStepClosure(g0, g, k, g2, p, n);
    KnockDownElsewhere(g, p, n);
    CarveStepUntouched(g0, g, k, g2, p, n);
    if Consistent(g0) && WalledIn(g0, p) {
      CarveStepCount(g0, g, k, g2, p, n);
    }
    UnvisitedShrinks(g, g2);
    UnvisitedMembers(g);
    UnvisitedMembers(g2);
    assert n in Unvisited(g) && n !in Unvisited(g2);
  }

  /** Carving from the origin of a grid with nothing visited visits every cell
      and leaves every cell reachable from the origin. */
  lemma CarvedFromBlankIsConnected(g0: CellGrid, g: CellGrid)
    requires NoneVisited(g0) && CarvingFrom(g0, g, Origin()) && NeighboursVisited(g, Origin())
    ensures forall c :: InBounds(g, c) ==> At(g, c).visited && Reachable(g, Origin(), c)
  {
    forall x | InBounds(g, x) && At(g, x).visited
      ensures NeighboursVisited(g, x)
    {
      assert Touched(g0, g, Origin(), x);
    }
    AllVisitedFromOrigin(g);
    forall c | InBounds(g, c)
      ensures Reachable(g, Origin(), c)
    {
      assert Touched(g0, g, Origin(), c);
    }
  }

  // ---------------------------------------------------------------------------
  // The recursion of Grid._solve_r

  /** Every cell a search from `p` marked (and `p`) is reachable from `p`:
      the search enters a cell only through an absent wall. */
  ghost predicate MarkedReachable(g0: CellGrid, g: CellGrid, p: Pos)
  {
    SameShape(g0, g) &&
    forall c :: Touched(g0, g, p, c) ==> Reachable(g, p, c)
  }

  /** What a failed search from `p` leaves: `p` is visited, every cell it
      marked (and `p`) is reachable from `p` and has only visited cells behind
      its open sides, and it never marked the exit. */
  ghost predicate DeadEnd(g0: CellGrid, g: CellGrid, p: Pos)
  {
    SameShape(g0, g) && InBounds(g0, p) && At(g, p).visited &&
    MarkedReachable(g0, g, p) &&
    (forall c :: Touched(g0, g, p, c) ==> MovesClosed(g, c)) &&
    !Touched(g0, g, p, Exit(g0))
  }

  /** The state of a search at `p` between its direction tests. */
  ghost predicate SearchingFrom(g0: CellGrid, g: CellGrid, p: Pos)
  {
    SameWalls(g0, g) && VisitedGrows(g0, g) && InBounds(g0, p) &&
    At(g, p).visited && p != Exit(g0) && MarkedReachable(g0, g, p) &&
    (forall c :: Touched(g0, g, p, c) && c != p ==> MovesClosed(g, c)) &&
    !Touched(g0, g, p, Exit(g0))
  }

  /** A failed recursive search across side `d` settles that side and keeps the
      search invariant at `p`, and sides already settled stay settled. */
  lemma SearchStep(g0: CellGrid, g: CellGrid, g2: CellGrid, p: Pos, d: Dir)
    requires SearchingFrom(g0, g, p) && SettledBefore(g, p, Rank(d))
    requires CanMove(g, p, d) && !At(g, Step(g, p, d).value).visited
    requires SameWalls(g, g2) && VisitedGrows(g, g2)
    requires DeadEnd(g, g2, Step(g, p, d).value)
    ensures SearchingFrom(g0, g2, p) && SettledBefore(g2, p, Rank(d) + 1)
  {
    var q := Step(g, p, d).value;
    SearchStepClosed(g0, g, g2, p, q);
    forall e | Rank(e) < Rank(d) + 1
      ensures Settled(g2, p, e)
    {
      if e != d {
        assert Settled(g, p, e);
      }
    }
    assert !Touched(g, g2, q, Exit(g));
    MarkedExtends(g0, g, g2, p, d, q);
  }

  /** The cells marked before a move across side `d` stay reachable from `p`,
      and the cells the search from the neighbour `q` marked are reachable
      through that move. */
  lemma MarkedExtends(g0: CellGrid, g: CellGrid, g2: CellGrid, p: Pos, d: Dir, q: Pos)
    requires SameWalls(g0, g) && VisitedGrows(g0, g) && InBounds(g0, p) && MarkedReachable(g0, g, p)
    requires CanMove(g, p, d) && Step(g, p, d) == Some(q)
    requires SameWalls(g, g2) && VisitedGrows(g, g2) && MarkedReachable(g, g2, q)
    ensures MarkedReachable(g0, g2, p)
  {
    assert CanMove(g2, p, d);
    ReachableStep(g2, p, d);
    forall c | Touched(g0, g2, p, c)
      ensures Reachable(g2, p, c)
    {
      if c == p || At(g, c).visited {
        assert Touched(g0, g, p, c);
        ReachableSameWalls(g, g2, p, c);
      } else {
        assert Touched(g, g2, q, c);
        ReachableTrans(g2, p, q, c);
      }
    }
  }

  /** After a failed search from the neighbour `q`, every cell marked so far
      other than `p` has only visited cells behind its open sides. */
  lemma SearchStepClosed(g0: CellGrid, g: CellGrid, g2: CellGrid, p: Pos, q: Pos)
    requires SameShape(g0, g) && InBounds(g0, p)
    requires forall c :: Touched(g0, g, p, c) && c != p ==> MovesClosed(g, c)
    requires SameWalls(g, g2) && VisitedGrows(g, g2) && DeadEnd(g, g2, q)
    ensures forall c :: Touched(g0, g2, p, c) && c != p ==> MovesClosed(g2, c)
  {
    forall c | Touched(g0, g2, p, c) && c != p
      ensures MovesClosed(g2, c)
    {
      if At(g, c).visited {
        assert Touched(g0, g, p, c);
        assert MovesClosed(g, c);
        forall e
          ensures Settled(g2, c, e)
        {
          assert Settled(g, c, e);
        }
      } else {
        assert Touched(g, g2, q, c);
      }
    }
  }

  /** A side the search does not enter is already settled. */
  lemma SearchSkip(g: CellGrid, p: Pos, d: Dir)
    requires Rect(g) && InBounds(g, p) && SettledBefore(g, p, Rank(d)) && Settled(g, p, d)
    ensures SettledBefore(g, p, Rank(d) + 1)
  {
    forall e | Rank(e) < Rank(d) + 1
      ensures Settled(g, p, e)
    {
      if e != d {
        assert Rank(e) < Rank(d);
      }
    }
  }

  /** A successful recursive search across an open side extends to `p`. */
  lemma SearchFound(g0: CellGrid, g: CellGrid, g2: CellGrid, p: Pos, d: Dir, q: Pos)
    requires SearchingFrom(g0, g, p) && CanMove(g, p, d) && Step(g, p, d) == Some(q)
    requires SameWalls(g, g2) && VisitedGrows(g, g2)
    requires Reachable(g2, q, Exit(g2)) && MarkedReachable(g, g2, q)
    ensures SameWalls(g0, g2) && VisitedGrows(g0, g2) && At(g2, p).visited
    ensures Reachable(g2, p, Exit(g2)) && MarkedReachable(g0, g2, p)
  {
    assert CanMove(g2, p, d);
    ReachableStep(g2, p, d);
    ReachableTrans(g2, p, q, Exit(g2));
    GrowsTrans(g0, g, g2);
    MarkedExtends(g0, g, g2, p, d, q);
  }

  /** A search from the origin of a grid with nothing visited fails only when
      the exit is unreachable from the origin. */
  lemma FailedSearchUnreachable(g0: CellGrid, g: CellGrid)
    requires NoneVisited(g0) && DeadEnd(g0, g, Origin())
    ensures !Reachable(g, Origin(), Exit(g))
  {
    forall c | InBounds(g, c) && At(g, c).visited
      ensures MovesClosed(g, c)
    {
      assert Touched(g0, g, Origin(), c);
    }
    assert !At(g, Exit(g)).visited by {
      assert !Touched(g0, g, Origin(), Exit(g0));
    }
    ClosedBlocks(g, Origin(), Exit(g));
  }

  // ---------------------------------------------------------------------------
  // Termination and entry of both recursions

  /** Grids with the same visited flags have the same unvisited cells. */
  lemma UnvisitedSameFlags(g: CellGrid, k: CellGrid)
    requires SameShape(g, k) && forall c :: InBounds(g, c) ==> At(k, c).visited == At(g, c).visited
    ensures Unvisited(k) == Unvisited(g)
  {
    UnvisitedMembers(g);
    UnvisitedMembers(k);
  }

  /** A recursive call from `p` to an unvisited `q`, made after `p` was marked,
      is measured by a strictly smaller set than the call at `p` was. */
  lemma Descends(g0: CellGrid, g: CellGrid, p: Pos, q: Pos)
    requires VisitedGrows(g0, g) && InBounds(g, p) && At(g, p).visited
    requires InBounds(g, q) && !At(g, q).visited
    ensures Unvisited(g) + {q} < Unvisited(g0) + {p}
  {
    UnvisitedMembers(g0);
    UnvisitedMembers(g);
    UnvisitedShrinks(g0, g);
    assert p !in Unvisited(g);
  }

  /** Marking `p` visited starts the carving invariant. */
  lemma CarveStart(g0: CellGrid, p: Pos)
    requires Rect(g0) && InBounds(g0, p)
    ensures CarvingFrom(g0, SetCell(g0, p, At(g0, p).(visited := true)), p)
  {
    var g := SetCell(g0, p, At(g0, p).(visited := true));
    ReachableRefl(g, p);
    assert SameWalls(g0, g);
    assert WallsOnlyCleared(g0, g) && BoundaryKept(g0, g);
    if Consistent(g0) {
      OuterChangeKeepsConsistent(g0, g);
    }
    assert VisitedGrows(g0, g);
    assert forall c :: Touched(g0, g, p, c) ==> c == p;
    CarveStartCount(g0, p);
  }

  /** Marking `p` visited opens no passage and removes `p`, if it was
      unvisited, from the unvisited cells. */
  lemma CarveStartCount(g0: CellGrid, p: Pos)
    requires Rect(g0) && InBounds(g0, p)
    ensures var g := SetCell(g0, p, At(g0, p).(visited := true));
      |Passages(g)| + |Unvisited(g)| + (if At(g0, p).visited then 0 else 1) == |Passages(g0)| + |Unvisited(g0)|
  {
    MarkKeepsPassages(g0, p);
    MarkUnvisited(g0, p);
  }

  /** Marking `p` visited changes no wall, so it opens no passage. */
  lemma MarkKeepsPassages(g0: CellGrid, p: Pos)
    requires Rect(g0) && InBounds(g0, p)
    ensures Passages(SetCell(g0, p, At(g0, p).(visited := true))) == Passages(g0)
  {
    SamePassages(g0, SetCell(g0, p, At(g0, p).(visited := true)));
  }

  /** Marking `p` visited removes it from the unvisited cells and keeps the rest. */
  lemma MarkUnvisited(g0: CellGrid, p: Pos)
    requires Rect(g0) && InBounds(g0, p)
    ensures Unvisited(g0) == Unvisited(SetCell(g0, p, At(g0, p).(visited := true))) + (if At(g0, p).visited then {} else {p})
    ensures p !in Unvisited(SetCell(g0, p, At(g0, p).(visited := true)))
  {
    var g := SetCell(g0, p, At(g0, p).(visited := true));
    UnvisitedMembers(g0);
    UnvisitedMembers(g);
  }

  /** Marking `p` visited keeps the walls, marks `p` alone, and `p` reaches
      itself. */
  lemma MarkOnly(g0: CellGrid, p: Pos)
    requires Rect(g0) && InBounds(g0, p)
    ensures var g := SetCell(g0, p, At(g0, p).(visited := true));
      SameWalls(g0, g) && VisitedGrows(g0, g) && At(g, p).visited &&
      (forall c :: Touched(g0, g, p, c) ==> c == p) && MarkedReachable(g0, g, p)
  {
    var g := SetCell(g0, p, At(g0, p).(visited := true));
    assert SameWalls(g0, g);
    assert forall c :: Touched(g0, g, p, c) ==> c == p;
    ReachableRefl(g, p);
  }

  /** Marking `p` visited, when `p` is not the exit, starts the search invariant. */
  lemma SearchStart(g0: CellGrid, p: Pos)
    requires Rect(g0) && InBounds(g0, p) && p != Exit(g0)
    ensures SearchingFrom(g0, SetCell(g0, p, At(g0, p).(visited := true)), p)
  {
    MarkOnly(g0, p);
  }

  /** The sides of `p` before rank `n` in scan order are settled. */
  ghost predicate SettledBefore(g: CellGrid, p: Pos, n: nat)
    requires Rect(g) && InBounds(g, p)
  {
    forall e :: Rank(e) < n ==> Settled(g, p, e)
  }

  /** Once every side of `p` is settled, the search from `p` has failed cleanly. */
  lemma SearchExhausted(g0: CellGrid, g: CellGrid, p: Pos)
    requires SearchingFrom(g0, g, p) && SettledBefore(g, p, 4)
    ensures DeadEnd(g0, g, p)
  {
    forall d
      ensures Settled(g, p, d)
    {
      assert Rank(d) < 4;
    }
  }

  // ---------------------------------------------------------------------------
  // Construction: Grid.__init__

  /** A grid of fresh cells has nothing visited and agreeing (all present) walls. */
  lemma FreshGridIsBlank(g: CellGrid)
    requires Rect(g) && forall c :: InBounds(g, c) ==> At(g, c) == NewCell()
    ensures NoneVisited(g) && Consistent(g)
    ensures forall c, d :: InBounds(g, c) ==> HasWall(At(g, c), d)
  {
  }

  /** The outer edge is closed everywhere except the entrance's top and the exit's bottom. */
  ghost predicate OpenOnlyAtEnds(g: CellGrid)
    requires Rect(g)
  {
    forall c, d :: InBounds(g, c) && Step(g, c, d).None? ==>
      (HasWall(At(g, c), d) <==> !(c == Origin() && d == Up) && !(c == Exit(g) && d == Down))
  }

  /** Opening entrance and exit in a grid of fresh cells leaves an unvisited,
      consistent grid whose outer edge is open only there. */
  lemma OpenedIsBlank(created: CellGrid, breached: CellGrid)
    requires Rect(created) && forall c :: InBounds(created, c) ==> At(created, c) == NewCell()
    requires SameShape(created, breached)
    requires forall c, d :: InBounds(breached, c) ==>
      HasWall(At(breached, c), d) ==
        (HasWall(At(created, c), d) && !(c == Origin() && d == Up) && !(c == Exit(breached) && d == Down))
    requires forall c :: InBounds(breached, c) ==> At(breached, c).visited == At(created, c).visited
    ensures NoneVisited(breached) && Consistent(breached) && OpenOnlyAtEnds(breached)
    ensures WalledIn(breached, Origin()) && |Passages(breached)| == 0
  {
    FreshGridIsBlank(created);
    OuterChangeKeepsConsistent(created, breached);
    PassagesMembers(breached);
    assert Passages(breached) == {};
  }

  /** Keeping the outer walls keeps the outer edge open only at the ends. */
  lemma OpenOnlyAtEndsKept(g0: CellGrid, g1: CellGrid)
    requires Rect(g0) && OpenOnlyAtEnds(g0) && BoundaryKept(g0, g1)
    ensures OpenOnlyAtEnds(g1)
  {
    forall c, d | InBounds(g1, c) && Step(g1, c, d).None?
      ensures HasWall(At(g1, c), d) <==> !(c == Origin() && d == Up) && !(c == Exit(g1) && d == Down)
    {
      assert Step(g0, c, d).None? && Exit(g0) == Exit(g1);
    }
  }

  /** Carving from the origin of such a grid and then clearing every visited
      flag leaves an unvisited, consistent grid, open on its outer edge only at
      the entrance and the exit, with every cell reachable from the origin and
      one passage fewer than there are cells. */
  lemma ConstructionEnds(breached: CellGrid, carved: CellGrid, g: CellGrid)
    requires NoneVisited(breached) && Consistent(breached) && OpenOnlyAtEnds(breached)
    requires WalledIn(breached, Origin()) && |Passages(breached)| == 0
    requires CarvingFrom(breached, carved, Origin()) && NeighboursVisited(carved, Origin())
    requires SameShape(carved, g) && forall c :: InBounds(g, c) ==> At(g, c) == At(carved, c).(visited := false)
    ensures NoneVisited(g) && Consistent(g) && OpenOnlyAtEnds(g)
    ensures !HasWall(At(g, Origin()), Up) && !HasWall(At(g, Exit(g)), Down)
    ensures forall c :: InBounds(g, c) ==> Reachable(g, Origin(), c)
    ensures |Passages(g)| == |g| * |g[0]| - 1
  {
    CarvedFromBlankIsConnected(breached, carved);
    BlankUnvisitedCount(breached);
    FullUnvisitedCount(carved);
    assert SameWalls(carved, g);
    OuterChangeKeepsConsistent(carved, g);
    forall c | InBounds(g, c)
      ensures Reachable(g, Origin(), c)
    {
      ReachableSameWalls(carved, g, Origin(), c);
    }
    OpenOnlyAtEndsKept(breached, carved);
    assert BoundaryKept(carved, g);
    OpenOnlyAtEndsKept(carved, g);
    SamePassages(carved, g);
    assert Step(g, Origin(), Up).None? && Step(g, Exit(g), Down).None?;
  }
}
