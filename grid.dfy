/** The maze itself (class Grid of graphics.py): a column-major list of cells
    that construction fills, opens at entrance and exit, carves by randomized
    recursive backtracking, and that `Solve` searches depth-first. Drawing and
    animation calls are no-ops here and are left out. */
module Grids {
  import opened Cells
  import opened Board

  class Grid {
    const numRows: nat
    const numCols: nat
    /** `_cells[i][j]`: column i < numCols, row j < numRows. */
    var cells: CellGrid

    ghost predicate Valid()
      reads this
    {
      numCols > 0 && numRows > 0 && Rect(cells) && |cells| == numCols && |cells[0]| == numRows
    }

    /** `Grid.__init__`: build the cells, open entrance and exit, carve the maze
        from (0, 0), then clear every visited flag. */
    constructor (numRows: nat, numCols: nat)
      requires numRows > 0 && numCols > 0
      ensures Valid() && this.numRows == numRows && this.numCols == numCols
      ensures |cells| == numCols && forall i :: 0 <= i < numCols ==> |cells[i]| == numRows
      ensures NoneVisited(cells)
      ensures !HasWall(At(cells, Origin()), Up) && !HasWall(At(cells, Exit(cells)), Down)
      ensures OpenOnlyAtEnds(cells) && Consistent(cells)
      ensures |Passages(cells)| == numCols * numRows - 1
      ensures forall c :: InBounds(cells, c) ==> Reachable(cells, Origin(), c)
    {
      this.numRows := numRows;
      this.numCols := numCols;
      cells := [];
      new;
      CreateCells();
      ghost var created := cells;
      assert Rect(created) && forall c :: InBounds(created, c) ==> At(created, c) == NewCell();
      BreakEntranceAndExit();
      OpenedIsBlank(created, cells);
      ghost var breached := cells;
      BreakWallsR(0, 0);
      ghost var carved := cells;
      ResetCellsVisited();
      ConstructionEnds(breached, carved, cells);
    }

    /** `_create_cells`: append `numCols` columns of `numRows` fresh cells. */
    method CreateCells()
      modifies this
      ensures |cells| == |old(cells)| + numCols && cells[..|old(cells)|] == old(cells)
      ensures forall i :: |old(cells)| <= i < |cells| ==>
        |cells[i]| == numRows && forall j :: 0 <= j < numRows ==> cells[i][j] == NewCell()
    {
      var i := 0;
      while i < numCols
        invariant 0 <= i <= numCols
        invariant |cells| == |old(cells)| + i && cells[..|old(cells)|] == old(cells)
        invariant forall k :: |old(cells)| <= k < |cells| ==>
          |cells[k]| == numRows && forall j :: 0 <= j < numRows ==> cells[k][j] == NewCell()
      {
        var colCells: seq<Cell> := [];
        var j := 0;
        while j < numRows
          invariant 0 <= j <= numRows
          invariant |colCells| == j && forall l :: 0 <= l < j ==> colCells[l] == NewCell()
        {
          colCells := colCells + [NewCell()];
          j := j + 1;
        }
        cells := cells + [colCells];
        i := i + 1;
      }
    }

    /** `_break_entrance_and_exit`: clear the top wall of (0, 0) and the bottom
        wall of (numCols - 1, numRows - 1); nothing else changes. */
    method BreakEntranceAndExit()
      requires Valid()
      modifies this
      ensures Valid() && SameShape(old(cells), cells)
      ensures forall c, d :: InBounds(cells, c) ==>
        HasWall(At(cells, c), d) ==
          (HasWall(At(old(cells), c), d) && !(c == Origin() && d == Up) && !(c == Exit(cells) && d == Down))
      ensures forall c :: InBounds(cells, c) ==> At(cells, c).visited == At(old(cells), c).visited
    {
      cells := ClearWall(cells, Origin(), Up);
      cells := ClearWall(cells, Pos(numCols - 1, numRows - 1), Down);
    }

    /** `_break_walls_r(i, j)`: mark (i, j) visited, then, while it has an
        unvisited neighbour, pick one of the candidates (any of them: the source
        asks `random.randrange`), knock out the wall pair between the two cells
        and carve on from there. */
    method BreakWallsR(i: nat, j: nat)
      requires Valid() && i < numCols && j < numRows
      modifies this
      ensures Valid()
      ensures CarvingFrom(old(cells), cells, Pos(i, j))
      ensures NeighboursVisited(cells, Pos(i, j))
      decreases Unvisited(cells) + {Pos(i, j)}
    {
      var p := Pos(i, j);
      CarveStart(cells, p);
      cells := SetCell(cells, p, At(cells, p).(visited := true));
      while true
        invariant Valid()
        invariant CarvingFrom(old(cells), cells, p)
        decreases Unvisited(cells)
      {
        var next := Candidates(cells, p);
        if |next| == 0 {
          return;
        }
        var k :| 0 <= k < |next|;
        var n := next[k];
        ghost var before := cells;
        cells := KnockDown(cells, p, n);
        ghost var knocked := cells;
        UnvisitedSameFlags(before, knocked);
        Descends(old(cells), before, p, n);
        BreakWallsR(n.col, n.row);
        CarveStep(old(cells), before, knocked, cells, p, n);
      }
    }

    /** `_reset_cells_visited`: clear the visited flag of every cell. */
    method ResetCellsVisited()
      requires Valid()
      modifies this
      ensures Valid() && SameShape(old(cells), cells)
      ensures forall c :: InBounds(cells, c) ==> At(cells, c) == At(old(cells), c).(visited := false)
    {
      var i := 0;
      while i < |cells|
        invariant 0 <= i <= |cells|
        invariant Valid() && SameShape(old(cells), cells)
        invariant forall c :: InBounds(cells, c) ==>
          At(cells, c) == if c.col < i then At(old(cells), c).(visited := false) else At(old(cells), c)
      {
        var j := 0;
        while j < |cells[i]|
          invariant i < |cells| && 0 <= j <= |cells[i]|
          invariant Valid() && SameShape(old(cells), cells)
          invariant forall c :: InBounds(cells, c) ==>
            At(cells, c) ==
              if c.col < i || (c.col == i && c.row < j) then At(old(cells), c).(visited := false)
              else At(old(cells), c)
        {
          cells := SetCell(cells, Pos(i, j), cells[i][j].(visited := false));
          j := j + 1;
        }
        i := i + 1;
      }
    }

    /** `_solve_r(i, j)`: mark (i, j) visited; succeed at the exit; otherwise
        try left, right, up and down in turn (`TrySide`) and stop at the first
        success. Visited flags are never cleared. */
    method SolveR(i: nat, j: nat) returns (found: bool)
      requires Valid() && i < numCols && j < numRows
      modifies this
      ensures Valid() && SameWalls(old(cells), cells) && VisitedGrows(old(cells), cells)
      ensures At(cells, Pos(i, j)).visited
      ensures Pos(i, j) == Exit(cells) ==> found
      ensures Pos(i, j) == Exit(old(cells)) ==> cells == SetCell(old(cells), Pos(i, j), At(old(cells), Pos(i, j)).(visited := true))
      ensures MarkedReachable(old(cells), cells, Pos(i, j))
      ensures found ==> Reachable(cells, Pos(i, j), Exit(cells))
      ensures !found ==> DeadEnd(old(cells), cells, Pos(i, j))
      decreases Unvisited(cells) + {Pos(i, j)}, 1
    {
      var p := Pos(i, j);
      ghost var g0 := cells;
      if p != Exit(g0) {
        SearchStart(g0, p);
      } else {
        MarkOnly(g0, p);
      }
      cells := SetCell(cells, p, At(cells, p).(visited := true));
      if i == numCols - 1 && j == numRows - 1 {
        return true;
      }
      UnvisitedShrinks(g0, cells);
      found := TrySide(i, j, Left, g0);
      if found {
        return;
      }
      UnvisitedShrinks(g0, cells);
      found := TrySide(i, j, Right, g0);
      if found {
        return;
      }
      UnvisitedShrinks(g0, cells);
      found := TrySide(i, j, Up, g0);
      if found {
        return;
      }
      UnvisitedShrinks(g0, cells);
      found := TrySide(i, j, Down, g0);
      if found {
        return;
      }
      SearchExhausted(g0, cells, p);
    }

    /** One direction test of `_solve_r(i, j)`: when a neighbour exists across
        side `d`, the wall on this cell's side `d` is absent and the neighbour
        is unvisited, search on from the neighbour. `g0` is the grid as the
        search at (i, j) found it. */
    method TrySide(i: nat, j: nat, d: Dir, ghost g0: CellGrid) returns (found: bool)
      requires Valid() && i < numCols && j < numRows
      requires SearchingFrom(g0, cells, Pos(i, j)) && SettledBefore(cells, Pos(i, j), Rank(d))
      modifies this
      ensures Valid() && SameWalls(old(cells), cells) && VisitedGrows(old(cells), cells)
      ensures SameWalls(g0, cells) && VisitedGrows(g0, cells)
      ensures found ==> At(cells, Pos(i, j)).visited && Reachable(cells, Pos(i, j), Exit(cells))
      ensures found ==> MarkedReachable(g0, cells, Pos(i, j))
      ensures !found ==> SearchingFrom(g0, cells, Pos(i, j)) && SettledBefore(cells, Pos(i, j), Rank(d) + 1)
      decreases Unvisited(cells) + {Pos(i, j)}, 0
    {
      var p := Pos(i, j);
      var next := Step(cells, p, d);
      if next.Some? && !HasWall(cells[i][j], d) && !At(cells, next.value).visited {
        var q := next.value;
        ghost var before := cells;
        Descends(before, before, p, q);
        found := SolveR(q.col, q.row);
        if found {
          SearchFound(g0, before, cells, p, d, q);
          return;
        }
        SearchStep(g0, before, cells, p, d);
      } else {
        SearchSkip(cells, p, d);
        found := false;
      }
    }

    /** `solve`: search from the entrance. Success always means the exit is
        reachable; on a grid with no cell visited (as construction leaves it)
        failure means it is not. */
    method Solve() returns (found: bool)
      requires Valid()
      modifies this
      ensures Valid() && SameWalls(old(cells), cells) && VisitedGrows(old(cells), cells)
      ensures found ==> Reachable(old(cells), Origin(), Exit(old(cells)))
      ensures NoneVisited(old(cells)) ==> (found <==> Reachable(old(cells), Origin(), Exit(old(cells))))
      ensures forall c :: InBounds(cells, c) && At(cells, c).visited && !At(old(cells), c).visited ==>
        Reachable(old(cells), Origin(), c)
    {
      found := SolveR(0, 0);
      forall c | InBounds(cells, c) && At(cells, c).visited && !At(old(cells), c).visited
        ensures Reachable(old(cells), Origin(), c)
      {
        assert Touched(old(cells), cells, Origin(), c);
        ReachableSameWalls(old(cells), cells, Origin(), c);
      }
      ReachableSameWalls(old(cells), cells, Origin(), Exit(cells));
      if !found && NoneVisited(old(cells)) {
        FailedSearchUnreachable(old(cells), cells);
      }
    }
  }

  /** Building a maze and solving it (the flow of main.py) always succeeds,
      whatever the random choices were. */
  method GenerateAndSolve(numRows: nat, numCols: nat) returns (solved: bool)
    requires numRows > 0 && numCols > 0
    ensures solved
  {
    var grid := new Grid(numRows, numCols);
    solved := grid.Solve();
  }
}
