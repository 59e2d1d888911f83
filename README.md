# Maze generation and solving, modelled in Dafny

This project models the algorithmic core of a small maze program (`graphics.py`,
driven by `main.py`). It covers the following:

- **The grid.** A `Grid` holds a column-major list `_cells` of `Cell`s. Index
  `_cells[i][j]` is column `i` and row `j`. Each cell has four wall flags and a
  `visited` flag.
- **Construction.** The constructor creates `num_cols` columns of `num_rows`
  fresh cells. It opens the top wall of the entrance `(0, 0)` and the bottom
  wall of the exit `(num_cols - 1, num_rows - 1)`. It then carves a maze by
  randomized recursive backtracking from the entrance (`_break_walls_r`).
  Finally it clears every visited flag (`_reset_cells_visited`).
- **Solving.** `solve` runs a depth-first search (`_solve_r`) from the entrance.
  At each cell it tries left, right, up and down in that order. It moves only
  where the wall on the current cell's side is absent and the neighbour is
  unvisited. It returns whether the exit was reached.

Modules:

- `Cells` (`cell.dfy`): the cell record and the four sides.
- `Board` (`board.dfy`): grids of cells as values, with the functions and
  lemmas below:
  - neighbours;
  - the candidate list and the wall knock-out of the carving step;
  - routes through absent walls (`Follow`, `Reachable`);
  - the invariants both recursions are proved with.
- `Grids` (`grid.dfy`): the class `Grid`.
  - Its field `cells` is `_cells`.
  - Its methods are the constructor and the five private methods plus
    `solve`. Each one changes `cells` in place, with loops where the source
    loops and recursion where it recurses.
  - The helper method `TrySide` is one of the four direction blocks of
    `_solve_r`, called once per side.
  - The module-level method `GenerateAndSolve` is the flow of `main.py`:
    build a maze, then solve it.

A cell is never shared between two positions. So `self._cells[i][j].f = v` is
modelled as replacing the value at `(i, j)`.

The random choice `random.randrange(len(next_index_list))` is modelled as an
arbitrary index into the candidate list. Every property below holds whichever
index is picked.

What is proved:

- **Construction.**
  - Every constructed maze has symmetric walls between neighbours.
  - Its outer edge is closed everywhere except at the entrance and the exit.
  - No cell is left visited.
  - Every cell is reachable from the entrance.
  - The number of open wall pairs between neighbours (passages) is one less
    than the number of cells. Each cell the carving marks after the first
    opens exactly one passage, because a cell not yet marked still has all its
    walls toward neighbours set. So a grid of at least two columns and two
    rows with every inner wall cleared does not meet this contract.
- **Solving.**
  - `solve` is sound: `true` means a route to the exit exists.
  - The search marks only cells it reaches through absent walls. Every cell
    it marks is reachable from the cell it started at, and at the exit it
    marks the exit alone.
  - On a grid with nothing visited, `solve` is also complete: it returns `true`
    exactly when such a route exists.
  - Building a maze and then solving it (the flow of `main.py`) therefore
    always succeeds.

A note on the solver's wall test:

- The solver tests only the wall on the side of the cell it is leaving. The
  neighbour's facing wall is not checked.
- So setting the four walls of the exit cell need not make a generated maze
  unsolvable: the exit can still be entered from a neighbour whose wall
  toward it was knocked out. This is proved for two columns and one row only.
- The model follows the code. `Board.TwoByOneMazeUnique` proves that
  construction on two columns and one row can leave only one maze. In it the
  wall pair between the two cells is knocked out and the entrance's top and
  the exit's bottom are open. `Board.SealingExitAloneDoesNotBlock` shows that
  this maze meets the constructor's postconditions. It then sets the four
  walls of the exit cell and shows the exit is still reachable.
- `Board.SealedExitUnreachable` proves the exit unreachable once walls are
  also kept symmetric, i.e. when the neighbours' facing walls are set too.
  `Grids.Grid.Solve` then reports `false` on a grid with nothing visited.

## Model

| member | source | states |
|---|---|---|
| Cells.NewCell | graphics.py:106-111 | a fresh cell has all four walls and is not visited |
| Cells.WithoutWall | graphics.py:280-281 | clearing one wall flag leaves the other three walls and the visited flag as they were |
| Board.Exit | graphics.py:312 | the exit `(num_cols - 1, num_rows - 1)` is a cell of the grid |
| Board.SetCell | graphics.py:249 | assigning to one cell changes that cell and no other, and keeps the grid's shape |
| Board.ClearWall | graphics.py:243-245 | clearing one wall of one cell changes only that wall of that cell |
| Board.Step | graphics.py:255-265 | the neighbour across a side, under the source's bounds tests, is inside the grid |
| Board.TowardNeighbours | graphics.py:279-291 | on each of the four neighbours of a cell, `Toward` gives the side whose coordinate test in the knock-out holds; `Toward` tests in the knock-out's order and agrees with it on neighbours, the only positions the knock-out's requires allows |
| Board.CanMoveTests | graphics.py:316-354 | `CanMove` holds exactly when the bounds test and the own-wall test of that side's solver block hold; the move leads to the neighbour, which leads back across the opposite side |
| Board.StepBack | graphics.py:279-293 | neighbourhood is symmetric, and the coordinate tests of the knock-out recover the side and its opposite |
| Board.Unexplored | graphics.py:254-256 | one candidate test yields at most the neighbour across that side, exactly when it exists and is unvisited |
| Board.ScanListInOrder | graphics.py:253-265 | the candidates are appended left, right, up, down |
| Board.Candidates | graphics.py:251-265 | the candidate list has at most four entries, each an in-bounds, adjacent, unvisited neighbour; it contains every such neighbour, in left/right/up/down order |
| Board.KnockDown | graphics.py:277-293 | the knock-out clears exactly the wall of the current cell facing the chosen neighbour and the neighbour's wall facing back; nothing else changes |
| Board.KnockDownElsewhere | graphics.py:277-293 | the knock-out leaves every cell other than the current cell and the chosen neighbour unchanged |
| Board.KnockDownPassages | graphics.py:277-293 | on a wall pair closed on both sides, the knock-out opens exactly the one passage between the two cells and keeps every other passage |
| Board.KnockDownOpensOne | graphics.py:277-293 | on a wall pair closed on both sides, the knock-out raises the number of passages by exactly one |
| Board.SamePassages | graphics.py:298-301 | grids whose walls agree on every side that has a neighbour have the same passages, so neither the reset nor opening entrance and exit changes them |
| Board.KnockDownKeepsConsistent | graphics.py:277-293 | the knock-out keeps walls between neighbours symmetric |
| Board.KnockDownKeepsBoundary | graphics.py:277-293 | the knock-out only clears walls and never touches the outer edge |
| Board.Follow | graphics.py:315-361 | a route of moves, each allowed only where the current cell's wall on that side is absent, stays inside the grid |
| Board.FollowAppend | graphics.py:315-361 | following two routes in turn is following their concatenation |
| Board.ReachableTrans | graphics.py:322-323 | reachability is transitive |
| Board.ReachableStep | graphics.py:316-323 | a move the solver may take is a route |
| Board.ReachableRefl | graphics.py:312-313 | every cell reaches itself |
| Board.FollowMonotone | graphics.py:277-296 | clearing walls never blocks a route |
| Board.ReachableMonotone | graphics.py:277-296 | clearing walls keeps every reachable cell reachable |
| Board.ReachableSameWalls | graphics.py:298-301 | reachability depends only on walls, so changing visited flags never changes it |
| Board.FollowStaysVisited | graphics.py:315-364 | a route out of a visited region closed under moves stays in it |
| Board.ClosedBlocks | graphics.py:363-364 | no unvisited cell is reachable from a visited region closed under moves |
| Board.VisitedFromOrigin | graphics.py:248-296 | if the entrance is visited and every visited cell has only visited neighbours, any cell is visited (induction on its coordinates) |
| Board.AllVisitedFromOrigin | graphics.py:248-296 | under the same premises, every cell is visited |
| Board.OuterChangeKeepsConsistent | graphics.py:242-246 | changing walls only on the outer edge keeps walls between neighbours symmetric |
| Board.SealedCellNotEntered | graphics.py:315-361 | with symmetric walls, no route from another cell enters a cell whose four walls are set |
| Board.SealedExitUnreachable | graphics.py:305-368 | with symmetric walls and the exit's four walls set, the exit is unreachable from a different entrance |
| Board.TwoByOneMazeUnique | graphics.py:198-214 | on two columns and one row, every grid meeting the constructor's postconditions is the same maze |
| Board.SealingExitAloneDoesNotBlock | graphics.py:328-334 | the two-column, one-row maze is unvisited, has symmetric walls, is open on its edge only at the ends and has one passage; with its exit's four walls then set, the exit is still reachable |
| Board.CarveStep | graphics.py:273-296 | one round of the carving loop (choose, knock out, recurse) keeps the carving invariant and strictly shrinks the set of unvisited cells |
| Board.CarveStepClosure | graphics.py:273-296 | after one round, every cell marked so far is reachable from the current cell and, except the current cell, has no unvisited neighbour |
| Board.CarveStepUntouched | graphics.py:273-296 | after one round, every cell marked neither before it nor by the recursion is exactly as it was |
| Board.CarveStepCount | graphics.py:273-296 | one round opens one passage toward the chosen unvisited neighbour, and the recursion opens one per further cell it marks, so passages plus unvisited cells stay balanced |
| Board.KnockDownWalledIn | graphics.py:277-296 | after the knock-out, every unvisited cell except the chosen neighbour still has all its walls toward neighbours set |
| Board.ColumnSize | graphics.py:218-220 | a column of `num_rows` positions has `num_rows` members |
| Board.BlockSize | graphics.py:216-221 | the grid has `num_cols * num_rows` positions |
| Board.BlankUnvisitedCount | graphics.py:216-221 | in a grid with nothing visited, all `num_cols * num_rows` cells are unvisited |
| Board.CarvedFromBlankIsConnected | graphics.py:211-214 | carving from the entrance of a grid with nothing visited visits every cell and makes every cell reachable from the entrance |
| Board.SearchStep | graphics.py:322-325 | a failed search across one side settles that side, keeps the earlier sides settled and keeps the search invariant, including that every marked cell is reachable from the current cell |
| Board.SearchStepClosed | graphics.py:322-325 | after a failed search from the neighbour, every cell marked so far, other than the current cell, has only visited cells behind its open sides |
| Board.MarkedExtends | graphics.py:316-323 | after a move across an open side, the cells marked earlier and the cells the search from the neighbour marked are all reachable from the current cell |
| Board.SearchSkip | graphics.py:315-361 | a side whose move test fails is already settled |
| Board.SearchFound | graphics.py:322-323 | a successful search from the neighbour extends to a route from the current cell to the exit, and every cell marked is reachable from the current cell |
| Board.MarkOnly | graphics.py:308-309 | marking a cell visited keeps every wall, marks that cell alone, and the cell reaches itself |
| Board.SearchStart | graphics.py:308-309 | marking a non-exit cell visited starts the search invariant |
| Board.SearchExhausted | graphics.py:363-364 | once all four sides are settled, the search failed cleanly: every cell it marked is reachable from where it started and has only visited cells behind its open sides, and the exit was never marked |
| Board.FailedSearchUnreachable | graphics.py:366-368 | a failed search from the entrance of a grid with nothing visited means the exit is unreachable |
| Board.Descends | graphics.py:296 | each recursive call, of either recursion, is measured by a strictly smaller set of unvisited cells (termination) |
| Board.CarveStart | graphics.py:249 | marking the start cell visited starts the carving invariant |
| Board.CarveStartCount | graphics.py:249 | marking the start cell visited keeps passages plus unvisited cells balanced: it opens no passage and removes at most that cell from the unvisited ones |
| Board.MarkKeepsPassages | graphics.py:249 | marking a cell visited opens no passage |
| Board.MarkUnvisited | graphics.py:249 | marking a cell visited removes exactly that cell, if it was unvisited, from the unvisited cells |
| Board.FreshGridIsBlank | graphics.py:216-221 | a grid of fresh cells has nothing visited, every wall set and symmetric walls |
| Board.OpenedIsBlank | graphics.py:242-246 | opening entrance and exit in a fresh grid leaves the outer edge open only there, with symmetric walls, nothing visited, every wall toward a neighbour set and no passage |
| Board.OpenOnlyAtEndsKept | graphics.py:248-296 | keeping the outer walls keeps the outer edge open only at entrance and exit |
| Board.ConstructionEnds | graphics.py:211-214 | after carving and the reset, the grid has nothing visited and symmetric walls; its edge is open only at entrance and exit, every cell is reachable from the entrance, and there is one passage fewer than cells |
| Grids.Grid.constructor | graphics.py:198-214 | the grid has `num_cols` columns of `num_rows` cells and nothing visited; entrance top and exit bottom are open, the rest of the outer edge is closed, walls are symmetric, every cell is reachable from the entrance, and there are `num_cols * num_rows - 1` passages |
| Grids.Grid.CreateCells | graphics.py:216-221 | appends `num_cols` columns of `num_rows` fresh cells and keeps the existing columns |
| Grids.Grid.BreakEntranceAndExit | graphics.py:242-246 | clears exactly the entrance's top wall and the exit's bottom wall |
| Grids.Grid.BreakWallsR | graphics.py:248-296 | the carving invariant holds: visited flags only set, walls only cleared and never on the outer edge, symmetric walls kept, every cell it marked reachable from `(i, j)` and with all neighbours visited, every cell it did not mark unchanged; on a grid with symmetric walls where every unvisited cell but `(i, j)` is walled in, it opens one passage per cell it marks after `(i, j)` |
| Grids.Grid.ResetCellsVisited | graphics.py:298-301 | every cell's visited flag is cleared and its walls are unchanged |
| Grids.Grid.SolveR | graphics.py:305-364 | walls unchanged, visited flags only set, `(i, j)` visited; every cell it marks is reachable from `(i, j)`; at the exit it returns `true` and marks the exit alone; `true` means the exit is reachable from `(i, j)`; `false` means every cell marked is closed under moves and the exit was not marked |
| Grids.Grid.TrySide | graphics.py:315-361 | one direction test: walls unchanged and visited flags only set since the search at `(i, j)` began; on success the exit and every cell marked are reachable from `(i, j)`; on failure this side and all earlier ones are settled and the search invariant holds |
| Grids.Grid.Solve | graphics.py:366-368 | `true` means the exit is reachable from the entrance; on a grid with nothing visited, `true` exactly when it is; every cell it marks is reachable from the entrance |
| Grids.GenerateAndSolve | main.py:21-26 | building a maze and solving it always reports it solvable |

## Left out

- Drawing is not modelled: `Window`, `Point`, `Line`, `Cell.draw`, `Cell.draw_move`, `_draw_cell`, `_animate` and `time.sleep`. They never write a wall or visited flag. The drawing loop of `_create_cells` (graphics.py:222-224) is left out with them.
- The constructor's pixel parameters (`x1`, `y1`, `cell_size_x`, `cell_size_y`) and `window` are not modelled. The pixel parameters only feed drawing. The size arithmetic and printing in `main.py` are left out for the same reason.
- Grids.Grid.SolveR: the model assumes a window is attached, as main.py:18-21 does. `window` defaults to `None` (graphics.py:198). `Cell.draw` checks for a missing window (graphics.py:119-120), but `Cell.draw_move` (graphics.py:151-156) does not. `_solve_r` calls `draw_move` on every move it takes (graphics.py:321, 333, 345, 357). So without a window the source raises an attribute error at the first move on any grid larger than one cell. The model returns a result there, and so do `Grids.Grid.Solve` and `Grids.GenerateAndSolve`.
- The random number generator and `random.seed(seed)` are not modelled. The choice made by `random.randrange` is an arbitrary valid index, so the properties hold for every seed. No particular maze is predicted.
- Grids.Grid.constructor: requires at least one row and one column. With an empty grid the source fails with an index error when it opens the entrance (graphics.py:243); it does not reject the arguments up front.
- Python's recursion depth limit is not modelled. Both recursions may go as deep as the number of cells.
- Grids.Grid.constructor: proves connectivity and that the passages number one less than the cells. In graph terms, a connected graph on N vertices with N - 1 edges is a tree, so the passages form a spanning tree with exactly one route between any two cells. That graph fact is not proved here, and the contract does not state "no cycle" or "exactly one route" directly.
- Grids.Grid.TrySide: the four direction blocks of `_solve_r` are one method over the side. The blocks run in the source's order and use its tests, but the model does not have four separate blocks.
- Grids.Grid.Solve: completeness is proved only when no cell is visited at the start, which is what the constructor leaves. `solve` does not reset visited flags itself.
