/** The algorithmic state of one maze cell: four wall flags and a visited flag
    (class Cell of graphics.py, without its drawing region and window). */
module Cells {

  /** The four sides of a cell, declared in the order in which the maze code
      scans neighbours: left, right, up, down. */
  datatype Dir = Left | Right | Up | Down

  /** The position of a side in the scan order. */
  function Rank(d: Dir): nat
  {
    match d
    case Left => 0
    case Right => 1
    case Up => 2
    case Down => 3
  }

  /** The side of a neighbour that faces back across side `d`. */
  function Opposite(d: Dir): Dir
  {
    match d
    case Left => Right
    case Right => Left
    case Up => Down
    case Down => Up
  }

  datatype Cell = Cell(
    hasLeftWall: bool,
    hasRightWall: bool,
    hasTopWall: bool,
    hasBottomWall: bool,
    visited: bool)

  /** The wall flag on side `d` of a cell (the "up" side is the top wall). */
  function HasWall(c: Cell, d: Dir): bool
  {
    match d
    case Left => c.hasLeftWall
    case Right => c.hasRightWall
    case Up => c.hasTopWall
    case Down => c.hasBottomWall
  }

  /** A freshly constructed cell: every wall present, not yet visited. */
  function NewCell(): (c: Cell)
    ensures forall d :: HasWall(c, d)
    ensures !c.visited
  {
    Cell(true, true, true, true, false)
  }

  /** The cell with the wall on side `d` knocked out and every other flag kept. */
  function WithoutWall(c: Cell, d: Dir): (r: Cell)
    ensures forall e :: HasWall(r, e) == (HasWall(c, e) && e != d)
    ensures r.visited == c.visited
  {
    match d
    case Left => c.(hasLeftWall := false)
    case Right => c.(hasRightWall := false)
    case Up => c.(hasTopWall := false)
    case Down => c.(hasBottomWall := false)
  }
}
