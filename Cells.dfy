/**
 * A Cell is the smallest plot of land of a grid: an integer status
 * (0 for CLEAR, 1 for MARKED; the value is not range-checked) and a
 * visited flag.
 */
module Cells {

  /** The value held by one cell. */
  datatype CellState = CellState(status: int, visited: bool)

  const CLEAR: int := 0
  const MARKED: int := 1

  /** The mutable cell of the grid. */
  class Cell {
    var status: int
    var visited: bool

    /** The value this cell currently holds. */
    ghost function Value(): CellState
      reads this
    {
      CellState(status, visited)
    }

    /** A cell with the given status and visited flag, stored as given. */
    constructor (status: int, visited: bool)
      ensures Value() == CellState(status, visited)
    {
      this.status := status;
      this.visited := visited;
    }

    /** A cell with the given status that has not been visited. */
    constructor Unvisited(status: int)
      ensures Value() == CellState(status, false)
    {
      this.status := status;
      this.visited := false;
    }

    function GetStatus(): (s: int)
      reads this
      ensures s == Value().status
    {
      status
    }

    function GetVisited(): (v: bool)
      reads this
      ensures v == Value().visited
    {
      visited
    }

    /** Overwrites the status; the visited flag is left alone. */
    method SetStatus(status: int)
      modifies this
      ensures Value() == old(Value()).(status := status)
    {
      this.status := status;
    }

    /** Overwrites the visited flag; the status is left alone. */
    method SetVisited(visited: bool)
      modifies this
      ensures Value() == old(Value()).(visited := visited)
    {
      this.visited := visited;
    }
  }
}
