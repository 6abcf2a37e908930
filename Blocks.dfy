/**
 * A Block is an n x m grid of cells with a cursor over it. The cursor has a
 * current position and a start position, both (-1, -1) until a start is set.
 * A person enters the block through a cell of column 0 (an entry) and leaves
 * it through a cell of column m - 1 (an exit).
 *
 * The module has two layers. `BlockState` is the value of a block (its
 * dimensions, its cells, the cursor and the start) and the functions on it
 * state what each query and each move means. The class `Block` holds the
 * grid in two arrays, updates them in place, and is proved to agree with
 * that value through `Abs()`.
 */
module Blocks {
  import opened Wrappers
  import opened Cells

  /** A (row, column) position; row 0 is the top, column 0 the left edge. */
  type Pos = (int, int)

  /** What the cursor's and the start's coordinates hold before a start is set. */
  const Unset: Pos := (-1, -1)

  datatype Direction = Left | Right | Up | Down

  /** p and q are one step apart horizontally or vertically. */
  predicate Adjacent(p: Pos, q: Pos) {
    (p.0 == q.0 && (p.1 == q.1 + 1 || q.1 == p.1 + 1)) ||
    (p.1 == q.1 && (p.0 == q.0 + 1 || q.0 == p.0 + 1))
  }

  /** The position one step from p in direction d. */
  function Neighbor(p: Pos, d: Direction): (q: Pos)
    ensures Adjacent(p, q) && q != p
  {
    match d
    case Left => (p.0, p.1 - 1)
    case Right => (p.0, p.1 + 1)
    case Up => (p.0 - 1, p.1)
    case Down => (p.0 + 1, p.1)
  }

  /** Every adjacent position is the neighbour in some direction. */
  lemma DirectionTo(p: Pos, q: Pos) returns (d: Direction)
    requires Adjacent(p, q)
    ensures Neighbor(p, d) == q
  {
    if q.1 == p.1 - 1 {
      d := Left;
    } else if q.1 == p.1 + 1 {
      d := Right;
    } else if q.0 == p.0 - 1 {
      d := Up;
    } else {
      d := Down;
    }
  }

  /** The value of a block. */
  datatype BlockState = BlockState(n: int, m: int, cells: map<Pos, CellState>, cur: Pos, start: Pos)

  /** 0 <= row < n and 0 <= col < m. */
  predicate InBounds(s: BlockState, p: Pos) {
    0 <= p.0 < s.n && 0 <= p.1 < s.m
  }

  /** The grid is non-empty and holds exactly one cell per in-bounds position. */
  ghost predicate WellFormed(s: BlockState) {
    s.n >= 1 && s.m >= 1 && forall p :: p in s.cells <==> InBounds(s, p)
  }

  /** The cell's status in bounds, the sentinel -1 out of bounds. */
  function Status(s: BlockState, p: Pos): int
    requires WellFormed(s)
  {
    if InBounds(s, p) then s.cells[p].status else -1
  }

  /** The cell's visited flag in bounds, false out of bounds. */
  predicate Visited(s: BlockState, p: Pos)
    requires WellFormed(s)
  {
    if InBounds(s, p) then s.cells[p].visited else false
  }

  /** In bounds and CLEAR; whether the cell was visited does not matter. */
  predicate Free(s: BlockState, p: Pos)
    requires WellFormed(s)
  {
    Status(s, p) == CLEAR && InBounds(s, p)
  }

  /** Free and not yet visited: a cell worth exploring. */
  predicate Fresh(s: BlockState, p: Pos)
    requires WellFormed(s)
  {
    Free(s, p) && !Visited(s, p)
  }

  /** An unvisited CLEAR cell of column 0. */
  predicate Entry(s: BlockState, p: Pos)
    requires WellFormed(s)
  {
    p.0 >= 0 && p.0 < s.n && p.1 == 0 && !Visited(s, p) && Status(s, p) == CLEAR
  }

  /** An unvisited CLEAR cell of column m - 1. */
  predicate Exit(s: BlockState, p: Pos)
    requires WellFormed(s)
  {
    p.0 >= 0 && p.0 < s.n && p.1 == s.m - 1 && !Visited(s, p) && Status(s, p) == CLEAR
  }

  /** The start has not been set (the test the recursive search makes). */
  predicate StartUnset(s: BlockState) {
    s.start.0 < 0 || s.start.1 < 0
  }

  /**
   * The cursor invariant: either nothing is set yet, or the start is a
   * position of column 0 and the cursor stands on a CLEAR cell of the grid.
   */
  ghost predicate Consistent(s: BlockState) {
    WellFormed(s) &&
    ((s.start == Unset && s.cur == Unset) ||
     (InBounds(s, s.start) && s.start.1 == 0 && InBounds(s, s.cur) && Status(s, s.cur) == CLEAR))
  }

  /**
   * t is s after moves: same grid shape, no visited flag cleared, and no
   * status changed except to CLEAR.
   */
  ghost predicate Evolved(s: BlockState, t: BlockState)
    requires WellFormed(s) && WellFormed(t)
  {
    s.n == t.n && s.m == t.m &&
    (forall p :: Visited(s, p) ==> Visited(t, p)) &&
    (forall p :: Status(t, p) == Status(s, p) || Status(t, p) == CLEAR)
  }

  /** The block after setStart(p): start and cursor both at p if p is an entry. */
  function WithStart(s: BlockState, p: Pos): (t: BlockState)
    requires Consistent(s)
    ensures Consistent(t) && t.cells == s.cells
    ensures Entry(s, p) ==> t.start == p && t.cur == p
    ensures !Entry(s, p) ==> t == s
  {
    if Entry(s, p) then s.(start := p, cur := p) else s
  }

  /**
   * The block after a move in direction d: if the neighbour of the cursor is
   * free, the cell being left becomes visited and CLEAR and the cursor steps
   * onto the neighbour; otherwise nothing changes.
   */
  function AfterMove(s: BlockState, d: Direction): (t: BlockState)
    requires Consistent(s)
    ensures Consistent(t) && t.start == s.start
    ensures s.cur == Unset ==> t == s
  {
    var q := Neighbor(s.cur, d);
    if Free(s, q) then s.(cells := s.cells[s.cur := CellState(CLEAR, true)], cur := q) else s
  }

  /** What a move does, cell by cell; in particular the block only evolves. */
  lemma MoveEffects(s: BlockState, d: Direction)
    requires Consistent(s)
    ensures Evolved(s, AfterMove(s, d))
    ensures var q, t := Neighbor(s.cur, d), AfterMove(s, d);
      (Free(s, q) ==> t.cur == q && Visited(t, s.cur) && Status(t, s.cur) == CLEAR &&
                      forall p :: p != s.cur ==> Visited(t, p) == Visited(s, p) && Status(t, p) == Status(s, p)) &&
      (!Free(s, q) ==> t == s)
  {
  }

  /** In a one-column grid the entry and exit predicates coincide. */
  lemma OneColumnEntryIsExit(s: BlockState, p: Pos)
    requires WellFormed(s) && s.m == 1
    ensures Entry(s, p) <==> Exit(s, p)
  {
  }

  /**
   * The first direction of `order` whose neighbour of p is free and
   * unvisited, if there is one.
   */
  function FirstFresh(s: BlockState, order: seq<Direction>, p: Pos): Option<Direction>
    requires WellFormed(s)
  {
    if order == [] then None
    else if Fresh(s, Neighbor(p, order[0])) then Some(order[0])
    else FirstFresh(s, order[1..], p)
  }

  /** The first direction of `order` whose neighbour of p is free, if there is one. */
  function FirstFree(s: BlockState, order: seq<Direction>, p: Pos): Option<Direction>
    requires WellFormed(s)
  {
    if order == [] then None
    else if Free(s, Neighbor(p, order[0])) then Some(order[0])
    else FirstFree(s, order[1..], p)
  }

  /**
   * FirstFresh picks a fresh neighbour that no earlier direction offers,
   * and finds none exactly when no direction of the order offers one.
   */
  lemma {:induction false} FirstFreshIsFirst(s: BlockState, order: seq<Direction>, p: Pos)
    requires WellFormed(s)
    ensures var r := FirstFresh(s, order, p);
      (r.Some? ==> exists i :: 0 <= i < |order| && order[i] == r.value &&
                     Fresh(s, Neighbor(p, order[i])) &&
                     forall j :: 0 <= j < i ==> !Fresh(s, Neighbor(p, order[j]))) &&
      (r.None? <==> forall i :: 0 <= i < |order| ==> !Fresh(s, Neighbor(p, order[i])))
    decreases |order|
  {
    if order != [] && !Fresh(s, Neighbor(p, order[0])) {
      FirstFreshIsFirst(s, order[1..], p);
      assert forall i :: 1 <= i < |order| ==> order[i] == order[1..][i - 1];
    }
  }

  /**
   * FirstFree picks a free neighbour that no earlier direction offers,
   * and finds none exactly when no direction of the order offers one.
   */
  lemma {:induction false} FirstFreeIsFirst(s: BlockState, order: seq<Direction>, p: Pos)
    requires WellFormed(s)
    ensures var r := FirstFree(s, order, p);
      (r.Some? ==> exists i :: 0 <= i < |order| && order[i] == r.value &&
                     Free(s, Neighbor(p, order[i])) &&
                     forall j :: 0 <= j < i ==> !Free(s, Neighbor(p, order[j]))) &&
      (r.None? <==> forall i :: 0 <= i < |order| ==> !Free(s, Neighbor(p, order[i])))
    decreases |order|
  {
    if order != [] && !Free(s, Neighbor(p, order[0])) {
      FirstFreeIsFirst(s, order[1..], p);
      assert forall i :: 1 <= i < |order| ==> order[i] == order[1..][i - 1];
    }
  }

  /**
   * The first of four directions, tried in the given order, whose
   * neighbour of p is free and unvisited: the if-else cascade of a forward
   * step.
   */
  function FreshAmong(s: BlockState, order: seq<Direction>, p: Pos): Option<Direction>
    requires WellFormed(s) && |order| == 4
  {
    if Fresh(s, Neighbor(p, order[0])) then Some(order[0])
    else if Fresh(s, Neighbor(p, order[1])) then Some(order[1])
    else if Fresh(s, Neighbor(p, order[2])) then Some(order[2])
    else if Fresh(s, Neighbor(p, order[3])) then Some(order[3])
    else None
  }

  /** The first of four directions whose neighbour of p is free: the cascade of a backtrack step. */
  function FreeAmong(s: BlockState, order: seq<Direction>, p: Pos): Option<Direction>
    requires WellFormed(s) && |order| == 4
  {
    if Free(s, Neighbor(p, order[0])) then Some(order[0])
    else if Free(s, Neighbor(p, order[1])) then Some(order[1])
    else if Free(s, Neighbor(p, order[2])) then Some(order[2])
    else if Free(s, Neighbor(p, order[3])) then Some(order[3])
    else None
  }

  /** The cascade finds the first fresh direction of the order. */
  lemma FreshAmongIsFirst(s: BlockState, order: seq<Direction>, p: Pos)
    requires WellFormed(s) && |order| == 4
    ensures FreshAmong(s, order, p) == FirstFresh(s, order, p)
  {
    var o1, o2, o3 := order[1..], order[2..], order[3..];
    assert o1[0] == order[1] && o1[1..] == o2;
    assert o2[0] == order[2] && o2[1..] == o3;
    assert o3 == [order[3]] && o3[1..] == [];
    assert FirstFresh(s, o3, p) == if Fresh(s, Neighbor(p, order[3])) then Some(order[3]) else None;
    assert FirstFresh(s, o2, p) == if Fresh(s, Neighbor(p, order[2])) then Some(order[2]) else FirstFresh(s, o3, p);
    assert FirstFresh(s, o1, p) == if Fresh(s, Neighbor(p, order[1])) then Some(order[1]) else FirstFresh(s, o2, p);
  }

  /** The cascade finds the first free direction of the order. */
  lemma FreeAmongIsFirst(s: BlockState, order: seq<Direction>, p: Pos)
    requires WellFormed(s) && |order| == 4
    ensures FreeAmong(s, order, p) == FirstFree(s, order, p)
  {
    var o1, o2, o3 := order[1..], order[2..], order[3..];
    assert o1[0] == order[1] && o1[1..] == o2;
    assert o2[0] == order[2] && o2[1..] == o3;
    assert o3 == [order[3]] && o3[1..] == [];
    assert FirstFree(s, o3, p) == if Free(s, Neighbor(p, order[3])) then Some(order[3]) else None;
    assert FirstFree(s, o2, p) == if Free(s, Neighbor(p, order[2])) then Some(order[2]) else FirstFree(s, o3, p);
    assert FirstFree(s, o1, p) == if Free(s, Neighbor(p, order[1])) then Some(order[1]) else FirstFree(s, o2, p);
  }

  /**
   * The grid cursor. The Java grid of Cell objects is held as two arrays:
   * status[r, c] and visited[r, c] are the two fields of the cell at row r,
   * column c. The ghost map `cells` is the value of the grid.
   */
  class Block {
    const n: int
    const m: int
    const status: array2<int>
    const visited: array2<bool>
    var currentRow: int
    var currentCol: int
    var startRow: int
    var startCol: int
    ghost var cells: map<Pos, CellState>

    /** The value of this block. */
    ghost function Abs(): BlockState
      reads this
    {
      BlockState(n, m, cells, (currentRow, currentCol), (startRow, startCol))
    }

    ghost predicate Valid()
      reads this, status, visited
    {
      status.Length0 == n && status.Length1 == m &&
      visited.Length0 == n && visited.Length1 == m &&
      Consistent(Abs()) &&
      forall r, c :: 0 <= r < n && 0 <= c < m ==>
        (r, c) in cells && cells[(r, c)] == CellState(status[r, c], visited[r, c])
    }

    /**
     * A block over the given n x m grid; like the Java constructor it keeps
     * the arrays it is given. Cursor and start are unset.
     */
    constructor (status: array2<int>, visited: array2<bool>)
      requires status.Length0 == visited.Length0 >= 1
      requires status.Length1 == visited.Length1 >= 1
      ensures Valid()
      ensures this.status == status && this.visited == visited
      ensures Abs().cur == Unset && Abs().start == Unset
    {
      n := status.Length0;
      m := status.Length1;
      this.status := status;
      this.visited := visited;
      currentRow, currentCol, startRow, startCol := -1, -1, -1, -1;
      cells := map r, c | 0 <= r < status.Length0 && 0 <= c < status.Length1 ::
                 (r, c) := CellState(status[r, c], visited[r, c]);
      new;
      assert WellFormed(Abs()) by {
        forall p
          ensures p in cells <==> InBounds(Abs(), p)
        {
          assert p == (p.0, p.1);
        }
      }
    }

    function IsValid(row: int, col: int): (b: bool)
      reads this, status, visited
      requires Valid()
      ensures b <==> InBounds(Abs(), (row, col))
      ensures b <==> (row, col) in Abs().cells
    {
      (row < n) && (row >= 0) && (col < m) && (col >= 0)
    }

    function GetStatus(row: int, col: int): (st: int)
      reads this, status, visited
      requires Valid()
      ensures st == Status(Abs(), (row, col))
    {
      if IsValid(row, col) then status[row, col] else -1
    }

    function IsVisited(row: int, col: int): (b: bool)
      reads this, status, visited
      requires Valid()
      ensures b == Visited(Abs(), (row, col))
    {
      if IsValid(row, col) then visited[row, col] else false
    }

    function IsEntry(row: int, col: int): (b: bool)
      reads this, status, visited
      requires Valid()
      ensures b == Entry(Abs(), (row, col))
    {
      (row >= 0) && (row < n) && (col == 0) && !IsVisited(row, col) && GetStatus(row, col) == CLEAR
    }

    function IsExit(row: int, col: int): (b: bool)
      reads this, status, visited
      requires Valid()
      ensures b == Exit(Abs(), (row, col))
    {
      (row >= 0) && (row < n) && (col == m - 1) && !IsVisited(row, col) && GetStatus(row, col) == CLEAR
    }

    function IsFree(row: int, col: int): (b: bool)
      reads this, status, visited
      requires Valid()
      ensures b == Free(Abs(), (row, col))
    {
      GetStatus(row, col) == CLEAR && IsValid(row, col)
    }

    /** The cursor's row; -1 until a start is set. */
    function GetCurrentRow(): (r: int)
      reads this
      ensures r == Abs().cur.0
    {
      currentRow
    }

    /** The cursor's column; -1 until a start is set. */
    function GetCurrentCol(): (c: int)
      reads this
      ensures c == Abs().cur.1
    {
      currentCol
    }

    /** The start's row; -1 until a start is set. */
    function GetStartRow(): (r: int)
      reads this
      ensures r == Abs().start.0
    {
      startRow
    }

    /** The start's column; -1 until a start is set. */
    function GetStartCol(): (c: int)
      reads this
      ensures c == Abs().start.1
    {
      startCol
    }

    /** Sets start and cursor to (row, col) if it is an entry; otherwise does nothing. */
    method SetStart(row: int, col: int)
      requires Valid()
      modifies this
      ensures Valid()
      ensures Abs() == WithStart(old(Abs()), (row, col))
    {
      if IsEntry(row, col) {
        startRow := row;
        startCol := col;
        currentRow := row;
        currentCol := col;
      }
    }

    /**
     * moveLeft, moveRight, moveUp and moveDown: if the neighbour in direction
     * d is free, the cell being left is set visited and CLEAR and the cursor
     * steps onto the neighbour; otherwise nothing changes.
     */
    method Move(d: Direction)
      requires Valid()
      modifies this, status, visited
      ensures Valid()
      ensures Abs() == AfterMove(old(Abs()), d)
    {
      var next := Neighbor((currentRow, currentCol), d);
      if IsFree(next.0, next.1) {
        visited[currentRow, currentCol] := true;
        status[currentRow, currentCol] := CLEAR;
        cells := cells[(currentRow, currentCol) := CellState(CLEAR, true)];
        currentRow, currentCol := next.0, next.1;
      }
    }
  }
}
