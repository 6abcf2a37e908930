/**
 * The iterative path search: a depth-first search that keeps the path taken
 * on an explicit stack, advances to the first free, unvisited neighbour in
 * the order left, right, up, down, and backtracks by one step towards the
 * previous position on the stack.
 */
module Propagation {
  import opened Wrappers
  import opened Blocks

  /** The order in which pathCalc tries to advance. */
  const Order: seq<Direction> := [Left, Right, Up, Down]

  /** Every position of `route` is free and unvisited in s0, and each step is to an adjacent cell. */
  ghost predicate Route(s0: BlockState, route: seq<Pos>)
    requires WellFormed(s0)
  {
    (forall i :: 0 <= i < |route| ==> Fresh(s0, route[i])) &&
    (forall i, j :: 0 <= i < |route| && j == i + 1 < |route| ==> Adjacent(route[i], route[j]))
  }

  /** No position occurs twice. */
  ghost predicate Distinct(path: seq<Pos>) {
    forall i, j :: 0 <= i < j < |path| ==> path[i] != path[j]
  }

  /** A route of at least two cells from start to a cell of the last column. */
  ghost predicate BreachRoute(s0: BlockState, start: Pos, route: seq<Pos>)
    requires WellFormed(s0)
  {
    |route| >= 2 && route[0] == start && Route(s0, route) && route[|route| - 1].1 == s0.m - 1
  }

  /**
   * The block, as it was before the search, lets the virus through from
   * start: some route of free, unvisited cells leads from start to the last
   * column. The route has at least two cells because the search never tests
   * the start itself for being an exit.
   */
  ghost predicate Breach(s0: BlockState, start: Pos)
    requires WellFormed(s0)
  {
    exists route :: BreachRoute(s0, start, route)
  }

  /** Every free neighbour of x has been visited: there is nothing left to explore from x. */
  ghost predicate Stuck(s: BlockState, x: Pos)
    requires WellFormed(s)
  {
    forall y :: Adjacent(x, y) && Free(s, y) ==> Visited(s, y)
  }

  /** The free cells that are neither visited nor under the cursor; the search's progress measure. */
  ghost function Unexplored(s: BlockState): set<Pos>
  {
    set p | p in s.cells.Keys && !s.cells[p].visited && p != s.cur
  }

  /**
   * The loop invariant of pathCalc, relating the block s0 before the search,
   * the current block s, the path stack and the ghost set `done` of the
   * positions that have been popped.
   */
  ghost predicate Searching(s0: BlockState, s: BlockState, start: Pos, path: seq<Pos>, done: set<Pos>)
  {
    Consistent(s0) && Consistent(s) && Evolved(s0, s) && s.start == start &&
    (forall p :: Status(s, p) == Status(s0, p)) &&
    |path| >= 1 && path[0] == start && path[|path| - 1] == s.cur &&
    Route(s0, path) && Distinct(path) &&
    (forall i :: 0 <= i < |path| - 1 ==> Visited(s, path[i])) &&
    (forall x :: x in done ==> Visited(s, x) && Stuck(s, x)) &&
    (forall p :: Visited(s, p) ==> Visited(s0, p) || p in done || p in path)
  }

  /** No position reached so far, except the start, lies in the last column. */
  ghost predicate NoExitSeen(m: int, path: seq<Pos>, done: set<Pos>) {
    (forall i :: 1 <= i < |path| ==> path[i].1 != m - 1) &&
    (forall x :: x in done ==> x.1 != m - 1)
  }

  /** The direction Propagation.java:95-103 moves in, to step from p back to prev. */
  function Toward(prev: Pos, p: Pos): (r: Option<Direction>)
    ensures Adjacent(prev, p) ==> r.Some? && Neighbor(p, r.value) == prev
  {
    if prev.1 + 1 == p.1 then Some(Left)
    else if prev.1 - 1 == p.1 then Some(Right)
    else if prev.0 + 1 == p.0 then Some(Up)
    else if prev.0 - 1 == p.0 then Some(Down)
    else None
  }

  /** With no fresh neighbour in any of the four directions, the position is stuck. */
  lemma NoFreshIsStuck(s: BlockState, p: Pos)
    requires WellFormed(s)
    requires FirstFresh(s, Order, p) == None
    ensures Stuck(s, p)
  {
    FirstFreshIsFirst(s, Order, p);
    forall y | Adjacent(p, y) && Free(s, y)
      ensures Visited(s, y)
    {
      var d := DirectionTo(p, y);
      var i := match d case Left => 0 case Right => 1 case Up => 2 case Down => 3;
      assert Order[i] == d;
    }
  }

  /** The state right after setStart satisfies the loop invariant. */
  lemma StartSearching(s0: BlockState, start: Pos)
    requires Consistent(s0) && Entry(s0, start)
    ensures Searching(s0, WithStart(s0, start), start, [start], {})
    ensures NoExitSeen(s0.m, [start], {})
  {
  }

  /**
   * A forward step into the free, unvisited neighbour in direction d keeps
   * the invariant, or reaches an exit; either way the unexplored set shrinks.
   */
  lemma Advanced(s0: BlockState, s: BlockState, start: Pos, path: seq<Pos>, done: set<Pos>, d: Direction)
    requires Searching(s0, s, start, path, done) && NoExitSeen(s.m, path, done)
    requires Fresh(s, Neighbor(s.cur, d))
    ensures var t := AfterMove(s, d);
      t.cur == Neighbor(s.cur, d) &&
      Searching(s0, t, start, path + [t.cur], done) &&
      Unexplored(t) < Unexplored(s) &&
      (Exit(t, t.cur) <==> t.cur.1 == s.m - 1) &&
      (!Exit(t, t.cur) ==> NoExitSeen(t.m, path + [t.cur], done)) &&
      (Exit(t, t.cur) ==> BreachRoute(s0, start, path + [t.cur]) && Distinct(path + [t.cur]))
  {
    var q := Neighbor(s.cur, d);
    var t := AfterMove(s, d);
    MoveEffects(s, d);
    var path' := path + [q];
    assert t.cur == q;
    // q has not been visited, so it is not on the path below the cursor
    forall i | 0 <= i < |path| - 1 ensures path[i] != q {
      assert Visited(s, path[i]);
    }
    assert Distinct(path');
    assert Route(s0, path') by {
      assert Fresh(s0, q) by {
        assert Status(s, q) == Status(s0, q);
        assert !Visited(s0, q);
      }
    }
    forall i | 0 <= i < |path'| - 1 ensures Visited(t, path'[i]) {
      if i < |path| - 1 {
        assert Visited(s, path[i]);
      }
    }
    forall x | x in done ensures Visited(t, x) && Stuck(t, x) {
      assert Visited(s, x) && Stuck(s, x);
      forall y | Adjacent(x, y) && Free(t, y) ensures Visited(t, y) {
        assert Free(s, y);
      }
    }
    forall p | Visited(t, p) ensures Visited(s0, p) || p in done || p in path' {
      if p != s.cur {
        assert Visited(s, p);
      } else {
        assert p == path'[|path| - 1];
      }
    }
    assert q in Unexplored(s);
    assert q !in Unexplored(t);
    forall p | p in Unexplored(t) ensures p in Unexplored(s) {
      assert !Visited(t, p);
    }
    assert Searching(s0, t, start, path', done);
  }

  /**
   * A backtracking step, taken when the cursor is stuck away from the start:
   * the top of the stack is popped and the cursor moves onto the new top,
   * which has been visited, so it is no exit; the invariant holds with the
   * popped position added to `done`.
   */
  lemma Retreated(s0: BlockState, s: BlockState, start: Pos, path: seq<Pos>, done: set<Pos>)
    requires Searching(s0, s, start, path, done) && NoExitSeen(s.m, path, done)
    requires s.cur != start && Stuck(s, s.cur)
    ensures |path| >= 2
    ensures var prev := path[|path| - 2];
      var d := Toward(prev, s.cur);
      d.Some? &&
      var t := AfterMove(s, d.value);
      t.cur == prev && !Exit(t, t.cur) &&
      Searching(s0, t, start, path[..|path| - 1], done + {s.cur}) &&
      NoExitSeen(t.m, path[..|path| - 1], done + {s.cur}) &&
      Unexplored(t) == Unexplored(s)
  {
    assert |path| >= 2;
    var prev := path[|path| - 2];
    var path' := path[..|path| - 1];
    assert Adjacent(prev, s.cur);
    var d := Toward(prev, s.cur).value;
    assert Neighbor(s.cur, d) == prev;
    assert Visited(s, prev);
    assert Free(s, prev) by {
      assert Fresh(s0, prev);
      assert Status(s, prev) == Status(s0, prev);
    }
    var t := AfterMove(s, d);
    MoveEffects(s, d);
    assert t.cur == prev;
    forall i | 0 <= i < |path'| - 1 ensures Visited(t, path'[i]) {
      assert Visited(s, path[i]);
    }
    var done' := done + {s.cur};
    forall x | x in done' ensures Visited(t, x) && Stuck(t, x) {
      assert Stuck(s, x);
      forall y | Adjacent(x, y) && Free(t, y) ensures Visited(t, y) {
        assert Free(s, y);
      }
    }
    forall p | Visited(t, p) ensures Visited(s0, p) || p in done' || p in path' {
      if p != s.cur {
        assert Visited(s, p);
        if p in path {
          var k :| 0 <= k < |path| && path[k] == p;
          assert k != |path| - 1;
          assert path'[k] == p;
        }
      }
    }
    forall p | p in Unexplored(t) ensures p in Unexplored(s) {
      assert !Visited(t, p);
    }
    forall p | p in Unexplored(s) ensures p in Unexplored(t) {
      assert !Visited(s, p);
    }
    assert Searching(s0, t, start, path', done');
    assert s.cur == path[|path| - 1];
  }

  /**
   * A set that contains the start of a route and every free, unvisited
   * neighbour of its members contains the whole route.
   */
  lemma {:induction false} RouteStaysInside(s0: BlockState, inside: set<Pos>, route: seq<Pos>)
    requires WellFormed(s0) && Route(s0, route) && |route| >= 1 && route[0] in inside
    requires forall x, y :: x in inside && Adjacent(x, y) && Fresh(s0, y) ==> y in inside
    ensures forall i :: 0 <= i < |route| ==> route[i] in inside
  {
    if |route| > 1 {
      var front := route[..|route| - 1];
      assert Route(s0, front) by {
        assert forall i :: 0 <= i < |front| ==> front[i] == route[i];
      }
      RouteStaysInside(s0, inside, front);
      assert route[|route| - 2] == front[|front| - 1];
      assert forall i :: 0 <= i < |route| - 1 ==> route[i] == front[i];
    }
  }

  /**
   * When the cursor is back at the start with nothing left to explore, no
   * route of free, unvisited cells leads from the start to the last column:
   * the start and the popped positions are closed under such steps, and none
   * of them other than the start lies in the last column.
   */
  lemma Exhausted(s0: BlockState, s: BlockState, start: Pos, path: seq<Pos>, done: set<Pos>)
    requires Searching(s0, s, start, path, done) && NoExitSeen(s.m, path, done)
    requires s.cur == start && Stuck(s, start)
    ensures !Breach(s0, start)
  {
    assert |path| == 1;
    var inside := done + {start};
    forall x, y | x in inside && Adjacent(x, y) && Fresh(s0, y) ensures y in inside {
      assert Stuck(s, x);
      assert Free(s, y) by {
        assert Status(s, y) == Status(s0, y);
      }
      assert Visited(s, y);
    }
    forall route ensures !BreachRoute(s0, start, route) {
      if |route| >= 2 && route[0] == start && Route(s0, route) {
        RouteStaysInside(s0, inside, route);
        var last := route[|route| - 1];
        if last == start {
          // the start lies in column 0; its successor on the route is in done, so not in column m - 1
          var second := route[1];
          assert Adjacent(route[0], second) && Fresh(s0, second);
          assert second in done;
          assert s0.m != 1;
        } else {
          assert last in done;
        }
      }
    }
  }

  /** Pushes the cursor's current position onto the path (updatePath). */
  method UpdatePath(area: Block, path: seq<Pos>) returns (pushed: seq<Pos>)
    ensures pushed == path + [area.Abs().cur]
  {
    pushed := path + [(area.GetCurrentRow(), area.GetCurrentCol())];
  }

  /**
   * Propagation.java:70-81 without the pushes: moves into the first of the left, right,
   * upper and lower neighbours of (row, col) that is free and unvisited.
   */
  method Advance(area: Block, row: int, col: int) returns (moved: bool)
    requires area.Valid()
    modifies area, area.status, area.visited
    ensures area.Valid()
    ensures var s, r := old(area.Abs()), FirstFresh(old(area.Abs()), Order, (row, col));
      moved == r.Some? && (r.Some? ==> Fresh(s, Neighbor((row, col), r.value))) &&
      area.Abs() == (if r.Some? then AfterMove(s, r.value) else s)
  {
    ghost var s, p := area.Abs(), (row, col);
    FreshAmongIsFirst(s, Order, p);
    if area.IsFree(row, col - 1) && !area.IsVisited(row, col - 1) {
      assert FreshAmong(s, Order, p) == Some(Left);
      area.Move(Left);
      moved := true;
    } else if area.IsFree(row, col + 1) && !area.IsVisited(row, col + 1) {
      assert FreshAmong(s, Order, p) == Some(Right);
      area.Move(Right);
      moved := true;
    } else if area.IsFree(row - 1, col) && !area.IsVisited(row - 1, col) {
      assert FreshAmong(s, Order, p) == Some(Up);
      area.Move(Up);
      moved := true;
    } else if area.IsFree(row + 1, col) && !area.IsVisited(row + 1, col) {
      assert FreshAmong(s, Order, p) == Some(Down);
      area.Move(Down);
      moved := true;
    } else {
      assert FreshAmong(s, Order, p) == None;
      moved := false;
    }
  }

  /**
   * Backtracking step of pathCalc: pops the current position off the path
   * and moves the cursor one cell toward the new top of the path.
   */
  method Backtrack(area: Block, path: seq<Pos>) returns (popped: seq<Pos>)
    requires area.Valid() && |path| >= 2
    modifies area, area.status, area.visited
    ensures area.Valid()
    ensures popped == path[..|path| - 1]
    ensures var back := Toward(path[|path| - 2], old(area.Abs()).cur);
      area.Abs() == if back.Some? then AfterMove(old(area.Abs()), back.value) else old(area.Abs())
  {
    popped := path[..|path| - 1];
    var previousPos := popped[|popped| - 1];
    var back := Toward(previousPos, (area.GetCurrentRow(), area.GetCurrentCol()));
    if back.Some? {
      area.Move(back.value);
    }
  }

  /**
   * pathCalc: if start is an entry, searches for a path from it to an exit.
   * The result is a path exactly when the block, as it was before the call,
   * has a route of at least two free, unvisited cells from the start to the
   * last column; the path returned is such a route and repeats no cell.
   */
  method PathCalc(area: Block, startRow: int, startCol: int) returns (result: Option<seq<Pos>>)
    requires area.Valid()
    modifies area, area.status, area.visited
    ensures area.Valid()
    ensures var s0, start := old(area.Abs()), (startRow, startCol);
      (result.Some? <==> Entry(s0, start) && Breach(s0, start)) &&
      (result.Some? ==> BreachRoute(s0, start, result.value) && Distinct(result.value)) &&
      (!Entry(s0, start) ==> area.Abs() == s0) &&
      (Entry(s0, start) ==> area.Abs().start == start && Evolved(s0, area.Abs()) &&
                            forall p :: Status(area.Abs(), p) == Status(s0, p)) &&
      (result.None? && Entry(s0, start) ==> area.Abs().cur == start)
    ensures result.Some? ==> var q := result.value;
      q[|q| - 1] == area.Abs().cur && Exit(area.Abs(), area.Abs().cur)
  {
    ghost var s0 := area.Abs();
    ghost var start := (startRow, startCol);
    if !area.IsEntry(startRow, startCol) {
      return None;
    }
    area.SetStart(startRow, startCol);
    var path := UpdatePath(area, []);
    var currentRow, currentCol := startRow, startCol;
    ghost var s := area.Abs();
    ghost var done: set<Pos> := {};
    StartSearching(s0, start);
    while true
      invariant area.Valid() && area.Abs() == s
      invariant (currentRow, currentCol) == s.cur
      invariant Searching(s0, s, start, path, done)
      invariant NoExitSeen(s0.m, path, done)
      decreases Unexplored(s), |path|
    {
      var moved := Advance(area, currentRow, currentCol);
      if moved {
        ghost var d := FirstFresh(s, Order, s.cur).value;
        Advanced(s0, s, start, path, done, d);
        s := AfterMove(s, d);
        path := UpdatePath(area, path);
      } else {
        NoFreshIsStuck(s, s.cur);
        if currentRow == startRow && currentCol == startCol {
          Exhausted(s0, s, start, path, done);
          return None;
        }
        Retreated(s0, s, start, path, done);
        ghost var back := Toward(path[|path| - 2], s.cur).value;
        path := Backtrack(area, path);
        done := done + {s.cur};
        s := AfterMove(s, back);
      }
      currentRow := area.GetCurrentRow();
      currentCol := area.GetCurrentCol();
      if area.IsExit(area.GetCurrentRow(), area.GetCurrentCol()) {
        assert path[|path| - 1] == s.cur;
        return Some(path);
      }
    }
  }

  /**
   * isEffective: the social distancing of the block is effective exactly
   * when pathCalc finds no path from the given start.
   */
  method IsEffective(area: Block, startRow: int, startCol: int) returns (effective: bool)
    requires area.Valid()
    modifies area, area.status, area.visited
    ensures area.Valid()
    ensures var s0, start := old(area.Abs()), (startRow, startCol);
      (effective <==> !(Entry(s0, start) && Breach(s0, start))) &&
      (!Entry(s0, start) ==> area.Abs() == s0) &&
      (Entry(s0, start) ==> area.Abs().start == start && Evolved(s0, area.Abs()) &&
                            forall p :: Status(area.Abs(), p) == Status(s0, p)) &&
      (effective && Entry(s0, start) ==> area.Abs().cur == start)
  {
    var path := PathCalc(area, startRow, startCol);
    if path == None {
      effective := true;
    } else {
      effective := false;
    }
  }
}
