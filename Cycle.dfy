/**
 * A block on which the recursive searches never answer. It has two rows and
 * three columns: row 0 is CLEAR, MARKED, MARKED and row 1 is CLEAR, CLEAR,
 * MARKED. Entered at (0, 0), a search steps down to (1, 0) and right to
 * (1, 1); from then on the cursor swings between (1, 1) and (1, 0), each
 * backtrack step returning to the cell the last one came from.
 */
module Cycle {
  import opened Wrappers
  import opened Cells
  import opened Blocks
  import opened RecursivePropagation
  import Propagation

  /**
   * s is the example block with the given visited flags on its three CLEAR
   * cells (0, 0), (1, 0) and (1, 1); the other three cells are MARKED.
   */
  ghost predicate Shape(s: BlockState, v00: bool, v10: bool, v11: bool) {
    WellFormed(s) && s.n == 2 && s.m == 3 &&
    s.cells[(0, 0)] == CellState(CLEAR, v00) &&
    s.cells[(1, 0)] == CellState(CLEAR, v10) &&
    s.cells[(1, 1)] == CellState(CLEAR, v11) &&
    s.cells[(0, 1)].status == MARKED && s.cells[(0, 2)].status == MARKED && s.cells[(1, 2)].status == MARKED
  }

  /** The example block before any search: nothing visited, no start set. */
  ghost predicate Initial(s: BlockState) {
    Shape(s, false, false, false) && s.cur == Unset && s.start == Unset
  }

  /** The block while swinging: every CLEAR cell visited, the cursor on row 1, column 0 or 1. */
  ghost predicate Swing(s: BlockState) {
    Shape(s, true, true, true) && s.start == (0, 0) && (s.cur == (1, 0) || s.cur == (1, 1))
  }

  /** The example block, nothing visited, as a value. */
  function Example(): (s: BlockState)
    ensures Initial(s)
  {
    BlockState(2, 3, map[(0, 0) := CellState(CLEAR, false), (0, 1) := CellState(MARKED, false),
                         (0, 2) := CellState(MARKED, false), (1, 0) := CellState(CLEAR, false),
                         (1, 1) := CellState(CLEAR, false), (1, 2) := CellState(MARKED, false)],
               Unset, Unset)
  }

  /** The first call sets the start at (0, 0) and steps down, the only fresh neighbour. */
  lemma EnterAndDown(s: BlockState)
    requires Initial(s)
    ensures Consistent(s)
    ensures var r := CallStep(s, (0, 0));
      r.Advanced? && Shape(r.state, true, false, false) && r.state.start == (0, 0) && r.state.cur == (1, 0)
  {
    var s1 := s.(start := (0, 0), cur := (0, 0));
    assert Begin(s, (0, 0)) == s1;
    FreshAmongIsFirst(s1, ForwardOrder, (0, 0));
    assert FirstFresh(s1, ForwardOrder, (0, 0)) == Some(Down);
  }

  /** The second call steps right, onto the last fresh cell. */
  lemma DownAndRight(s: BlockState)
    requires Shape(s, true, false, false) && s.start == (0, 0) && s.cur == (1, 0)
    ensures Consistent(s)
    ensures var r := CallStep(s, (1, 0));
      r.Advanced? && Shape(r.state, true, true, false) && r.state.start == (0, 0) && r.state.cur == (1, 1)
  {
    FreshAmongIsFirst(s, ForwardOrder, (1, 0));
    assert FirstFresh(s, ForwardOrder, (1, 0)) == Some(Right);
  }

  /** The third call is stuck away from the start and backtracks left. */
  lemma FirstBacktrack(s: BlockState)
    requires Shape(s, true, true, false) && s.start == (0, 0) && s.cur == (1, 1)
    ensures Consistent(s)
    ensures var r := CallStep(s, (1, 1));
      r.Backtracked? && r.state.cur == (1, 0) && Swing(r.state)
  {
    FreshAmongIsFirst(s, ForwardOrder, (1, 1));
    assert FirstFresh(s, ForwardOrder, (1, 1)) == None;
    FreeAmongIsFirst(s, BacktrackOrder, (1, 1));
    assert FirstFree(s, BacktrackOrder, (1, 1)) == Some(Left);
  }

  /**
   * Once swinging, every call is stuck away from the start and backtracks
   * to the other cell of the swing, leaving the grid as it was.
   */
  lemma SwingStep(s: BlockState)
    requires Swing(s)
    ensures Consistent(s)
    ensures var r := CallStep(s, s.cur);
      r.Backtracked? && r.before == s && Swing(r.state) && r.state.cells == s.cells &&
      r.state.cur == (if s.cur == (1, 0) then (1, 1) else (1, 0))
  {
    var p := s.cur;
    FreshAmongIsFirst(s, ForwardOrder, p);
    assert FirstFresh(s, ForwardOrder, p) == None;
    FreeAmongIsFirst(s, BacktrackOrder, p);
    var d := if p == (1, 0) then Right else Left;
    assert FirstFree(s, BacktrackOrder, p) == Some(d);
    assert s.cells[p := CellState(CLEAR, true)] == s.cells;
  }

  /** A call that neither stops nor pops an empty path hands the rest of the run to the next call. */
  lemma EffectiveGoesOn(s: BlockState, p: Pos, fuel: nat)
    requires Consistent(s) && fuel > 0 && (CallStep(s, p).Advanced? || CallStep(s, p).Backtracked?)
    ensures var t := CallStep(s, p).state;
      EffectiveRun(s, p, fuel) == EffectiveRun(t, t.cur, fuel - 1)
  {
  }

  /** A forward step of recursivePathCalc pushes the new position and hands the run to the next call. */
  lemma PathAdvances(s: BlockState, p: Pos, path: seq<Pos>, fuel: nat, t: BlockState, next: seq<Pos>)
    requires Consistent(s) && fuel > 0 && CallStep(s, p) == Advanced(t) && next == Begun(s, p, path) + [t.cur]
    ensures Consistent(t) && PathCalcRun(s, p, path, fuel) == PathCalcRun(t, t.cur, next, fuel - 1)
  {
  }

  /** A backtrack step of recursivePathCalc pops the path and hands the run to the next call. */
  lemma PathBacktracks(s: BlockState, p: Pos, path: seq<Pos>, fuel: nat, t: BlockState, next: seq<Pos>)
    requires Consistent(s) && fuel > 0 && CallStep(s, p).Backtracked? && CallStep(s, p).state == t
    requires var path1 := Begun(s, p, path); |path1| > 0 && next == path1[..|path1| - 1]
    ensures Consistent(t) && PathCalcRun(s, p, path, fuel) == PathCalcRun(t, t.cur, next, fuel - 1)
  {
  }

  /** Once swinging, recursiveIsEffective runs out of any fuel it is given. */
  lemma {:induction false} SwingsForever(s: BlockState, fuel: nat)
    requires Swing(s)
    ensures Consistent(s) && EffectiveRun(s, s.cur, fuel).result == OutOfFuel
    decreases fuel
  {
    SwingStep(s);
    if fuel > 0 {
      EffectiveGoesOn(s, s.cur, fuel);
      SwingsForever(CallStep(s, s.cur).state, fuel - 1);
    }
  }

  /** From the third call on, recursiveIsEffective runs out of any fuel. */
  lemma EffectiveFromThird(s: BlockState, fuel: nat)
    requires Shape(s, true, true, false) && s.start == (0, 0) && s.cur == (1, 1)
    ensures Consistent(s) && EffectiveRun(s, (1, 1), fuel).result == OutOfFuel
  {
    FirstBacktrack(s);
    if fuel > 0 {
      EffectiveGoesOn(s, (1, 1), fuel);
      SwingsForever(CallStep(s, (1, 1)).state, fuel - 1);
    }
  }

  /** From the second call on, recursiveIsEffective runs out of any fuel. */
  lemma EffectiveFromSecond(s: BlockState, fuel: nat)
    requires Shape(s, true, false, false) && s.start == (0, 0) && s.cur == (1, 0)
    ensures Consistent(s) && EffectiveRun(s, (1, 0), fuel).result == OutOfFuel
  {
    DownAndRight(s);
    if fuel > 0 {
      EffectiveGoesOn(s, (1, 0), fuel);
      EffectiveFromThird(CallStep(s, (1, 0)).state, fuel - 1);
    }
  }

  /**
   * Entered at (0, 0), recursiveIsEffective never answers on the example
   * block, however deep the call stack may grow.
   */
  lemma EffectiveNeverAnswers(s: BlockState, fuel: nat)
    requires Initial(s)
    ensures Consistent(s) && EffectiveRun(s, (0, 0), fuel).result == OutOfFuel
  {
    EnterAndDown(s);
    if fuel > 0 {
      EffectiveGoesOn(s, (0, 0), fuel);
      EffectiveFromSecond(CallStep(s, (0, 0)).state, fuel - 1);
    }
  }

  /** While swinging, each call pops one position, and popping an empty path ends the run. */
  lemma {:induction false} SwingPops(s: BlockState, path: seq<Pos>, fuel: nat)
    requires Swing(s)
    ensures Consistent(s)
    ensures fuel <= |path| ==> PathCalcRun(s, s.cur, path, fuel).result == OutOfFuel
    ensures fuel > |path| ==> PathCalcRun(s, s.cur, path, fuel).result == StackUnderflow
    decreases fuel
  {
    SwingStep(s);
    if fuel > 0 && |path| > 0 {
      var t := CallStep(s, s.cur).state;
      PathBacktracks(s, s.cur, path, fuel, t, path[..|path| - 1]);
      SwingPops(t, path[..|path| - 1], fuel - 1);
      assert |path[..|path| - 1]| == |path| - 1;
    }
  }

  /** From the third call on, recursivePathCalc pops its path empty and then once more. */
  lemma PathFromThird(s: BlockState, path: seq<Pos>, fuel: nat)
    requires Shape(s, true, true, false) && s.start == (0, 0) && s.cur == (1, 1) && |path| >= 1
    ensures Consistent(s)
    ensures fuel <= |path| ==> PathCalcRun(s, (1, 1), path, fuel).result == OutOfFuel
    ensures fuel > |path| ==> PathCalcRun(s, (1, 1), path, fuel).result == StackUnderflow
  {
    FirstBacktrack(s);
    if fuel > 0 {
      var t := CallStep(s, (1, 1)).state;
      PathBacktracks(s, (1, 1), path, fuel, t, path[..|path| - 1]);
      SwingPops(t, path[..|path| - 1], fuel - 1);
      assert |path[..|path| - 1]| == |path| - 1;
    }
  }

  /** From the second call on, recursivePathCalc pushes once, then pops its path empty and once more. */
  lemma PathFromSecond(s: BlockState, path: seq<Pos>, fuel: nat)
    requires Shape(s, true, false, false) && s.start == (0, 0) && s.cur == (1, 0)
    ensures Consistent(s)
    ensures fuel <= |path| + 2 ==> PathCalcRun(s, (1, 0), path, fuel).result == OutOfFuel
    ensures fuel > |path| + 2 ==> PathCalcRun(s, (1, 0), path, fuel).result == StackUnderflow
  {
    DownAndRight(s);
    if fuel > 0 {
      var t := CallStep(s, (1, 0)).state;
      PathAdvances(s, (1, 0), path, fuel, t, path + [(1, 1)]);
      PathFromThird(t, path + [(1, 1)], fuel - 1);
      assert |path + [(1, 1)]| == |path| + 1;
    }
  }

  /**
   * Entered at (0, 0), recursivePathCalc pushes the start and two more
   * positions, then the swing pops the path it was given empty, and the
   * next call pops an empty path: its |path| + 6-th call.
   */
  lemma PathCalcUnderflows(s: BlockState, path: seq<Pos>, fuel: nat)
    requires Initial(s)
    ensures Consistent(s)
    ensures fuel < |path| + 6 ==> PathCalcRun(s, (0, 0), path, fuel).result == OutOfFuel
    ensures fuel >= |path| + 6 ==> PathCalcRun(s, (0, 0), path, fuel).result == StackUnderflow
  {
    EnterAndDown(s);
    if fuel > 0 {
      var t := CallStep(s, (0, 0)).state;
      assert Begun(s, (0, 0), path) + [(1, 0)] == path + [(0, 0), (1, 0)];
      PathAdvances(s, (0, 0), path, fuel, t, path + [(0, 0), (1, 0)]);
      PathFromSecond(t, path + [(0, 0), (1, 0)], fuel - 1);
      assert |path + [(0, 0), (1, 0)]| == |path| + 2;
    }
  }

  /**
   * Yet no route of free cells leads from (0, 0) to the last column, which
   * is MARKED, so pathCalc and isEffective report the block effective.
   */
  lemma NoBreach(s: BlockState)
    requires Initial(s)
    ensures Consistent(s) && Entry(s, (0, 0))
    ensures !Propagation.Breach(s, (0, 0))
  {
    forall route: seq<Pos> ensures !Propagation.BreachRoute(s, (0, 0), route) {
      if |route| >= 2 && route[|route| - 1].1 == 2 {
        var last := route[|route| - 1];
        assert !Fresh(s, last) by {
          if InBounds(s, last) {
            assert last == (0, 2) || last == (1, 2);
          }
        }
      }
    }
  }

  /**
   * On a block in the example's initial state, pathCalc from (0, 0) returns
   * null and isEffective, run on another block in the same state, answers
   * true.
   */
  method IterativeReportsEffective(area: Block, other: Block) returns (result: Option<seq<Pos>>, effective: bool)
    requires area.Valid() && Initial(area.Abs())
    requires other.Valid() && Initial(other.Abs())
    requires area != other && area.status != other.status && area.visited != other.visited
    modifies area, area.status, area.visited, other, other.status, other.visited
    ensures result == None && effective
  {
    NoBreach(area.Abs());
    NoBreach(other.Abs());
    result := Propagation.PathCalc(area, 0, 0);
    effective := Propagation.IsEffective(other, 0, 0);
  }
}
