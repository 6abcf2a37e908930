/**
 * The recursive searches. Each call first sets the start if none is set
 * and (row, col) is an entry, stops at an exit, otherwise makes one step
 * (forward to the first fresh neighbour in the order up, right, down,
 * left, or, when there is none and the cursor is not at the start, back
 * to the first free neighbour in the order left, down, right, up) and
 * calls itself on the cursor's new position.
 *
 * The backtrack step does not consult the path, so the recursion need not
 * end. Every call is given a `fuel` budget standing for the depth of the
 * call stack, and a run ends in one of three ways: it returns a value, it
 * pops an empty path (Java's EmptyStackException), or it runs out of
 * fuel (Java's StackOverflowError).
 */
module RecursivePropagation {
  import opened Wrappers
  import opened Blocks
  import Propagation

  /** How a recursive run ends. */
  datatype Run<T> = Returned(value: T) | StackUnderflow | OutOfFuel

  /** The result and the final block of recursiveIsEffective. */
  datatype EffectiveOutcome = EffectiveOutcome(result: Run<bool>, state: BlockState)

  /** The result, the final block and the final path stack of recursivePathCalc. */
  datatype PathOutcome = PathOutcome(result: Run<Option<seq<Pos>>>, state: BlockState, stack: seq<Pos>)

  /**
   * What one call of either search does to the block before it returns or
   * calls itself: it stops at an exit, steps forward, stops stuck at the
   * start, or steps back. A backward step records the block before the
   * step too, since recursivePathCalc pops the path in between.
   */
  datatype Step =
    | AtExit(state: BlockState)
    | AtStart(state: BlockState)
    | Advanced(state: BlockState)
    | Backtracked(before: BlockState, state: BlockState)

  /** The order in which a forward step tries the neighbours. */
  const ForwardOrder: seq<Direction> := [Up, Right, Down, Left]

  /** The order in which a backtrack step tries the neighbours. */
  const BacktrackOrder: seq<Direction> := [Left, Down, Right, Up]

  /** The block at the start of a call: the start is set once, at a valid entry. */
  function Begin(s: BlockState, p: Pos): (t: BlockState)
    requires Consistent(s)
    ensures Consistent(t) && t.cells == s.cells
    ensures StartUnset(s) && Entry(s, p) ==> t.start == p && t.cur == p
    ensures !(StartUnset(s) && Entry(s, p)) ==> t == s
  {
    if StartUnset(s) && Entry(s, p) then WithStart(s, p) else s
  }

  /**
   * The block after a backtrack step from p: the cursor moves toward the
   * first free neighbour of p, visited or not, in the backtrack order.
   */
  function AfterRetreat(s: BlockState, p: Pos): (t: BlockState)
    requires Consistent(s)
    ensures Consistent(t) && t.start == s.start
    ensures FirstFree(s, BacktrackOrder, p).None? ==> t == s
  {
    match FirstFree(s, BacktrackOrder, p)
    case Some(d) => AfterMove(s, d)
    case None => s
  }

  /**
   * One call at position p. The block only evolves, a start once set is
   * kept, and the search stops as stuck only with the cursor at the start.
   */
  function CallStep(s: BlockState, p: Pos): (r: Step)
    requires Consistent(s)
    ensures Consistent(r.state)
    ensures !StartUnset(s) ==> r.state.start == s.start
    ensures r.AtStart? ==> r.state.cur == r.state.start
    ensures r.Backtracked? ==> Consistent(r.before) && r.before.start == r.state.start
  {
    var s1 := Begin(s, p);
    if Exit(s1, p) then AtExit(s1)
    else
      match FirstFresh(s1, ForwardOrder, p)
      case Some(d) => Advanced(AfterMove(s1, d))
      case None =>
        if s1.cur == s1.start then AtStart(s1)
        else Backtracked(s1, AfterRetreat(s1, p))
  }

  /**
   * recursiveIsEffective(area, p) run with `fuel` nested calls available.
   * It keeps a start once set, never answers with a popped empty stack,
   * and answers true only with the cursor back at the start.
   */
  function EffectiveRun(s: BlockState, p: Pos, fuel: nat): (r: EffectiveOutcome)
    requires Consistent(s)
    ensures Consistent(r.state)
    ensures !StartUnset(s) ==> r.state.start == s.start
    ensures r.result == Returned(true) ==> r.state.cur == r.state.start
    ensures r.result != StackUnderflow
    decreases fuel
  {
    if fuel == 0 then EffectiveOutcome(OutOfFuel, s)
    else
      match CallStep(s, p)
      case AtExit(t) => EffectiveOutcome(Returned(false), t)
      case AtStart(t) => EffectiveOutcome(Returned(true), t)
      case Advanced(t) => EffectiveRun(t, t.cur, fuel - 1)
      case Backtracked(_, t) => EffectiveRun(t, t.cur, fuel - 1)
  }

  /** The path stack after a call at p has set the start (and pushed it) or not. */
  function Begun(s: BlockState, p: Pos, path: seq<Pos>): (path1: seq<Pos>)
    requires WellFormed(s)
    ensures StartUnset(s) && Entry(s, p) ==> path1 == path + [p]
    ensures !(StartUnset(s) && Entry(s, p)) ==> path1 == path
  {
    if StartUnset(s) && Entry(s, p) then path + [p] else path
  }

  /**
   * recursivePathCalc(area, p, path) run with `fuel` nested calls
   * available. Besides the guarantees of EffectiveRun, a path it returns
   * is the final path stack itself, and null is answered only with the
   * cursor back at the start.
   */
  function PathCalcRun(s: BlockState, p: Pos, path: seq<Pos>, fuel: nat): (r: PathOutcome)
    requires Consistent(s)
    ensures Consistent(r.state)
    ensures !StartUnset(s) ==> r.state.start == s.start
    ensures r.result == Returned(None) ==> r.state.cur == r.state.start
    ensures r.result.Returned? && r.result.value.Some? ==> r.result.value.value == r.stack
    decreases fuel
  {
    if fuel == 0 then PathOutcome(OutOfFuel, s, path)
    else
      var path1 := Begun(s, p, path);
      match CallStep(s, p)
      case AtExit(t) => PathOutcome(Returned(Some(path1)), t, path1)
      case AtStart(t) => PathOutcome(Returned(None), t, path1)
      case Advanced(t) => PathCalcRun(t, t.cur, path1 + [t.cur], fuel - 1)
      case Backtracked(t0, t) =>
        if |path1| == 0 then PathOutcome(StackUnderflow, t0, path1)
        else PathCalcRun(t, t.cur, path1[..|path1| - 1], fuel - 1)
  }

  /**
   * The two searches started alike agree: unless the path search pops an
   * empty stack, both end in the same block, both return or neither does,
   * and recursiveIsEffective answers true exactly when recursivePathCalc
   * answers null.
   */
  ghost predicate SameRun(s: BlockState, p: Pos, path: seq<Pos>, fuel: nat)
    requires Consistent(s)
  {
    var e, q := EffectiveRun(s, p, fuel), PathCalcRun(s, p, path, fuel);
    q.result != StackUnderflow ==>
      e.state == q.state &&
      (e.result.Returned? <==> q.result.Returned?) &&
      (q.result.Returned? ==> (e.result.value <==> q.result.value.None?))
  }

  /** The two searches make the same moves, so they always agree. */
  lemma {:induction false} SameSearch(s: BlockState, p: Pos, path: seq<Pos>, fuel: nat)
    requires Consistent(s)
    ensures SameRun(s, p, path, fuel)
    decreases fuel, 1
  {
    if fuel > 0 {
      match CallStep(s, p)
      case AtExit(_) =>
      case AtStart(_) =>
      case Advanced(t) => SameAfterAdvance(s, p, path, fuel, t);
      case Backtracked(t0, t) => SameAfterBacktrack(s, p, path, fuel, t0, t);
    }
  }

  /** A forward step keeps the two searches in step. */
  lemma {:induction false} SameAfterAdvance(s: BlockState, p: Pos, path: seq<Pos>, fuel: nat, t: BlockState)
    requires Consistent(s) && fuel > 0 && CallStep(s, p) == Advanced(t)
    ensures SameRun(s, p, path, fuel)
    decreases fuel, 0
  {
    SameSearch(t, t.cur, Begun(s, p, path) + [t.cur], fuel - 1);
  }

  /** A backtrack step keeps the two searches in step, unless the path search pops an empty stack. */
  lemma {:induction false} SameAfterBacktrack(s: BlockState, p: Pos, path: seq<Pos>, fuel: nat, t0: BlockState, t: BlockState)
    requires Consistent(s) && fuel > 0 && CallStep(s, p) == Backtracked(t0, t)
    ensures SameRun(s, p, path, fuel)
    decreases fuel, 0
  {
    var path1 := Begun(s, p, path);
    if |path1| != 0 {
      SameSearch(t, t.cur, path1[..|path1| - 1], fuel - 1);
    }
  }

  /** One call never clears a visited flag and never marks a cell. */
  lemma CallStepEvolves(s: BlockState, p: Pos)
    requires Consistent(s)
    ensures var r := CallStep(s, p);
      Evolved(s, r.state) && (r.Backtracked? ==> Evolved(s, r.before))
  {
    var s1 := Begin(s, p);
    if !Exit(s1, p) {
      match FirstFresh(s1, ForwardOrder, p)
      case Some(d) => MoveEffects(s1, d);
      case None =>
        match FirstFree(s1, BacktrackOrder, p)
        case Some(d) => MoveEffects(s1, d);
        case None =>
    }
  }

  /** Neither search ever clears a visited flag or marks a cell, however it ends. */
  lemma {:induction false} RunsEvolve(s: BlockState, p: Pos, path: seq<Pos>, fuel: nat)
    requires Consistent(s)
    ensures Evolved(s, EffectiveRun(s, p, fuel).state)
    ensures Evolved(s, PathCalcRun(s, p, path, fuel).state)
    decreases fuel
  {
    if fuel > 0 {
      CallStepEvolves(s, p);
      var path1 := Begun(s, p, path);
      match CallStep(s, p)
      case AtExit(_) =>
      case AtStart(_) =>
      case Advanced(t) =>
        RunsEvolve(t, t.cur, path1 + [t.cur], fuel - 1);
      case Backtracked(_, t) =>
        RunsEvolve(t, t.cur, if |path1| == 0 then [] else path1[..|path1| - 1], fuel - 1);
    }
  }

  /** Every direction is tried by the forward order. */
  lemma InForwardOrder(d: Direction) returns (i: int)
    ensures 0 <= i < |ForwardOrder| && ForwardOrder[i] == d
  {
    match d
    case Up => i := 0;
    case Right => i := 1;
    case Down => i := 2;
    case Left => i := 3;
  }

  /**
   * A backtrack step taken when no forward step is possible enters a cell
   * that has already been visited (or stays put), so it never reaches an
   * exit the cursor was not already on.
   */
  lemma RetreatEntersVisited(s: BlockState)
    requires Consistent(s) && FirstFresh(s, ForwardOrder, s.cur).None?
    ensures var t := AfterRetreat(s, s.cur);
      (t.cur == s.cur || Visited(s, t.cur)) &&
      (!Exit(s, s.cur) ==> !Exit(t, t.cur))
  {
    var t := AfterRetreat(s, s.cur);
    FirstFreshIsFirst(s, ForwardOrder, s.cur);
    FirstFreeIsFirst(s, BacktrackOrder, s.cur);
    match FirstFree(s, BacktrackOrder, s.cur)
    case None =>
    case Some(d) =>
      var q := Neighbor(s.cur, d);
      MoveEffects(s, d);
      var i := InForwardOrder(d);
      assert !Fresh(s, Neighbor(s.cur, ForwardOrder[i]));
      assert Visited(s, q) && t.cur == q;
  }

  /**
   * The position a call is given and the path it is given fit together:
   * either the call sets the start at a valid entry, or the position is
   * the cursor and, if it is an exit, the top of the path.
   */
  ghost predicate Tracked(s: BlockState, p: Pos, path: seq<Pos>)
    requires Consistent(s)
  {
    (StartUnset(s) && Entry(s, p)) ||
    (p == s.cur && (Exit(s, p) ==> |path| >= 1 && path[|path| - 1] == p))
  }

  /**
   * Started from a valid entry, or from the cursor's own position, a call
   * is stopped at an exit only where the cursor stands, with that exit on
   * top of the path; every call it makes is tracked in the same way.
   */
  lemma TrackedStep(s: BlockState, p: Pos, path: seq<Pos>)
    requires Consistent(s) && Tracked(s, p, path)
    ensures var path1, r := Begun(s, p, path), CallStep(s, p);
      (r.AtExit? ==> p == r.state.cur && |path1| >= 1 && path1[|path1| - 1] == p) &&
      (r.Advanced? ==> Tracked(r.state, r.state.cur, path1 + [r.state.cur])) &&
      (r.Backtracked? && |path1| != 0 ==> Tracked(r.state, r.state.cur, path1[..|path1| - 1]))
  {
    var s1 := Begin(s, p);
    assert p == s1.cur;
    if !Exit(s1, p) && FirstFresh(s1, ForwardOrder, p).None? && s1.cur != s1.start {
      RetreatEntersVisited(s1);
    }
  }

  /**
   * A path that recursivePathCalc returns ends at the exit the cursor
   * stands on.
   */
  ghost predicate EndsAtExit(s: BlockState, p: Pos, path: seq<Pos>, fuel: nat)
    requires Consistent(s)
  {
    var r := PathCalcRun(s, p, path, fuel);
    r.result.Returned? && r.result.value.Some? ==>
      var q := r.result.value.value;
      |q| >= 1 && q[|q| - 1] == r.state.cur && Exit(r.state, r.state.cur)
  }

  /**
   * Started from a valid entry, or from the cursor's own position, a path
   * that recursivePathCalc returns ends at the exit the cursor stands on:
   * an exit is only ever reached by a forward step, which pushes it.
   */
  lemma {:induction false} FoundPathEndsAtExit(s: BlockState, p: Pos, path: seq<Pos>, fuel: nat)
    requires Consistent(s) && Tracked(s, p, path)
    ensures EndsAtExit(s, p, path, fuel)
    decreases fuel, 1
  {
    if fuel > 0 {
      TrackedStep(s, p, path);
      match CallStep(s, p)
      case AtExit(_) =>
      case AtStart(_) =>
      case Advanced(t) => FoundAfterAdvance(s, p, path, fuel, t);
      case Backtracked(t0, t) => FoundAfterBacktrack(s, p, path, fuel, t0, t);
    }
  }

  /** After a forward step the search goes on from a tracked call. */
  lemma {:induction false} FoundAfterAdvance(s: BlockState, p: Pos, path: seq<Pos>, fuel: nat, t: BlockState)
    requires Consistent(s) && Tracked(s, p, path) && fuel > 0 && CallStep(s, p) == Advanced(t)
    ensures EndsAtExit(s, p, path, fuel)
    decreases fuel, 0
  {
    TrackedStep(s, p, path);
    var path1 := Begun(s, p, path);
    FoundPathEndsAtExit(t, t.cur, path1 + [t.cur], fuel - 1);
    AdvanceKeepsEnd(s, p, path, fuel, t);
  }

  /** A run that starts with a forward step ends where the rest of the run ends. */
  lemma AdvanceKeepsEnd(s: BlockState, p: Pos, path: seq<Pos>, fuel: nat, t: BlockState)
    requires Consistent(s) && fuel > 0 && CallStep(s, p) == Advanced(t)
    requires EndsAtExit(t, t.cur, Begun(s, p, path) + [t.cur], fuel - 1)
    ensures EndsAtExit(s, p, path, fuel)
  {
  }

  /** After a backtrack step the search goes on from a tracked call, or pops an empty stack. */
  lemma {:induction false} FoundAfterBacktrack(s: BlockState, p: Pos, path: seq<Pos>, fuel: nat, t0: BlockState, t: BlockState)
    requires Consistent(s) && Tracked(s, p, path) && fuel > 0 && CallStep(s, p) == Backtracked(t0, t)
    ensures EndsAtExit(s, p, path, fuel)
    decreases fuel, 0
  {
    TrackedStep(s, p, path);
    var path1 := Begun(s, p, path);
    if |path1| != 0 {
      FoundPathEndsAtExit(t, t.cur, path1[..|path1| - 1], fuel - 1);
    }
  }

  /**
   * Unlike pathCalc, the recursive searches test the start itself: in a
   * one-column block an entry is an exit, so the path is the start alone
   * pushed onto the given path, and the block is not effective.
   */
  lemma OneColumnEntryFound(s: BlockState, p: Pos, path: seq<Pos>, fuel: nat)
    requires Consistent(s) && s.m == 1 && StartUnset(s) && Entry(s, p) && fuel >= 1
    ensures PathCalcRun(s, p, path, fuel).result == Returned(Some(path + [p]))
    ensures EffectiveRun(s, p, fuel).result == Returned(false)
  {
    OneColumnEntryIsExit(s, p);
  }

  /**
   * An invalid entry is not rejected: with no start set, a position that
   * is not an entry but is an exit returns the given path unchanged and
   * leaves the block as it was.
   */
  lemma InvalidEntryAtExit(s: BlockState, p: Pos, path: seq<Pos>, fuel: nat)
    requires Consistent(s) && StartUnset(s) && !Entry(s, p) && Exit(s, p) && fuel >= 1
    ensures PathCalcRun(s, p, path, fuel) == PathOutcome(Returned(Some(path)), s, path)
    ensures EffectiveRun(s, p, fuel) == EffectiveOutcome(Returned(false), s)
  {
  }

  /** The forward step of RecursivePropagation.java:53-63 and 122-136: up, right, down, left. */
  method Forward(area: Block, row: int, col: int) returns (moved: bool)
    requires area.Valid()
    modifies area, area.status, area.visited
    ensures area.Valid()
    ensures var s, r := old(area.Abs()), FirstFresh(old(area.Abs()), ForwardOrder, (row, col));
      moved == r.Some? && area.Abs() == (if r.Some? then AfterMove(s, r.value) else s)
  {
    ghost var s, p := area.Abs(), (row, col);
    FreshAmongIsFirst(s, ForwardOrder, p);
    if area.IsFree(row - 1, col) && !area.IsVisited(row - 1, col) {
      assert FreshAmong(s, ForwardOrder, p) == Some(Up);
      area.Move(Up);
      moved := true;
    } else if area.IsFree(row, col + 1) && !area.IsVisited(row, col + 1) {
      assert FreshAmong(s, ForwardOrder, p) == Some(Right);
      area.Move(Right);
      moved := true;
    } else if area.IsFree(row + 1, col) && !area.IsVisited(row + 1, col) {
      assert FreshAmong(s, ForwardOrder, p) == Some(Down);
      area.Move(Down);
      moved := true;
    } else if area.IsFree(row, col - 1) && !area.IsVisited(row, col - 1) {
      assert FreshAmong(s, ForwardOrder, p) == Some(Left);
      area.Move(Left);
      moved := true;
    } else {
      assert FreshAmong(s, ForwardOrder, p) == None;
      moved := false;
    }
  }

  /** The backtrack step of RecursivePropagation.java:74-82 and 148-156: left, down, right, up. */
  method Retreat(area: Block, row: int, col: int)
    requires area.Valid()
    modifies area, area.status, area.visited
    ensures area.Valid()
    ensures area.Abs() == AfterRetreat(old(area.Abs()), (row, col))
  {
    ghost var s, p := area.Abs(), (row, col);
    FreeAmongIsFirst(s, BacktrackOrder, p);
    if area.IsFree(row, col - 1) {
      assert FreeAmong(s, BacktrackOrder, p) == Some(Left);
      area.Move(Left);
    } else if area.IsFree(row + 1, col) {
      assert FreeAmong(s, BacktrackOrder, p) == Some(Down);
      area.Move(Down);
    } else if area.IsFree(row, col + 1) {
      assert FreeAmong(s, BacktrackOrder, p) == Some(Right);
      area.Move(Right);
    } else if area.IsFree(row - 1, col) {
      assert FreeAmong(s, BacktrackOrder, p) == Some(Up);
      area.Move(Up);
    }
  }

  /** RecursivePropagation.java:39-44 and 106-111: the start is set once, at a valid entry. */
  method Enter(area: Block, row: int, col: int) returns (entered: bool)
    requires area.Valid()
    modifies area
    ensures area.Valid()
    ensures entered == (StartUnset(old(area.Abs())) && Entry(old(area.Abs()), (row, col)))
    ensures area.Abs() == Begin(old(area.Abs()), (row, col))
  {
    entered := (area.GetStartRow() < 0 || area.GetStartCol() < 0) && area.IsEntry(row, col);
    if entered {
      area.SetStart(row, col);
    }
  }

  /**
   * One call of recursiveIsEffective up to its recursive call: the block
   * becomes the step's block, and the call stops with false at an exit and
   * with true stuck at the start.
   */
  method EffectiveStep(area: Block, row: int, col: int) returns (stop: Option<bool>)
    requires area.Valid()
    modifies area, area.status, area.visited
    ensures area.Valid()
    ensures var step := CallStep(old(area.Abs()), (row, col));
      area.Abs() == step.state &&
      stop == match step
              case AtExit(_) => Some(false)
              case AtStart(_) => Some(true)
              case _ => None
  {
    ghost var s0, p := area.Abs(), (row, col);
    var _ := Enter(area, row, col);
    ghost var s1 := area.Abs();
    if area.IsExit(row, col) {
      assert CallStep(s0, p) == AtExit(s1);
      return Some(false);
    }
    var moved := Forward(area, row, col);
    if !moved {
      if area.GetCurrentRow() == area.GetStartRow() && area.GetCurrentCol() == area.GetStartCol() {
        assert CallStep(s0, p) == AtStart(s1);
        return Some(true);
      }
      Retreat(area, row, col);
      assert CallStep(s0, p) == Backtracked(s1, area.Abs());
    } else {
      assert CallStep(s0, p) == Advanced(area.Abs());
    }
    stop := None;
  }

  /** recursiveIsEffective, with the depth of the call stack bounded by `fuel`. */
  method RecursiveIsEffective(area: Block, row: int, col: int, fuel: nat) returns (r: Run<bool>)
    requires area.Valid()
    modifies area, area.status, area.visited
    ensures area.Valid()
    ensures var e := EffectiveRun(old(area.Abs()), (row, col), fuel);
      r == e.result && area.Abs() == e.state
    decreases fuel
  {
    if fuel == 0 {
      return OutOfFuel;
    }
    var stop := EffectiveStep(area, row, col);
    if stop.Some? {
      return Returned(stop.value);
    }
    r := RecursiveIsEffective(area, area.GetCurrentRow(), area.GetCurrentCol(), fuel - 1);
  }

  /**
   * What one call of recursivePathCalc does before its recursive call,
   * given the block s and the path it starts from: it leaves the block t
   * and the path stack, and it either stops with a result or goes on.
   */
  ghost predicate PathStepped(s: BlockState, p: Pos, path: seq<Pos>,
                              stop: Option<Run<Option<seq<Pos>>>>, t: BlockState, stack: seq<Pos>)
    requires Consistent(s)
  {
    var path1 := Begun(s, p, path);
    match CallStep(s, p)
    case AtExit(u) => t == u && stop == Some(Returned(Some(path1))) && stack == path1
    case AtStart(u) => t == u && stop == Some(Returned(None)) && stack == path1
    case Advanced(u) => t == u && stop == None && stack == path1 + [u.cur]
    case Backtracked(u0, u) =>
      if |path1| == 0 then t == u0 && stop == Some(StackUnderflow) && stack == path1
      else t == u && stop == None && stack == path1[..|path1| - 1]
  }

  /** A run is its first call followed, unless that call stops, by the rest of the run. */
  lemma PathCalcRunSteps(s: BlockState, p: Pos, path: seq<Pos>, fuel: nat,
                         stop: Option<Run<Option<seq<Pos>>>>, t: BlockState, stack: seq<Pos>)
    requires Consistent(s) && fuel > 0 && PathStepped(s, p, path, stop, t, stack)
    ensures Consistent(t)
    ensures stop.Some? ==> PathCalcRun(s, p, path, fuel) == PathOutcome(stop.value, t, stack)
    ensures stop.None? ==> PathCalcRun(s, p, path, fuel) == PathCalcRun(t, t.cur, stack, fuel - 1)
  {
  }

  /**
   * One call of recursivePathCalc up to its recursive call: the path gets
   * the start if the call sets it, then the new position after a forward
   * step, and loses its top before a backtrack step; the call stops with
   * the path at an exit, with null stuck at the start, and with an
   * EmptyStackException when it would pop an empty path.
   */
  method PathStep(area: Block, row: int, col: int, path: seq<Pos>)
      returns (stop: Option<Run<Option<seq<Pos>>>>, stack: seq<Pos>)
    requires area.Valid()
    modifies area, area.status, area.visited
    ensures area.Valid()
    ensures PathStepped(old(area.Abs()), (row, col), path, stop, area.Abs(), stack)
  {
    ghost var s0, p := area.Abs(), (row, col);
    stack := path;
    var entered := Enter(area, row, col);
    if entered {
      stack := Propagation.UpdatePath(area, stack);
    }
    ghost var s1 := area.Abs();
    assert stack == Begun(s0, p, path);
    if area.IsExit(row, col) {
      assert CallStep(s0, p) == AtExit(s1);
      return Some(Returned(Some(stack))), stack;
    }
    var moved := Forward(area, row, col);
    if moved {
      assert CallStep(s0, p) == Advanced(area.Abs());
      stack := Propagation.UpdatePath(area, stack);
      return None, stack;
    }
    if area.GetCurrentRow() == area.GetStartRow() && area.GetCurrentCol() == area.GetStartCol() {
      assert CallStep(s0, p) == AtStart(s1);
      return Some(Returned(None)), stack;
    }
    if |stack| == 0 {
      assert CallStep(s0, p) == Backtracked(s1, AfterRetreat(s1, p));
      return Some(StackUnderflow), stack;
    }
    stack := stack[..|stack| - 1];
    Retreat(area, row, col);
    assert CallStep(s0, p) == Backtracked(s1, area.Abs());
    stop := None;
  }

  /**
   * recursivePathCalc, with the depth of the call stack bounded by `fuel`.
   * The Java stack is shared with the caller and updated in place; here it
   * is passed in as `path` and its final contents come back as `stack`.
   */
  method RecursivePathCalc(area: Block, row: int, col: int, path: seq<Pos>, fuel: nat)
      returns (r: Run<Option<seq<Pos>>>, stack: seq<Pos>)
    requires area.Valid()
    modifies area, area.status, area.visited
    ensures area.Valid()
    ensures var e := PathCalcRun(old(area.Abs()), (row, col), path, fuel);
      r == e.result && area.Abs() == e.state && stack == e.stack
    decreases fuel
  {
    if fuel == 0 {
      return OutOfFuel, path;
    }
    ghost var s0 := area.Abs();
    var stop;
    stop, stack := PathStep(area, row, col, path);
    PathCalcRunSteps(s0, (row, col), path, fuel, stop, area.Abs(), stack);
    if stop.Some? {
      return stop.value, stack;
    }
    r, stack := RecursivePathCalc(area, area.GetCurrentRow(), area.GetCurrentCol(), stack, fuel - 1);
  }
}
