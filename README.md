# Social-distancing block: a verified model of the path search

The program decides whether the social distancing enforced in a block is
effective: whether a virus entering the block at a cell of its left column
can reach its right column. A block is an n x m grid of cells. Each cell has
a status, 0 for CLEAR and 1 for MARKED, and a visited flag. A cursor walks
the grid. The block's current position and its start are both (-1, -1) until
a start is set at an entry: an unvisited CLEAR cell of column 0. An exit is
an unvisited CLEAR cell of column m - 1. Moving the cursor onto a free
neighbour (in bounds and CLEAR) marks the cell it leaves visited and CLEAR.

Two searches are built on the block:

- `pathCalc` is an iterative depth-first search. It keeps the path taken on
  a stack and tries the neighbours in the order left, right, up, down. When
  stuck, it pops the stack and steps back toward the new top.
- `recursivePathCalc` and `recursiveIsEffective` are recursive. They try
  up, right, down, left. When stuck away from the start, they step to the
  first free neighbour in the order left, down, right, up, without
  consulting the path.

The model has six modules.

- `Wrappers` (Wrappers.dfy) holds the `Option` type, which stands for a
  Java reference that may be null.
- `Cells` (Cells.dfy) is the `Cell` class.
- `Blocks` (Blocks.dfy) has two layers.
  - `BlockState` is the value of a block: its dimensions, a map from
    positions to cell values, the cursor and the start. The functions on it
    (`Status`, `Visited`, `Free`, `Entry`, `Exit`, `WithStart`, `AfterMove`)
    say what each query and each move means.
  - The class `Block` stores the grid in two arrays and updates them in
    place. `Abs()` relates it to a `BlockState`: every query is proved equal
    to its meaning, and every mutator is proved to produce the value
    `WithStart` or `AfterMove` gives.
- `Propagation` (Propagation.dfy) is `pathCalc`, written as a `while` loop
  over the class. Its loop invariant `Searching` says the following.
  - The path is a repetition-free chain of adjacent cells that were free
    and unvisited before the search. It starts at the start, and its top is
    the cursor.
  - Every cell popped so far is visited and has no unvisited free
    neighbour.
  - No visited flag is ever cleared, and no status ever changes.

  From the invariant, `PathCalc` is proved complete and sound. It returns a
  path exactly when the start is an entry and a route of at least two
  initially free, unvisited cells leads from it to the last column. The
  path it returns is such a route. The loop terminates because the set of
  unexplored cells shrinks on every forward step and the path shrinks on
  every backtrack step.
- `RecursivePropagation` (RecursivePropagation.dfy) is the two recursive
  searches.
  - `CallStep` is one call up to its recursive call.
  - `EffectiveRun` and `PathCalcRun` are whole runs with a bound `fuel` on
    the depth of the call stack. A run ends by returning a value, by
    popping an empty path (`StackUnderflow`) or by exhausting the fuel
    (`OutOfFuel`).
  - The recursive methods are proved to compute exactly these runs.
  - Properties proved about the runs: the two searches make the same moves
    and agree on their answers; when the first call is made at a valid
    entry with no start set, or at the cursor's position, a returned path
    ends at the exit the cursor stands on; the grid only ever gains visited
    flags and CLEAR statuses; backtracking from the cursor's position only
    enters visited cells.
- `Cycle` (Cycle.dfy) is a 2 x 3 block, rows CLEAR MARKED MARKED and CLEAR
  CLEAR MARKED, entered at (0, 0).
  - The recursive searches reach (1, 1), then backtrack between (1, 0) and
    (1, 1) forever.
  - `recursiveIsEffective` therefore never answers, whatever the depth of
    the call stack. `recursivePathCalc` pops an empty path.
  - On the same block `pathCalc` returns null, because no route reaches
    the MARKED last column.

The class comment at RecursivePropagation.java:4-9 says the recursive class
has the same functionality as the iterative one. The code differs in two
places, and the model follows the code.

- `recursivePathCalc` and `recursiveIsEffective` test the start itself for
  being an exit. In a one-column block the start is one, so they report a
  path made of the start alone (`OneColumnEntryFound`). `pathCalc` only
  tests cells it has moved into, so it reports a path only when a route of
  at least two cells exists (`Propagation.PathCalc`).
- The recursive backtrack step can cycle (the `Cycle` module). Where the
  comment at RecursivePropagation.java:71-73 expects the reversed order to
  prevent being stuck between two cells, it does not.

## Model

| member | source | states |
|---|---|---|
| Cells.Cell.constructor | Cell.java:23-26 | the new cell holds exactly the given status and visited flag; the status is not range-checked |
| Cells.Cell.Unvisited | Cell.java:34-37 | the new cell holds the given status and is not visited |
| Cells.Cell.GetStatus | Cell.java:43-45 | returns the stored status; reads only |
| Cells.Cell.GetVisited | Cell.java:51-53 | returns the stored visited flag; reads only |
| Cells.Cell.SetStatus | Cell.java:59-61 | the status becomes the argument; the visited flag is unchanged |
| Cells.Cell.SetVisited | Cell.java:67-69 | the visited flag becomes the argument; the status is unchanged |
| Blocks.Block.constructor | Block.java:21-35 | the block keeps the given n x m grid (n, m >= 1); cursor and start are (-1, -1); the class invariant holds |
| Blocks.Block.IsValid | Block.java:63-67 | true iff 0 <= row < n and 0 <= col < m, i.e. iff the grid has a cell there |
| Blocks.Block.GetStatus | Block.java:77-83 | the cell's status in bounds, -1 out of bounds |
| Blocks.Block.IsVisited | Block.java:93-99 | the cell's visited flag in bounds, false out of bounds |
| Blocks.Block.IsEntry | Block.java:110-116 | true iff column 0, 0 <= row < n, unvisited and CLEAR |
| Blocks.Block.IsExit | Block.java:127-132 | true iff column m - 1, 0 <= row < n, unvisited and CLEAR |
| Blocks.Block.IsFree | Block.java:179-182 | true iff in bounds and CLEAR, whatever the visited flag |
| Blocks.Block.GetCurrentCol | Block.java:139-141 | the cursor's column |
| Blocks.Block.GetCurrentRow | Block.java:148-150 | the cursor's row |
| Blocks.Block.GetStartCol | Block.java:208-210 | the start's column |
| Blocks.Block.GetStartRow | Block.java:217-219 | the start's row |
| Blocks.Block.SetStart | Block.java:191-201 | the block becomes `WithStart` of the old block; the invariant is kept |
| Blocks.WithStart | Block.java:191-201 | at an entry, start and cursor both become the position and the grid is untouched; elsewhere nothing changes; the cursor invariant is kept |
| Blocks.Block.Move | Block.java:225-271 | the block becomes `AfterMove` of the old block in that direction; grid arrays and abstract cells stay in step |
| Blocks.AfterMove | Block.java:225-271 | the cursor invariant (start unset, or cursor on a CLEAR cell of the grid) is kept and the start never changes; while the cursor is (-1, -1) a move changes nothing |
| Blocks.MoveEffects | Block.java:225-271 | onto a free neighbour: the cursor moves one step, the vacated cell becomes visited and CLEAR, every other cell (the destination included) is unchanged; otherwise nothing changes; no visited flag is cleared and no status leaves CLEAR |
| Blocks.Neighbor | Block.java:225-271 | a move targets a cell adjacent to the cursor |
| Blocks.OneColumnEntryIsExit | Block.java:110-132 | in a one-column grid a cell is an entry iff it is an exit |
| Blocks.FirstFreshIsFirst | Propagation.java:70-81 | the direction a forward cascade picks has a free, unvisited neighbour and no earlier direction does; none is picked iff no direction has one |
| Blocks.FirstFreeIsFirst | RecursivePropagation.java:74-82 | the direction a backtrack cascade picks has a free neighbour and no earlier direction does; none is picked iff no direction has one |
| Blocks.FreshAmongIsFirst | Propagation.java:70-81 | the four-branch forward if-else cascade picks the first fresh direction of its order |
| Blocks.FreeAmongIsFirst | RecursivePropagation.java:74-82 | the four-branch backtrack if-else cascade picks the first free direction of its order |
| Propagation.UpdatePath | Propagation.java:132-139 | the path gains the cursor's position on top |
| Propagation.Advance | Propagation.java:70-81 | moves into the first of left, right, up, down whose neighbour is free and unvisited; reports whether one existed; otherwise the block is unchanged |
| Propagation.Toward | Propagation.java:95-103 | for a previous position adjacent to the cursor, the coordinate test picks the direction that leads back to it |
| Propagation.Backtrack | Propagation.java:92-103 | pops exactly the top of the path and moves the cursor by the coordinate delta toward the new top |
| Propagation.StartSearching | Propagation.java:51-62 | after setStart and the first push the loop invariant holds |
| Propagation.Advanced | Propagation.java:70-118 | a forward step keeps the invariant and shrinks the unexplored cells; the new cell is an exit iff it is in the last column, and then the path is a repetition-free route to the last column |
| Propagation.NoFreshIsStuck | Propagation.java:82-84 | when no direction offers a free, unvisited neighbour, every free neighbour is visited |
| Propagation.Retreated | Propagation.java:82-103 | stuck away from the start, the path has at least two entries; the step back lands on the new top, which is no exit; the invariant holds with the popped cell recorded as done |
| Propagation.RouteStaysInside | Propagation.java:35-48 | a set closed under free, unvisited neighbours that holds a route's first cell holds the whole route |
| Propagation.Exhausted | Propagation.java:82-88 | stuck back at the start, no route of at least two initially free, unvisited cells leads from the start to the last column |
| Propagation.PathCalc | Propagation.java:49-123 | returns a path iff the start is an entry and a route of at least two initially free, unvisited cells leads from it to the last column; the path is such a route, repeats no cell and ends at the exit the cursor stands on; a non-entry leaves the block untouched; the grid only gains visited flags; on null the cursor is back at the start |
| Propagation.IsEffective | Propagation.java:25-33 | true iff the start is not an entry or no route of at least two free, unvisited cells leads from it to the last column; a non-entry leaves the block untouched; otherwise the start is set, statuses are unchanged, visited flags are never cleared, and on true the cursor is back at the start |
| RecursivePropagation.Begin | RecursivePropagation.java:39-44 | the start is set, with the cursor, only when none is set and the position is an entry; otherwise nothing changes |
| RecursivePropagation.Enter | RecursivePropagation.java:39-44 | reports whether it set the start, exactly when no start was set and the position is an entry; the block becomes `Begin` of the old block |
| RecursivePropagation.Begun | RecursivePropagation.java:106-111 | the path gains the start exactly when the call sets it |
| RecursivePropagation.Forward | RecursivePropagation.java:53-63 | moves into the first of up, right, down, left whose neighbour is free and unvisited; reports whether one existed |
| RecursivePropagation.AfterRetreat | RecursivePropagation.java:74-82 | a backtrack step keeps the cursor invariant and the start; with no free neighbour it changes nothing |
| RecursivePropagation.Retreat | RecursivePropagation.java:74-82 | the block becomes `AfterRetreat` of the old block: a move to the first free neighbour in the order left, down, right, up |
| RecursivePropagation.CallStep | RecursivePropagation.java:39-84 | one call keeps the cursor invariant and a start once set; it stops as stuck only with the cursor at the start |
| RecursivePropagation.CallStepEvolves | RecursivePropagation.java:39-84 | one call never clears a visited flag and never turns a CLEAR cell MARKED |
| RecursivePropagation.RetreatEntersVisited | RecursivePropagation.java:53-82 | a backtrack step taken from the cursor's position with no forward move enters an already visited cell or stays put, so it never reaches a new exit |
| RecursivePropagation.EffectiveStep | RecursivePropagation.java:39-84 | the block becomes the call's step; the call answers false at an exit, true stuck at the start, and otherwise recurses |
| RecursivePropagation.EffectiveRun | RecursivePropagation.java:36-90 | a run keeps a start once set, never pops an empty stack, and answers true only with the cursor back at the start |
| RecursivePropagation.RecursiveIsEffective | RecursivePropagation.java:36-90 | the result and the final block are those of `EffectiveRun` |
| RecursivePropagation.PathStep | RecursivePropagation.java:106-158 | pushes the position when this call sets it as the start (no start set and the position is an entry), answers the path at an exit, pushes after a forward step, answers null stuck at the start, fails on popping an empty path, and pops before a backtrack step |
| RecursivePropagation.PathCalcRunSteps | RecursivePropagation.java:143-161 | a run is its first call followed, unless that call stops, by the run from the cursor's new position |
| RecursivePropagation.PathCalcRun | RecursivePropagation.java:102-164 | a run keeps a start once set; a returned path is the final path stack; null is answered only with the cursor back at the start |
| RecursivePropagation.RecursivePathCalc | RecursivePropagation.java:102-164 | the result, the final block and the final path stack are those of `PathCalcRun` |
| RecursivePropagation.SameSearch | RecursivePropagation.java:36-164 | unless recursivePathCalc pops an empty path, both searches end in the same block, return alike, and recursiveIsEffective answers true iff recursivePathCalc answers null |
| RecursivePropagation.SameAfterAdvance | RecursivePropagation.java:122-136 | a forward step keeps the two searches in step |
| RecursivePropagation.SameAfterBacktrack | RecursivePropagation.java:137-156 | a backtrack step keeps the two searches in step |
| RecursivePropagation.RunsEvolve | RecursivePropagation.java:36-164 | however either search ends, it never clears a visited flag or marks a cell |
| RecursivePropagation.TrackedStep | RecursivePropagation.java:102-161 | started at an entry or at the cursor, a call stops at an exit only where the cursor stands, with the exit on top of the path, and passes the cursor's position to its recursive call |
| RecursivePropagation.FoundPathEndsAtExit | RecursivePropagation.java:113-161 | when the first call is made at a valid entry with no start set, or at the cursor's position, a path recursivePathCalc returns ends at the exit the cursor stands on |
| RecursivePropagation.FoundAfterAdvance | RecursivePropagation.java:122-136 | a forward step passes that guarantee on |
| RecursivePropagation.FoundAfterBacktrack | RecursivePropagation.java:137-156 | a backtrack step passes that guarantee on |
| RecursivePropagation.OneColumnEntryFound | RecursivePropagation.java:106-118 | in a one-column block the start is an exit: the path returned is the given path plus the start, and recursiveIsEffective answers false |
| RecursivePropagation.InvalidEntryAtExit | RecursivePropagation.java:106-118 | with no start set, an exit that is not an entry returns the given path unchanged and leaves the block as it was |
| Cycle.Example | RecursivePropagation.java:36-164 | the 2 x 3 block exists as a value: CLEAR cells (0, 0), (1, 0), (1, 1), the rest MARKED, nothing visited, no start |
| Cycle.EnterAndDown | RecursivePropagation.java:39-63 | the first call sets the start at (0, 0) and steps down to (1, 0) |
| Cycle.DownAndRight | RecursivePropagation.java:53-63 | the second call steps right to (1, 1) |
| Cycle.FirstBacktrack | RecursivePropagation.java:64-82 | the third call is stuck away from the start and backtracks left to (1, 0) |
| Cycle.SwingStep | RecursivePropagation.java:64-82 | once every CLEAR cell is visited, each call backtracks to the other cell of the swing and leaves the grid unchanged |
| Cycle.SwingsForever | RecursivePropagation.java:74-87 | once swinging, recursiveIsEffective exhausts any fuel |
| Cycle.EffectiveFromThird | RecursivePropagation.java:64-87 | from the third call, recursiveIsEffective exhausts any fuel |
| Cycle.EffectiveFromSecond | RecursivePropagation.java:53-87 | from the second call, recursiveIsEffective exhausts any fuel |
| Cycle.EffectiveNeverAnswers | RecursivePropagation.java:36-90 | entered at (0, 0), recursiveIsEffective never answers, whatever the depth of the call stack |
| Cycle.SwingPops | RecursivePropagation.java:143-161 | while swinging, each call pops one position; the run exhausts its fuel within the path's length and pops an empty path after that |
| Cycle.PathFromThird | RecursivePropagation.java:137-161 | from the third call, the path is popped empty and then once more |
| Cycle.PathFromSecond | RecursivePropagation.java:122-161 | from the second call, one push, then the path is popped empty and once more |
| Cycle.PathCalcUnderflows | RecursivePropagation.java:102-164 | entered at (0, 0), recursivePathCalc pops an empty path on its (|path| + 6)-th call and never returns |
| Cycle.NoBreach | Propagation.java:25-52 | on the same block (0, 0) is an entry and no route of at least two free, unvisited cells reaches the last column, which by PathCalc's contract makes it return null |
| Cycle.IterativeReportsEffective | Propagation.java:25-52 | on a block in that state, pathCalc from (0, 0) returns null and isEffective answers true |

## Left out

- The commented-out `main` drivers and the printing in all three classes: they are test scaffolding, not logic.
- `getGrid` and `setGrid` (Block.java:42-53): the grid is fixed when the block is built.
- The public `setCurrentRow` and `setCurrentCol` (Block.java:157-168): they appear only as the effect of a move, because a client call could break the cursor invariant.
- The `Cell[][]` grid is held as two arrays, one for the statuses and one for the visited flags. Java lets two grid positions share one `Cell` object. The model gives every position its own cell, as the code assumes.
- Jagged grids and grids with no rows or no columns are excluded by the `Block` constructor's precondition. The code takes m to be the length of row 0.
- Java's `Stack<ArrayList<Integer>>` is a sequence of positions. The recursive search's stack is shared with its caller by reference; the model passes it in and returns its final contents.
- RecursivePropagation.updatePath (RecursivePropagation.java:173-180) is identical to Propagation.updatePath, so the model uses `Propagation.UpdatePath` for both.
- RecursivePropagation.RecursiveIsEffective: unbounded recursion is modelled with a `fuel` bound on the depth of the call stack. Running out of fuel stands for the `StackOverflowError` of a run that does not end. The model does not say at which depth the JVM would give up.
- RecursivePropagation.RecursivePathCalc: the same fuel bound applies. The `EmptyStackException` of popping an empty path is the `StackUnderflow` outcome.
- Propagation.Backtrack requires a path of at least two positions. Stuck away from the start, the search always has them (`Retreated` proves it), so the `peek` on an empty stack that the code would throw on cannot happen.
- Nothing here is concurrent, floating point or I/O.
