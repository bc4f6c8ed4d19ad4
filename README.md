# Pig and Piglet value iteration

This project models the three value-iteration solvers of the repository for the
dice game Pig and its coin-flip variant Piglet, and proves what they compute.

A state `(i, j, k)` holds the banked score `i` of the player about to move,
the banked score `j` of the opponent and the turn total `k`. With target `T`
the Python solvers store a value for exactly the states with `i < T`, `j < T`
and `k < T - i`. The Java solver allocates whole `goal x goal x goal` arrays,
but its loops only write those table cells; the other cells keep the 0.0 and
false they were allocated with. Every state outside the table is resolved by
the lookup: `i + k >= T` is a win worth 1, and otherwise `j >= T` is a loss
worth 0. Handing the turn to the opponent in state `s'` is worth
`1 - value(s')`. Each solver sweeps the table
until the largest change of a sweep drops below a tolerance, and records the
best action for every state.

- `boundary.dfy` (module `Boundary`): states, the win and loss rules, the value
  lookup, the enumeration of the table in loop order and its reversal, and the
  largest change between two tables.
- `in_place.dfy` (module `InPlace`): the in-place (Gauss-Seidel) sweep as a
  fold over a list of states. Each value is written at once, so states
  visited later in the same sweep read it. Also the n-th sweep, and the sweep
  written as three nested loops (`Nested`).
- `jacobi.dfy` (module `Synchronous`): the synchronous (Jacobi) sweep. It reads
  the table as it stood when the sweep began and writes into a copy, and it
  appends each new value to the state's trace.
- `pig.dfy` (module `PigGame`): `source/pig.py`, the Pig solver. The class
  `Pig` keeps the fields of the Python object, and its methods update them in
  place.
- `piglet.dfy` (module `PigletGame`): `source/piglet.py`, the Piglet solver
  with the copy, the trace and the iteration counter.
- `piglet_solver.dfy` (module `PigletArrays`): `source/PigletSolver.java`.
  The class keeps the two `goal x goal x goal` arrays `p` and `flip`. Two
  ghost maps `Table` and `Flips` mirror the table cells of those arrays. This
  lets the array sweep be specified by the same in-place fold as the Pig
  solver.

The order in which Python iterates over the two-element action set is not
fixed by the program, because it depends on string hashing. The model takes
that order as a constructor parameter (`rollFirst`, `flipFirst`). Python's
`max` with a key keeps the first maximal item, which `FirstMax` models. The
Java solver breaks ties towards hold, which `JavaChoice` models.

## Model

| member | source | states |
|---|---|---|
| Boundary.IsWin | source/pig.py:15-16 | the player to move has won when banked score plus turn total reaches the target (also source/piglet.py:16-17) |
| Boundary.IsLoss | source/pig.py:19-20 | the player to move has lost when the opponent's banked score reaches the target (also source/piglet.py:20-21) |
| Boundary.InTable | source/pig.py:6 | the triples the comprehension generates: `0 <= i < T`, `0 <= j < T`, `0 <= k < T - i` |
| Boundary.From | source/pig.py:6 | the table states from (i, j, k) onward, in the order of the nested comprehension and of the Java loops |
| Boundary.Enumerate | source/pig.py:6 | the whole state list before `reverse()`, empty when `T <= 0` |
| Boundary.BoundaryExhaustive | source/pig.py:15-29 | a state is a table state exactly when it is neither a win nor a loss, so the table read in `value` never misses |
| Boundary.Value | source/pig.py:23-29 | the lookup (a win gives 1 and takes precedence over a loss, which gives 0; otherwise the stored value) yields a probability whenever the table holds probabilities |
| Boundary.Max | source/PigletSolver.java:27 | the result is at least both arguments and equals one of them |
| Boundary.Abs | source/PigletSolver.java:29 | the result is non-negative and is `x` or `-x` |
| Boundary.FirstMax | source/pig.py:49 | the maximum by value of two (action, value) pairs: the second pair only when its value is strictly larger, else the first |
| Boundary.MaxChange | source/piglet.py:52 | the largest change between two tables over a list of states is non-negative |
| Boundary.MaxChangeIsMax | source/piglet.py:52 | MaxChange bounds the change of every listed state and, on a non-empty list, equals one of them |
| Boundary.MaxChangeMonotone | source/piglet.py:52 | MaxChange grows when every listed change grows |
| Boundary.MaxChangeFrame | source/piglet.py:52 | MaxChange depends only on the entries of the listed states |
| Boundary.MaxChangeSelf | source/piglet.py:47-48 | a table compared with its own copy has change 0 |
| Boundary.FromMember | source/pig.py:6 | the loop order from (i, j, k) lists exactly the table states at or after (i, j, k) |
| Boundary.EnumerateMembers | source/pig.py:6 | the comprehension lists exactly the triples with `0 <= i < T`, `0 <= j < T`, `0 <= k < T - i` |
| Boundary.FromIncreasing | source/pig.py:6 | the loop order from (i, j, k) is strictly increasing in lexicographic order |
| Boundary.ConsIncreasing | source/pig.py:6 | a state below every state of an increasing list can head it |
| Boundary.EnumerateIncreasing | source/PigletSolver.java:21-23 | the table is visited in strictly increasing (i, j, k) order, so each state exactly once |
| Boundary.Reversed | source/pig.py:7 | the reversed list has the same length, and position x holds the element that stood at position `len - 1 - x` |
| Boundary.ReversedEnumeration | source/pig.py:6-7 | the state list after `reverse()` holds exactly the table states, each once, in strictly decreasing lexicographic order |
| Boundary.ReversedMembers | source/pig.py:7 | reversal keeps the members |
| Boundary.ReversedOrder | source/pig.py:7 | reversal turns an increasing list into a decreasing one without repeats |
| InPlace.Step | source/pig.py:49-51 | one in-place state update: the rule reads the current table, its value replaces the state's entry, its action goes to the policy, and delta takes in the absolute change |
| InPlace.InPlaceSweep | source/pig.py:48-51 | the updates of a list of states in order, each reading what the earlier ones wrote |
| InPlace.Sweeps | source/pig.py:46-51 | the tables after n sweeps over the state list, each starting its delta at 0 |
| InPlace.Nested | source/PigletSolver.java:21-31 | the three nested loops over i, j and k, run from position (i, j, k) |
| InPlace.Fold | source/PigletSolver.java:21-31 | the updates of a list of states processed from its front |
| InPlace.FirstBelow | source/pig.py:55-58 | sweep n is the first whose delta is below tol |
| InPlace.NoneBelow | source/pig.py:55 | none of sweeps 1..n has a delta below tol |
| InPlace.InPlaceSweepKeys | source/pig.py:48-51 | a sweep over states that have entries adds and removes no entry in the value and policy tables |
| InPlace.SweepsKeys | source/pig.py:46-51 | the same holds after any number of sweeps |
| InPlace.InPlaceSweepCons | source/PigletSolver.java:21-31 | a sweep over `[s] + rest` is the step at `s` followed by the sweep over `rest` |
| InPlace.NestedDone | source/PigletSolver.java:21 | past the last block, the nested loops leave the tables as they are |
| InPlace.NestedIsFold | source/PigletSolver.java:21-31 | the three nested loops, run from position (i, j, k), process the table states from (i, j, k) onward in order |
| InPlace.FoldIsSweep | source/PigletSolver.java:21-31 | processing the states from the front gives the same tables as the in-place sweep |
| InPlace.NestedIsSweep | source/PigletSolver.java:21-31 | the nested loops perform the in-place sweep over the table states from (i, j, k) onward |
| InPlace.SweepsNested | source/PigletSolver.java:19-32 | sweep n + 1 is the nested loops run over the tables of sweep n, with the change reset to 0 |
| InPlace.InPlaceSweepPrefix | source/pig.py:48-51 | extending the visited prefix by one state is one more step |
| InPlace.InPlaceSweepInUnit | source/pig.py:48-51 | a sweep with a rule that maps probabilities to probabilities keeps every value in [0, 1] |
| InPlace.SweepsInUnit | source/pig.py:46-51 | every value stays in [0, 1] after any number of sweeps |
| InPlace.InPlaceSweepUntouched | source/pig.py:48-51 | a state the sweep does not visit keeps its value and its action |
| InPlace.InPlaceSweepWrites | source/pig.py:48-51 | over distinct states, the entry written for `ss[m]` is the rule applied to the table left by the first m states, so values written earlier in the sweep are the ones read |
| InPlace.InPlaceSweepDelta | source/pig.py:47-50 | starting from 0, the delta a sweep reports is the largest change between the old and new value over the visited states |
| InPlace.NoneBelowExtend | source/pig.py:46-58 | if no sweep 1..n-1 stopped and sweep n does not stop, none of 1..n stops |
| InPlace.FirstBelowUnique | source/pig.py:55-58 | the first sweep below the tolerance is unique |
| Synchronous.JacobiStep | source/piglet.py:50-52 | one synchronous state update: the rule reads the table the sweep started from, writes the copy, appends the new value to the trace, and delta takes in the largest change between the start table and the copy |
| Synchronous.JacobiSweep | source/piglet.py:49-52 | the updates of a list of states in order, all reading the start table |
| Synchronous.SyncSweep | source/piglet.py:47-53 | a whole sweep: the copy starts as the table, delta at 0, and every listed state is updated |
| Synchronous.JacobiSweeps | source/piglet.py:46-53 | the tables and traces after n sweeps |
| Synchronous.JacobiSweepPrefix | source/piglet.py:49-52 | extending the visited prefix by one state is one more synchronous step |
| Synchronous.JacobiSweepKeys | source/piglet.py:48-51 | a sweep keeps the keys of the copy, the policy and the traces |
| Synchronous.JacobiSweepsKeys | source/piglet.py:46-53 | the same holds after any number of sweeps |
| Synchronous.JacobiSweepAt | source/piglet.py:48-50 | a visited state holds the rule applied to the table the sweep started from, wherever it comes in the order; an unvisited state keeps its entries |
| Synchronous.JacobiSweepTrace | source/piglet.py:51 | over distinct states, a visited state's trace gains exactly one entry, its new value; other traces are unchanged |
| Synchronous.JacobiSweepDelta | source/piglet.py:47-52 | the delta of a sweep is the largest change over all states between the old table and the finished copy |
| Synchronous.JacobiSweepInUnit | source/piglet.py:48-50 | a sweep keeps the copy's values in [0, 1] |
| Synchronous.JacobiSweepsInUnit | source/piglet.py:46-53 | values stay in [0, 1] after any number of sweeps |
| Synchronous.SyncSweepTraceEnds | source/piglet.py:51-53 | after a sweep over distinct states, every trace ends with its state's new value |
| Synchronous.JacobiSweepsTrace | source/piglet.py:11 | a trace that starts as the state's value has n + 1 entries after n sweeps, entry m being the value after m sweeps |
| PigGame.ValueAction | source/pig.py:32-37 | roll averages the opponent taking over with nothing banked and the faces 2..6; hold banks the turn total and passes the turn; both are probabilities whenever the table holds probabilities |
| PigGame.LookupsStayInTable | source/pig.py:32-37 | from a table state, every state looked up is a table state or a win, never a loss |
| PigGame.Best | source/pig.py:49 | the chosen action's value is its action value, no action does better, and the first action in iteration order is kept exactly when it is not beaten |
| PigGame.PigRuleKeepsUnit | source/pig.py:49 | the Pig choice maps tables of probabilities to probabilities |
| PigGame.PigRule | source/pig.py:49 | the Pig choice of a state: the best action in the set's order, and its value |
| PigGame.PigSweepWrites | source/pig.py:48-51 | the state at position m gets the best action over the table the first m states left, with a value no action exceeds |
| PigGame.Pig.constructor | source/pig.py:4-12 | the state list is the table reversed; every value is 0, every policy entry is unset, `iter` is 0 and `converge` is unset |
| PigGame.Pig.RunSweep | source/pig.py:47-51 | the value and policy tables become the in-place sweep of the old tables over the state list, and the result is its delta |
| PigGame.Pig.ValueIteration | source/pig.py:40-62 | a gamma outside (0, 1] raises ValueError and changes nothing; otherwise, if a sweep n <= iterMax has delta below tol, the first such sweep stops the loop with `iter = n`, `converge = True` and the tables of n sweeps; else `iterMax` sweeps run and `iter = iterMax`, `converge = False` |
| PigletGame.ValueAction | source/piglet.py:33-37 | flip averages losing the turn total and gaining 1; hold banks the turn total; both are probabilities whenever the table holds probabilities |
| PigletGame.LookupsStayInTable | source/piglet.py:33-37 | from a table state, every state looked up is a table state or a win, never a loss |
| PigletGame.Best | source/piglet.py:50 | the chosen action's value is its action value, no action does better, and the first action in iteration order is kept exactly when it is not beaten |
| PigletGame.PigletRuleKeepsUnit | source/piglet.py:50 | the Piglet choice maps tables of probabilities to probabilities |
| PigletGame.PigletRule | source/piglet.py:50 | the Piglet choice of a state: the best action in the set's order, and its value |
| PigletGame.Stops | source/piglet.py:54-56 | the loop stops after sweep n when its delta is below tol or the counter, n + 1 after n sweeps, has reached iter_max |
| PigletGame.FirstStop | source/piglet.py:46-56 | sweep n is the first after which the loop stops |
| PigletGame.PigletSweepReadsStart | source/piglet.py:48-53 | after a sweep, every state holds the best action over the table the sweep started from, with a value no action exceeds |
| PigletGame.PigletSweepKeepsTable | source/piglet.py:48-53 | a sweep keeps the table's keys, keeps values in [0, 1] and keeps every trace ending with its state's value |
| PigletGame.NoStopExtend | source/piglet.py:46-56 | if none of sweeps 1..n-1 stopped the loop and sweep n does not, none of 1..n did |
| PigletGame.FirstStopBound | source/piglet.py:44-56 | the loop runs at least one sweep and at most `max(1, iterMax - 1)` sweeps |
| PigletGame.FirstStopUnique | source/piglet.py:56 | the sweep after which the loop stops is unique |
| PigletGame.Piglet.constructor | source/piglet.py:4-13 | the state list is the table reversed; every value is 0, every policy entry is unset, every trace is `[0]`, `iter` is 0 and `converge` is unset |
| PigletGame.Piglet.RunSweep | source/piglet.py:47-53 | policy, copy and traces become the synchronous sweep of the old tables, the copy replaces the table, and the result is the sweep's delta |
| PigletGame.Piglet.ValueIteration | source/piglet.py:40-65 | a gamma outside (0, 1] raises ValueError and changes nothing; otherwise the loop stops after the first sweep whose delta is below tol or that brings the counter to iterMax; reaching the counter limit sets `iter = iterMax` and `converge = False` even when that sweep converged; otherwise, on an instance with `converge` unset, `iter` is the number of sweeps + 1 and `converge = True` |
| PigletArrays.JavaChoice | source/PigletSolver.java:25-28 | the new cell value is the larger of the flip and hold values, and the flip entry is true exactly when flipping is strictly better, so ties hold |
| PigletArrays.JavaChoiceIsHoldFirst | source/PigletSolver.java:27-28 | the Java decision is the Python Piglet decision with hold tried first |
| PigletArrays.JavaRuleKeepsUnit | source/PigletSolver.java:25-27 | the Java update maps tables of probabilities to probabilities |
| PigletArrays.JavaRule | source/PigletSolver.java:25-28 | the Java choice of a cell as a sweep rule |
| PigletArrays.Cell | source/PigletSolver.java:24-30 | the update of one cell: its new value, its flip entry and the running maximum change |
| PigletArrays.StopsAt | source/PigletSolver.java:19-32 | the do-while loop stops after sweep n: the first sweep whose delta is below epsilon, or the last one the fuel allows |
| PigletArrays.Zeros | source/PigletSolver.java:11-12 | the table part of freshly allocated arrays: every probability 0.0, every flip false |
| PigletArrays.OffTable | source/PigletSolver.java:11-12 | the array cells outside the table (`k >= goal - i`), which no loop writes |
| PigletArrays.CellIsStep | source/PigletSolver.java:24-30 | updating one cell is one step of the in-place sweep with the Java rule |
| PigletArrays.JavaSweepWrites | source/PigletSolver.java:21-31 | the cell at position m of a sweep gets the larger action value over the table the first m cells left, and its flip entry is true exactly when flipping is strictly better |
| PigletArrays.PigletSolver.PWin | source/PigletSolver.java:35-41 | the array lookup is the boundary-resolving lookup over the mirrored table: every index it reads is in bounds, and the result lies in [0, 1] |
| PigletArrays.PigletSolver.ActionValues | source/PigletSolver.java:25-26 | `pFlip` and `pHold` are the Piglet flip and hold values over the current table |
| PigletArrays.PigletSolver.UpdateCell | source/PigletSolver.java:24-30 | cell (i, j, k) takes the larger action value, `flip` records whether flipping was strictly better, and the running maximum takes in the cell's change; no other cell changes, and the cells outside the table stay 0.0 and false |
| PigletArrays.PigletSolver.Store | source/PigletSolver.java:27-28 | writing a table cell changes that cell of `p` and `flip` and nothing else: the other table cells keep their entries, the cells outside the table stay 0.0 and false, and every table probability stays in [0, 1] |
| PigletArrays.PigletSolver.SweepRow | source/PigletSolver.java:23-31 | the innermost loop carries out the cells of row (i, j) in increasing k |
| PigletArrays.PigletSolver.SweepBlock | source/PigletSolver.java:22-31 | the middle loop carries out the rows of block i in increasing j |
| PigletArrays.PigletSolver.RunSweep | source/PigletSolver.java:20-31 | the arrays become the in-place sweep of the old arrays over the table in increasing (i, j, k) order, and `maxChange` is its delta |
| PigletArrays.PigletSolver.ValueIterate | source/PigletSolver.java:17-33 | the do-while loop stops after the first sweep whose delta is below epsilon, or at the fuel bound; it runs at least one and at most `max(1, fuel)` sweeps; the arrays hold the tables of that many sweeps, the cells outside the table stay 0.0 and false, and `converged` tells which case happened |
| PigletArrays.PigletSolver.constructor | source/PigletSolver.java:8-15 | the arrays are fresh and `goal x goal x goal`; value iteration starts from tables of 0.0 and false and runs between 1 and `max(1, fuel)` sweeps; afterwards the table cells hold its result and the cells outside the table are still 0.0 and false |
| PigletArrays.PigletSolver.HoldThresholdUnique | source/PigletSolver.java:46-48 | the hold threshold of (i, j) is unique |
| PigletArrays.PigletSolver.HoldValues | source/PigletSolver.java:43-53 | for every (i, j), the threshold reported is the least `k < goal - i` whose flip entry is false, or `goal - i` when there is none; every smaller k has flip true |

## Left out

- PigletArrays.PigletSolver.ValueIterate: the Java do-while loop has no iteration cap and need not terminate. The model bounds it by a `fuel` parameter and stops after `max(1, fuel)` sweeps even when the last change is still at or above epsilon. `converged` reports whether it stopped on a small change.
- PigletArrays.PigletSolver.constructor: takes the same `fuel` bound and passes it to ValueIterate.
- PigletArrays.PigletSolver.constructor: `goal` is a `nat`. A negative `goal` makes the Java array allocation throw, and that path is not modelled.
- PigletArrays.PigletSolver.PWin: takes `nat` indices and requires the arrays to mirror the table. A public call with negative indices or other out-of-range indices would throw in Java, and that path is not modelled.
- PigletArrays.PigletSolver.HoldValues: returns the thresholds row by row instead of printing them.
- Printing: `print_policy` and `print_value` in both Python files, the warning printed when the cap is reached, `System.out` and `main`. The warning appears in the model only as `converge = false`.
- Floating point: probabilities, `tol` and `epsilon` are modelled as `real`. Rounding is not modelled.
- Convergence: the model does not prove that the sweeps converge, or that the Jacobi and Gauss-Seidel solvers reach the same fixed point. Nothing in the code states or checks either.
- `gamma`: it is validated but never used in the recurrence, so only the validation is modelled. The ValueError message text is left out.
- The iteration order of the Python action sets is a constructor parameter, because the program leaves it to string hashing.
- `iteration_count` in `source/pig.py` is counted but never read, so it is not modelled.
- Python `value` raises KeyError for a state that is neither a win, a loss nor in the table. The lookup answers 0 there instead. The class invariants together with `BoundaryExhaustive` and `LookupsStayInTable` show that the solvers never reach that case.
- States have natural-number components. A direct Python call of `value` or `value_action` on a tuple with a negative component, which raises KeyError, cannot be expressed. The solvers never build such a tuple.
- The `T`, `gamma`, `tol` and `iter_max` defaults of both Python classes are default parameters in the model. The action-order parameter has no default, because the program leaves that order to string hashing.
- `source/visualisation.py` and `source/simulation.py` are not part of this model. They do plotting and random rollouts that consume the policy.
