# Conway's Game of Life board, modelled in Dafny

This project models the simulation engine of the `Board` component in
`src/Board.js`. The board is a fixed 60 x 60 grid of cells: 1 is alive and 0
is dead. It keeps two counters, `population` and `generations`, and an
interval timer whose id (`intervalId`) says whether the game is running. The
model covers:

- building the grid, either all dead or seeded from random draws (`initialiseGrid`);
- the lenient cell lookup and the Moore-neighbourhood count (`_getAliveState`, `_getAliveNeighbourCount`). A lookup off the grid reads as dead, and nothing wraps round;
- one generation step (`_intervalFunction`). It copies the grid, then updates every cell of the copy from the unmodified original under Conway's rule B3/S23;
- the single-cell toggle on a click (`setAlive`);
- the Start, Pause, Stop and Randomise handlers, and the conditions under which those four buttons are disabled.

Layout:

- `grids.dfy` (module `Grids`): the grid type, its shape, the all-dead and seeded grids, and the sums that the population bookkeeping is made of.
- `rules.dfy` (module `Rules`): the pure logic. It has the lookup, the neighbour count, the step as a function `Step(g)`, the population the step reports (`StepPopulation`), and the toggle.
- `board.dfy` (module `Boards`): the component's state and handlers as functions (`Ticked`, `Started`, `Paused`, `Stopped`, `Randomised`, `Toggled`) and the button predicates. It also has the class `Board`. That class keeps the grid in an `array2<int>`, and its methods do what the JavaScript does, loop by loop. Each handler method (`Tick`, `StartGame`, `PauseGame`, `StopGame`, `RandomiseGame`, `SetAlive`) is proved to produce `State() == F(old(State()))` for the matching function `F`.

Population bookkeeping is modelled as the code does it, not as an
idealised invariant. The intended reading is that `population` always equals
the number of live cells. The code does not keep that invariant, and the
model follows the code:

- The step counts only cells with exactly three live neighbours. A live cell that survives on two neighbours is not counted. `Rules.StepPopulationUndercounts` proves the figure is never too high. `Rules.StepPopulationExactIff` proves it is exact if and only if no live cell has exactly two live neighbours. `Rules.BlinkerUndercounts` gives a concrete blinker where the figure is 2 and the live cells are 3. `Rules.DiagonalReportsNone` gives a diagonal of three cells that steps to one live cell while the figure is 0. Start consults this figure, so after that tick and a Pause, Start stays disabled while a cell is alive (`Boards.PausedLiveBoardCannotStart`).
- A click adds 1 when a cell comes alive and subtracts nothing when it dies. `Boards.ToggleTwiceDrifts` and `Boards.ToggleCountsOnlyBirths` prove the drift.
- Stop does nothing unless the timer is running. A paused board therefore cannot be cleared with Stop (`Boards.StopAfterPauseKeepsBoard`). The code has no Paused-to-Stopped transition, and the model follows the code.

## Model

| member | source | states |
|---|---|---|
| `Boards.Board.constructor` | src/Board.js:8-26 | a new board is 60 x 60 (`BoardHeight` x `BoardWidth`), all dead, population 0, generations 0, timer off |
| `Boards.Board.InitialiseGrid` | src/Board.js:28-47 | returns a fresh `rows` x `columns` grid: all 0 without randomising (population 0), otherwise cell (i, j) is 1 exactly when draw (i, j) fell under the alive chance; population is the number of 1 cells placed |
| `Boards.Board.InitialiseRow` | src/Board.js:34-43 | the inner loop fills row i with the drawn values (all 0 without randomising), leaves every other row alone and returns the sum of the values placed |
| `Grids.Seeded` | src/Board.js:35-39 | each seeded cell is 0 or 1, and is 1 exactly when its draw hit |
| `Grids.Dead` | src/Board.js:40-42 | the grid built without randomising has the board's dimensions and every cell 0 |
| `Grids.DeadTotal` | src/Board.js:40-42 | the all-dead grid has no live cell |
| `Grids.SeededAllMiss` | src/Board.js:35-39 | draws that never hit give the all-dead grid with population 0 |
| `Grids.SeededAllHit` | src/Board.js:35-39 | draws that always hit give population `rows * columns` |
| `Grids.BinaryTotalBounds` | src/Board.js:35-39 | a grid of 0s and 1s has between 0 and `rows * columns` live cells |
| `Rules.AliveState` | src/Board.js:102-107 | a lookup yields 0 or 1, and yields 1 only inside the grid |
| `Rules.OffGridIsDead` | src/Board.js:102-107 | any row or column outside `[0, rows) x [0, columns)` reads as dead |
| `Rules.NeighbourCount` | src/Board.js:109-122 | the neighbour count is between 0 and 8 |
| `Rules.CornerNeighbourBound` | src/Board.js:109-122 | each of the four corner cells has at most 3 live neighbours (no wrap-around) |
| `Rules.EdgeNeighbourBound` | src/Board.js:109-122 | a top-edge cell has at most 5 live neighbours (no wrap-around) |
| `Rules.LastRowInvisibleFromFirst` | src/Board.js:109-122 | on 3 or more rows, changing the last row never changes a count in the first row |
| `Rules.LastColumnInvisibleFromFirst` | src/Board.js:109-122 | on 3 or more columns, changing the last column never changes a count in the first column |
| `Rules.NextCell` | src/Board.js:133-145 | with exactly 3 neighbours the cell is set to 1; with fewer than 2 or more than 3 it ends 0; with exactly 2 it keeps its value |
| `Rules.NextCellIsConway` | src/Board.js:133-145 | the three-branch cell update yields 0 or 1 and is alive exactly when B3/S23 says so |
| `Rules.Step` | src/Board.js:124-147 | the next generation has the dimensions of the grid it is computed from |
| `Rules.StepIsConway` | src/Board.js:129-147 | each cell of the next generation is 1 iff B3/S23 holds of the same cell and its count in the current grid, and 0 otherwise |
| `Rules.StepKeepsShape` | src/Board.js:127-147 | the step keeps `rows` x `columns` and every cell in {0, 1} |
| `Rules.DeadStaysDead` | src/Board.js:129-147 | an all-dead grid stays all-dead and the step reports population 0 |
| `Rules.BlockIsStill` | src/Board.js:129-153 | on a grid of any size whose live cells are exactly a 2x2 block at any position, the step leaves the grid unchanged and reports population 4 |
| `Rules.BlockTotal` | src/Board.js:129-153 | a 2x2 block has exactly four live cells |
| `Rules.FourClicks` | src/Board.js:182 | four clicks on the cells of a 2x2 square of an all-dead board leave exactly that block alive |
| `Rules.LoneCellDies` | src/Board.js:129-153 | on a grid of any size whose only live cell is (r, c), the step leaves the all-dead grid and reports population 0 |
| `Rules.ClickOnDeadIsLoneCell` | src/Board.js:182 | one click on an all-dead board leaves exactly the clicked cell alive |
| `Rules.BlinkerOscillates` | src/Board.js:129-147 | a horizontal blinker turns vertical, leaving 3 live cells |
| `Rules.BlinkerUndercounts` | src/Board.js:139-145 | for that blinker the step reports population 2, fewer than the live cells |
| `Rules.DiagonalKeepsCentre` | src/Board.js:129-147 | a diagonal of three live cells steps to its centre cell alone, which survives on two neighbours |
| `Rules.DiagonalMaskEmpty` | src/Board.js:139-145 | no cell of that diagonal has exactly three live neighbours, so the step counts no cell |
| `Rules.DiagonalReportsNone` | src/Board.js:139-145 | for that diagonal the step reports population 0 while one live cell remains |
| `Rules.ThreeNeighbourMask` | src/Board.js:139-145 | marks, on a grid of the same shape, each cell 0 or 1: the cells on which the step increments its counter |
| `Rules.StepPopulation` | src/Board.js:139-145 | the population the step reports, the number of cells with exactly three live neighbours, is never negative |
| `Rules.StepPopulationUndercounts` | src/Board.js:139-145 | the population the step reports is between 0 and the number of live cells it leaves |
| `Rules.MaskBelowStep` | src/Board.js:139-145 | every cell the step counts is alive afterwards; an uncounted live cell is exactly a live cell with two neighbours |
| `Rules.StepPopulationExactIff` | src/Board.js:139-145 | the reported population equals the live cells iff no live cell has exactly two live neighbours |
| `Rules.Toggle` | src/Board.js:182 | toggling flips exactly cell (r, c) and leaves every other cell and the dimensions unchanged |
| `Rules.ToggleKeepsShape` | src/Board.js:182 | toggling keeps the dimensions and every cell in {0, 1} |
| `Rules.ToggleTwice` | src/Board.js:182 | toggling the same cell twice restores the grid |
| `Rules.ToggleTotal` | src/Board.js:182 | toggling changes the number of live cells by +1 (cell comes alive) or -1 (cell dies) |
| `Boards.Board.CopyGrid` | src/Board.js:127 | the copy is a fresh array with the same dimensions and cells |
| `Boards.Board.StepRow` | src/Board.js:130-146 | row i of the copy ends with the rule's value for each cell computed from the original; other rows are untouched; returns how many cells of the row had exactly 3 neighbours |
| `Boards.Board.UpdateCell` | src/Board.js:131-145 | cell (i, j) of the copy ends with the rule's value computed from the original, no other cell changes, and 1 is returned exactly when the cell had 3 live neighbours |
| `Boards.Board.NextGeneration` | src/Board.js:124-147 | the fresh grid equals `Step` of the original, which is not modified, and the count equals `StepPopulation` of the original |
| `Boards.Board.Tick` | src/Board.js:124-154 | grid becomes `Step(old grid)`, population becomes the count of exactly-3 cells, generations goes up by 1, run state unchanged, board stays valid |
| `Boards.Ticked` | src/Board.js:124-154 | a tick keeps the dimensions and the run state, adds one generation and reports a non-negative population |
| `Boards.TickKeepsWellFormed` | src/Board.js:149-153 | a tick keeps the board well formed and its population at most the live cells |
| `Boards.Board.SetAlive` | src/Board.js:177-192 | flips cell (r, c) in place; population is +1 if the cell became alive, unchanged otherwise; nothing else changes |
| `Boards.Toggled` | src/Board.js:177-192 | a click changes the clicked cell, keeps the dimensions, generations and run state, and adds 1 to the population exactly when the cell was dead |
| `Boards.ToggleKeepsWellFormed` | src/Board.js:177-191 | a click keeps the board well formed |
| `Boards.ToggleTwiceDrifts` | src/Board.js:177-191 | two clicks on one cell restore the grid but leave the population 1 higher |
| `Boards.ToggleCountsOnlyBirths` | src/Board.js:184-186 | from a consistent count, a click that kills a cell leaves population one above the live cells; one that revives a cell keeps them equal |
| `Boards.Started` | src/Board.js:156-160 | start leaves the timer active and changes nothing else |
| `Boards.Board.StartGame` | src/Board.js:156-160 | sets the running flag and nothing else, with no guard |
| `Boards.Board.PauseGame` | src/Board.js:81-87 | no-op when not running; otherwise clears the running flag only |
| `Boards.Paused` | src/Board.js:81-87 | pause leaves the timer off and changes nothing else |
| `Boards.IdlePauseIsNoOp` | src/Board.js:81-82 | pause does nothing when the timer is not running |
| `Boards.PauseClearsOnlyRunning` | src/Board.js:81-87 | while running, pause clears the flag and keeps grid, population and generations |
| `Boards.Board.StopGame` | src/Board.js:162-175 | no-op when not running; otherwise a fresh all-dead grid, population 0, generations 0, not running |
| `Boards.Stopped` | src/Board.js:162-175 | stop leaves the timer off and the dimensions unchanged; when the timer was active, the board has no live cell and both counters are 0 |
| `Boards.IdleStopIsNoOp` | src/Board.js:162-163 | stop does nothing when the timer is not running |
| `Boards.StopResets` | src/Board.js:162-175 | while running, stop yields an all-dead grid with no live cell, population 0, generations 0, not running |
| `Boards.StopAfterPauseKeepsBoard` | src/Board.js:162-163 | stop after pause leaves the paused board, grid and generations intact |
| `Boards.Board.RandomiseGame` | src/Board.js:89-100 | no-op while running; otherwise the grid is seeded from the draws, population is its live cells, generations 0 |
| `Boards.Randomised` | src/Board.js:89-100 | randomise keeps the dimensions and run state; when idle, the population equals the live cells of the new grid and generations is 0 |
| `Boards.RunningRandomiseIsNoOp` | src/Board.js:89-91 | randomise does nothing while the timer is running |
| `Boards.RandomiseKeepsWellFormed` | src/Board.js:93-99 | randomising keeps the board well formed; when idle, population equals the live cells and generations is 0 |
| `Boards.RunControlsKeepWellFormed` | src/Board.js:156-175 | start, pause and stop keep the board well formed |
| `Boards.StartDisabled` | src/Board.js:208 | while Start is enabled pressing it changes the state; when the population counter is not 0, Start is disabled exactly when pressing it would change nothing |
| `Boards.PausedLiveBoardCannotStart` | src/Board.js:208 | after the diagonal ticks and the game is paused, one cell is alive, the population counter is 0, the timer is off and Start is disabled |
| `Boards.PauseDisabled` | src/Board.js:209 | Pause is disabled exactly when pressing it would change nothing |
| `Boards.StopDisabled` | src/Board.js:210 | Stop is disabled exactly when pressing it would change nothing |
| `Boards.RandomiseDisabled` | src/Board.js:211 | while Randomise is disabled, pressing it would change nothing whatever the draws |
| `Boards.ControlsAfterStart` | src/Board.js:208-211 | after an enabled Start, only Pause and Stop are enabled |
| `Boards.ControlsAfterPauseOrStop` | src/Board.js:208-211 | after an enabled Pause, Pause and Stop are disabled, Randomise is enabled, and Start is disabled iff population is 0; after Stop, Start is disabled too |

## Left out

- Rendering is left out: `getColumns`, `getRows` and the JSX of `render` (src/Board.js:49-79, 200-220) are presentation. Only the four `disabled` conditions of src/Board.js:208-211 are modelled, as `StartDisabled`, `PauseDisabled`, `StopDisabled` and `RandomiseDisabled`.
- `window.setInterval`, `window.clearInterval`, the 500 ms period and `componentWillUnmount` are timer I/O. `intervalId` is modelled as the `running` flag, and a timer firing is a direct call of `Board.Tick`.
- Boards.Board.StartGame: sets the flag only. If the game were started again while running, the code would create a second timer and lose the first handle, and a single flag cannot represent that. The disabled Start button prevents it.
- `Math.random()` compared with `RANDOM_ALIVE_CHANCE` (0.25) is randomness with a floating-point comparison. The draws are a caller-supplied `rows` x `columns` grid of booleans, where `true` means the draw fell under the chance.
- Boards.Board.SetAlive: takes in-bounds integer indices. Reading `rowId`/`columnId` as strings from `e.target.dataset` is DOM plumbing.
- React's `setState` is asynchronous and batched. Each handler is modelled as one atomic state update.
- `src/index.js` only mounts the component.
- Boards.Board.constructor: gives the intended initial state. As written, the constructor of src/Board.js:8-26 assigns to `this` without first calling `super()`, which a JavaScript class extending `Component` does not allow; the model assumes that call.
- Boards.Board.NextGeneration: reads the original grid through a row-by-row view (`Cells`) of the same array when counting neighbours. The array is never written during the step, so this is the same as reading it in place.
