# Game of Life board engine, modelled in Dafny

This project models the grid engine inside the `Board` React component of a
Conway's Game of Life visualiser. The board is a fixed `rows × columns`
matrix of cells, each alive or dead, indexed `cells[y][x]`. The engine has
these parts:

- `createBoard` builds the all-dead matrix.
- `calculateNeighbors` counts the live cells among the eight around a cell.
  Positions off the grid count as dead, so the edges are hard walls.
- The grid part of `tick` computes the next generation into a fresh board.
  A live cell survives on 2 or 3 neighbours and a dead cell is born on
  exactly 3. Every count is read from the old board.
- `makeCells` lists the live coordinates in row-major order for the renderer.
- `handleClear` resets the board.
- The click handler flips one cell.

The board is `Grid.Board(rows, columns, cells)` with a well-formedness
predicate `Valid()`. Every operation is a pure function over it. Where the
source uses a loop (`createBoard`, `calculateNeighbors`, `tick`,
`makeCells`), a method follows the source's loop and is proved equal to the
functional definition. The running flag and the timer chain are reduced to
a small event model (`Simulation`): a pending callback either fires or has
been cancelled.

Files:

- `grid.dfy`: the board, creation and clear.
- `toggle.dfy`: the single-cell flip, both as corrected and as written.
- `neighbors.dfy`: the neighbour count.
- `generation.dfy`: one generation, and n generations.
- `cells.dfy`: the live-cell list and its inverse.
- `patterns.dfy`: the block, the blinker and isolation death.
- `simulation.dfy`: start, stop, timer events, clear, click and interval.

## Model

| member | source | states |
|---|---|---|
| `Grid.Empty` | src/components/Board.js:23-32 | the new board has exactly `rows` rows of `columns` cells, and every cell is dead |
| `Grid.CreateBoard` | src/components/Board.js:23-32 | the row-by-row loop builds a well-formed `rows × columns` board with every cell dead |
| `Grid.Clear` | src/components/Board.js:130-133 | clearing keeps the board's dimensions and makes every cell dead |
| `Cells.ClearHasNoCells` | src/components/Board.js:130-133 | after a clear, the live-cell list is empty |
| `Toggling.Toggle` | src/components/Board.js:52-53 | an in-bounds flip inverts cell (x, y) and leaves every other cell and the dimensions unchanged; a coordinate off the board leaves the board unchanged |
| `Toggling.ToggleTwice` | src/components/Board.js:53 | flipping the same cell twice restores the original board |
| `Toggling.ToggleAsWritten` | src/components/Board.js:52-53 | the source's `<=` guard agrees with the corrected flip on every on-board coordinate and is a no-op beyond `columns` / `rows` |
| `Toggling.ToggleAsWrittenOffByOne` | src/components/Board.js:52-53 | the `<=` guard admits `y == rows`, where reading the missing row throws; it also admits `x == columns`, which widens row 0 to `columns + 1` cells so the matrix is no longer `rows × columns` |
| `Neighbors.DirectionsCoverWindow` | src/components/Board.js:88 | the eight scan offsets are distinct, each leads to an adjacent position, and they reach every position adjacent to (x, y) |
| `Neighbors.NeighborCount` | src/components/Board.js:86-100 | the count of live neighbours never exceeds 8 |
| `Neighbors.CountToIsCard` | src/components/Board.js:89-97 | after the first i offsets the running total equals the number of distinct live positions they reach |
| `Neighbors.NeighborCountMeaning` | src/components/Board.js:86-100 | the count equals the number of live, on-grid positions adjacent to (x, y), independently of the order of the offsets |
| `Neighbors.CalculateNeighbors` | src/components/Board.js:86-100 | the source's loop over the eight offsets, skipping positions off the grid, returns at most 8 and agrees with the neighbour count, hence with the number of live adjacent cells |
| `Neighbors.LiveNeighborsMeaning` | src/components/Board.js:94 | a position is counted exactly when it is adjacent, on the grid and alive; the cell itself is never counted |
| `Neighbors.NeighborCountLocal` | src/components/Board.js:86-100 | the count depends only on the eight cells around (x, y) |
| `Neighbors.NoNeighborsWhenAllDead` | src/components/Board.js:94 | on an all-dead board every count is 0 |
| `Generation.Step` | src/components/Board.js:103-122 | the next board has the same dimensions; a cell is alive in it exactly when it is alive now with 2 or 3 live neighbours, or dead now with exactly 3 |
| `Generation.UpdateCell` | src/components/Board.js:107-118 | one inner-loop iteration writes the rule's verdict for (x, y) into the fresh board and touches no other cell |
| `Generation.Tick` | src/components/Board.js:103-122 | the source's loop, writing into a fresh all-dead board and counting on the old one, yields exactly the next generation; a live cell stays alive iff it has 2 or 3 live neighbours, and a dead cell becomes alive iff it has 3 |
| `Generation.StepLocal` | src/components/Board.js:103-122 | simultaneity: a cell's next state depends only on its own current state and its eight neighbours on the current board |
| `Generation.EmptyIsFixedPoint` | src/components/Board.js:103-122 | the all-dead board of any dimensions steps to itself |
| `Generation.StepOfClear` | src/components/Board.js:130-133 | a cleared board is unchanged by a generation |
| `Generation.Generations` | src/components/Board.js:122-127 | repeated ticks keep the board well-formed and of the same dimensions |
| `Generation.GenerationsAdd` | src/components/Board.js:122-127 | n + m generations are m generations after n generations |
| `Generation.PeriodicRepeats` | src/components/Board.js:122-127 | a board that returns after p generations returns after every multiple of p |
| `Cells.AliveCells` | src/components/Board.js:34-44 | the list holds exactly the live coordinates, in strictly ascending row-major order, without duplicates |
| `Cells.ScanRow` | src/components/Board.js:37-41 | scanning row y appends exactly that row's live coordinates, left to right, to what was collected before |
| `Cells.MakeCells` | src/components/Board.js:34-44 | the source's nested scan returns exactly the live coordinates, in strictly ascending row-major order |
| `Cells.FromAliveCells` | src/components/Board.js:34-44 | rebuilding a board from its live-cell list gives the same board, so the list loses nothing |
| `Cells.AliveCellsOfFromCells` | src/components/Board.js:34-44 | listing the board built from an on-grid row-major list gives that list back |
| `Cells.RowMajorUnique` | src/components/Board.js:34-44 | two row-major lists with the same coordinates are equal, so the list is determined by the live set |
| `Cells.NoCellsIffAllDead` | src/components/Board.js:34-44 | the list is empty exactly when every cell is dead |
| `Patterns.Successor` | src/components/Board.js:103-122 | on any board of at least 4 × 4 the block steps to itself, and each blinker phase steps to the other |
| `Patterns.BlockIsStillLife` | src/components/Board.js:103-122 | the 2 × 2 block at (1, 1) is a still life, and its live-cell list stays the same four cells |
| `Patterns.BlinkerHasPeriodTwo` | src/components/Board.js:103-122 | the horizontal blinker (1,2),(2,2),(3,2) becomes the vertical one (2,1),(2,2),(2,3), which differs from it, and is back after two generations |
| `Patterns.BlinkerRecurs` | src/components/Board.js:103-122 | the blinker is back after every even number of generations |
| `Patterns.FewCellsDie` | src/components/Board.js:103-122 | a board with at most two live cells is all dead after one generation |
| `Patterns.LoneCellDies` | src/components/Board.js:103-122 | a single live cell anywhere dies of isolation, leaving an empty live-cell list |
| `Simulation.Init` | src/components/Board.js:8-21 | the component starts stopped, with a 1000 ms interval, an all-dead board and no cells shown |
| `Simulation.Advance` | src/components/Board.js:102-128 | a tick replaces the board by its next generation, refreshes the cell list and schedules the next callback |
| `Simulation.StartGame` | src/components/Board.js:69-72 | Run sets the running flag and computes one generation at once |
| `Simulation.StopGame` | src/components/Board.js:74-80 | Stop clears the running flag and cancels the waiting callback, leaving board and cell list as they are |
| `Simulation.TimerFires` | src/components/Board.js:125-127 | a waiting callback computes one generation; with none waiting nothing changes |
| `Simulation.HandleClear` | src/components/Board.js:130-133 | clear keeps the dimensions, kills every cell and empties the cell list |
| `Simulation.HandleClick` | src/components/Board.js:52-56 | a click flips the (corrected) cell and keeps the cell list in step with the board |
| `Simulation.HandleIntervalChange` | src/components/Board.js:82-84 | the typed interval is stored unchecked; board and running flag are untouched |
| `Simulation.Fire` | src/components/Board.js:122-127 | n timer events keep the state consistent and never change the running flag or the interval; while running, they advance the board exactly n generations |
| `Simulation.StoppedStaysStill` | src/components/Board.js:74-80 | after Stop, no number of timer events changes the state |
| `Simulation.StopIsIdempotent` | src/components/Board.js:74-80 | stopping a stopped game changes nothing |

## Left out

- Board dimensions are `nat`. The source computes them as `height / cellSize` and `width / cellSize` in floating point (src/components/Board.js:13-14, 20). When the division is not exact, the loops `y < rows` give the board `ceil` of the quotient rows, not a truncated count. Integer inputs are assumed.
- The pixel-to-cell mapping of a click (`getElementOffset`, `Math.floor` over offsets) is browser geometry. Clicks are modelled on integer `(x, y)` already computed.
- Time is not modelled. `window.setTimeout` / `clearTimeout` become a `pending` flag, and a callback firing is an event (`Simulation.TimerFires`). The interval value does not affect the model.
- `Simulation.StartGame` requires a stopped game. The component only renders the Run button while stopped, and a second start while running would start a second timer chain that a boolean flag cannot describe.
- `setState` batching and rendering (`render`, `Cell.js`, `App.js`) are UI only. The cell list a `setState` would publish is the `cells` field of `Simulation.Game`.
- Clear is disabled in the UI while the game runs. `Simulation.HandleClear` does not require a stopped game, because the handler itself does not check.
- The interval typed by the user is stored without validation, as in the source. Any `int` is accepted.

## Findings

| source | as written | input that shows it | evidently intended | confidence | as-written member | corrected member |
|---|---|---|---|---|---|---|
| src/components/Board.js:52 | `x >= 0 && x <= this.state.columns && y >= 0 && y <= this.state.rows` | `y == rows`: `this.board[rows]` is undefined, so reading `[x]` on it throws a TypeError. `x == columns` with `y < rows`: the write lands one past the end of row `y` and grows that row to `columns + 1` cells | strict bounds `x < columns`, `y < rows`, with an off-board click doing nothing | high, not executed | `Toggling.ToggleAsWritten` (shown by `Toggling.ToggleAsWrittenOffByOne`) | `Toggling.Toggle` (proved by its contract and `Toggling.ToggleTwice`) |
