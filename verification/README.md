# Conway's Game of Life — a Dafny model of the grid logic

The program is a desktop Game of Life: a 25 × 40 grid of 20-pixel cells on an
800 × 500 canvas. Each cell is dead (0) or alive (1). A Start button advances
the grid one generation per timer tick, a click flips one cell, Reset kills
every cell and Random fills the grid at random. This project models the logic
under those controls:

- **Grid state** (`grids.dfy`, module `Grids`). The program's module-level
  `cells_states`, `rows` and `cols` become one immutable `Grid` value, with a
  well-formedness predicate. The click toggle and the reset are functions on it.
- **Neighbour counting** (`neighbours.dfy`, module `Neighbours`).
  `GetNumNeighbours` follows `get_num_neighbours` loop for loop. `NeighbourCount`
  is the same scan as a function over the nine offsets in loop order. It is
  proved equal to the size of an independent reference set, `LiveNeighbours`
  (the live cells one step away, clipped to the grid). There is no wraparound.
- **Generation step** (`generation.dfy`, module `Generation`). `Rule` is the
  program's case split for one cell. `Step` is the next generation, computed
  from the unchanged old grid. `UpdateGridState` follows `update_grid_state`
  loop for loop, filling a fresh all-dead grid, and is proved equal to `Step`.
  `Run` is the animation: the step applied repeatedly.
- **Canvas arithmetic** (`canvas.dfy`, module `Canvas`). This covers the grid size
  computed from the screen and cell sizes, the rectangle drawn for each cell,
  and the mapping from a click pixel to a cell by floor division. The lookup
  follows Python list indexing: an index past the end raises an error, and a
  negative index counts from the end.
- **Patterns** (`patterns.dfy`, module `Patterns`). A lone corner cell, the 2 × 2
  block and the blinker are each placed on an otherwise dead grid of any large
  enough size. Their one-step behaviour is proved from the rule.

Because grids are values, `Step` cannot modify its input. Every cell of the
result depends only on the old grid: `StepIsLocal` shows that it reads only
the 3 × 3 block around the cell.

## Model

| member | source | states |
|---|---|---|
| `Grids.Blank` | main.py:75 | The fresh next-generation grid has exactly `rows` rows of `cols` entries, all of them dead. |
| `Grids.Reset` | main.py:160 | A reset gives a well-formed grid of the same dimensions with every cell dead. |
| `Grids.AllDeadIsReset` | main.py:160 | The all-dead grid of a shape is unique: a reset of any all-dead grid returns that same grid. |
| `Grids.Toggle` | main.py:44-51 | A click flips the clicked cell (0 to 1, 1 to 0) and leaves every other cell and the dimensions unchanged. |
| `Grids.ToggleTwice` | main.py:44-51 | Toggling the same cell twice restores the original grid. |
| `Neighbours.SumOver` | main.py:55-71 | The running total after visiting any list of offsets is between 0 and the number of offsets visited. |
| `Neighbours.Scan` | main.py:56-57 | The nine offsets in the order the two loops visit them: row offset outer, column offset inner, each running -1, 0, 1. |
| `Neighbours.NeighbourCount` | main.py:54-72 | The count is the total of the scan in loop order, and for every grid and coordinate it lies in 0..8. |
| `Neighbours.CountIsLiveNeighbours` | main.py:54-72 | The count equals the number of live in-bounds cells at row and column offsets in {-1,0,1}, excluding the cell itself. |
| `Neighbours.NeighbourCountExpanded` | main.py:56-71 | The scan adds exactly the eight clipped neighbour values: the cell itself is skipped and out-of-bounds cells add 0. |
| `Neighbours.CornerCountAtMostThree` | main.py:63-69 | A corner cell's count never exceeds 3, since only three of its neighbours lie inside the grid. |
| `Neighbours.CountIsLocal` | main.py:63-71 | Two grids that agree on the cells one step around a coordinate give it the same count, whatever lies elsewhere. |
| `Neighbours.OppositeCornerNotSeen` | main.py:67-69 | On a grid at least 3 cells high or wide, flipping the opposite corner does not change the count of (0,0). There is no wraparound. |
| `Neighbours.GetNumNeighbours` | main.py:54-72 | The nested-loop counter returns the number of live neighbours, which is in 0..8. |
| `Generation.Rule` | main.py:83-104 | The next state is always 0 or 1. It is 1 exactly when the count is 3, or when the cell is alive and the count is 2 (birth on 3, survival on 2 or 3). |
| `Generation.NextCell` | main.py:80-104 | A cell's next state is 0 or 1, and it is 1 exactly when its count is 3, or when it is alive and its count is 2. |
| `Generation.Step` | main.py:74-106 | The next grid has the same dimensions as the old one and only 0/1 entries. |
| `Generation.StepRule` | main.py:78-104 | Every cell of the next grid is alive exactly when it was alive with 2 or 3 live neighbours, or dead with exactly 3 (neighbours counted as the reference set, both directions of the rule). |
| `Generation.StepIsLocal` | main.py:75-87 | A next-generation cell depends only on the old 3 × 3 block around it, never on cells written earlier in the same pass. |
| `Generation.AllDeadIsStable` | main.py:98-104 | An all-dead grid steps to itself. |
| `Generation.ResetIsStable` | main.py:160 | The grid left by a reset is a fixed point of the step. |
| `Generation.UpdateGridState` | main.py:74-106 | The nested loops filling a fresh all-dead grid compute exactly the next generation. |
| `Generation.Run` | main.py:124-127 | Running any number of generations keeps the grid well formed and of the same dimensions. |
| `Generation.RunAllDead` | main.py:124-127 | Starting from an all-dead grid, every run stays all dead. |
| `Generation.RunStillLife` | main.py:124-127 | A grid that one step maps to itself is unchanged by any run. |
| `Generation.RunPeriodTwo` | main.py:124-127 | A grid that two steps return to itself recurs after every even number of generations. |
| `Canvas.CellsAlong` | main.py:14-15 | The number of cells along a side is the largest `n` with `n * cell_size` not exceeding the side. |
| `Canvas.AppDimensions` | main.py:5-15 | With an 800 × 500 screen and 20-pixel cells, the grid has 25 rows and 40 columns and fills the canvas exactly. |
| `Canvas.PyIndex` | main.py:42 | A list index succeeds exactly for `-n <= i < n` and selects `i` or `i + n`. |
| `Canvas.CellAt` | main.py:40-42 | A non-negative pixel selects `(y // size, x // size)` exactly when both quotients are below the grid's dimensions. A selected cell is always in bounds. |
| `Canvas.Click` | main.py:36-51 | A click either fails with an index error or toggles exactly the selected cell, leaving the rest unchanged. |
| `Canvas.DivisionPicksStrip` | main.py:40-41 | A pixel coordinate lies in `[k * size, k * size + size)` exactly when its floor division by `size` is `k`. |
| `Canvas.CellRect` | main.py:23-26 | Each cell is drawn as a square of side `cell_size` with a non-negative top-left corner. |
| `Canvas.CellRectsDisjoint` | main.py:23-26 | The drawn rectangles never overlap: a pixel inside the rectangles of two cells means they are the same cell. |
| `Canvas.ClickHitsDrawnCell` | main.py:23-26 | On a canvas of whole cells, every pixel selects a cell of the grid, and that cell's drawn rectangle contains the pixel. |
| `Canvas.LeftOfCanvasWrapsToLastColumn` | main.py:40-42 | A pixel up to one cell left of the canvas would select the last column, because the lookup uses Python's negative indexing. Canvas clicks never give a negative coordinate, so the program cannot reach this case. |
| `Canvas.AppClickInBounds` | main.py:40-51 | Every click with 0 ≤ x < 800 and 0 ≤ y < 500 toggles cell `(y // 20, x // 20)`, which lies in the 25 × 40 grid. |
| `Canvas.ClickTwice` | main.py:44-51 | Two successful clicks on the same pixel restore the grid. |
| `Patterns.StepFromLive` | main.py:74-106 | If the rule maps one live set to another at every cell, one step maps the first grid to the second. |
| `Patterns.LoneCornerIsolated` | main.py:59-69 | A lone live cell at (0,0) has count 0: the skipped self cell, the clipped edges and no wraparound leave nothing to count. |
| `Patterns.LoneCornerDies` | main.py:83-87 | The lone corner cell dies of underpopulation and one step leaves the all-dead grid. |
| `Patterns.BlockIsStill` | main.py:83-104 | A 2 × 2 block anywhere inside a grid is unchanged by a step. |
| `Patterns.HorizontalTurnsVertical` | main.py:83-104 | A horizontal three-cell row becomes the vertical three-cell column through its centre. |
| `Patterns.VerticalTurnsHorizontal` | main.py:83-104 | A vertical three-cell column becomes the horizontal row through its centre. |
| `Patterns.BlinkerOscillates` | main.py:74-106 | The blinker changes in one step, returns in two, and recurs after every even number of generations. |

## Left out

- The tkinter window, canvas, buttons, labels and spinbox (main.py:19-34, 108-118 recolouring, 129-207). These are rendering and widgets over a library outside this model. Only the rectangle geometry of `make_cells` is modelled (`CellRect`).
- The timer loop `animate`, `canvas.after` and the `animating` flag (main.py:120-127, 140-151). They are event-loop scheduling. Running is modelled as repeated application of the step (`Run`).
- Random initialisation (main.py:17, 174). The model treats its output as an arbitrary well-formed grid, and every lemma holds for all such grids.
- The colour test in the click handler (main.py:46). The toggle reads the numeric state and assumes a black cell is exactly a cell whose state is 0, as the drawing code keeps it.
- The animation speed spinbox, whose value is stored as a string (main.py:188-190). It is UI configuration.
- Canvas.CellsAlong: models `int(extent / cell_size)` as exact truncating division, which is what the floating-point division gives for the program's sizes. Rounding of very large values is not modelled.
- Canvas.Click: only the `cells_states` update is modelled. The `cells` rectangle list that the source looks up first has the same dimensions, so it fails on the same indices.
