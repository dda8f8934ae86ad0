# Game of Life on a torus, split by rows across workers

This project models the simulation core of `gol.c`, a Conway's Game of Life
engine in which a rectangular world wraps around at its edges. The world is
one array of `width * height` C `int`s, each LIVE (1) or DEAD (0), stored
row by row. `main` splits the rows into contiguous ranges, one per worker
thread. In every turn each worker copies the whole world. A barrier makes
every worker wait until all copies exist. Then each worker recomputes the
cells of its own rows from its copy, writing into the shared world. The
turn loop runs `num_iters + 1` turns.

The model runs the workers of one turn one after another, in the order the
barriers allow: all copies first, then all writes. It proves that a turn
yields the next Conway generation for every tiling of the rows, so the
result does not depend on the number of workers.

Modules:

- `Rule` (rule.dfy): the cell values, Conway's rule B3/S23 as a reference, and
  computeCell's three-way decision (write DEAD, write LIVE, write nothing).
- `Arith` (arith.dfy): helper lemmas about integer multiplication, division
  and remainder. They model nothing in the source.
- `Grid` (grid.dfy): `computeIndex`, the neighbour list and
  `getNumLiveNeighbors`.
- `Life` (life.dfy): `computeCell`, one generation (`Step`) and many
  generations (`Evolve`).
- `World` (world.dfy): `initWorld`.
- `Partition` (partition.dfy): the row-partition loop of `main`.
- `Patterns` (patterns.dfy): the blinker and the block, worked out through
  the model's own generation on every world large enough that the wrap-around
  does not fold a pattern onto itself.
- `Engine` (engine.dfy): `threadDoTurn`, one turn of all workers,
  `threadSimulate`'s turn loop, and `main`'s checks and flow.

## Model

| member | source | states |
|---|---|---|
| Grid.ComputeIndex | gol.c:66-83 | For coordinates at most one period outside the world, the index is below width * height; an in-range (x, y) maps to y * width + x |
| Grid.ComputeIndexIsModular | gol.c:66-83 | The one-step wrap equals (y mod height) * width + (x mod width) |
| Grid.NeighbourIndices | gol.c:146-150 | The eight cells visited around (x, y), each an index below width * height |
| Grid.CountLiveNeighbors | gol.c:142-157 | The nested loops return exactly the number of LIVE cells among the eight neighbour indices, at most 8 |
| Grid.LiveNeighborsUnrolled | gol.c:142-157 | The live-neighbour count equals the sum of the eight neighbouring cells' LIVE indicators, each at its wrapped index |
| Grid.CentreNotNeighbour | gol.c:146-148 | When width and height are at least 2, the centre's own index is never among the cells counted |
| Grid.LiveNeighborsIgnoresCentre | gol.c:142-157 | When width and height are at least 2, changing the centre cell leaves its neighbour count unchanged |
| Grid.NarrowWorldCountsCentre | gol.c:146-150 | In a world one column wide, the left and right neighbours both resolve to the centre cell itself |
| Grid.NeighboursDistinct | gol.c:146-150 | When width and height are at least 3, the eight neighbour indices are pairwise distinct |
| Grid.CornerNeighbours | gol.c:146-150 | Around (0, 0), the cells counted include (width-1, height-1), (width-1, 0) and (0, height-1) |
| Rule.Decide | gol.c:175-189 | A write always writes the Conway next state; nothing is written only where Conway's next state equals the current state; DEAD is written only over a LIVE cell |
| Rule.RuleIsConway | gol.c:175-189 | When the destination still holds the cell's current value, the three-way rule leaves exactly the Conway next state |
| Rule.UntouchedNeedsPrior | gol.c:184-189 | Without that, a stale LIVE in the destination survives where Conway's rule says DEAD |
| Life.ComputeCell | gol.c:170-190 | Only the cell at computeIndex(x, y) of the destination can change; it gets the decision applied to its old value, which is the next generation's value when it held the current one |
| Life.StepIsConway | gol.c:170-190 | On a LIVE/DEAD world, each cell of one generation is Conway's rule applied to that cell and its live-neighbour count |
| Life.StepUnrolled | gol.c:170-190 | A cell of the next generation is computeCell's decision over the cell's value and the sum of its eight neighbours' states, applied over the cell's own value |
| Life.StepBinary | gol.c:170-190 | A generation keeps a LIVE/DEAD world LIVE/DEAD |
| Life.EvolveBinary | gol.c:373-389 | Every later generation of a LIVE/DEAD world is LIVE/DEAD |
| Life.StillLife | gol.c:373-389 | A world that one generation leaves unchanged stays unchanged for any number of generations |
| Life.OscillatorEven | gol.c:373-389 | A world that two generations bring back is back after every even number of generations |
| Life.OscillatorOdd | gol.c:373-389 | Such a world is in its other phase after every odd number of generations |
| Patterns.RectAround | gol.c:66-83 | In a world whose LIVE cells are exactly a rectangle of columns x0..x1 and rows y0..y1, the cell (x, y) and each of its eight neighbours, at the index computeIndex gives, is LIVE exactly when its wrapped coordinates lie in the rectangle |
| Patterns.RectStep | gol.c:170-190 | The next state of a cell of such a world is computeCell's decision over the cell's own state and the number of its eight wrapped neighbours that lie in the rectangle |
| Patterns.BlinkerHCell | gol.c:170-190 | On every world at least 5 x 5, each cell of the next generation of the horizontal bar at (1, 2)..(3, 2) equals the same cell of the vertical bar at (2, 1)..(2, 3) |
| Patterns.BlinkerVCell | gol.c:170-190 | Each cell of the next generation of the vertical bar equals the same cell of the horizontal bar |
| Patterns.BlockCell | gol.c:170-190 | On every world at least 4 x 4, each cell of the next generation of the 2 x 2 block at (1, 1)..(2, 2) equals the same cell of the block |
| Patterns.SameAtEveryCell | gol.c:66-83 | Two worlds that agree at the index computeIndex gives for every in-range (x, y) are the same world |
| Patterns.BlinkerTurnsVertical | gol.c:170-190 | On every world at least 5 x 5, one generation turns the horizontal bar of three LIVE cells into the vertical bar through its middle cell |
| Patterns.BlinkerTurnsHorizontal | gol.c:170-190 | On every world at least 5 x 5, one generation turns the vertical bar back into the horizontal one |
| Patterns.BlockUnchanged | gol.c:170-190 | On every world at least 4 x 4, one generation leaves the 2 x 2 block at (1, 1)..(2, 2) unchanged |
| Patterns.BlinkerOscillates | gol.c:373-389 | On every world at least 5 x 5, the horizontal bar is back after every even number of generations and is vertical after every odd number |
| Patterns.BlockIsStill | gol.c:373-389 | On every world at least 4 x 4, the block is unchanged after any number of generations |
| World.InitWorld | gol.c:122-130 | The world built is a fresh array equal to the all-DEAD world with every listed index set LIVE in turn |
| World.InitialWorldCells | gol.c:122-130 | Cell k of the initial world is LIVE exactly when k is listed, and DEAD otherwise |
| World.InitialWorldBinary | gol.c:122-130 | The initial world is LIVE/DEAD |
| World.InitialWorldDependsOnSet | gol.c:122-130 | Listing an index twice, or listing the indices in another order, builds the same world |
| Partition.PartitionRows | gol.c:312-336 | numWorkers ranges in rank order that tile rows 0..height-1 (first starts at 0, each starts after the previous ends, none empty, last ends at height-1); workers below height % numWorkers get height / numWorkers + 1 rows, the rest height / numWorkers; worker i starts at row i * (height / numWorkers) + min(i, height % numWorkers) |
| Partition.TilesCover | gol.c:312-336 | A row is owned by some worker exactly when it lies in 0..height-1 |
| Partition.TilesDisjoint | gol.c:312-336 | No row is owned by two workers |
| Partition.TilesOrdered | gol.c:312-336 | A lower-ranked range ends before a higher-ranked one starts |
| Partition.FirstRowClosed | gol.c:312-336 | The running row count of the loop (each worker's share plus one for each of the first `extra` workers) after t workers is t * share + min(t, extra) |
| Partition.Balanced | gol.c:312-336 | Range sizes differ by at most one row, and a lower rank never has fewer rows |
| Engine.Snapshot | gol.c:413-416 | The copy is a fresh array holding the same cells as the world |
| Engine.ApplyRows | gol.c:418-422 | Cells in rows startRow..endRow get computeCell's write over their previous value, read from the copy; all other cells are unchanged |
| Engine.InRowsIsRow | gol.c:418-422 | A storage index lies in rows startRow..endRow exactly when its row k / width does |
| Engine.DoTurn | gol.c:410-425 | After one worker's turn, every cell of its rows holds the next generation of the world as it was before; every other cell is unchanged |
| Engine.TakeSnapshots | gol.c:413-417 | Every worker's copy is fresh and equals the world as it was before any write of the turn |
| Engine.RunWorkers | gol.c:417-422 | With copies of one generation and ranges that tile the rows, the world becomes the next generation |
| Engine.Generation | gol.c:410-425 | One turn of all workers yields the next generation, whatever the tiling and so whatever the number of workers |
| Engine.Simulate | gol.c:373-389 | The do-while runs exactly numIters + 1 turns and leaves generation numIters + 1 of the starting world |
| Engine.ContinuesAsWrittenBelowMax | gol.c:375-386 | For numIters below 2^32 - 1, the loop test on the wrapping unsigned counter stops the loop after numIters + 1 turns |
| Engine.MaxIterationsNeverStop | gol.c:375-386 | For numIters = 2^32 - 1 the loop test on the wrapping counter never fails |
| Engine.Run | gol.c:264-293 | A thread count of 0 or less is refused first, then more threads than rows; otherwise the result is generation numIters + 1 of the initial world, for any thread count |

## Left out

- Threads, `pthread_create`/`pthread_join` and the barriers: the workers of a turn run one after another. The order is the one the two barriers allow: every copy of a turn before any write of that turn, and every write of a turn before the next turn's copies.
- `createWorld` (reading the configuration file) and `getopt` option handling: `Run` takes width, height, iteration count, live-cell list and thread count as parameters.
- `createWorld` turns (x, y) pairs into indices without validating them. `Run` requires every listed index to be below width * height.
- `printWorld`, `printThreadPartition`, `usage`, `system("clear")`, `usleep` and the timing with `gettimeofday`: console output and wall-clock reporting.
- `malloc`, `calloc` and `free`: arrays are fresh Dafny arrays, and nothing is freed.
- Engine.Run: requires a width of at least 1. With width 0 the C world is empty and no cell is ever visited; the model does not describe that degenerate world.
- Engine.Run: the C configuration values are 32-bit unsigned. The model uses unbounded integers, so an overflow of `width * height` or of the row arithmetic is not modelled.
- Engine.Simulate: counts turns without the 32-bit wrap of the C counter. That wrap is modelled separately (see Findings).
- Grid.LiveNeighborsIgnoresCentre: stated only for width and height of at least 2. In a world one cell wide or high, a neighbour offset wraps back onto the centre, and the source then counts the centre cell as its own neighbour. Grid.NarrowWorldCountsCentre shows this; the generation is still modelled exactly as the source computes it.

## Findings

| source | as written | input that shows it | evidently intended | confidence | as-written member | corrected member |
|---|---|---|---|---|---|---|
| gol.c:375-386 | The turn counter `i` is an `unsigned` compared with `num_iters` after `i++`. | `num_iters` = 4294967295: after 2^32 turns `i` wraps to 0, `0 <= num_iters` holds again, and the loop never ends. | `num_iters + 1` turns, then stop. | high, not executed | Engine.MaxIterationsNeverStop | Engine.Simulate |
