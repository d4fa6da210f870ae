# Game of Life on a torus: the simulation core in Dafny

This project models the simulation core of a Conway's Game of Life program (`main.cpp`). The logical
grid is `cols x rows` cells. It is stored row by row in one flat `int` buffer with a one-cell
border, so the buffer has `(cols+2)*(rows+2)` entries. The program writes that size as
`cols*rows+2*cols+2*rows+4`. Cell `(col, row)` lives at `index1D(col, row, cols+2) = row*(cols+2)+col`.
Logical cells have `col` in `[1, cols]` and `row` in `[1, rows]`.

- `fillPadding` copies the opposite logical edges and the diagonally opposite corners into the
  border. This makes the grid a torus.
- `countNeighboursPadded` sums the 8 Moore neighbours by direct indexing into the padded buffer.
- `nextState` is the B3/S23 rule.
- One generation computes every logical cell of a fresh buffer from the current one. It then fills
  the fresh buffer's padding and copies it over the current buffer. Along the way it paints a
  black square where a live cell died and a white square over every cell that is now alive.

Modules, one per part of `main.cpp`:

- `Grid` (`grid.dfy`): `Index` (index1D), the buffer size, and `Cell(s, cols, rows, col, row)`, the
  value of a cell in a buffer seen as a sequence. It also holds the index arithmetic lemmas.
- `Rules` (`rules.dfy`): `NextState` and `PaintFor`, the square painted for a cell.
- `Padding` (`padding.dfy`): `FillPadding` as an in-place method on the `array<int>`, and the
  padding invariant `Mirrored`. `Wrapped(t, s)` says every cell of `t` holds the cell of `s` at the
  wrapped coordinates `((x-1) mod n)+1`.
- `Neighbours` (`neighbours.dfy`): `CountNeighboursPadded` with the source's own loop shape. Its
  reference definition `MooreSum` lists the 8 cells. `TorusCount` is the count computed with
  modular wrap-around instead of the padding.
- `Simulation` (`simulation.dfy`): the generation step (`Step`, with its loops in
  `ComputeLogicalCells`) and `InitRandom`. `InitRandom` takes its coin flips as a parameter.
- `Patterns` (`patterns.dfy`): the 2 x 2 block (a still life) and the blinker (period two) on
  a concrete 6 x 6 torus, stated against the generation step's specification.

The first loop of `fillPadding` runs up to `i = cols+1`. In that last round it reads the border
cells `(cols+1, rows)` and `(cols+1, 1)` before the second loop refreshes them. In the fresh buffer
of a generation those cells were never written. The corner writes afterwards overwrite the two
corners that round stored.
`FillPadding`'s contract (`Wrapped` against the old buffer) and `PaddingDependsOnlyOnLogical` show
that the final buffer depends only on the logical cells.

## Model

| member | source | states |
|---|---|---|
| `Grid.Index` | main.cpp:42-44 | index1D: for a column inside the row width, the remainder of the index by the width is the column and the quotient is the row |
| `Grid.BufferSize` | main.cpp:154 | the allocation size `cols*rows+2*cols+2*rows+4` is exactly `(cols+2)*(rows+2)`, the logical grid with a one-cell border |
| `Grid.IndexInBounds` | main.cpp:154 | the allocated size `cols*rows+2*cols+2*rows+4` equals `(cols+2)*(rows+2)`, and every cell in `[0,cols+1] x [0,rows+1]` has an index inside it |
| `Grid.IndexInjective` | main.cpp:42-44 | for columns below the row width, two cells have the same index1D exactly when they are the same cell |
| `Grid.IndexOnto` | main.cpp:42-44 | every position of the buffer is the index1D of a cell in `[0,cols+1] x [0,rows+1]` (its column is `k mod (cols+2)`, its row `k div (cols+2)`) |
| `Grid.CellAfterWriteAt` | main.cpp:42-44 | writing the buffer at one cell's index changes that cell and no other |
| `Grid.CellExtensionality` | main.cpp:154 | two buffers that agree on every cell are equal |
| `Rules.NextState` | main.cpp:86-100 | the result is 0 or 1; it is 1 exactly for a 0 cell with 3 neighbours or a 1 cell with 2 or 3; every other input, including a state other than 0/1, gives 0 |
| `Rules.PaintFor` | main.cpp:176-181 | for 0/1 states: black exactly when a live cell dies, white exactly when the new state is 1 (so survivors are repainted), nothing only for a cell that stays dead; a changed cell is always painted in its new colour |
| `Padding.Wrap` | main.cpp:104-119 | the wrapped coordinate lies in `[1,n]`, is the identity on logical coordinates, maps border 0 to `n` and border `n+1` to 1 |
| `Padding.MirroredIffSelfWrapped` | main.cpp:104-119 | the edge-by-edge padding invariant holds exactly when every cell equals the logical cell at its wrapped coordinates (both directions) |
| `Padding.FillPadding` | main.cpp:106-119 | every cell afterwards equals the old cell at its wrapped coordinates; logical cells are unchanged; the padding invariant holds |
| `Padding.RowCopyStep` | main.cpp:107-110 | one round of the first loop refreshes column `i` of rows 0 and `rows+1` and nothing else |
| `Padding.ColumnCopyStep` | main.cpp:111-114 | one round of the second loop refreshes row `j` of columns 0 and `cols+1` and nothing else |
| `Padding.CornerWrites` | main.cpp:115-118 | the four corner writes set each corner from the diagonally opposite logical corner and change nothing else |
| `Padding.FillPaddingResult` | main.cpp:106-119 | the two loops and the corner writes, one after the other, leave every cell equal to the old cell at its wrapped coordinates, whatever the stale read stored |
| `Padding.WrappedKeepsLogicalAndMirrors` | main.cpp:106-119 | a buffer wrapped from another keeps its logical cells and satisfies the padding invariant |
| `Padding.PaddingDetermined` | main.cpp:106-119 | two buffers that satisfy the padding invariant and agree on the logical cells are equal |
| `Padding.PaddingDependsOnlyOnLogical` | main.cpp:106-119 | refreshing the padding of two buffers with the same logical cells gives the same buffer, whatever their old borders held |
| `Padding.PaddingIdempotent` | main.cpp:106-119 | refreshing the padding a second time changes nothing |
| `Neighbours.CountNeighboursPadded` | main.cpp:72-82 | the uneven loop sums exactly the 8 Moore neighbours (`MooreSum`); once the padding is filled it equals the toroidal count; over 0/1 cells it lies in `[0,8]` |
| `Neighbours.PaddedCountIsToroidal` | main.cpp:71-82 | after the padding is filled, the direct-index count at any logical cell equals the count over cells `((col+dc-1) mod cols)+1, ((row+dr-1) mod rows)+1` |
| `Neighbours.MooreSumIgnoresCentre` | main.cpp:72-82 | the count never reads the cell itself: overwriting it leaves the count unchanged |
| `Neighbours.MooreSumRange` | main.cpp:72-82 | over a buffer of 0/1 cells the count lies in `[0,8]` |
| `Simulation.CellStepDone` | main.cpp:171-174 | writing the rule's value at `(i, j)` extends the computed logical cells by that one cell, leaving the others untouched |
| `Simulation.DrawStepDone` | main.cpp:175-181 | appending the painted square of `(i, j)` keeps the draw list complete, ordered and free of repeats |
| `Simulation.BorderStepKept` | main.cpp:171-174 | writing a logical cell leaves every border cell as it was |
| `Simulation.ColumnDone` | main.cpp:168-169 | finishing column `i` is starting column `i+1` |
| `Simulation.ComputeLogicalCells` | main.cpp:168-183 | every logical cell of the fresh buffer gets `nextState` of the old cell and its count in the old buffer, which is only read; the draws are those of `PaintFor`, in loop order; no border cell of the fresh buffer is written |
| `Simulation.StepResult` | main.cpp:168-186 | loops, padding refresh and copy together give the next generation and the matching draws |
| `Simulation.Step` | main.cpp:167-186 | the buffer afterwards is the next generation of the old one (logical cells by the rule on the old buffer, padding filled); when the old padding was filled each cell follows the rule on its toroidal count; all cells are 0/1; the returned draws are exactly `PaintFor` of old and new state per logical cell, in column-then-row order |
| `Simulation.NextGenerationDeterministic` | main.cpp:168-186 | the next generation is a function of the current buffer |
| `Simulation.NextGenerationIsToroidal` | main.cpp:168-186 | if the current padding is filled, every new logical cell is `nextState` of the old cell and its toroidal count |
| `Simulation.NextGenerationIsBinary` | main.cpp:168-186 | every cell of a next generation, padding included, is 0 or 1 |
| `Simulation.InitRandom` | main.cpp:122-136 | each logical cell is 1 where the coin says alive and 0 elsewhere; the padding is then filled; all cells are 0/1; exactly the live cells are painted white, in loop order |
| `Simulation.LogicalBinaryIsAllBinary` | main.cpp:134 | a buffer with 0/1 logical cells and filled padding holds only 0/1 |
| `Patterns.BoardStep` | main.cpp:167-186 | on a 6 x 6 grid whose live cells stay off the edges, the buffer of pattern `after` is the next generation of the buffer of `before` whenever `after` is B3/S23 applied to `before` cell by cell |
| `Patterns.BlockIsStill` | main.cpp:167-186 | the 2 x 2 block on a 6 x 6 torus is its own next generation, and the only one |
| `Patterns.BlinkerFlips` | main.cpp:167-186 | the horizontal blinker becomes the vertical one and the vertical one becomes the horizontal one, and the two differ |
| `Patterns.BlinkerHasPeriodTwo` | main.cpp:167-186 | any two generations after a horizontal blinker equal the blinker again, and the single generation in between does not |

## Left out

- The SDL `Framework` class, window and renderer setup and teardown (main.cpp:11-37): graphics library I/O.
- `draw_square_white` / `draw_square_black` (main.cpp:47-69): each painted square is recorded as `Draw(col, row, colour)`. The pixel geometry is not modelled: corner at `(i-1)*squareWidth-1` and width argument `squareWidth-2`, where the inclusive loops paint a square `squareWidth-1` pixels wide.
- `SDL_RenderPresent` calls: I/O with no effect on the grid.
- `rand()` and the float test `(float) rand()/RAND_MAX > 0.5` in `initRandom` (main.cpp:125): these are randomness and floating point. `InitRandom` takes the outcome per cell as a parameter `alive(col, row)`.
- The keyboard polling loop, `SDL_PumpEvents`, `SDL_Delay`, the window-title `sprintf`/`strcat`, and the quit-event drain loop (main.cpp:161-205): event handling and string I/O. `Step` models one pass of the generation loop.
- The derivation of `cols`/`rows` from the window size (main.cpp:141-151): every member instead requires `cols >= 1` and `rows >= 1` (the program runs with 112 x 112).
- The stack arrays and `memcpy` (main.cpp:154, 167, 186): modelled as a fresh `array<int>` and a whole-array copy. C leaves the fresh buffer's border uninitialised; Dafny zero-fills it. The padding contracts prove that the result does not depend on those values.
- 32-bit `int` overflow: integers are unbounded. Index values stay below `(cols+2)*(rows+2)`, and neighbour counts of 0/1 cells stay in `[0,8]`.

## Notes

- The program repaints every live cell white each generation, not only the cells that changed. `PaintFor` and `Step` state exactly that: a changed cell is painted in its new colour, and a surviving cell is painted white again.
- `PaddedCountIsToroidal` holds for every `cols, rows >= 1`, including grids narrower than 3 cells, where a neighbour and its wrapped copy coincide.
- The block and blinker lemmas in `Patterns` are proved on one concrete 6 x 6 grid, not for every grid size or position.
