# Hexagonal lattice gas engine

This project models the lattice engine of a lattice-gas simulator written in Rust (`src/hexboard.rs`). The board is a `size x size` grid of `Hex` cells. Each cell records its own coordinates `(x, y)` and whether a particle occupies it. The grid uses offset hexagonal addressing:

- Every cell has six neighbours.
- The direction table that lists them depends on the parity of the row.
- Columns wrap with period `size`.
- Rows wrap asymmetrically. Row `size - 1` counts as past the top edge and wraps to row 0. One step below row 0 lands on row `size - 1`.
- Because of this, a cell of the last row reaches the same row-0 cell in two of its six directions, and that cell counts twice in its energy. On a board of side 2, the upward neighbour of a row-0 cell is the cell itself. `Topology.LastRowDuplicates` states both, and the model keeps them.

The engine does four things:

- builds an empty board;
- places particles at random by rejection sampling over the rows `0 .. size - 2`;
- advances one timestep, in which every cell in turn tries to send its particle to one random neighbour (a Metropolis-like rule on the local energy, which is the number of occupied neighbours);
- computes integer observables: the local and total energy, and the occupancy of the three sublattices behind the order parameters.

Modules:

- `GridSums`: double sums over the board, column by column, with the lemmas used to reason about them.
- `Topology`: the board side `Size` (2 to 255), the two wrap functions and the direction tables.
- `Lattice`: `Hex`, the board contents as a value (`Grid`, indexed `g[x][y]`), neighbours and local energy.
- `Observables`: population, total energy and the sublattice class counts, each as a function of a board value.
- `Dynamics`: random placement (`Fill`) and the timestep (`Step`, `SweepColumn`, `Sweep`) as functions of a board value and of the random draws, with their conservation and frame lemmas.
- `Engine`: the class `HexBoard`. It stores the board in an `array2<Hex>` and updates it in place. The ghost field `Cells` mirrors the array as a value, and every method is proved against the functions above.

The random generator is not modelled. Its outputs become parameters:

- Initial placement reads a finite stream of picked cells (`draws`).
- The timestep reads the direction drawn for each cell from `dir(x, y)`.
- When the timestep consults the acceptance test, the answer is `accept(x, y, delta)`.

Two facts about the code that the model keeps:

- The timestep visits the cells column by column (`x` outer, `y` inner).
- The wraps handle only one step off the board: `wrap_x(1 + size)` is 0. `Topology.WrapXModulo` and `Topology.WrapYModulo` state where the wraps agree with reduction modulo `size` and modulo `size - 1`.

## Model

| member | source | states |
|---|---|---|
| Topology.WrapX | src/hexboard.rs:77-88 | the result is a valid column; a column on the board is unchanged, -1 becomes size - 1 and any index at or past size becomes 0 |
| Topology.WrapXModulo | src/hexboard.rs:77-88 | for every index in [-1, size] the horizontal wrap equals the index reduced modulo size |
| Topology.WrapY | src/hexboard.rs:90-101 | the result is a valid row; rows below size - 1 are unchanged, any index at or past size - 1 becomes 0, and the result is the last row exactly when the index is negative |
| Topology.WrapYModulo | src/hexboard.rs:90-101 | on [0, size) the vertical wrap is reduction modulo size - 1, one less than the board height |
| Topology.LastRowWrap | src/hexboard.rs:55-101 | no neighbour of a last-row cell is in the last row, its two side neighbours are in row 0, and only row-0 cells have a last-row neighbour |
| Topology.LastRowDuplicates | src/hexboard.rs:55-101 | from a last-row cell, direction 4 reaches the same row-0 cell as direction 1 (even row) or direction 0 (odd row); on a board of side 2, the step up from row 0 returns to the cell itself |
| Topology.Target | src/hexboard.rs:55-75 | every neighbour coordinate, in every direction from every cell, lies on the board |
| Topology.NeighbourSymmetric | src/hexboard.rs:56-57 | away from the wrapped rows, the neighbour in direction d has the starting cell as its neighbour in the opposite direction of its own row's table |
| Lattice.NewHex | src/hexboard.rs:314-319 | a new cell has the given coordinates and is empty |
| Lattice.EmptyGrid | src/hexboard.rs:16-27 | the new board has size columns of size cells, every cell records its own (x, y), and none is occupied |
| Lattice.SetValue | src/hexboard.rs:35-37 | after setting (x, y) to v, that cell holds v; every other cell and every coordinate is unchanged |
| Lattice.Neighbours | src/hexboard.rs:55-75 | exactly six cells; entry k is the board cell at the wrapped coordinates of direction k of the row's parity table |
| Lattice.OccupiedCount | src/hexboard.rs:104-110 | the count of occupied cells in a list is at most its length |
| Lattice.OccupiedCountZero | src/hexboard.rs:104-110 | the count is 0 exactly when no cell of the list is occupied |
| Lattice.Energy | src/hexboard.rs:103-112 | the local energy is between 0 and 6 |
| Lattice.EnergyZero | src/hexboard.rs:103-112 | a cell has energy 0 exactly when all six of its neighbours are empty |
| Observables.PopulationSetValue | src/hexboard.rs:35-37 | setting one cell changes the number of occupied cells by that cell's change alone, on the whole board and on the rows below the last |
| Observables.PopulationBounds | src/hexboard.rs:44-45 | the population is at most size * size, and the occupied cells outside the last row at most size * (size - 1) |
| Observables.EmptyGridPopulation | src/hexboard.rs:16-27 | a new board holds no particle |
| Observables.GridEnergyBounds | src/hexboard.rs:152-169 | the total energy is between 0 and six times the population, and below 65536 when size <= 104 |
| Observables.TruncRem | src/hexboard.rs:186-193 | the truncating remainder lies strictly between -b and b; it agrees with the Euclidean one on non-negative dividends, is non-positive on negative ones, and returns the dividend itself when the dividend lies in (-b, b), so (0 - 1) % 3 is -1 |
| Observables.InClass | src/hexboard.rs:180-213 | the class tests as written, with the truncating remainder; only the classes 0, 1 and 2 have members |
| Observables.ClassPartition | src/hexboard.rs:180-213 | a cell passes the class test of k exactly when k is its sublattice colour, so every cell is in exactly one class |
| Observables.ClassCountsPartition | src/hexboard.rs:171-216 | the three class counts are non-negative and add up to the number of occupied cells |
| Observables.OrderWeightBounds | src/hexboard.rs:270 | the weighted count a + 2b + 3c lies between the population and three times the population, at the low end exactly when every particle is in class a and at the high end exactly when every particle is in class c |
| Dynamics.DecideCases | src/hexboard.rs:118-139 | a hop is considered exactly when the source is occupied and the chosen neighbour empty; it skips the acceptance test exactly when the source's energy is at least the neighbour's; the difference passed to the acceptance test is never positive |
| Dynamics.StepByEnergies | src/hexboard.rs:118-139 | a cell's turn moves the particle exactly when the neighbour is empty, the source occupied, and either start energy > neighbour energy - 1 or the acceptance test says yes; otherwise the board is unchanged |
| Dynamics.Decide | src/hexboard.rs:123-133 | a hop is considered only from an occupied cell, and the energy difference handed to the acceptance test is never positive |
| Dynamics.Move | src/hexboard.rs:128-129 | after the two set_cell calls the destination is occupied and a distinct source is empty; the board keeps its shape and coordinates |
| Dynamics.Step | src/hexboard.rs:118-139 | one cell's turn keeps the board's shape and every cell's coordinates |
| Dynamics.SweepColumn | src/hexboard.rs:116-141 | the turns of one column, each on the board left by the one before, keep the board's shape and every cell's coordinates |
| Dynamics.MoveConservesPopulation | src/hexboard.rs:128-129 | moving a particle from an occupied to an empty cell keeps the population |
| Dynamics.StepConservesPopulation | src/hexboard.rs:118-139 | one cell's turn keeps the population |
| Dynamics.StepFrame | src/hexboard.rs:118-139 | a turn changes at most the source and the chosen neighbour; if anything changes, the source went from occupied to empty and the neighbour from empty to occupied |
| Dynamics.StepRule | src/hexboard.rs:123-139 | the board changes exactly on a downhill decision or an accepted uphill one; when the decision is not uphill, the acceptance answers make no difference |
| Dynamics.Sweep | src/hexboard.rs:114-143 | after any number of turns the board still has size columns of size cells, each at its own coordinates |
| Dynamics.SweepColumnConservesPopulation | src/hexboard.rs:116-141 | the turns of one column keep the population |
| Dynamics.SweepConservesPopulation | src/hexboard.rs:114-143 | a whole timestep keeps the population, whatever the random draws |
| Dynamics.Fill | src/hexboard.rs:40-53 | placement places at most the requested number; it either places all of them or uses up every draw; the board keeps its shape and coordinates |
| Dynamics.FillPopulation | src/hexboard.rs:40-53 | each placed particle occupies a previously empty cell: the population, and the occupied count outside the last row, grow by exactly the number placed |
| Dynamics.FillFrame | src/hexboard.rs:44-48 | placement never empties a cell and never changes the last row |
| Dynamics.FillCapacity | src/hexboard.rs:41-51 | no more particles can be placed than there are empty cells outside the last row; asked for more, placement fails and exhausts every draw, which the source's retry loop would never do |
| Dynamics.FillFreshBoard | src/hexboard.rs:40-53 | on a new board the population equals the number placed, the last row stays empty, and a completed placement of n particles leaves exactly n with n <= size * (size - 1) |
| Engine.CountOccupied | src/hexboard.rs:104-110 | the loop's count equals the number of occupied cells in the list |
| Engine.HexBoard.constructor | src/hexboard.rs:16-27 | the array holds the empty board of the given size, every cell at its own coordinates, with population 0 |
| Engine.HexBoard.GetCell | src/hexboard.rs:30-32 | returns the cell at (x, y), which carries the coordinates (x, y) |
| Engine.HexBoard.SetCell | src/hexboard.rs:35-37 | the board afterwards is the old board with only the occupancy of (x, y) set |
| Engine.HexBoard.Initialize | src/hexboard.rs:40-53 | the board afterwards is the result of rejection sampling over the draws; n particles are placed unless the draws run out; the population grows by the number placed |
| Engine.HexBoard.PlaceOne | src/hexboard.rs:42-51 | the retry loop for one particle consumes draws until one hits an empty cell, which it occupies; this is the first step of the placement function |
| Engine.HexBoard.GetNeighbours | src/hexboard.rs:55-75 | the loop over the parity's direction table returns exactly the six neighbours |
| Engine.HexBoard.GetEnergy | src/hexboard.rs:103-112 | returns the number of occupied neighbours of the cell |
| Engine.HexBoard.AdvanceTimestepRepulsive | src/hexboard.rs:114-143 | the board afterwards is the sweep of every cell in turn on the board left by the turns before; the population is unchanged |
| Engine.HexBoard.SweepColumnInPlace | src/hexboard.rs:116-141 | the board afterwards is the sequence of turns of column x, row 0 first |
| Engine.HexBoard.AttemptHop | src/hexboard.rs:118-139 | the board afterwards is one cell's turn applied to the old board |
| Engine.HexBoard.DecideHop | src/hexboard.rs:118-135 | returns the chosen neighbour (on the board), and hop is true exactly when that neighbour is empty, the source occupied, and either start energy > neighbour energy - 1 or the acceptance test accepts |
| Engine.HexBoard.MoveParticle | src/hexboard.rs:128-129 | the board afterwards has the source emptied and the destination occupied |
| Engine.HexBoard.TotalEnergy | src/hexboard.rs:152-169 | the accumulated count equals the sum over occupied cells of their occupied neighbours, and is at most six times the population |
| Engine.HexBoard.CellEnergy | src/hexboard.rs:157-165 | the contribution of one cell is its energy when occupied and 0 otherwise |
| Engine.HexBoard.OrderCounts | src/hexboard.rs:171-216 | the three passes count exactly the occupied cells of classes a, b and c, and the counts add up to the population |
| Engine.HexBoard.OrderSingleCount | src/hexboard.rs:223-273 | the weighted count a + 2b + 3c of the single order parameter lies between the population and three times it |

## Left out

- The random generator's state and its distributions (`gen_range`, `gen_bool`) are not modelled. Their outputs are parameters: the draw stream of initial placement, and the `dir`/`accept` functions of the timestep.
- `accept_change` is not modelled: it computes the floating-point probability `exp(delta * disorder)` and draws a boolean. Its answer is the `accept` parameter, which also sees the cell being visited.
- The `disorder` and `fillrate` fields are not modelled. The particle count `((size * size) as f32 * fillrate) as u16` is a floating-point computation, so `Initialize` takes the count `n` as a parameter.
- The divisions of the class counts by the particle count in `get_order` and `get_order_single` are floating point. The model states its properties on the integer counts.
- Engine.HexBoard.Initialize: the source retries forever when no empty cell is left in the sampled rows. The model reads a finite draw stream, may stop early when it runs out, and returns how many particles it placed and how many draws it used. `Dynamics.FillCapacity` states when the source would not terminate.
- Engine.HexBoard.TotalEnergy: the 16-bit counter of the source is not modelled (the count is unbounded). `Observables.GridEnergyBounds` proves the total stays below 65536 only when size <= 104.
- Engine.HexBoard.OrderSingleCount: `get_order_single` repeats the three counting passes of `get_order`. The model calls `OrderCounts` once instead of writing the same loops twice.
- Engine.HexBoard.DecideHop: the source compares the energies as `f64` values. All of them are small integers, so the model compares them as integers.
- The board side is the type `Size`, from 2 to 255. Above 255, `size * size` overflows 16 bits. Coordinates are `int` rather than `i16`. Inside those bounds the `as i16`, `as u16` and `as usize` casts do not change any value.
- The board is stored as an `array2<Hex>` rather than a vector of vectors. `total_energy` walks `grid.len()` and `grid[i].len()`, and these equal `size` throughout.
- The per-cell body of the timestep is split into helper methods (`SweepColumnInPlace`, `AttemptHop`, `DecideHop`, `MoveParticle`), and the energy summation into `CellEnergy`. They perform the source's steps in the source's order.
- `printfile` writes the occupied cells to a CSV file and is not modelled (file I/O).
- `src/batchrun.rs`, `src/plot.rs`, `src/main.rs` and `vis/vis.py` are not part of this model. They drive parameter sweeps, plot charts and visualise the output.
