# Multi-species Game of Life: a Dafny model of the update rule

This project models the core of a classroom multi-species Game of Life. Each
cell of a rectangular grid is either dead (`deadID`, -1) or holds a species id
`0 .. numSpecies-1`. Each generation reads the current buffer (the
"foreground") and writes the next one (the "background"). It then colours the
background into a display buffer and swaps the two buffers. The rule is:

- A live cell survives if 2 or 3 of its in-grid Moore neighbours have its
  species. Otherwise it dies.
- A dead cell is born as one of the species that have exactly 3 neighbours
  around it. The candidates are listed in ascending order and the random draw
  `k` picks `candidates[k % candidateCount]`. With no candidate the cell stays
  dead.
- The grid has no wrap-around. Neighbours outside the grid are skipped.

The model has three layers:

- **Specification** (`Rule`). The rule is a pure function, `NextCell` for one
  cell and `Step` for the whole grid. Each birth gets its draw from an oracle
  passed in as a parameter.
- **Implementations.** Two implementations are proved to refine that function:
  - Assignment One: `check`, `decide` and the row-band dispatch
    (`ThreadedUpdate`). The same code appears twice in the source, in
    `A1_Driver.cpp` and in `testNeighbor.cpp`.
  - Assignment Two: the fused `CheckArray` tile functor (`TiledUpdate`).
- **Surroundings.** The row-band partition (`Partition`), the colour table
  (`Palette`), the colour-mapping passes (`Display`) and the generation loop
  with its buffer swap (`Simulation`).

Buffers are immutable `seq<seq<int>>` values. A method that writes the
background takes the old buffer and returns the new one. So the foreground
cannot be changed by construction. The band and tile methods also return a
ghost log of the cells they wrote, so the model can state that each cell is
written exactly once.

Files, one module each:

- `grid.dfy`: the cell domain, grid shape, regions and their write order, and
  the offset table.
- `rule.dfy`: the rule specification and its properties.
- `neighbours.dfy`: the neighbour-tally loop and the candidate loop that both
  CPU variants share.
- `partition.dfy`: the row bands.
- `threaded.dfy`: Assignment One.
- `tiled.dfy`: Assignment Two.
- `palette.dfy`: the colour table.
- `display.dfy`: the colour-mapping passes.
- `simulation.dfy`: the driver loops.

In the no-candidate branch, the tile functor writes `foreground[row][col]`
instead of `deadID`. That branch is only reached when the cell is dead, so the
written value is `deadID` and the two variants agree (`TiledUpdate.EvaluateCell`
proves it).

## Model

| member | source | states |
|---|---|---|
| `Grid.DeadIsNoSpecies` | Assignment_Two/include/CheckArray.h:10 | The dead sentinel -1 is never a species id, whatever the species count. |
| `Grid.OffsetsAreMooreNeighbourhood` | Assignment_Two/include/CheckArray.h:11-20 | The offset table has 8 pairwise distinct entries. Every component is in {-1,0,1} and no entry is (0,0). As a set the table is exactly the Moore neighbourhood. |
| `Grid.CellsExactlyOnce` | Assignment_Two/src/CheckArray.cpp:14-15 | A nested row/column loop over a region visits exactly the cells of the region, none twice. |
| `Rule.NeighbourCountBound` | Assignment_One/src/A1_Driver.cpp:99-105 | The same-species count of a cell is between 0 and 8. |
| `Rule.CandidatesIn` | Assignment_One/src/A1_Driver.cpp:115-120 | The candidate list is strictly ascending. It holds exactly the species below the bound whose tally is 3, and it is no longer than the bound. |
| `Rule.NextCell` | Assignment_One/src/A1_Driver.cpp:114-142 | If the cell is dead or a species below `numSpecies`, its next value is too. |
| `Rule.SurvivalRule` | Assignment_One/src/testNeighbor.cpp:118-121 | A live cell keeps its species if and only if it has 2 or 3 same-species neighbours. Otherwise it becomes dead. |
| `Rule.BirthRule` | Assignment_One/src/testNeighbor.cpp:85-107 | A dead cell comes alive if and only if some species below `numSpecies` has exactly 3 neighbours around it. The species it is born as has exactly 3 neighbours. |
| `Rule.SingleCandidateIsDeterministic` | Assignment_One/src/A1_Driver.cpp:117-123 | When only one species has a tally of 3, a birth gives that species whatever the draw. |
| `Rule.EveryCandidateIsReachable` | Assignment_One/src/A1_Driver.cpp:122-123 | Every species with a tally of 3 is the birth result for some draw `k`. |
| `Rule.AtMostTwoCandidates` | Assignment_One/src/testNeighbor.cpp:95-100 | At most two species can have a tally of 3 around one cell. So `candidateCount` never gets near the 10 slots of `candidates`. |
| `Rule.StepPreservesCells` | Assignment_One/src/A1_Driver.cpp:114-142 | If every foreground cell is dead or a species below `numSpecies`, every cell of the next generation is too. |
| `Rule.UpdateRegionsCommute` | Assignment_Two/src/CheckArray.cpp:13-63 | Updating two tiles one after the other gives the same background in either order. |
| `Rule.WholeRegionIsStep` | Assignment_Two/src/A2_Driver_Main.cpp:52-54 | Updating the whole grid as one tile gives the next generation, whatever the background held before. |
| `Rule.CrowdedCentreDies` | Assignment_One/src/A1_Driver.cpp:139-142 | In a full single-species 3x3 block the centre has 8 neighbours and dies. A corner has 3 and survives. |
| `Rule.BirthOnThree` | Assignment_One/src/A1_Driver.cpp:117-123 | A dead cell with neighbours {1,1,1,0} is born as species 1 for every draw. |
| `Neighbours.CountNeighbours` | Assignment_One/src/A1_Driver.cpp:99-112 | Every read stays inside the grid and every tally index is a valid species. A live cell gets its same-species count and an all-zero tally. A dead cell gets a zero count and the per-species tally of its neighbours. |
| `Neighbours.SelectCandidates` | Assignment_Two/src/CheckArray.cpp:43-49 | The loop builds the ascending exactly-3 candidate list and never writes past the 10-slot array. |
| `Partition.BandStartIsProduct` | Assignment_One/src/A1_Driver.cpp:289 | Band `n` starts at row `n * rowsPerThread`. The model defines each start as the previous start plus the common band height. |
| `Partition.BandOf` | Assignment_One/src/A1_Driver.cpp:288-290 | Every grid row lies in a band: band `r / rowsPerThread`, or the last band for the rows of the remainder. |
| `Partition.BandsAreContiguous` | Assignment_One/src/A1_Driver.cpp:288-292 | The first band starts at row 0 and each band ends where the next one starts. The last band ends at `rows` and every band lies inside `[0, rows)`. |
| `Partition.BandsAreDisjoint` | Assignment_One/src/A1_Driver.cpp:288-292 | Two different bands share no row. |
| `Partition.BandsCoverRows` | Assignment_One/src/A1_Driver.cpp:169-170 | A row lies in some band if and only if it lies in `[0, rows)`. |
| `Partition.HeadlessBands` | Assignment_One/src/testNeighbor.cpp:176-182 | With 726 rows and 8 threads, `rowsPerThread` is 90. Band 6 is `[540, 630)` and the last band `[630, 726)` takes the remainder. |
| `Partition.WindowedBands` | Assignment_One/src/A1_Driver.cpp:166-170 | With 768 rows and 8 threads, all eight bands are 96 rows tall. |
| `ThreadedUpdate.Check` | Assignment_One/src/A1_Driver.cpp:87-131 | For a dead cell it returns -1 and writes only that cell, with its next value. For a live cell it returns the same-species count (0 to 8) and leaves the background unchanged. |
| `ThreadedUpdate.DecideCell` | Assignment_One/src/A1_Driver.cpp:137-142 | `check` followed by `decide`'s write gives the cell its next value, and the cell is written exactly once. |
| `ThreadedUpdate.DecideRow` | Assignment_One/src/A1_Driver.cpp:136-144 | The inner loop over one row gives each of its cells its next value, writing each once from left to right. No other row changes. |
| `ThreadedUpdate.Decide` | Assignment_One/src/A1_Driver.cpp:133-146 | The band's background cells get their next value and all other cells keep theirs. The write log is the band in row-major order. |
| `ThreadedUpdate.Generation` | Assignment_One/src/A1_Driver.cpp:288-297 | Running `decide` over all `numThreads` bands makes the background equal to the next generation. |
| `TiledUpdate.EvaluateCell` | Assignment_Two/src/CheckArray.cpp:16-60 | The fused per-cell body computes exactly the cell's next value, including the branch that copies a dead foreground cell. |
| `TiledUpdate.CheckRow` | Assignment_Two/src/CheckArray.cpp:15-61 | The inner loop over one row of a tile gives the tile's cells in that row their next value, each written once from left to right. No other cell changes. |
| `TiledUpdate.CheckArray` | Assignment_Two/src/CheckArray.cpp:13-63 | Exactly the tile's background cells get their next value, each written once in row-major order. All other cells are unchanged. |
| `TiledUpdate.ApplyTiles` | Assignment_Two/src/A2_Driver_Main.cpp:52-54 | After all tiles, a covered cell holds its next value and an uncovered cell its old one. Tiles that cover the grid give the next generation in any order. |
| `Palette.ColorMappingWellFormed` | Assignment_Two/include/ColorMapping.h:9-20 | The table has 10 entries with every channel in [0,1]. No entry is black and no two entries are equal. |
| `Palette.ColourOfIsFaithful` | Assignment_Two/src/ColorMapping.cpp:14-17 | A cell is black if and only if it is dead. Two cell values share a colour only when they are equal. |
| `Palette.RecolourIdempotent` | Assignment_Two/src/ColorMapping.cpp:11-20 | Colouring a tile twice leaves the same display as colouring it once. |
| `Palette.RecolourCommutes` | Assignment_Two/src/ColorMapping.cpp:12-17 | Colouring two tiles gives the same display in either order. |
| `Display.NumToColorMapping` | Assignment_One/src/A1_Driver.cpp:148-157 | Display rows `[rowStart, rowEnd)` take the colours of the background. No other display cell changes. |
| `Display.ColorMappingTile` | Assignment_Two/src/ColorMapping.cpp:11-20 | Dead cells of the tile become black and a species `s` becomes `colorMapping[s]`. Display cells outside the tile are unchanged. |
| `Display.MapBands` | Assignment_One/src/A1_Driver.cpp:299-308 | Colouring all bands gives the colours of the whole background. |
| `Display.MapTiles` | Assignment_Two/src/A2_Driver_Main.cpp:55-57 | Colouring the tiles colours exactly the covered cells, and a covering tiling colours the whole background in any order. |
| `Simulation.Evolve` | Assignment_One/src/testNeighbor.cpp:200-269 | After any number of generations every cell is still dead or a species below `numSpecies`. |
| `Simulation.Tick` | Assignment_One/src/A1_Driver.cpp:287-310 | One pass of the main loop (band update, band colouring, swap) makes the foreground the next generation and the display its colours. The old foreground becomes the background. |
| `Simulation.TiledTick` | Assignment_Two/src/A2_Driver_Main.cpp:165-170 | The same for one pass of the tile update, the tile colouring and the swap. |
| `Simulation.Run` | Assignment_One/src/A1_Driver.cpp:183-310 | After `gens` generations of band update, band colouring and swap, the foreground is the rule applied `gens` times. Every cell stays in the domain and the display shows the foreground. |
| `Simulation.TiledRun` | Assignment_Two/src/A2_Driver_Main.cpp:165-170 | The same holds for the tile functors over any covering tiling. |

## Left out

- Threads, TBB, join and barrier: bands and tiles run one after another in the model. The ghost write logs and the commuting lemmas stand in for race freedom. TBB's splitting of `blocked_range2d` (tile size 64) is modelled only as "some covering list of tiles".
- `rand()` and `srand`: each birth takes its draw from an oracle, one draw per generation and cell. The source draws from one shared stream in whatever order the threads reach the births. The model makes no claim about uniformity, and the modulo bias of `rand() % candidateCount` is not modelled.
- The random initial population and Assignment Two's `numSpecies = 5 + rand() % 6`: both are parameters. `numSpecies` is at most 10 and the initial cells are in the cell domain.
- `int8_t` storage: cell values are -1..9 and counts are at most 8, so nothing wraps and the model uses unbounded integers.
- `float` colour channels: each channel is an integer number of thousandths (0.647 is 647).
- `Simulation.Run`: it follows `A1_Driver.cpp`, which colours the initial foreground before the loop. The headless loop in `testNeighbor.cpp` skips that step, so the two differ only when no generation runs.
- `const` on the functors and their buffer fields: the model passes buffers as immutable values, so the fields cannot change.
- Window, shader, texture upload, drawing and the frames-per-second counters: presentation and wall-clock timing, with no effect on the rule.
- Assignment Three and Assignment Four: OpenCL setup and GL interop. Their kernels are loaded from `.cl` files that are not part of this model.
