# Maze generator: a verified Dafny model

This project models the core of a small Rust program that grows a perfect maze
on a 30 x 30 grid with randomized depth-first search (the "recursive
backtracker") and paints each stage of the construction into a 600 x 600 RGBA8
frame buffer. The core is the `World` type: `World::new` builds the seed state,
`World::update` advances the search by one step, and `World::draw` paints the
current state pixel by pixel.

The Dafny project has four modules:

- `Grid` (`grid.dfy`): the constants `CELL_SIZE`, `COLS` and `ROWS`, cell
  coordinates, `Orientation` and `Wall`, the canonical wall between two
  adjacent cells, and `Neighbours`, the ordered list of candidate cells of one
  step. It also counts the cells of the grid.
- `Generation` (`generation.dfy`): the maze state as a value (`MazeState`),
  one step as a pure function `Step`, the invariant of every reachable state,
  the termination measure, and what holds once the stack is empty.
- `Render` (`render.dfy`): the colour constants, the raster size, the mapping
  from chunk index to pixel coordinates, and the per-pixel colour rule
  `PixelColor`, with lemmas on what each colour means.
- `Maze` (`world.dfy`): the class `World` with fields `visited`, `stack` and
  `removedWalls`. Its constructor, `Update` and `Draw` update the fields and
  the frame in place. Each is proved against the pure functions above.

The random choice `rng.gen_range(0..neighbours.len())` becomes the argument
`idx` of `Step` and `World.Update`. `ChoiceFits` requires `idx` to be below the
number of candidates only when there are candidates, because only then does the
source draw a number.

Coordinates are `nat`, not `usize`. No reachable state comes near overflow: the
invariant keeps every visited cell inside the grid. The pixel index of `draw`
is narrowed to 32 bits (`i as u32`) before its coordinates are taken, and
`PixelCoords` writes that narrowing out.

## Model

| member | source | states |
|---|---|---|
| `Grid.Neighbours` | src/main.rs:120-145 | at most four candidates are listed |
| `Grid.NeighboursSound` | src/main.rs:120-145 | every candidate is an unvisited axis neighbour of the active cell; left/right candidates carry `Vertical`, up/down candidates `Horizontal`; a candidate is inside the grid whenever the active cell is |
| `Grid.NeighboursComplete` | src/main.rs:120-145 | every unvisited axis neighbour inside the grid is listed, with the orientation of the wall between the two cells |
| `Grid.NeighboursOrdered` | src/main.rs:120-145 | candidates appear in the order Left, Right, Up, Down, each direction at most once |
| `Grid.WallBetween` | src/main.rs:160-164 | the wall anchored at the coordinate-wise minimum of two adjacent cells has exactly those two cells as its sides |
| `Grid.WallBetweenCanonical` | src/main.rs:160-164 | the min-anchored wall between two adjacent cells is the same whichever cell names it, and the two cells are distinct |
| `Grid.SidesRoundTrip` | src/main.rs:88-93 | every wall separates two adjacent cells and is the wall between them |
| `Grid.GridCellsCount` | src/main.rs:16-17 | a `cols` by `rows` grid has `cols * rows` cells |
| `Generation.Init` | src/main.rs:103-111 | the seed state (`{(0,0)}`, `[(0,0)]`, no walls) satisfies the invariant and has termination measure `2*COLS*ROWS - 1` |
| `Generation.Step` | src/main.rs:112-166 | one step: empty stack is a no-op, no candidate pops, otherwise candidate `idx` is visited, pushed and its wall carved; `visited` and the walls never shrink, the result is `true` exactly when there was a candidate, and a `false` step changes neither `visited` nor the walls |
| `Generation.StepTerminal` | src/main.rs:115-118 | on an empty stack a step returns `false` and changes nothing |
| `Generation.StepBacktrack` | src/main.rs:149-152 | with no candidate a step pops exactly the last stack element, keeps `visited` and the walls, and returns `false` |
| `Generation.StepAdvance` | src/main.rs:154-165 | with a candidate, the chosen cell is new, inside the grid and adjacent; `visited` gains it, the stack pushes it, exactly one new wall joining the two cells is carved, and the result is `true` |
| `Generation.FirstStep` | src/main.rs:103-165 | from the seed state the candidates are (1,0) and (0,1), and the step visits the chosen one and carves the wall anchored at (0,0) |
| `Generation.StepInvariant` | src/main.rs:112-166 | every step keeps the invariant: seed visited, visited cells in bounds, stack inside `visited`, carved walls join visited cells, one wall fewer than visited cells, every visited cell off the stack has no candidate, every visited cell is reachable from (0,0) through carved walls |
| `Generation.AdvanceConnected` | src/main.rs:154-165 | the cell an advance visits is reachable from (0,0) through carved walls, and every previously reachable cell stays reachable |
| `Generation.ReachableExtend` | src/main.rs:158-164 | carving the wall from a reachable cell to a new cell makes the new cell reachable and keeps the others reachable |
| `Generation.MeasureBounds` | src/main.rs:112-166 | in a reachable state the measure (twice the unvisited cells plus the stack height) is non-negative, and zero exactly when the stack is empty |
| `Generation.StepMeasure` | src/main.rs:149-165 | every step on a non-empty stack lowers that measure by exactly one |
| `Generation.RunTerminal` | src/main.rs:115-118 | once the stack is empty, any number of further steps leaves the state unchanged |
| `Generation.RunTerminates` | src/main.rs:112-166 | from a reachable state, any run of at least `Measure` steps ends with an empty stack |
| `Generation.RunUnfinished` | src/main.rs:112-166 | from a reachable state, any run of fewer than `Measure` steps leaves the stack non-empty |
| `Generation.GenerationTerminates` | src/main.rs:103-166 | from the seed state the stack is empty after a run exactly when the run has at least `2*COLS*ROWS - 1` steps, whatever the random choices |
| `Generation.Coverage` | src/main.rs:112-166 | once the stack is empty every grid cell is visited and reachable from (0,0) through carved walls, every carved wall lies inside the grid, and exactly `COLS*ROWS - 1` walls are carved (as many as a spanning tree of the grid has) |
| `Render.PixelColor` | src/main.rs:172-199 | every pixel gets one of the three palette colours, four bytes with alpha `0xFF` |
| `Render.PixelColorMeaning` | src/main.rs:172-199 | white exactly on the line of an intact wall, the unvisited colour exactly inside an unvisited cell, the visited colour exactly on carved walls and inside visited cells |
| `Render.LineWallInGrid` | src/main.rs:172-191 | inside the raster, a grid-line pixel shows a wall between two in-grid cells, and the line is the boundary between their squares; the `- 1` never underflows |
| `Render.CarvedLineJoinsVisitedCells` | src/main.rs:172-191 | in a reachable state a grid line painted in the visited colour belongs to a carved wall whose two cells are visited |
| `Render.FinishedFrameHasNoUnvisitedCell` | src/main.rs:192-199 | once generation has finished, no pixel of the raster shows the unvisited colour |
| `Render.InitialFrame` | src/main.rs:172-199 | first frame: pixel (0,0) visited colour, the interior of cell (1,1) unvisited colour, pixel (CELL_SIZE,0) wall colour |
| `Render.PixelCoords` | src/main.rs:168-170 | the column is below `WIN_WIDTH` and `row * WIN_WIDTH + column` gives back the chunk index narrowed to 32 bits |
| `Render.PixelCoordsRowMajor` | src/main.rs:168-170 | chunk `i` of a raster-sized frame holds the pixel in row `i / WIN_WIDTH`, column `i % WIN_WIDTH`, inside the raster |
| `Render.PixelCoordsOnto` | src/main.rs:168-170 | every pixel of the raster is held by chunk `y * WIN_WIDTH + x` |
| `Maze.World.constructor` | src/main.rs:103-111 | the new world is the seed state and satisfies the invariant |
| `Maze.World.Update` | src/main.rs:112-166 | the new fields and the returned flag are those of `Step` on the old fields, and the invariant is kept |
| `Maze.World.Draw` | src/main.rs:167-203 | every complete 4-byte chunk `i` holds `PixelColor` of pixel `PixelCoords(i)`; trailing bytes and the world are unchanged |

## Left out

- `main` and the event loop (window creation, input polling, Escape/quit handling, surface resize, redraw requests, `pixels.render()` errors): platform I/O over libraries that are not part of this model.
- The floating-point window size: it only sizes the window.
- `rand::thread_rng` and the distribution of `gen_range`: the drawn index is a parameter, and uniformity is not modelled.
- Hashing of `HashSet` and the derived traits: sets are mathematical sets and equality is structural.
- `usize` overflow of cell coordinates: coordinates are unbounded `nat`; the invariant keeps reachable cells inside the 30 x 30 grid, where no overflow is possible.
- Generation.Coverage: proves the carved walls connect every cell to the seed and number one fewer than the cells; that such a wall set has no cycle is the standard graph fact and is not proved here.
- `Maze.World.Update` and `Generation.Step` require `ChoiceFits`: the source guarantees it by drawing the index from `0..neighbours.len()`.
