# Conway's Game of Life engine, modelled in Dafny

This project models the engine of a Game of Life program. The engine is a `Game`
object that owns:

- a 100 x 100 toroidal board of boolean cells, read row-major as `grid[y][x]`;
- a flat buffer of packed `0xRRGGBB` pixels, 500 x 500 of them, in which every
  cell is magnified to a 5 x 5 block;
- a generation counter;
- a paused flag;
- the time of the last accepted generation.

The engine starts from a fixed scene of stamped patterns: gliders, pulsars,
spaceships, still lifes and others. Each call to `Update` applies the B3/S23
rule to the whole board at once. Neighbours are counted on the torus, and the
new board is built from a snapshot of the old one. `Render` redraws every block
of the buffer. Live cells take a colour from a five-entry palette that shifts
across the board and over the generations; dead cells are black.

Files and modules:

- `life_grid.dfy`, module `LifeGrid`: the board size, `Wrap` onto the torus, the
  Moore neighbourhood, the neighbour count (`NeighborCount`), and the live-cell
  count (`LiveCells`). The independent definition of a neighbour is
  `IsNeighbour`: a different cell at cycle distance at most 1 on both axes.
- `rules.dfy`, module `Rules`: the B3/S23 rule `NextCell` and one synchronous
  generation, `Step`.
- `patterns.dfy`, module `Patterns`: the seventeen offset lists and the
  wrapping stamp (`Stamp`, a fold of the one write `SetAlive`). It also holds
  the start-up scene (`SCENE`, stamped by `StampAll`).
- `rendering.dfy`, module `Rendering`: the pixel-index layout and its inverse
  (`PixelCell`, `PixelOffset`), the palette, and the frame a render must
  produce (`Frame`).
- `oscillators.dfy`, modules `Rectangles` and `Oscillators`: what the rule
  does to the library's block and blinker when either is stamped alone on an
  empty board. `Rectangles` reads the neighbour count of a board whose live
  cells form one wrapped rectangle relative to the rectangle's corner.
  `Oscillators` proves that the block never changes and that the blinker
  alternates between a row and a column of three.
- `game.dfy`, module `Engine`: the class `Game`. Its methods mirror the nested
  loops of the source. Each method's contract ties the new state to the
  functions above.

The wall clock is a parameter. The constructor and `Update` take a reading
`now: nat` in milliseconds, and the object stores `lastUpdate`. `Update` runs
only when `Ticks(paused, now, lastUpdate)` holds: the engine is not paused, and
at least 70 ms have passed. Elapsed time is measured the way a monotonic clock
reports it, never below zero.

## Model

| member | source | states |
|---|---|---|
| `LifeGrid.EmptyBoard` | src/game.rs:172 | the fresh board is HEIGHT rows of WIDTH cells, all dead |
| `LifeGrid.Wrap` | src/game.rs:161-162 | a wrapped coordinate lies in 0..n-1; it is the coordinate itself inside the board, and one period is added or removed just outside it |
| `LifeGrid.WrapIsMod` | src/game.rs:161-162 | Wrap is the remainder v % n on every input, so a target is the source's `(x + dx) % WIDTH`, `(y + dy) % HEIGHT` |
| `LifeGrid.NeighbourAt` | src/game.rs:222-223 | every wrapped neighbour position lies on the board |
| `LifeGrid.CountAmong` | src/game.rs:216-229 | after visiting k neighbours the running count is at most k |
| `LifeGrid.NeighborCount` | src/game.rs:215-230 | the neighbour count is in [0, 8] |
| `LifeGrid.NearIff` | src/game.rs:222-223 | on a cycle of length at least 3, cycle distance at most 1 means b is a-1, a or a+1 after wrapping; distance 0 means b == a |
| `LifeGrid.MooreDistinct` | src/game.rs:217-223 | the eight wrapped neighbours are pairwise distinct, and none of them is the cell itself |
| `LifeGrid.MooreExact` | src/game.rs:217-223 | the eight wrapped neighbours are exactly the cells at toroidal distance at most one on both axes, other than the cell |
| `LifeGrid.CountAmongIsSize` | src/game.rs:216-229 | the running count equals the number of distinct live cells among the neighbours visited so far |
| `LifeGrid.NeighborCountIsLiveNeighbours` | src/game.rs:215-230 | the neighbour count equals the size of the set of live cells one toroidal step away, so it does not depend on visiting order |
| `LifeGrid.CountAmongIgnoresSelf` | src/game.rs:219-221 | no prefix of the neighbour count reads the cell itself |
| `LifeGrid.NeighborCountIgnoresSelf` | src/game.rs:219-221 | the state of (x, y) never changes the neighbour count of (x, y) |
| `LifeGrid.WrapShift` | src/game.rs:161-162 | adding an offset and then wrapping equals wrapping first, then adding and wrapping again, on both axes |
| `LifeGrid.LiveAmongStep` | src/game.rs:222-226 | visiting one more neighbour adds it to the set of live neighbours seen so far exactly when it is alive |
| `LifeGrid.NotYetVisited` | src/game.rs:217-223 | the neighbour visited k-th is not among the first k, so no cell is counted twice |
| `LifeGrid.RowLive` | src/game.rs:246 | a row's live count is at most its length; it is 0 iff every cell is dead, and equals the length iff every cell is alive |
| `LifeGrid.LiveCells` | src/game.rs:245-247 | the live count of a board of WIDTH-wide rows is at most rows x WIDTH, and 0 iff no cell is alive |
| `LifeGrid.RowLiveIsSize` | src/game.rs:246 | a row's live count is the number of distinct live positions in that row |
| `LifeGrid.LiveCellsIsSize` | src/game.rs:245-247 | the live count is the number of distinct (column, row) positions holding a live cell |
| `Rules.Step` | src/game.rs:172-185 | one generation keeps the board HEIGHT x WIDTH |
| `Rules.RuleCases` | src/game.rs:176-181 | the rule `NextCell`, case by case: a live cell with fewer than two live neighbours dies, with two or three lives on, with more than three dies; a dead cell comes alive iff it has exactly three (`Rules.StepCellRule` states the same rule over the set of live neighbours) |
| `Rules.StepCellRule` | src/game.rs:176-181 | a cell is alive next iff it is alive with 2 or 3 live cells one toroidal step away, or dead with exactly 3 |
| `Rules.StepLocal` | src/game.rs:172-183 | boards that agree on a cell and its eight neighbours agree on that cell after a step: each new cell reads only the old board around it |
| `Rules.EmptyStaysEmpty` | src/game.rs:172-186 | a board with no live cell stays empty after a step |
| `Patterns.FlowerShape` | src/game.rs:94-101 | the flower pattern has 13 cells, every offset within 5 columns and 5 rows of the anchor |
| `Patterns.GliderShape` | src/game.rs:103-112 | the glider pattern has 5 cells, every offset within 3 columns and 3 rows of the anchor |
| `Patterns.PulsarShape` | src/game.rs:114-128 | the pulsar pattern has 48 cells, every offset within 13 columns and 13 rows of the anchor |
| `Patterns.PentadecathlonShape` | src/game.rs:130-137 | the pentadecathlon pattern has 22 cells, every offset within 3 columns and 10 rows of the anchor |
| `Patterns.BlinkerShape` | src/game.rs:139-142 | the blinker pattern has 3 cells, every offset within 3 columns and 1 rows of the anchor |
| `Patterns.BlockShape` | src/game.rs:144-147 | the block pattern has 4 cells, every offset within 2 columns and 2 rows of the anchor |
| `Patterns.BeehiveShape` | src/game.rs:149-152 | the beehive pattern has 6 cells, every offset within 4 columns and 3 rows of the anchor |
| `Patterns.LoafShape` | src/game.rs:154-157 | the loaf pattern has 7 cells, every offset within 4 columns and 4 rows of the anchor |
| `Patterns.BoatShape` | src/game.rs:249-252 | the boat pattern has 5 cells, every offset within 3 columns and 3 rows of the anchor |
| `Patterns.TubShape` | src/game.rs:254-257 | the tub pattern has 4 cells, every offset within 3 columns and 3 rows of the anchor |
| `Patterns.ToadShape` | src/game.rs:259-262 | the toad pattern has 6 cells, every offset within 4 columns and 2 rows of the anchor |
| `Patterns.BeaconShape` | src/game.rs:264-267 | the beacon pattern has 6 cells, every offset within 4 columns and 4 rows of the anchor |
| `Patterns.LightweightSpaceshipShape` | src/game.rs:269-272 | the lightweight spaceship pattern has 9 cells, every offset within 5 columns and 4 rows of the anchor |
| `Patterns.MiddleweightSpaceshipShape` | src/game.rs:274-277 | the middleweight spaceship pattern has 12 cells, every offset within 6 columns and 5 rows of the anchor |
| `Patterns.HeavyweightSpaceshipShape` | src/game.rs:279-282 | the heavyweight spaceship pattern has 15 cells, every offset within 7 columns and 5 rows of the anchor |
| `Patterns.HeartShape` | src/game.rs:284-293 | the heart pattern has 16 cells, every offset within 5 columns and 5 rows of the anchor |
| `Patterns.StarShape` | src/game.rs:295-304 | the star pattern has 13 cells, every offset within 5 columns and 5 rows of the anchor |
| `Patterns.Target` | src/game.rs:161-162 | the cell an offset lands on lies on the board |
| `Patterns.SetAlive` | src/game.rs:163 | writing one cell keeps the board's shape |
| `Patterns.Stamp` | src/game.rs:159-165 | stamping keeps the board's shape |
| `Patterns.StampCells` | src/game.rs:159-165 | after a stamp, cell ((x+dx)%WIDTH, (y+dy)%HEIGHT) is alive for every offset; no live cell dies; every cell no offset lands on is unchanged |
| `Patterns.StampIff` | src/game.rs:159-165 | after a stamp a cell is alive iff it was alive before or some offset lands on it |
| `Patterns.StampIdempotent` | src/game.rs:159-165 | stamping the same pattern at the same anchor twice equals stamping it once |
| `Patterns.StampCommutes` | src/game.rs:159-165 | two stamps commute: overlapping stamps only add liveness |
| `Patterns.TargetWraps` | src/game.rs:161-162 | an anchor and its wrapped copy land every offset on the same cell |
| `Patterns.StampAnchor` | src/game.rs:159-165 | stamping at an anchor off the board equals stamping at its wrapped copy |
| `Patterns.StampAll` | src/game.rs:88-90 | stamping a list of placements keeps the board's shape |
| `Patterns.SceneOnBoard` | src/game.rs:34-86 | the start-up scene has 36 placements, and every anchor lies on the board |
| `Patterns.StampAllKeeps` | src/game.rs:88-90 | stamping a list of placements never kills a cell |
| `Patterns.StampPlacedAlive` | src/game.rs:159-165 | after a placement is stamped, all of its cells are alive |
| `Patterns.PlacedAliveKept` | src/game.rs:88-90 | a placement that is alive stays alive on any board that keeps every live cell |
| `Patterns.StampAllAlive` | src/game.rs:33-91 | after the scene is stamped, every cell of every placed pattern is alive |
| `Rendering.PixelCell` | src/game.rs:207-209 | every buffer index belongs to the block of a cell on the board |
| `Rendering.PixelIndex` | src/game.rs:207-209 | the index of pixel (dx, dy) in the block of a cell on the board lies inside the buffer |
| `Rendering.PixelOffset` | src/game.rs:205-206 | every buffer index has an in-block offset below CELL_SIZE on both axes |
| `Rendering.PixelIndexRoundTrip` | src/game.rs:204-213 | every index draw_cell writes is below WIDTH x HEIGHT x CELL_SIZE^2, and the cell and offset can be read back from it |
| `Rendering.PixelSplit` | src/game.rs:23 | every buffer index is the index of its own cell and offset, so the blocks tile the whole buffer |
| `Rendering.PaletteIndex` | src/game.rs:194 | the palette slot is always a valid index into COLORS |
| `Rendering.CellColor` | src/game.rs:193-197 | a cell's colour is BACKGROUND iff the cell is dead; a live cell's colour is one of COLORS |
| `Rendering.Frame` | src/game.rs:190-202 | the rendered frame has one pixel per buffer entry |
| `Rendering.FrameBlock` | src/game.rs:190-202 | in a frame, each pixel of a dead cell's block is BACKGROUND, and each pixel of a live cell's block is COLORS[(x/20 + y/20 + generation/10) % 5] |
| `Engine.Visited` | src/game.rs:217-221 | the counting loop never visits more than the eight offsets |
| `Engine.VisitedOffset` | src/game.rs:217-223 | the offset the loop visits at (dx, dy) is the next entry of the Moore list, so the centre is skipped exactly once |
| `Engine.CountStep` | src/game.rs:222-226 | one iteration of the counting loop adds exactly the liveness of the next Moore neighbour, computed as (x + dx + WIDTH) % WIDTH and (y + dy + HEIGHT) % HEIGHT |
| `Engine.Elapsed` | src/game.rs:168 | the time passed since the last generation: now - since when the clock has not gone back, and 0 otherwise |
| `Engine.Ticks` | src/game.rs:168 | a generation is computed iff the engine is not paused and at least 70 ms have passed since the last one |
| `Engine.Game.constructor` | src/game.rs:20-31 | generation 0; not paused; every pixel BACKGROUND in a buffer of WIDTH x HEIGHT x CELL_SIZE^2; the board is the start-up scene on an empty board, with every stamped cell alive |
| `Engine.Game.InitializeGrid` | src/game.rs:33-91 | the board becomes the scene stamped placement by placement; the counter, flag and timer are unchanged |
| `Engine.Game.SetCells` | src/game.rs:159-165 | the board becomes the stamp of the pattern at the anchor; nothing else changes |
| `Engine.Game.CountLiveNeighbors` | src/game.rs:215-230 | returns the neighbour count of (x, y), which is at most 8 |
| `Engine.Game.Update` | src/game.rs:167-188 | if paused or under a tick since the last generation, nothing changes; otherwise the board becomes Step(old board), the generation rises by exactly 1, and the timer is reset; the paused flag and the buffer are untouched |
| `Engine.Game.Render` | src/game.rs:190-202 | the buffer becomes the frame of the current board and generation; the board and generation are unchanged |
| `Engine.Game.DrawCell` | src/game.rs:204-213 | exactly the pixels of cell (x, y)'s block take the colour, and every other pixel keeps its value; each index (y*CELL_SIZE+dy)*WIDTH*CELL_SIZE + x*CELL_SIZE+dx with dx, dy < CELL_SIZE is inside the buffer and holds the colour |
| `Engine.Game.TogglePause` | src/game.rs:232-234 | only the paused flag flips, so toggling twice restores whether Update runs |
| `Engine.Game.Clear` | src/game.rs:236-239 | every cell is dead, the live count and the generation are 0; the buffer, flag and timer are unchanged |
| `Engine.Game.GetGeneration` | src/game.rs:241-243 | returns the generation counter that Update advances by one and Clear resets to 0 |
| `Engine.Game.GetLiveCells` | src/game.rs:245-247 | the live count is the number of distinct live (column, row) positions on the board; it is at most WIDTH x HEIGHT, and 0 iff no cell is alive |
| `Rectangles.Rect` | src/game.rs:159-165 | a rectangle board has HEIGHT rows of WIDTH cells |
| `Rectangles.NeighborCountUnfold` | src/game.rs:215-230 | the neighbour count is the sum of the eight wrapped neighbours' liveness, in loop order |
| `Rectangles.ShiftWrap` | src/game.rs:222-223 | stepping to a wrapped neighbour and then measuring from a corner equals measuring from the corner and then stepping |
| `Rectangles.RectNeighbour` | src/game.rs:222-226 | on a rectangle board, a wrapped neighbour is alive iff its position relative to the corner lies inside the rectangle |
| `Rectangles.RectCount` | src/game.rs:215-230 | on a rectangle board, a cell's neighbour count depends only on its position relative to the rectangle's corner |
| `Rectangles.BandShift` | src/game.rs:161-162 | measuring from a corner moved by one step equals measuring from the old corner and stepping back |
| `Rectangles.SquareCell` | src/game.rs:176-181 | near a 2 x 2 square, the four cells of the square survive with three neighbours, and no other cell has exactly three |
| `Rectangles.RowCell` | src/game.rs:176-181 | near a row of three, the middle cell survives, the cells above and below it are born, and every other cell is dead next |
| `Rectangles.ColumnCell` | src/game.rs:176-181 | near a column of three, the middle cell survives, the cells left and right of it are born, and every other cell is dead next |
| `Rectangles.RectStepCell` | src/game.rs:172-185 | on a rectangle board, a cell's next state is the rule applied to its position relative to the corner |
| `Oscillators.SquareNext` | src/game.rs:172-185 | next to a lone 2 x 2 square, a cell is alive next iff it lies in the square |
| `Oscillators.SquareStepCell` | src/game.rs:172-185 | every cell near a lone 2 x 2 square keeps its state for one generation |
| `Oscillators.RowNext` | src/game.rs:172-185 | next to a lone row of three, a cell is alive next iff it is one column right of the row's start and within one row of it |
| `Oscillators.RowStepCell` | src/game.rs:172-185 | a cell near a lone row of three is alive next iff it is on the column of three through the row's middle cell |
| `Oscillators.ColumnNext` | src/game.rs:172-185 | next to a lone column of three, a cell is alive next iff it is one row below the column's top and within one column of it |
| `Oscillators.ColumnStepCell` | src/game.rs:172-185 | a cell near a lone column of three is alive next iff it is on the row of three through the column's middle cell |
| `Oscillators.SquareStill` | src/game.rs:172-185 | a board holding only a 2 x 2 square is unchanged by a generation |
| `Oscillators.RowTurns` | src/game.rs:172-185 | a board holding only a row of three becomes the column of three through its middle cell |
| `Oscillators.ColumnTurns` | src/game.rs:172-185 | a board holding only a column of three becomes the row of three through its middle cell |
| `Oscillators.StampRectCell` | src/game.rs:159-165 | stamping a rectangular pattern on an empty board makes a cell alive iff it lies in the wrapped rectangle |
| `Oscillators.TargetRelative` | src/game.rs:161-162 | an offset lands on (c, r) iff it equals the position of (c, r) relative to the anchor |
| `Oscillators.StampRect` | src/game.rs:159-165 | stamping, on an empty board, a pattern whose offsets are exactly the cells of a w x h rectangle draws that wrapped rectangle |
| `Oscillators.BlockIsStillLife` | src/game.rs:144-147 | the block stamped alone at any anchor is a still life: one generation leaves the board unchanged |
| `Oscillators.BlinkerRect` | src/game.rs:139-142 | the blinker stamped alone is a row of three; one generation gives the column of three through its middle cell, and two give the row back |
| `Oscillators.ColumnAround` | src/game.rs:139-142 | the column of three around (xm, ym) holds exactly the cells in column xm and rows ym-1, ym and ym+1, wrapped |
| `Oscillators.BlinkerOscillates` | src/game.rs:139-142 | the blinker stamped alone at any anchor has period 2: after one generation exactly the column of three through its middle cell is alive, which differs from the row, and after two generations the board is back to the row |

## Left out

- The window loop (src/main.rs) is not part of this model. It opens the
  window, limits the frame rate, polls the Escape key and hands the buffer to
  the window library. Its own 200 x 200 x 4 constants differ from the engine's
  100 x 100 x 5; that is a matter for the host.
- Wall-clock time (`Instant::now`, `elapsed`, the 70 ms tick duration) is
  replaced by a millisecond reading `now` passed to the constructor and to
  `Update`. Sub-millisecond precision is not modelled.
- Update: the single reading `now` stands for the two clock reads of the
  source, the `elapsed()` of the gate (src/game.rs:168) and the later
  `Instant::now()` stored as the last update (src/game.rs:187). The model
  therefore measures the next tick from the gate's reading, not from the end
  of the generation.
- The generation counter is a `nat`: the `usize` overflow of `generation += 1`
  is not modelled.
- The pattern functions are not modelled as functions called through a
  reference (src/game.rs:8, 34-90). Each pattern is its offset constant, and the
  scene is a list of (offsets, anchor) placements stamped through `SetCells`.
- Colours are integers in the range of `u32`. Nothing interprets their RGB
  channels.
