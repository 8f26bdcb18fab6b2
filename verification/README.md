# Game of Life on a cube-sphere grid: the example driver

This project models the Conway's Game of Life example of the `surface-grid`
crate (`examples/conway.rs`). Once per frame the example does three things.
The model covers each one.

- **The transition rule** (`Life`). The example passes a closure to the grid's
  generation step. The closure takes nine cell states: the centre cell
  `current` is the fifth argument and its eight neighbours are the others. It
  counts the live neighbours and applies B3/S23. The model is the function
  `Life.Transition`, which keeps the closure's chain of tests. Its contract and
  lemmas state the rule in closed form and case by case. Counting is
  `Life.CountAlive`, the model of `filter().count()`. It is proved equal to the
  multiplicity of `true`, so the count does not depend on the order of the
  neighbours.
- **The step-then-swap tick** (`Generation`, `Simulation`). A grid is a total
  map from cell address to state, written as a function `P -> T` over the
  type `P` of valid addresses. The library's neighbour resolution is a
  parameter `neighbour: (P, Direction) -> P`. `Generation.Step` writes into
  every address the rule applied to that address's 3x3 window in the source.
  `Generation.Generations` iterates it. The class
  `Simulation.DoubleBuffer` holds `buffer1` and `buffer2`. Its method `Tick`
  steps `buffer1` into `buffer2` and then swaps the two. Its invariant says
  that `buffer1` is generation `ticks` of the initial grid and that `buffer2`
  is the generation before it.
- **The frame fill** (`Frame`). A nested `for y` / `for x` loop writes each
  pixel's RGBA bytes at offset `(y * width + x) * 4` of the display's byte
  buffer: white for a live cell, black for a dead one, alpha always 255.
  `Frame.Fill` is that loop over an `array<bv8>`. It is proved to leave the
  buffer equal to `Frame.ExpectedFrame`, a byte-by-byte reference definition.
  Lemmas give the offsets' bounds and disjointness and each pixel's colour.

The grid library's `set_from_neighbours_diagonals_par` is only called here,
and its source is not part of this model. The model assumes that it passes
the window in row-major order: north-west, north, north-east, west, centre,
east, south-west, south, south-east. This puts the centre fifth, where the
closure's parameter names at examples/conway.rs:74 put it. With the centre
fifth, any order of the eight neighbours gives the same result
(`Life.TransitionIgnoresNeighbourOrder`). That the library really passes the
centre fifth is an assumption the model cannot check.

## Model

| member | source | states |
|---|---|---|
| Life.CountAlive | examples/conway.rs:75-78 | the number of live cells counted is at most the number of cells |
| Life.CountAliveIsMultiplicity | examples/conway.rs:75-78 | the count equals the number of `true` entries (their multiplicity), so it is independent of order |
| Life.Neighbours | examples/conway.rs:75 | the neighbour list has eight entries: the first four and the last four arguments, with the centre (fifth) argument left out |
| Life.LiveNeighbours | examples/conway.rs:74-78 | the live-neighbour count of the eight neighbour arguments lies in [0, 8] |
| Life.CentreNotCounted | examples/conway.rs:74-78 | counting the whole 3x3 window gives the live-neighbour count plus one exactly when the centre is alive, so the centre is never counted |
| Life.Transition | examples/conway.rs:74-91 | the closure's if/else chain yields alive iff count == 3, or the centre is alive and count == 2 |
| Life.FewerThanTwoDies | examples/conway.rs:80-81 | with fewer than 2 live neighbours the result is dead, whatever the centre |
| Life.MoreThanThreeDies | examples/conway.rs:82-83 | with more than 3 live neighbours the result is dead |
| Life.TwoKeeps | examples/conway.rs:84-89 | with exactly 2 live neighbours the result equals the centre: a live cell survives and a dead one stays dead |
| Life.ThreeBirths | examples/conway.rs:86-87 | with exactly 3 live neighbours the result is alive, whatever the centre |
| Life.AllNeighboursDeadDies | examples/conway.rs:80-81 | a cell with eight dead neighbours is dead next, whether it was alive (isolated) or not |
| Life.AllNeighboursAliveDies | examples/conway.rs:82-83 | a cell with eight live neighbours is dead next |
| Life.TransitionIgnoresNeighbourOrder | examples/conway.rs:75-78 | any rearrangement of the eight neighbour arguments gives the same result |
| Generation.Step | examples/conway.rs:74 | every cell of the next grid is the rule applied to that cell's window in the source, in the assumed row-major order NW, N, NE, W, centre, E, SW, S, SE |
| Generation.StepIsLocal | examples/conway.rs:74 | a cell's next state depends on the source only through that cell and its eight neighbours |
| Generation.LiveNeighbours | examples/conway.rs:74-78 | a cell's live-neighbour count on the grid lies in [0, 8] |
| Generation.LifeStepCell | examples/conway.rs:74-91 | after a Life step a cell is alive iff its grid neighbourhood has 3 live cells, or it was alive with 2 |
| Generation.IsolatedCellDies | examples/conway.rs:74-81 | a cell whose eight neighbours are dead is dead after the step |
| Generation.AllDeadStaysDead | examples/conway.rs:74-81 | stepping an all-dead grid gives an all-dead grid |
| Generation.AllAliveCollapses | examples/conway.rs:74-91 | stepping an all-alive grid gives an all-dead grid |
| Generation.GenerationsShift | examples/conway.rs:74-94 | `k` repeated generations (`k` ticks of the example's loop) equal one generation followed by `k - 1` more |
| Generation.AllDeadForever | examples/conway.rs:74-94 | an all-dead grid stays all dead after any number of generations |
| Generation.AllAliveThenDead | examples/conway.rs:74-94 | an all-alive grid is all dead after every generation from the first on |
| Simulation.DoubleBuffer.constructor | examples/conway.rs:41-42 | `buffer1` is the generator's grid, `buffer2` is the default grid (every cell dead), and no generation has been computed yet |
| Simulation.DoubleBuffer.Tick | examples/conway.rs:74-94 | afterwards `buffer1` is the step of the previous `buffer1` and `buffer2` is the previous `buffer1`; the invariant "buffer1 is generation k, buffer2 generation k-1" is kept |
| Frame.PixelOffset | examples/conway.rs:101 | for x < width the byte offset is a multiple of 4 and its pixel index decodes back to column x of row y |
| Frame.PixelBytes | examples/conway.rs:112-121 | a pixel's bytes 0-2 are all 255 for a live cell and all 0 for a dead one, and byte 3 is 255 |
| Frame.SlotInBounds | examples/conway.rs:99-101 | for x < width and y < height, offset (y*width + x)*4 plus 3 is below width*height*4 |
| Frame.SlotsDisjoint | examples/conway.rs:99-101 | distinct pixels (x, y) get disjoint four-byte slots |
| Frame.ByteOwner | examples/conway.rs:99-101 | every byte i of a width*height*4 frame lies in the slot of the in-range pixel ((i/4) mod width, (i/4) div width) |
| Frame.FramePixel | examples/conway.rs:101-121 | in the expected frame, pixel (x, y)'s bytes are the colour of the cell sampled at (x, y) |
| Frame.Fill | examples/conway.rs:97-123 | after the nested loops every byte of the frame is written and the frame equals the expected frame |

## Left out

- The winit event loop, window construction, 60 FPS pacing, close and resize handling (examples/conway.rs:16-24, 44-71): window-system plumbing.
- The `pixels` surface, `resize_buffer`, `resize_surface` and `render` (examples/conway.rs:28-32, 61-64, 126): calls into a display library. `Frame.Fill` requires the frame to hold `width * height * 4` bytes, which is the size of the `pixels` buffer after it is resized to the window. A smaller buffer would make the source panic on an out-of-range index.
- Random seeding with `thread_rng` (examples/conway.rs:36, 41): nondeterministic. The generator is the constructor's `generator` parameter.
- The equirectangular latitude/longitude computation and `CubeSpherePoint::from_geographic` (examples/conway.rs:105-109): floating point, and library code that is not part of this model. The cell shown at pixel (x, y) is the parameter `sample`.
- `CubeSphereGrid`, its face topology and neighbour resolution: library code that is not part of this model. Neighbours are the parameter `neighbour`, and cell addresses are the type parameter `P`. Properties that depend on the topology are not stated. These include the 6·N² cell count, neighbour symmetry, a cell never being its own neighbour, and a 2x2 block being stable.
- The parallel fan-out of `set_from_neighbours_diagonals_par`: concurrency. `Generation.Step` is a pure function of a source grid that it leaves unmodified, so the order in which cells are evaluated cannot affect the result. `Generation.StepIsLocal` adds that a cell's result depends only on that cell's own neighbourhood; it does not itself speak about evaluation order.
- Integer widths: `u32` pixel coordinates and the `usize` offset arithmetic are modelled as unbounded naturals. Overflow is not modelled because the frame sizes involved are far below the limits.
