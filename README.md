# Game of Life on an interop surface, modelled in Dafny

The program runs Conway's Game of Life on a GPU. The grid is a 2D float4
texture that the compute kernels read and write in place, and that is then
drawn. Each frame launches two kernels on one stream:

- `calculate_step`: one thread per cell. It counts the live cells among the
  eight neighbour offsets, where a cell is alive when its red channel
  (`x`, channel 0) is positive. It applies the B3/S23 rule and writes the new
  state as 0 or 1 into the green channel (`y`, channel 1) of its own cell.
  The other channels are written back as they were read.
- `update_texture`: copies green into red and blue and sets alpha to 1.

The model covers those two kernels, the launch that sweeps them over the
grid, and the frame loop that runs one after the other. It proves that the
in-place, two-pass channel-packing scheme computes the simultaneous
(double-buffered) Game of Life step, in any thread order.

Files and modules:

- `cells.dfy` (`Cells`): the texel datatype, the liveness test, the
  transition rule, and what one thread of each kernel writes to its texel.
- `grid.dfy` (`Grids`): a surface snapshot as a value, the out-of-range read
  policy, and the neighbour count.
- `step.dfy` (`Passes`): the rule pass as a simultaneous step (`Pass1`), as
  an in-place schedule of threads (`RunSchedule`), the propagation pass, and
  frames.
- `patterns.dfy` (`Patterns`): an empty grid stays empty, a block is still,
  a blinker has period two.
- `kernels.dfy` (`Kernels`): the kernels as imperative methods over an
  `array2<Cell>`, with loops, proved against the functions above.

Modelling decisions:

- Channels are `real`. Only the test `> 0` and the constants 0 and 1 matter.
- The surface is `surf[y, x]`: `Length0` rows (the launch's blocks, `y`) and
  `Length1` columns (the threads of a block, `x`). The source fixes
  1024 x 1024 through its launch geometry; here the size is the array's.
- Edges. At `src/main.cpp:132` the neighbour coordinate is computed in
  unsigned arithmetic, so a read one step past an edge is out of range. What
  it returns depends on the runtime's boundary handling, which this file does
  not show. The model takes the policy as a parameter, `EdgePolicy`:
  `DeadBorder` (out-of-range reads return an all-zero texel) or `Torus`
  (coordinates wrap around, Euclidean `%`). Every result about counts, frames
  and patterns holds for both policies. `CornerCountDeadBorder`,
  `CornerCountTorus` and `TorusWrapsByOne` each describe one policy. The
  pattern lemmas need the pattern off the outermost ring, and
  `InteriorCountIgnoresEdgePolicy` shows that the policy does not matter
  for interior cells.
- The liveness test reads channel 0 (`val.x > 0.f`, lines 133 and 141), not
  green. The rule pass reads only red and writes only green, and that is what
  makes the in-place pass correct.
- A GPU launch runs its threads in parallel. The model runs each thread body
  to completion, one thread at a time. `CalculateStepKernel` sweeps the launch
  geometry row by row (block y is row y, thread x is column x).
  `CalculateStepInOrder` takes any order that reaches every cell (repeats
  allowed), and both compute `Pass1`.

## Model

| member | source | states |
|---|---|---|
| Cells.Alive | src/main.cpp:133 | The liveness test is red > 0, so of the two channel values the kernels write, 1 reads as alive and 0 as dead |
| Cells.NextAlive | src/main.cpp:143-149 | A live cell stays alive iff it has 2 or 3 live neighbours; a dead cell becomes alive iff it has exactly 3; otherwise the cell is dead |
| Cells.StepCell | src/main.cpp:151-153 | The texel written by a rule thread keeps red, blue and alpha as read; its green is 0 or 1, and it is 1 exactly when the rule says alive |
| Cells.StepCellIdempotent | src/main.cpp:139-153 | Running a rule thread again on its own output with the same count writes the same texel |
| Cells.Propagate | src/main.cpp:163-168 | The texel written by update_texture has red = blue = green and alpha 1, and keeps green; it is alive iff green was positive; it is settled (red = green = blue, a 0/1 flag, alpha 1) whenever green held a flag |
| Cells.PropagateIdempotent | src/main.cpp:158-170 | update_texture applied twice to a texel equals applying it once |
| Cells.Encode | src/main.cpp:191-202 | The texel a life state is stored as (1,1,1,1 or 0,0,0,1) is settled and has that life state |
| Cells.SettledIsEncoded | src/main.cpp:163-202 | A settled texel is one of the two encodings the noise fill writes (lines 191-202), and update_texture (lines 163-168) leaves it unchanged |
| Cells.CellFrame | src/main.cpp:152-167 | One texel through a frame ends as the encoding of the rule's verdict on its old red channel |
| Grids.Resolve | src/main.cpp:132 | A surface read reaches, if anything, a texel inside the grid |
| Grids.ResolveCases | src/main.cpp:132 | An in-range read reaches its own texel; out of range, a dead border reaches nothing and a torus always reaches some texel of a non-empty grid |
| Grids.At | src/main.cpp:132 | surf2Dread of an in-range coordinate returns that texel; out of range under a dead border it returns the all-zero texel (where a torus read lands is given by ResolveCases and TorusWrapsByOne) |
| Grids.TorusWrapsByOne | src/main.cpp:132 | On a torus, a read one step past an edge reaches the opposite edge |
| Grids.LiveAmong | src/main.cpp:129-136 | The count after k iterations of the neighbour loop is at most k |
| Grids.NeighborCount | src/main.cpp:117-136 | neighborCount is between 0 and 8 |
| Grids.OffsetsDistinct | src/main.cpp:117-126 | No neighbour offset is listed twice |
| Grids.OffsetsAreNeighbourhood | src/main.cpp:117-126 | The offset table holds exactly the eight offsets (±1, ±1), (0, ±1), (±1, 0) |
| Grids.LiveOffsetsGrow | src/main.cpp:129-136 | One more iteration of the neighbour loop adds its offset to the live set iff that read is live, and that offset was not counted before |
| Grids.LiveAmongCountsSet | src/main.cpp:129-136 | After k iterations the count equals the number of distinct live offsets among the first k |
| Grids.NeighborCountIsLiveNeighbours | src/main.cpp:117-136 | neighborCount equals the number of cells of the Moore neighbourhood whose read has red > 0 |
| Grids.NeighborCountUnfolded | src/main.cpp:117-136 | neighborCount is the sum of the eight reads in the table's order |
| Grids.LiveAmongReadsOnlyRed | src/main.cpp:131-135 | The neighbour loop's count depends only on red channels |
| Grids.NeighborCountReadsOnlyRed | src/main.cpp:131-135 | Two snapshots with equal red channels give equal counts at every cell |
| Grids.InteriorCountIgnoresEdgePolicy | src/main.cpp:132 | For a cell off the outermost ring the count is the same under either edge policy |
| Grids.CornerCountDeadBorder | src/main.cpp:132 | With a dead border, a corner cell counts at most 3 live neighbours |
| Grids.CornerCountTorus | src/main.cpp:132 | On a torus of at least 2 x 2, the corner's count is the number of live cells among (w-1,h-1), (0,h-1), (1,h-1), (w-1,0), (1,0), (w-1,1), (0,1), (1,1) |
| Passes.Pass1 | src/main.cpp:113-156 | The simultaneous rule pass leaves red, blue and alpha of every cell unchanged; each cell's green is 0 or 1, and 1 exactly when the rule applied to the pre-pass red channels says alive |
| Passes.ThreadStep | src/main.cpp:139-153 | One rule thread changes only its own texel, only in green, to the rule's 0/1 verdict on the current snapshot |
| Passes.RunSchedule | src/main.cpp:216 | Rule threads run one after another in any order change nothing but green |
| Passes.RunScheduleCells | src/main.cpp:132-153 | After any schedule, each cell it reached holds the simultaneous step's value and every other cell is unchanged |
| Passes.ScheduleExtends | src/main.cpp:132-153 | One more thread on top of a partial schedule keeps that description true for every cell |
| Passes.RunScheduleStep | src/main.cpp:132-153 | The same, at one cell |
| Passes.ScheduleIsSimultaneous | src/main.cpp:132-153 | Any schedule that reaches every cell computes exactly the simultaneous step of the pre-pass red channels |
| Passes.ScheduleOrderIrrelevant | src/main.cpp:216 | Two schedules that reach every cell produce the same grid |
| Passes.Pass2 | src/main.cpp:158-170 | The update_texture launch keeps every green channel and makes a cell alive exactly when its green was positive; every cell whose green held a 0/1 flag ends settled. Its exact value is pinned by Pass2Idempotent and Kernels.UpdateTextureKernel |
| Passes.Pass2Idempotent | src/main.cpp:158-170 | The propagation pass applied twice equals applying it once |
| Passes.Pass2FixesSettled | src/main.cpp:158-170 | update_texture over a settled grid changes nothing; the noise fill (lines 187-204) leaves the grid settled |
| Passes.FrameStep | src/main.cpp:216-217 | After one frame every texel is settled; FrameFollowsRule gives each texel's value |
| Passes.FrameFollowsRule | src/main.cpp:216-217 | After a frame every cell has red = green = blue in {0, 1} and alpha 1, and is the rule applied to the previous frame's red channels |
| Passes.FrameReadsOnlyRed | src/main.cpp:216-217 | A frame's result depends only on the red channels it starts from |
| Passes.InteriorFrameIgnoresEdgePolicy | src/main.cpp:132 | For a cell off the outermost ring a frame gives the same texel under either edge policy |
| Passes.Frames | src/main.cpp:212-229 | After at least one frame every texel is settled; its value is pinned by Kernels.Simulate, and Patterns.DeadGridStaysDead and Patterns.BlinkerHasPeriodTwo describe it for given grids |
| Patterns.ReadSeesPattern | src/main.cpp:132-133 | With the live cells given by a pattern off the outermost ring, a one-step read is live iff the pattern holds at that position, under either edge policy |
| Patterns.FirstReadsSeePattern | src/main.cpp:129-136 | The first four reads count the pattern |
| Patterns.LastReadsSeePattern | src/main.cpp:129-136 | The last four reads count the pattern |
| Patterns.CountSeesPattern | src/main.cpp:129-136 | neighborCount at a cell is the number of neighbour positions where the pattern holds |
| Patterns.FramePattern | src/main.cpp:139-167 | If the rule, counted on pattern p, gives q at every cell, one frame turns a grid whose live cells are p into a settled grid whose live cells are q |
| Patterns.SettledByLiveCells | src/main.cpp:165-167 | Two settled grids with the same live cells are equal |
| Patterns.DeadGridCountsZero | src/main.cpp:129-136 | On a grid with no live cell every count is 0 |
| Patterns.DeadFrameStaysDead | src/main.cpp:144-149 | One frame of a grid with no live cell has no live cell |
| Patterns.DeadGridStaysDead | src/main.cpp:144-149 | A grid with no live cell has none after any number of frames |
| Patterns.BlockRule | src/main.cpp:144-149 | The rule keeps a 2 x 2 block's cells alive and creates none around it |
| Patterns.BlockIsStill | src/main.cpp:144-149 | A settled 2 x 2 block off the outermost ring is unchanged by one frame |
| Patterns.BlinkerRule | src/main.cpp:144-149 | The rule turns a row of three into a column of three and back |
| Patterns.RowTurnsIntoColumn | src/main.cpp:144-149 | One frame turns a horizontal blinker into the vertical one, settled |
| Patterns.ColumnTurnsIntoRow | src/main.cpp:144-149 | One frame turns a vertical blinker into the horizontal one, settled |
| Patterns.BlinkerHasPeriodTwo | src/main.cpp:144-149 | A settled horizontal blinker differs from itself after one frame and is back after two |
| Kernels.SurfRead | src/main.cpp:132 | surf2Dread returns the snapshot's texel at the coordinate under the edge policy |
| Kernels.CountNeighbors | src/main.cpp:128-136 | The neighbour loop returns neighborCount of the current surface, at most 8 |
| Kernels.CalculateStep | src/main.cpp:113-156 | One thread turns the surface into ThreadStep of it: only its own texel's green changes, to the rule's 0/1 verdict |
| Kernels.CalculateStepKernel | src/main.cpp:213-216 | The calculate_step launch, swept row by row, leaves the surface equal to the simultaneous step of its old contents |
| Kernels.CalculateStepInOrder | src/main.cpp:216 | Threads run in any given order compute RunSchedule; if the order reaches every cell, the surface equals the simultaneous step |
| Kernels.UpdateTexture | src/main.cpp:158-170 | One thread sets its texel's red and blue to green and alpha to 1; green and every other texel are unchanged |
| Kernels.UpdateTextureKernel | src/main.cpp:217 | The launch of update_texture applies the propagation to every texel |
| Kernels.RunFrame | src/main.cpp:216-219 | A frame leaves the surface equal to FrameStep of its old contents, with every texel settled |
| Kernels.Simulate | src/main.cpp:212-229 | After n iterations of the main loop the surface holds Frames of the initial grid after n frames |

## Left out

- `CreateHIPStream`, `DestroyHIPStream`, `LoadHIPSurfaceFromTexture` and `UnloadHIPSurface` (src/main.cpp:21-111): thin wrappers over runtime calls, with diagnostics and `std::exit`. They have no logic of their own.
- The Raylib window, image, texture and draw calls, and the `WindowShouldClose` test of the main loop (src/main.cpp:177-240): UI and I/O. `Simulate` takes the number of frames as a parameter instead.
- The random noise initialisation (src/main.cpp:187-204): nondeterministic. It writes settled texels (`Encode`), so lemmas that need a start state take `AllSettled` as a precondition.
- `hipStreamSynchronize` and its error message (src/main.cpp:219-222): stream ordering is assumed. Kernels run in order, and each launch completes before the next starts.
- GPU parallelism: the model runs one thread body at a time. It does not model interleaving inside a thread body. That interleaving is harmless here, because every thread writes only its own texel and reads its neighbours' red channels, which no thread changes. This argument is not formalised.
- `monolithic_kernel` (src/main.cpp:172-175): an empty stub with no behaviour.
- The float4 byte addressing (`x*sizeof(float4)`) and floating-point formats: only the test `> 0` and the constants 0 and 1 matter.
- The exact out-of-range read behaviour at edges: it comes from the runtime, not from this file, so it is replaced by the `EdgePolicy` parameter.
- `Grids.Resolve`: under `Torus` its contract gives only that the texel read lies inside the grid. `TorusWrapsByOne` states where the one-step reads that the kernel performs land.
