# Timed Game of Life engine, modelled in Dafny

This project models the simulation engine of `main.py`, a variant of Conway's
Game of Life. Each cell's survival and birth rule depends on its neighbour
count and also on how long the cell has held its current state. The engine has
four parts:

- `color_smooth` interpolates an RGB colour. It clamps the weight to [0, 1] and
  truncates each channel toward zero.
- `GameMap.__getitem__` reads the liveness of a cell through a wrap-around
  lookup.
- `Cell.update` computes the pending state from the neighbour sum and the
  elapsed-time band. It restarts the cell's clock when the pending state
  differs from the current one.
- `Cell.draw` commits the pending state and recomputes the cell's colour.
  `GameMap.update` and `GameMap.draw` run these two phases over every cell.

Modules:

- `Colors` (`colors.dfy`): `color_smooth` over exact reals, with Python's
  `int(...)` written out as truncation toward zero.
- `Rules` (`rules.dfy`): the timed rule table as a function, with its
  monotonicity lemmas.
- `Life` (`life.dfy`): everything stated on values.
  - The wrap of `__getitem__` and the neighbour sum.
  - One cell's update and draw.
  - The whole-grid phases.
  - Lemmas relating them, including a proof that the in-place sequential loop
    of `GameMap.update` equals a simultaneous step.
- `Game` (`game.dfy`): the classes `Cell` and `GameMap`.
  - Their fields change in place.
  - Their methods carry the source's loops.
  - Each method is proved against the value-level definitions in `Life`.

Time and randomness are parameters:

- Every `time.monotonic()` reading becomes the argument `now`.
- The `random.choice` liveness of each new cell comes from the argument
  `choices`, in construction (x-major) order.

## Behaviour worth knowing

- Negative coordinates are reflected, not wrapped: a negative `v` reads
  `(size - v) % size`, which is `(-v) % size`, so `-1` reads index
  `1 % size` rather than the opposite edge `size - 1`
  (`Life.MinusOneReflects`, `Life.ReflectVersusTorus`). On a 3 x 3 grid with
  only the centre alive, the corner (0, 0) therefore counts the centre four
  times (`Life.CentreOnlyNeighbourSum`).
- A cell's clock restarts in `Cell.update`, whenever the pending state
  differs from the current one, not in `Cell.draw` when the state is
  committed.
- Colour channels are truncated toward zero by `int(...)`, not rounded.
- Survival sets shrink with age while birth sets grow
  (`Rules.SurvivalTightens`, `Rules.BirthLoosens`).
- A zero or negative width or height gives a grid with no cells; the model
  does the same. `GameMap.Get` requires positive sizes, because on such a
  grid the code's lookup fails (see "## Left out").

## Model

| member | source | states |
|---|---|---|
| Colors.Clamp | main.py:11-15 | the weight ends in [0, 1]; below 0 it becomes 0, above 1 it becomes 1, inside it is unchanged |
| Colors.Trunc | main.py:18-20 | `int(x)` on a real: the integer toward zero within distance 1 of `x`, for both signs |
| Colors.TruncBetween | main.py:18-20 | truncating a value between two integers stays between them |
| Colors.MixBetween | main.py:18-20 | for a weight in [0, 1], `a*(1-p) + b*p` lies between `a` and `b` |
| Colors.Channel | main.py:18-20 | one output channel: weight 0 gives `a`, weight 1 gives `b`, and every result lies between `min(a, b)` and `max(a, b)` |
| Colors.ColorSmooth | main.py:8-21 | `p <= 0` gives `col1` exactly, `p >= 1` gives `col2` exactly, and each component lies between the two inputs' components |
| Colors.ClampedWeightSameColor | main.py:11-21 | any weight gives the colour of its clamped weight; `p = -1` behaves like `p = 0` and `p = 1.5` like `p = 1` |
| Colors.AgeColor | main.py:72-76 | a live cell's colour has no green and channels in 0..255; age 0 or less gives red and age 5 or more gives blue |
| Colors.AgeColorShape | main.py:71-76 | along the red-to-blue age gradient, red plus blue is 254 or 255 |
| Colors.AgeColorTruncates | main.py:18-20 | channels are truncated, not rounded: any age strictly between 0 and 5/255 gives (254, 0, 0) |
| Colors.AgeColorMonotone | main.py:71-76 | as a cell ages its colour loses red and gains blue, never the reverse |
| Rules.Band | main.py:49-53 | the elapsed-time band is 0 to 3, and it is 3 exactly when elapsed >= 4 |
| Rules.Rule | main.py:48-61 | no band applies exactly when elapsed >= 4; otherwise a live cell survives iff 3 <= sum <= 6 - band, and a dead cell is born iff 3 <= sum <= 3 + band |
| Rules.SurvivalTightens | main.py:48-54 | a sum that keeps a live cell alive at some age also kept it alive at every earlier age |
| Rules.BirthLoosens | main.py:55-61 | a sum that brings a dead cell to life at some age also does so at every later age below 4 |
| Rules.NextState | main.py:48-61 | from age 4 on no branch assigns `next_state`, so the old pending value stays; below 4 a live cell's next state is alive iff 3 <= sum <= 6 - band and a dead cell's iff 3 <= sum <= 3 + band |
| Rules.NoLifeOutsideThreeToSix | main.py:48-61 | a sum below 3 or above 6 never yields a live pending state; from age 4 on the old pending value stays |
| Life.WrapIndex | main.py:99-107 | for a positive size the coordinate read is always in [0, size) |
| Life.WrapIndexCases | main.py:99-107 | on-grid coordinates read themselves, `size` reads 0, and a negative `v` reads `(-v) % size` |
| Life.WrapIndexPeriodic | main.py:102 | for non-negative coordinates the lookup is `v % size` and does not change when `v` moves by a multiple of the size |
| Life.MinusOneReflects | main.py:100-102 | `-1` reads `1 % size`, which differs from the opposite edge `size - 1` once the size is 3 or more |
| Life.ReflectVersusTorus | main.py:100-102 | for `-size <= v < 0` the reflecting lookup agrees with a true torus exactly when `v == -size` or `2 * v == -size` |
| Life.DivModUnique | main.py:102 | quotient and remainder determine division and modulo (used by every wrap lemma) |
| Life.IndexInRange | main.py:91-96 | an on-grid `(x, y)` has x-major index `x * h + y` inside the `w * h` cells |
| Life.IndexInjective | main.py:91-96 | two on-grid coordinates with the same x-major index are the same coordinates |
| Life.Lookup | main.py:98-109 | `__getitem__` on a liveness sequence returns 0 or 1 |
| Life.NeighbourSum | main.py:37-46 | the sum of the eight Moore lookups lies in [0, 8] |
| Life.NeighbourIsNotSelf | main.py:37-46 | on axes of length 2 or more each of the eight offsets reads a cell other than `(x, y)` |
| Life.LoneCellHasNoNeighbours | main.py:37-46 | on axes of length 2 or more a cell never counts itself: a lone live cell has neighbour sum 0 (only an axis of length 1 reads itself) |
| Life.UpdateCell | main.py:36-64 | `Cell.update` on values: position, colour and liveness unchanged; from age 4 on the pending state unchanged; clock restarted exactly when the pending state differs from the current one |
| Life.DrawCell | main.py:66-78 | `Cell.draw` on values: the pending state is committed; a dead cell is black; a live cell gets the age colour, with no green and channels in 0..255 |
| Life.StepGrid | main.py:111-113 | the simultaneous step keeps the grid size and every cell's liveness |
| Life.DrawGrid | main.py:115-117 | after drawing the whole grid, every cell's liveness equals its pending state, which is unchanged |
| Life.SequentialStep | main.py:111-113 | the first `k` cells updated in order, each reading the grid the earlier updates left, keeps the grid size |
| Life.SequentialPrefix | main.py:111-113 | after `k` in-order updates, cells before `k` equal the simultaneous step and the rest are untouched |
| Life.SequentialIsSynchronous | main.py:111-113 | updating the cells one at a time in place gives the same grid as the simultaneous step |
| Life.GenerationResetsClockExactly | main.py:63-64 | over one update and draw at the same time, a cell whose liveness changes has its clock restarted at that time, and any other cell keeps its clock |
| Life.JustBornIsRed | main.py:63-76 | a dead cell whose update makes it pending alive is drawn pure red when the draw reads the same time as the update |
| Life.DrawIdempotent | main.py:66-78 | drawing twice at the same time changes nothing after the first draw |
| Life.StaleCellIsFrozen | main.py:48-64 | a committed cell of age 4 or more keeps its liveness, pending state and clock through any number of generations |
| Life.CentreOnlyLookup | main.py:98-109 | on the 3 x 3 grid with only the centre alive, a coordinate from -1 to 3 reads the centre line exactly when it is 1 or -1 |
| Life.CentreOnlyNeighbourSum | main.py:37-46 | on that grid the neighbour sums in x-major order are 4, 2, 2, 2, 0, 1, 2, 1, 1: the corner (0, 0) counts the centre four times and the centre counts nothing |
| Life.StepGridAt | main.py:48-64 | the pending state the step gives cell `i` is the rule applied to that cell's age and its sum on the pre-step grid |
| Life.CentreOnlyNextDead | main.py:37-61 | on the lone-centre liveness with age below 2, the rule applied to any cell's own neighbour sum gives a dead pending state |
| Life.LoneCentreDies | main.py:48-61 | one `GameMap.update` step of a 3 x 3 grid whose only live cell is the centre, every cell younger than 2 and at its x-major position, leaves every pending state dead: the centre dies and nothing is born |
| Game.CellCount | main.py:91-96 | the constructor's loops make cells exactly when both sizes are positive, and then `w * h` of them |
| Game.AddCell | main.py:93-96 | storing a new cell at `cells[x][y]` and appending it keeps the x-major layout of the dictionary and the list |
| Game.StartColumn | main.py:92 | opening column `x` with an empty dictionary keeps the layout |
| Game.EndColumn | main.py:93-96 | a full column `x` extends the complete columns to `x + 1` |
| Game.UpdateOne | main.py:112-113 | one more iteration of the update loop is one more step of the in-order update |
| Game.Cell.constructor | main.py:25-30 | a new cell is black, not pending and has its clock started at creation |
| Game.Cell.StateTime | main.py:32-34 | `state_time` is `now - settime`, the time since the clock was last restarted (a definition, with no contract of its own) |
| Game.Cell.Update | main.py:36-64 | the fields afterwards equal the value-level update for the neighbour sum of the grid as it was at the call |
| Game.Cell.Draw | main.py:66-78 | the colour written to the pixel array is the one from the previous draw, and the fields afterwards equal the value-level draw |
| Game.GameMap.constructor | main.py:86-96 | `size[0] * size[1]` fresh cells in x-major order, with `cells[x][y]` at index `x * h + y` and positioned at `(x, y)`; each cell black, not pending, with liveness from `choices` and its clock at creation |
| Game.GameMap.Get | main.py:98-109 | returns 0 or 1: the liveness of the cell the wrapped coordinates name |
| Game.GameMap.UpdateAt | main.py:112-113 | one iteration of the update loop changes only the cell at index `i`, by the value-level update on the grid as it is |
| Game.GameMap.Update | main.py:111-113 | the in-place loop leaves the grid equal to the simultaneous step of the grid before the call |
| Game.GameMap.Draw | main.py:115-117 | every cell is drawn, and the colours written to the pixel array are the colours before the call, in order |

## Left out

- `main()` is not modelled: the pygame set-up, window, event loop, `clock.tick`, surface scaling, blit and `display.flip` (main.py:120-151) are host I/O.
- The pygame `PixelArray` is not modelled. `Cell.Draw` returns the colour it would write, and `GameMap.Draw` returns those colours in order.
- `time.monotonic()` becomes the parameter `now`. Clock monotonicity is assumed, not proved.
- Game.Cell.Update: reads one `now` for all its elapsed-time comparisons, while the code reads the clock separately at each comparison and again for the restart.
- Game.GameMap.constructor: starts every cell's clock at the same `now`, while the code reads the clock once per cell.
- Game.GameMap.Update: hands one `now` to every cell, while the code reads the clock again inside each cell's `update`.
- Game.GameMap.Draw: hands one `now` to every cell, while the code reads the clock again inside each cell's `draw`.
- Life.JustBornIsRed: the pure-red result needs the draw to read the same time as the update. In the program the whole update loop runs before any draw, so the draw reads a later clock, and any age between 0 and 5/255 seconds already gives red 254 (`Colors.AgeColorTruncates`).
- `random.choice` becomes the parameter `choices`.
- Floating point is not modelled. `color_smooth`, the division by 5 and the elapsed time use exact real arithmetic, so float rounding before truncation is out of scope.
- Game.GameMap.Get: requires positive sizes. With a zero size the code fails with a division by zero; with a negative size Python's `%` succeeds but `self.cells[x][y]` raises `KeyError`, because `range` built no cell at that coordinate (no column when the width is not positive, no row when the height is not positive). The code never calls it on such a grid.
