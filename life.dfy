/** The grid and one generation, stated on values: the wrap-around lookup of
    `GameMap.__getitem__`, the neighbour sum and the two per-cell phases of
    main.py (`Cell.update`, `Cell.draw`), and the grid-wide phases built from
    them. The classes in module Game are proved against these definitions. */
module Life {
  import opened Colors
  import opened Rules

  // ---------------------------------------------------------------------------
  // Wrap-around coordinates
  // ---------------------------------------------------------------------------

  /** The coordinate `GameMap.__getitem__` actually reads for `v` on an axis of
      length `size`: a negative `v` is first replaced by `size - v`, then the
      result is taken modulo `size` (for a non-negative left operand and a
      positive `size`, Python's `%` and Dafny's `%` agree). */
  function WrapIndex(v: int, size: int): (i: int)
    requires size > 0
    ensures 0 <= i < size
  {
    var w := if v < 0 then size - v else v;
    w % size
  }

  /** Coordinates already on the grid read themselves, one past the end reads 0,
      and a negative coordinate reads its mirror image `-v` modulo the size. */
  lemma {:induction false} WrapIndexCases(v: int, size: int)
    requires size > 0
    ensures 0 <= v < size ==> WrapIndex(v, size) == v
    ensures WrapIndex(size, size) == 0
    ensures v < 0 ==> WrapIndex(v, size) == (-v) % size
  {
    DivModUnique(size, size, 1, 0);
    if 0 <= v < size {
      DivModUnique(v, size, 0, v);
    } else if v < 0 {
      DivModUnique(size - v, size, (-v) / size + 1, (-v) % size);
    }
  }

  /** On non-negative coordinates the lookup is a true modulo, so it is periodic. */
  lemma {:induction false} WrapIndexPeriodic(v: int, k: nat, size: int)
    requires size > 0 && v >= 0
    ensures WrapIndex(v + k * size, size) == WrapIndex(v, size) == v % size
  {
    DivModUnique(v + k * size, size, v / size + k, v % size);
  }

  /** The negative side is a reflection, not a wrap: `-1` reads `1 % size`,
      which differs from the opposite edge `size - 1` once `size >= 3`. */
  lemma {:induction false} MinusOneReflects(size: int)
    requires size > 0
    ensures WrapIndex(-1, size) == 1 % size
    ensures size >= 3 ==> WrapIndex(-1, size) != size - 1
  {
    if size == 1 {
      DivModUnique(2, 1, 2, 0);
      DivModUnique(1, 1, 1, 0);
    } else {
      DivModUnique(size + 1, size, 1, 1);
      DivModUnique(1, size, 0, 1);
    }
  }

  /** Against a true torus (`v % size`, Euclidean), one step below zero on an
      axis of length `size` reads the same cell exactly when `v` is `-size` or
      `2 * v == -size`; everywhere else in that range the two disagree. */
  lemma {:induction false} ReflectVersusTorus(v: int, size: int)
    requires size > 0 && -size <= v < 0
    ensures WrapIndex(v, size) == v % size <==> (v == -size || 2 * v == -size)
  {
    if v == -size {
      DivModUnique(2 * size, size, 2, 0);
      DivModUnique(v, size, -1, 0);
    } else {
      DivModUnique(v, size, -1, v + size);
      DivModUnique(size - v, size, 1, -v);
    }
  }

  /** Euclidean division is determined by quotient and remainder. */
  lemma {:induction false} DivModUnique(a: int, n: int, q: int, r: int)
    requires n > 0 && 0 <= r < n && a == q * n + r
    ensures a / n == q && a % n == r
  {
    var d := q - a / n;
    assert d * n == a % n - r;
    if d >= 1 { MulMono(1, d, n); }
    if d <= -1 { MulMono(1, -d, n); }
  }

  // ---------------------------------------------------------------------------
  // The grid as a sequence of cells in x-major order
  // ---------------------------------------------------------------------------

  /** The cell at column `x`, row `y` of a grid with `h` rows is at index
      `x * h + y`; for on-grid coordinates this index is in range. */
  lemma {:induction false} IndexInRange(x: int, y: int, w: int, h: int)
    requires 0 <= x < w && 0 <= y < h
    ensures 0 <= x * h + y < w * h
  {
    MulMono(x + 1, w, h);
    assert x * h + h == (x + 1) * h;
  }

  /** Multiplication by a non-negative number is monotone. */
  lemma MulMono(a: int, b: int, h: int)
    requires 0 <= a <= b && 0 <= h
    ensures 0 <= a * h <= b * h
  {
  }

  /** `__getitem__`: the liveness of the cell the wrapped coordinates name,
      as 0 or 1. */
  function Lookup(life: seq<bool>, w: int, h: int, x: int, y: int): (v: int)
    requires w > 0 && h > 0 && |life| == w * h
    ensures v == 0 || v == 1
  {
    var i := WrapIndex(x, w);
    var j := WrapIndex(y, h);
    IndexInRange(i, j, w, h);
    if life[i * h + j] then 1 else 0
  }

  /** The sum of the eight Moore neighbours, in the order `Cell.update` lists them. */
  function NeighbourSum(life: seq<bool>, w: int, h: int, x: int, y: int): (s: int)
    requires w > 0 && h > 0 && |life| == w * h
    ensures 0 <= s <= 8
  {
    Lookup(life, w, h, x - 1, y - 1) + Lookup(life, w, h, x - 1, y + 1)
    + Lookup(life, w, h, x + 1, y - 1) + Lookup(life, w, h, x + 1, y + 1)
    + Lookup(life, w, h, x - 1, y) + Lookup(life, w, h, x, y - 1)
    + Lookup(life, w, h, x, y + 1) + Lookup(life, w, h, x + 1, y)
  }

  /** The neighbour sum sees the cell itself only through wrapping, never at
      offset (0, 0): on a grid whose only live cell is the one at (x, y) with
      both axes of length 2 or more, that cell has no live neighbour. Only an
      axis of length 1 makes a cell read itself (`MinusOneReflects` gives
      `WrapIndex(-1, 1) == 0`). */
  lemma {:induction false} LoneCellHasNoNeighbours(life: seq<bool>, w: int, h: int, x: int, y: int)
    requires w >= 2 && h >= 2 && |life| == w * h
    requires 0 <= x < w && 0 <= y < h
    requires forall i :: 0 <= i < |life| ==> (life[i] <==> i == x * h + y)
    ensures NeighbourSum(life, w, h, x, y) == 0
  {
    NeighbourIsNotSelf(life, w, h, x, y, x - 1, y - 1);
    NeighbourIsNotSelf(life, w, h, x, y, x - 1, y + 1);
    NeighbourIsNotSelf(life, w, h, x, y, x + 1, y - 1);
    NeighbourIsNotSelf(life, w, h, x, y, x + 1, y + 1);
    NeighbourIsNotSelf(life, w, h, x, y, x - 1, y);
    NeighbourIsNotSelf(life, w, h, x, y, x, y - 1);
    NeighbourIsNotSelf(life, w, h, x, y, x, y + 1);
    NeighbourIsNotSelf(life, w, h, x, y, x + 1, y);
  }

  /** A Moore neighbour of (x, y) on axes of length 2 or more is a different cell. */
  lemma {:induction false} NeighbourIsNotSelf(life: seq<bool>, w: int, h: int, x: int, y: int, nx: int, ny: int)
    requires w >= 2 && h >= 2 && |life| == w * h
    requires 0 <= x < w && 0 <= y < h
    requires -1 <= nx - x <= 1 && -1 <= ny - y <= 1 && (nx, ny) != (x, y)
    requires forall i :: 0 <= i < |life| ==> (life[i] <==> i == x * h + y)
    ensures Lookup(life, w, h, nx, ny) == 0
  {
    var i, j := WrapIndex(nx, w), WrapIndex(ny, h);
    OffsetMoves(x, nx - x, w);
    OffsetMoves(y, ny - y, h);
    IndexInRange(i, j, w, h);
    if i * h + j == x * h + y {
      IndexInjective(i, j, x, y, h);
    }
  }

  /** A unit offset on an axis of length 2 or more never reads the start coordinate. */
  lemma OffsetMoves(x: int, dx: int, w: int)
    requires w >= 2 && 0 <= x < w && -1 <= dx <= 1
    ensures dx != 0 ==> WrapIndex(x + dx, w) != x
    ensures dx == 0 ==> WrapIndex(x + dx, w) == x
  {
    if x + dx == -1 {
      DivModUnique(w + 1, w, 1, 1);
    } else if x + dx == w {
      DivModUnique(w, w, 1, 0);
    } else {
      DivModUnique(x + dx, w, 0, x + dx);
    }
  }

  /** Distinct on-grid coordinates have distinct indices. */
  lemma {:induction false} IndexInjective(i: int, j: int, x: int, y: int, h: int)
    requires 0 <= j < h && 0 <= y < h
    requires i * h + j == x * h + y
    ensures i == x && j == y
  {
    DivModUnique(i * h + j, h, i, j);
    DivModUnique(x * h + y, h, x, y);
  }

  // ---------------------------------------------------------------------------
  // Cells and the two phases of a generation
  // ---------------------------------------------------------------------------

  /** The fields of one `Cell`. */
  datatype CellState = CellState(pos: (int, int), color: Rgb, isLife: bool, nextState: bool, settime: real)

  /** `Cell.update` given the neighbour sum and the current time: only
      `next_state` and `settime` change, and the clock restarts exactly when
      the pending state differs from the current one. */
  function UpdateCell(c: CellState, xsum: int, now: real): (d: CellState)
    ensures d.pos == c.pos && d.color == c.color && d.isLife == c.isLife
    ensures now - c.settime >= 4.0 ==> d.nextState == c.nextState
    ensures d.nextState != c.isLife ==> d.settime == now
    ensures d.nextState == c.isLife ==> d.settime == c.settime
  {
    var next := NextState(c.isLife, now - c.settime, xsum, c.nextState);
    c.(nextState := next, settime := if next != c.isLife then now else c.settime)
  }

  /** `Cell.draw` at time `now`, without the pixel write: commit the pending
      state and recompute the colour. */
  function DrawCell(c: CellState, now: real): (d: CellState)
    ensures d.pos == c.pos && d.nextState == c.nextState && d.settime == c.settime
    ensures d.isLife == c.nextState
    ensures !d.isLife ==> d.color == Black
    ensures d.isLife ==> d.color == AgeColor(now - c.settime)
    ensures d.isLife ==> d.color.g == 0 && 0 <= d.color.r <= 255 && 0 <= d.color.b <= 255
  {
    var alive := c.nextState;
    c.(isLife := alive, color := if alive then AgeColor(now - c.settime) else Black)
  }

  /** The liveness of every cell, in grid order. */
  function Lives(g: seq<CellState>): seq<bool>
  {
    seq(|g|, i requires 0 <= i < |g| => g[i].isLife)
  }

  /** The neighbour sum of a cell of `g`, at that cell's own position. */
  function SumAt(g: seq<CellState>, w: int, h: int, c: CellState): int
    requires w > 0 && h > 0 && |g| == w * h
  {
    NeighbourSum(Lives(g), w, h, c.pos.0, c.pos.1)
  }

  /** `GameMap.update` as a simultaneous step: every cell's pending state is
      computed from the liveness of all cells before the step. */
  function StepGrid(g: seq<CellState>, w: int, h: int, now: real): (g': seq<CellState>)
    requires w > 0 && h > 0 && |g| == w * h
    ensures |g'| == |g|
    ensures Lives(g') == Lives(g)
  {
    seq(|g|, i requires 0 <= i < |g| => UpdateCell(g[i], SumAt(g, w, h, g[i]), now))
  }

  /** `GameMap.draw` without the pixel writes: commit every cell. */
  function DrawGrid(g: seq<CellState>, now: real): (g': seq<CellState>)
    ensures |g'| == |g|
    ensures forall i :: 0 <= i < |g| ==> g'[i].isLife == g'[i].nextState == g[i].nextState
  {
    seq(|g|, i requires 0 <= i < |g| => DrawCell(g[i], now))
  }

  /** The colours of the cells, in grid order. */
  function Colours(g: seq<CellState>): seq<Rgb>
  {
    seq(|g|, i requires 0 <= i < |g| => g[i].color)
  }

  // ---------------------------------------------------------------------------
  // Properties of a generation
  // ---------------------------------------------------------------------------

  /** The first `k` cells updated one after another, each one reading the grid
      as the earlier updates left it: this is what the loop in `GameMap.update`
      literally does. */
  function SequentialStep(g: seq<CellState>, w: int, h: int, now: real, k: nat): (g': seq<CellState>)
    requires w > 0 && h > 0 && |g| == w * h && k <= |g|
    ensures |g'| == |g|
    decreases k
  {
    if k == 0 then g
    else
      var prev := SequentialStep(g, w, h, now, k - 1);
      prev[k - 1 := UpdateCell(prev[k - 1], SumAt(prev, w, h, prev[k - 1]), now)]
  }

  /** Because an update never changes `is_life`, updating the cells in sequence
      gives the same grid as updating them all at once: the in-place loop is a
      synchronous generation step. */
  lemma {:induction false} SequentialIsSynchronous(g: seq<CellState>, w: int, h: int, now: real)
    requires w > 0 && h > 0 && |g| == w * h
    ensures SequentialStep(g, w, h, now, |g|) == StepGrid(g, w, h, now)
  {
    SequentialPrefix(g, w, h, now, |g|);
    assert forall i :: 0 <= i < |g| ==> SequentialStep(g, w, h, now, |g|)[i] == StepGrid(g, w, h, now)[i];
  }

  lemma {:induction false} SequentialPrefix(g: seq<CellState>, w: int, h: int, now: real, k: nat)
    requires w > 0 && h > 0 && |g| == w * h && k <= |g|
    ensures forall i :: 0 <= i < |g| ==>
              SequentialStep(g, w, h, now, k)[i] == if i < k then StepGrid(g, w, h, now)[i] else g[i]
  {
    if k > 0 {
      SequentialPrefix(g, w, h, now, k - 1);
      var prev := SequentialStep(g, w, h, now, k - 1);
      var step := StepGrid(g, w, h, now);
      forall i | 0 <= i < |g| ensures prev[i].isLife == g[i].isLife {
        if i < k - 1 {
          assert prev[i] == step[i];
          assert Lives(step)[i] == Lives(g)[i];
        }
      }
      assert Lives(prev) == Lives(g);
    }
  }

  /** Timer reset exactness over a whole generation (update then draw at the
      same `now`): a cell that changes state restarts its clock at `now`, a
      cell that keeps its state keeps its clock. */
  lemma GenerationResetsClockExactly(c: CellState, xsum: int, now: real)
    ensures DrawCell(UpdateCell(c, xsum, now), now).isLife != c.isLife ==>
              DrawCell(UpdateCell(c, xsum, now), now).settime == now
    ensures DrawCell(UpdateCell(c, xsum, now), now).isLife == c.isLife ==>
              DrawCell(UpdateCell(c, xsum, now), now).settime == c.settime
  {
  }

  /** A cell born in a generation is drawn in the "just born" colour. */
  lemma JustBornIsRed(c: CellState, xsum: int, now: real)
    requires !c.isLife && UpdateCell(c, xsum, now).nextState
    ensures DrawCell(UpdateCell(c, xsum, now), now).color == Red
  {
    AgeColorShape(0.0);
  }

  /** Drawing twice at the same time changes nothing more than drawing once. */
  lemma DrawIdempotent(c: CellState, now: real)
    ensures DrawCell(DrawCell(c, now), now) == DrawCell(c, now)
  {
  }

  /** One generation of a single cell, given its neighbour sum and the time. */
  function Generation(c: CellState, xsum: int, now: real): CellState
  {
    DrawCell(UpdateCell(c, xsum, now), now)
  }

  /** A cell run through successive generations. */
  function Run(c: CellState, sums: seq<int>, times: seq<real>): CellState
    requires |sums| == |times|
    decreases |sums|
  {
    if sums == [] then c else Run(Generation(c, sums[0], times[0]), sums[1..], times[1..])
  }

  /** Once a committed cell (pending state equal to current state) has held its
      state for 4 time units, no rule applies to it any more, its clock never
      restarts, and it keeps its state forever, whatever its neighbours do. */
  lemma {:induction false} StaleCellIsFrozen(c: CellState, sums: seq<int>, times: seq<real>)
    requires |sums| == |times|
    requires c.nextState == c.isLife
    requires forall i :: 0 <= i < |times| ==> times[i] - c.settime >= 4.0
    ensures Run(c, sums, times).isLife == c.isLife
    ensures Run(c, sums, times).nextState == c.nextState
    ensures Run(c, sums, times).settime == c.settime
    decreases |sums|
  {
    if sums != [] {
      var d := Generation(c, sums[0], times[0]);
      assert d.isLife == c.isLife && d.nextState == c.nextState && d.settime == c.settime;
      StaleCellIsFrozen(d, sums[1..], times[1..]);
    }
  }

  // ---------------------------------------------------------------------------
  // A 3 x 3 scenario
  // ---------------------------------------------------------------------------

  /** The liveness of a 3 x 3 grid whose only live cell is the centre, in grid order. */
  const CentreOnly: seq<bool> := [false, false, false, false, true, false, false, false, false]

  /** The neighbour sums of that grid, in grid order, as
      `CentreOnlyNeighbourSum` below computes them. */
  const CentreOnlySums: seq<int> := [4, 2, 2, 2, 0, 1, 2, 1, 1]

  /** On the lone-centre grid, a coordinate from -1 to 3 reads the centre
      line exactly when it is 1 or -1: the reflection maps -1 to 1. */
  lemma {:induction false} CentreOnlyLookup(x: int, y: int)
    requires -1 <= x <= 3 && -1 <= y <= 3
    ensures Lookup(CentreOnly, 3, 3, x, y) == if (x == -1 || x == 1) && (y == -1 || y == 1) then 1 else 0
  {
    var i, j := WrapIndex(x, 3), WrapIndex(y, 3);
    assert i == 1 <==> x == -1 || x == 1;
    assert j == 1 <==> y == -1 || y == 1;
    assert CentreOnly[i * 3 + j] <==> i * 3 + j == 4;
  }

  /** The neighbour sums of the lone-centre grid, cell by cell. Because -1
      reads index 1 rather than 2, the corner (0, 0) counts the centre four
      times, and (0, 1), (0, 2), (1, 0), (2, 0) count it twice, where a true
      torus would count it once; the centre itself sees no live neighbour. */
  lemma {:induction false} CentreOnlyNeighbourSum(x: int, y: int)
    requires 0 <= x < 3 && 0 <= y < 3
    ensures NeighbourSum(CentreOnly, 3, 3, x, y) == CentreOnlySums[x * 3 + y]
  {
    CentreOnlyLookup(x - 1, y - 1);
    CentreOnlyLookup(x - 1, y + 1);
    CentreOnlyLookup(x + 1, y - 1);
    CentreOnlyLookup(x + 1, y + 1);
    CentreOnlyLookup(x - 1, y);
    CentreOnlyLookup(x, y - 1);
    CentreOnlyLookup(x, y + 1);
    CentreOnlyLookup(x + 1, y);
  }

  /** The pending state `GameMap.update` gives the cell at index `i` of `g`:
      the rule applied to that cell's age and to its neighbour sum on the
      grid as it was before the step. */
  lemma StepGridAt(g: seq<CellState>, w: int, h: int, now: real, i: int)
    requires w > 0 && h > 0 && |g| == w * h && 0 <= i < |g|
    ensures StepGrid(g, w, h, now)[i].nextState ==
              NextState(g[i].isLife, now - g[i].settime, NeighbourSum(Lives(g), w, h, g[i].pos.0, g[i].pos.1), g[i].nextState)
  {
  }

  /** One step of a 3 x 3 grid whose only live cell is the centre, while every
      cell is younger than 2: the centre (no live neighbour) dies and no other
      cell (1, 2 or 4 live neighbours, never exactly 3) is born, so every
      pending state is dead. */
  lemma LoneCentreDies(g: seq<CellState>, now: real)
    requires |g| == 9 && Lives(g) == CentreOnly
    requires forall i :: 0 <= i < 9 ==> g[i].pos == (i / 3, i % 3) && now - g[i].settime < 2.0
    ensures forall i :: 0 <= i < 9 ==> !StepGrid(g, 3, 3, now)[i].nextState
  {
    forall i | 0 <= i < 9
      ensures !StepGrid(g, 3, 3, now)[i].nextState
    {
      LoneCentreCellDies(g, now, i);
    }
  }

  /** `LoneCentreDies` for the one cell at index `i`. */
  lemma LoneCentreCellDies(g: seq<CellState>, now: real, i: int)
    requires |g| == 9 && Lives(g) == CentreOnly && 0 <= i < 9
    requires g[i].pos == (i / 3, i % 3) && now - g[i].settime < 2.0
    ensures !StepGrid(g, 3, 3, now)[i].nextState
  {
    StepGridAt(g, 3, 3, now, i);
    CentreOnlyNextDead(Lives(g), i, now - g[i].settime, g[i].nextState);
  }

  /** On the lone-centre grid below age 2 the rule kills the centre (sum 0)
      and gives no other cell the 3 neighbours a birth needs. */
  lemma CentreOnlyNextDead(life: seq<bool>, i: int, elapsed: real, pending: bool)
    requires life == CentreOnly && 0 <= i < 9 && elapsed < 2.0
    ensures !NextState(life[i], elapsed, NeighbourSum(life, 3, 3, i / 3, i % 3), pending)
  {
    var x, y := i / 3, i % 3;
    assert x * 3 + y == i;
    CentreOnlyNeighbourSum(x, y);
    CentreOnlyRuleDead(i, NeighbourSum(life, 3, 3, x, y), elapsed, pending);
  }

  /** The rule part of `CentreOnlyNextDead`, for the sum as a number. */
  lemma CentreOnlyRuleDead(i: int, xsum: int, elapsed: real, pending: bool)
    requires 0 <= i < 9 && xsum == CentreOnlySums[i] && elapsed < 2.0
    ensures !NextState(CentreOnly[i], elapsed, xsum, pending)
  {
  }
}
