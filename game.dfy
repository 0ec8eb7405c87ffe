/** The mutable objects of main.py: `Cell`, whose fields `update` and `draw`
    change in place, and `GameMap`, which owns the cells and runs each phase
    over all of them. Every method is proved against the value-level
    definitions of module Life. The clock is the parameter `now`, and the
    initial random liveness is the parameter `choices`. */
module Game {
  import opened Colors
  import opened Rules
  import opened Life

  /** Number of values `range(0, n)` yields. */
  function Span(n: int): nat
  {
    if n > 0 then n else 0
  }

  /** A grid built from `range(0, w)` and `range(0, h)` has cells exactly when
      both sizes are positive, and then `w * h` of them. */
  lemma CellCount(w: int, h: int)
    ensures Span(w) * Span(h) > 0 <==> w > 0 && h > 0
    ensures w > 0 && h > 0 ==> Span(w) * Span(h) == w * h
  {
    if w > 0 && h > 0 {
      MulMono(1, w, h);
    }
  }

  /** Every cell stored at `m[a][b]` sits at index `a * h + b` of `arr`
      (x-major order) and knows its position `(a, b)`. */
  ghost predicate Layout(m: map<int, map<int, Cell>>, arr: seq<Cell>, h: nat)
  {
    forall a, b :: a in m && b in m[a] ==>
      0 <= a * h + b < |arr| && m[a][b] == arr[a * h + b] && m[a][b].pos == (a, b)
  }

  /** Columns `0 .. x-1` complete, each with rows `0 .. h-1`. */
  ghost predicate Columns(m: map<int, map<int, Cell>>, arr: seq<Cell>, x: nat, h: nat)
  {
    && |arr| == x * h
    && (forall a :: a in m <==> 0 <= a < x)
    && (forall a :: a in m ==> forall b :: b in m[a] <==> 0 <= b < h)
    && Layout(m, arr, h)
  }

  /** Columns `0 .. x-1` complete and column `x` holding rows `0 .. y-1`. */
  ghost predicate Partial(m: map<int, map<int, Cell>>, arr: seq<Cell>, x: nat, y: nat, h: nat)
  {
    && |arr| == x * h + y
    && (forall a :: a in m <==> 0 <= a <= x)
    && (forall a :: a in m && a < x ==> forall b :: b in m[a] <==> 0 <= b < h)
    && (forall b :: b in m[x] <==> 0 <= b < y)
    && Layout(m, arr, h)
  }

  /** No cell occurs twice. */
  ghost predicate Distinct(cs: seq<Cell>)
  {
    forall i, j :: 0 <= i < j < |cs| ==> cs[i] != cs[j]
  }

  lemma DistinctAppend(cs: seq<Cell>, c: Cell)
    requires Distinct(cs) && c !in cs
    ensures Distinct(cs + [c])
  {
  }

  lemma DistinctAt(cs: seq<Cell>, i: int, j: int)
    requires Distinct(cs) && 0 <= i < |cs| && 0 <= j < |cs| && i != j
    ensures cs[i] != cs[j]
  {
    if i > j {
      DistinctAt(cs, j, i);
    }
  }

  lemma StartColumn(m: map<int, map<int, Cell>>, arr: seq<Cell>, x: nat, h: nat)
    requires Columns(m, arr, x, h)
    ensures Partial(m[x := map[]], arr, x, 0, h)
  {
  }

  lemma AddCell(m: map<int, map<int, Cell>>, arr: seq<Cell>, x: nat, y: nat, h: nat, c: Cell)
    requires Partial(m, arr, x, y, h) && y < h && c.pos == (x, y)
    ensures Partial(m[x := m[x][y := c]], arr + [c], x, y + 1, h)
  {
    var m', arr' := m[x := m[x][y := c]], arr + [c];
    forall a, b | a in m' && b in m'[a]
      ensures 0 <= a * h + b < |arr'| && m'[a][b] == arr'[a * h + b] && m'[a][b].pos == (a, b)
    {
      if a != x || b != y {
        assert m'[a][b] == m[a][b];
      }
    }
  }

  lemma EndColumn(m: map<int, map<int, Cell>>, arr: seq<Cell>, x: nat, h: nat)
    requires Partial(m, arr, x, h, h)
    ensures Columns(m, arr, x + 1, h)
  {
    assert x * h + h == (x + 1) * h;
  }

  /** One more iteration of the loop in `GameMap.update`: the cell at index
      `i` is updated against the grid as the earlier iterations left it, and
      no other cell changes. */
  lemma UpdateOne(g0: seq<CellState>, prev: seq<CellState>, next: seq<CellState>,
                  w: int, h: int, now: real, i: nat)
    requires w > 0 && h > 0 && |g0| == w * h && i < |g0|
    requires prev == SequentialStep(g0, w, h, now, i)
    requires |next| == |prev|
    requires forall j :: 0 <= j < |prev| && j != i ==> next[j] == prev[j]
    requires next[i] == UpdateCell(prev[i], SumAt(prev, w, h, prev[i]), now)
    ensures next == SequentialStep(g0, w, h, now, i + 1)
  {
    assert next == prev[i := UpdateCell(prev[i], SumAt(prev, w, h, prev[i]), now)];
  }

  class Cell {
    const pos: (int, int)
    var color: Rgb
    var isLife: bool
    var nextState: bool
    var settime: real

    /** `Cell.__init__`: black, not pending, clock started at `now`. */
    constructor (pos: (int, int), isLife: bool, now: real)
      ensures Snapshot() == CellState(pos, Black, isLife, false, now)
    {
      this.pos := pos;
      this.color := Black;
      this.isLife := isLife;
      this.nextState := false;
      this.settime := now;
    }

    /** The cell's fields as a value. */
    ghost function Snapshot(): CellState
      reads this
    {
      CellState(pos, color, isLife, nextState, settime)
    }

    /** `state_time`: how long ago, at time `now`, the clock was last restarted. */
    function StateTime(now: real): real
      reads this
    {
      now - settime
    }

    /** `Cell.update`: sum the eight neighbours' liveness through the grid's
        wrap-around lookup, choose the rule by elapsed-time band, write
        `next_state` (or leave it when no band applies) and restart the clock
        when the pending state differs from the current one. */
    method Update(grid: GameMap, now: real)
      requires grid.Valid() && grid.width > 0 && grid.height > 0
      modifies this`nextState, this`settime
      ensures Snapshot() == UpdateCell(old(Snapshot()),
                NeighbourSum(Lives(old(grid.Snapshot())), grid.width, grid.height, pos.0, pos.1), now)
    {
      var x, y := pos.0, pos.1;
      var xsum := grid.Get(x - 1, y - 1) + grid.Get(x - 1, y + 1)
                + grid.Get(x + 1, y - 1) + grid.Get(x + 1, y + 1)
                + grid.Get(x - 1, y) + grid.Get(x, y - 1)
                + grid.Get(x, y + 1) + grid.Get(x + 1, y);
      assert xsum == NeighbourSum(Lives(grid.Snapshot()), grid.width, grid.height, x, y);
      ghost var next := NextState(isLife, StateTime(now), xsum, nextState);

      if isLife {
        if StateTime(now) < 2.0 {
          nextState := xsum in {3, 4, 5, 6};
        } else if StateTime(now) < 3.0 {
          nextState := xsum in {3, 4, 5};
        } else if StateTime(now) < 4.0 {
          nextState := xsum in {3, 4};
        }
      } else {
        if StateTime(now) < 2.0 {
          nextState := xsum in {3};
        } else if StateTime(now) < 3.0 {
          nextState := xsum in {3, 4};
        } else if StateTime(now) < 4.0 {
          nextState := xsum in {3, 4, 5};
        }
      }
      assert nextState == next;

      if nextState != isLife {
        settime := now;
      }
    }

    /** `Cell.draw`: hand out the colour computed by the previous draw (the
        value written to the pixel array), then commit the pending state and
        recompute the colour from the time since the clock was restarted. */
    method Draw(now: real) returns (shown: Rgb)
      modifies this`isLife, this`color
      ensures shown == old(color)
      ensures Snapshot() == DrawCell(old(Snapshot()), now)
    {
      shown := color;
      isLife := nextState;
      if isLife {
        color := ColorSmooth(Red, Blue, StateTime(now) / 5.0);
      } else {
        color := Black;
      }
    }
  }

  class GameMap {
    const width: int
    const height: int
    /** `cells[x][y]`, the cell at column `x`, row `y`. */
    const cells: map<int, map<int, Cell>>
    /** The same cells in construction order (x-major). */
    const cellsArr: seq<Cell>
    ghost const Repr: set<Cell>

    /** The shape `__init__` leaves: `range(0, width)` by `range(0, height)`
        distinct cells, reachable both by coordinates and in x-major order,
        each knowing its own position. */
    ghost predicate Valid()
    {
      && Columns(cells, cellsArr, Span(width), Span(height))
      && Repr == (set c | c in cellsArr)
      && Distinct(cellsArr)
    }

    /** `GameMap.__init__`: for each `x` in `range(0, size[0])` and each `y` in
        `range(0, size[1])`, a fresh cell at `(x, y)` whose liveness is the
        next of `choices`, stored in `cells[x][y]` and appended to `cellsArr`. */
    constructor (size: (int, int), choices: seq<bool>, now: real)
      requires |choices| == Span(size.0) * Span(size.1)
      ensures Valid()
      ensures width == size.0 && height == size.1
      ensures fresh(Repr)
      ensures |cellsArr| == |choices|
      ensures forall i :: 0 <= i < |cellsArr| ==>
                cellsArr[i].Snapshot() == CellState(cellsArr[i].pos, Black, choices[i], false, now)
    {
      var w, h := Span(size.0), Span(size.1);
      var m: map<int, map<int, Cell>> := map[];
      var arr: seq<Cell> := [];
      for x := 0 to w
        invariant Columns(m, arr, x, h) && |arr| <= |choices|
        invariant Distinct(arr)
        invariant forall i :: 0 <= i < |arr| ==> fresh(arr[i])
        invariant forall i :: 0 <= i < |arr| ==>
                    arr[i].color == Black && arr[i].isLife == choices[i] && !arr[i].nextState && arr[i].settime == now
      {
        StartColumn(m, arr, x, h);
        m := m[x := map[]];
        for y := 0 to h
          invariant Partial(m, arr, x, y, h) && |arr| <= |choices|
          invariant Distinct(arr)
          invariant forall i :: 0 <= i < |arr| ==> fresh(arr[i])
          invariant forall i :: 0 <= i < |arr| ==>
                      arr[i].color == Black && arr[i].isLife == choices[i] && !arr[i].nextState && arr[i].settime == now
        {
          IndexInRange(x, y, w, h);
          var cell := new Cell((x, y), choices[|arr|], now);
          assert cell !in arr;
          DistinctAppend(arr, cell);
          AddCell(m, arr, x, y, h, cell);
          m := m[x := m[x][y := cell]];
          arr := arr + [cell];
        }
        EndColumn(m, arr, x, h);
      }
      width := size.0;
      height := size.1;
      cells := m;
      cellsArr := arr;
      Repr := set c | c in arr;
    }

    /** All cells as values, in construction order. */
    ghost function Snapshot(): seq<CellState>
      requires Valid()
      reads Repr
    {
      seq(|cellsArr|, i requires 0 <= i < |cellsArr| reads Repr => cellsArr[i].Snapshot())
    }

    /** `GameMap.__getitem__`: 1 if the cell at the wrapped coordinates is
        alive, else 0. Python's `%` by zero would fail, so both sizes must be
        positive. */
    function Get(x: int, y: int): (r: int)
      requires Valid() && width > 0 && height > 0
      reads Repr
      ensures r == 0 || r == 1
      ensures r == Lookup(Lives(Snapshot()), width, height, x, y)
    {
      var i := WrapIndex(x, width);
      var j := WrapIndex(y, height);
      if cells[i][j].isLife then 1 else 0
    }

    /** `GameMap.update`: `Cell.update` on every cell in construction order.
        Since no cell's `is_life` changes, the result is the simultaneous step
        of the whole grid. */
    method Update(now: real)
      requires Valid()
      modifies Repr
      ensures Valid()
      ensures width > 0 && height > 0 ==>
                Snapshot() == StepGrid(old(Snapshot()), width, height, now)
      ensures !(width > 0 && height > 0) ==> Snapshot() == old(Snapshot()) == []
    {
      ghost var g0 := Snapshot();
      for i := 0 to |cellsArr|
        invariant width > 0 && height > 0 ==> Snapshot() == SequentialStep(g0, width, height, now, i)
      {
        CellCount(width, height);
        ghost var prev := Snapshot();
        UpdateAt(i, now);
        UpdateOne(g0, prev, Snapshot(), width, height, now, i);
      }
      if width > 0 && height > 0 {
        SequentialIsSynchronous(g0, width, height, now);
      }
    }

    /** One iteration of the loop in `GameMap.update`: `Cell.update` on the
        cell at index `i`, which reads the grid as it is and changes only
        that cell. */
    method UpdateAt(i: nat, now: real)
      requires Valid() && i < |cellsArr| && width > 0 && height > 0
      modifies cellsArr[i]
      ensures |Snapshot()| == |old(Snapshot())|
      ensures forall j :: 0 <= j < |cellsArr| && j != i ==> Snapshot()[j] == old(Snapshot())[j]
      ensures Snapshot()[i] == UpdateCell(old(Snapshot())[i], SumAt(old(Snapshot()), width, height, old(Snapshot())[i]), now)
    {
      ghost var prev := Snapshot();
      cellsArr[i].Update(this, now);
      forall j | 0 <= j < |cellsArr| && j != i
        ensures cellsArr[j].Snapshot() == prev[j]
      {
        DistinctAt(cellsArr, i, j);
      }
    }

    /** `GameMap.draw`: `Cell.draw` on every cell in construction order; the
        colours handed to the pixel array are returned in that order. */
    method Draw(now: real) returns (frame: seq<Rgb>)
      requires Valid()
      modifies Repr
      ensures Valid()
      ensures Snapshot() == DrawGrid(old(Snapshot()), now)
      ensures frame == Colours(old(Snapshot()))
    {
      ghost var g0 := Snapshot();
      frame := [];
      for i := 0 to |cellsArr|
        invariant |frame| == i
        invariant forall j :: 0 <= j < i ==> frame[j] == g0[j].color
        invariant forall j :: 0 <= j < i ==> cellsArr[j].Snapshot() == DrawCell(g0[j], now)
        invariant forall j :: i <= j < |cellsArr| ==> cellsArr[j].Snapshot() == g0[j]
      {
        var shown := cellsArr[i].Draw(now);
        frame := frame + [shown];
      }
    }
  }
}
