/** The LED colour grid of grid.py, an earlier draft of the same matrix. Its
    `add_pxls` repaints a cell taken from the off list and appends it to the
    colour's list, but leaves it in the off list; its `remove_pxls` only
    repaints. The lists therefore drift away from the grid, and the model
    states that weaker behaviour. */
module GridDraft {
  import opened Pixels
  import opened GridState

  /** One pass of the draft `add_pxls` loop with the chosen cell: paint it and
      append it to `color`'s list; the off list keeps it. */
  function DraftAdd(m: Matrix, color: Color, cell: Cell): (r: Matrix)
    requires cell.row < |m.grid| && cell.col < |m.grid[cell.row]|
    ensures |r.grid| == |m.grid| && |r.grid[cell.row]| == |m.grid[cell.row]|
    ensures At(r.grid, cell) == Value(color) && cell in r.locations.Get(color)
    ensures color != Off ==> r.locations.off == m.locations.off
  {
    Matrix(Paint(m.grid, cell, Value(color)), m.locations.Set(color, m.locations.Get(color) + [cell]))
  }

  /** One pass of the draft `remove_pxls` loop with the chosen cell: paint it
      off; no list changes. */
  function DraftRemove(m: Matrix, cell: Cell): (r: Matrix)
    requires cell.row < |m.grid| && cell.col < |m.grid[cell.row]|
    ensures |r.grid| == |m.grid| && |r.grid[cell.row]| == |m.grid[cell.row]|
    ensures At(r.grid, cell) == Value(Off) && r.locations == m.locations
  {
    Matrix(Paint(m.grid, cell, Value(Off)), m.locations)
  }

  /** The draft's add step breaks the partition of a consistent matrix: the
      chosen cell ends up listed both as off and under `color`. */
  lemma DraftAddBreaksPartition(m: Matrix, height: nat, width: nat, color: Color, cell: Cell)
    requires Partitioned(m, height, width) && color != Off && cell in m.locations.off
    ensures InBounds(cell, height, width)
    ensures cell in DraftAdd(m, color, cell).locations.off
    ensures cell in DraftAdd(m, color, cell).locations.Get(color)
    ensures !Partitioned(DraftAdd(m, color, cell), height, width)
  {
    assert cell in m.locations.Get(Off);
    assert InBounds(cell, height, width);
    var m' := DraftAdd(m, color, cell);
    assert cell in m'.locations.Get(color) by {
      assert m'.locations.Get(color)[|m'.locations.Get(color)| - 1] == cell;
    }
    assert cell in m'.locations.Get(Off);
    ListedCounts(m'.locations, cell, color);
  }

  /** The draft's remove step breaks the partition of a consistent matrix: the
      chosen cell shows off but is still listed under `color`. */
  lemma DraftRemoveBreaksPartition(m: Matrix, height: nat, width: nat, color: Color, cell: Cell)
    requires Partitioned(m, height, width) && color != Off && cell in m.locations.Get(color)
    ensures InBounds(cell, height, width)
    ensures cell in DraftRemove(m, cell).locations.Get(color)
    ensures At(DraftRemove(m, cell).grid, cell) == Value(Off)
    ensures !Partitioned(DraftRemove(m, cell), height, width)
  {
  }

  /** The concrete case: on a 1 by 1 grid, one draft add of red leaves the only
      cell in both the off and the red list. */
  lemma OneCellExample()
    ensures var m := DraftAdd(InitialMatrix(1, 1), Red, Cell(0, 0));
      && m.locations.off == [Cell(0, 0)] && m.locations.red == [Cell(0, 0)]
      && !Partitioned(m, 1, 1)
  {
  }

  /** With the initial off list as a prefix of the off list and every listed
      cell in bounds, the off list is non-empty exactly when the grid is. */
  lemma OffNonEmpty(height: nat, width: nat, locs: Locations)
    requires ColumnMajor(height, width) <= locs.off
    requires forall k: Color, c: Cell {:trigger c in locs.Get(k)} :: c in locs.Get(k) ==> InBounds(c, height, width)
    ensures |locs.off| > 0 <==> height > 0 && width > 0
  {
    ColumnMajorLength(height, width);
    if |locs.off| > 0 {
      assert locs.off[0] in locs.Get(Off);
    }
    if height > 0 && width > 0 {
      PositiveProduct(height, width);
    }
  }

  lemma PositiveProduct(height: nat, width: nat)
    requires height > 0 && width > 0
    ensures height * width > 0
  {
  }

  class Mtx {
    const height: nat
    const width: nat
    var grid: Grid
    var locations: Locations

    /** What the draft still keeps: the grid's shape, every listed cell is in
        bounds, and the off list starts with all cells in `__init__` order
        (nothing is ever removed from it). */
    ghost predicate Valid()
      reads this
    {
      && Shaped(grid, height, width)
      && (forall k: Color, c: Cell {:trigger c in locations.Get(k)} :: c in locations.Get(k) ==> InBounds(c, height, width))
      && ColumnMajor(height, width) <= locations.off
    }

    /** `Mtx(height, width)`: the same all-off grid and full off list as the
        consistent matrix. */
    constructor (height: nat, width: nat)
      ensures Valid()
      ensures this.height == height && this.width == width
      ensures grid == InitialGrid(height, width) && locations == InitialLocations(height, width)
      ensures |locations.off| == height * width
      ensures locations.red == locations.green == locations.blue == []
    {
      this.height := height;
      this.width := width;
      var locs := InitialLocations(height, width);
      InitialPartitioned(height, width);
      forall k: Color, c: Cell | c in locs.Get(k)
        ensures InBounds(c, height, width)
      {
        assert k == Off;
        assert multiset(locs.off)[c] > 0;
      }
      grid := InitialGrid(height, width);
      locations := locs;
    }

    /** One pass of the draft `add_pxls` loop: a cell of the off list, picked
        by `random.choice`, is painted `color` and appended to `color`'s list. */
    method AddOne(color: Color) returns (ghost cell: Cell)
      requires Valid() && |locations.off| > 0
      modifies this
      ensures Valid()
      ensures cell in old(locations.off) && InBounds(cell, height, width)
      ensures Matrix(grid, locations) == DraftAdd(old(Matrix(grid, locations)), color, cell)
    {
      assert locations.off[0] in locations.off;
      var picked :| picked in locations.off;
      assert picked in locations.Get(Off);
      ghost var before := locations;
      grid := Paint(grid, picked, Value(color));
      locations := locations.Set(color, locations.Get(color) + [picked]);
      forall k: Color, c: Cell | c in locations.Get(k)
        ensures InBounds(c, height, width)
      {
        if k == color && c !in before.Get(k) {
          assert c == picked;
        }
      }
      assert ColumnMajor(height, width) <= locations.off by {
        if color == Off {
          assert before.off <= locations.off;
        }
      }
      cell := picked;
    }

    /** `add_pxls(number, color)` as grid.py writes it: every one of the
        `number` rounds paints a cell of the off list, recorded in `painted`,
        and appends it to `color`'s list. The off list never loses a cell, so a
        non-empty grid always has one to pick. */
    method AddPixels(number: int, color: Color) returns (ghost painted: seq<Cell>)
      requires Valid()
      modifies this
      ensures Valid()
      ensures |painted| == if height == 0 || width == 0 then 0 else Rounds(number)
      ensures forall c <- painted :: c in old(locations.off)
      ensures locations == old(locations).Set(color, old(locations.Get(color)) + painted)
      ensures color != Off ==> locations.off == old(locations.off)
      ensures GridTracked(old(grid), grid, height, width, color, painted)
    {
      ghost var start := Matrix(grid, locations);
      OffNonEmpty(height, width, locations);
      painted := [];
      var i := 0;
      while i < number
        invariant 0 <= i <= Rounds(number)
        invariant Valid()
        invariant |painted| == if height == 0 || width == 0 then 0 else i
        invariant forall c <- painted :: c in start.locations.off
        invariant locations == start.locations.Set(color, start.locations.Get(color) + painted)
        invariant GridTracked(start.grid, grid, height, width, color, painted)
      {
        OffNonEmpty(height, width, locations);
        if |locations.off| > 0 {
          ghost var before := Matrix(grid, locations);
          ghost var cell := AddOne(color);
          AddedFromOff(start.locations, before.locations, color, painted, cell);
          GridMove(start.grid, before.grid, height, width, color, painted, cell);
          painted := painted + [cell];
        }
        i := i + 1;
      }
    }

    /** One pass of the draft `remove_pxls` loop: a cell of `color`'s list,
        picked by `random.choice`, is painted off; the lists stay as they are. */
    method RemoveOne(color: Color) returns (ghost cell: Cell)
      requires Valid() && |locations.Get(color)| > 0
      modifies this
      ensures Valid()
      ensures cell in locations.Get(color) && InBounds(cell, height, width)
      ensures Matrix(grid, locations) == DraftRemove(old(Matrix(grid, locations)), cell)
    {
      assert locations.Get(color)[0] in locations.Get(color);
      var picked :| picked in locations.Get(color);
      grid := Paint(grid, picked, Value(Off));
      cell := picked;
    }

    /** `remove_pxls(number, color)` as grid.py writes it: while `color`'s list
        is non-empty, each of the `number` rounds paints one of its cells off,
        recorded in `painted`; no list ever changes, so the rounds repaint the
        same list's cells again and again. */
    method RemovePixels(number: int, color: Color) returns (ghost painted: seq<Cell>)
      requires Valid()
      modifies this
      ensures Valid()
      ensures locations == old(locations)
      ensures |painted| == if |locations.Get(color)| == 0 then 0 else Rounds(number)
      ensures forall c <- painted :: c in locations.Get(color)
      ensures GridTracked(old(grid), grid, height, width, Off, painted)
    {
      ghost var start := Matrix(grid, locations);
      painted := [];
      var i := 0;
      while i < number
        invariant 0 <= i <= Rounds(number)
        invariant Valid()
        invariant locations == start.locations
        invariant |painted| == if |locations.Get(color)| == 0 then 0 else i
        invariant forall c <- painted :: c in locations.Get(color)
        invariant GridTracked(start.grid, grid, height, width, Off, painted)
      {
        if |locations.Get(color)| > 0 {
          ghost var before := grid;
          ghost var cell := RemoveOne(color);
          GridMove(start.grid, before, height, width, Off, painted, cell);
          painted := painted + [cell];
        }
        i := i + 1;
      }
    }
  }

  /** A draft add round keeps the list equation of `add_pxls`. */
  lemma AddedFromOff(start: Locations, now: Locations, color: Color, painted: seq<Cell>, cell: Cell)
    requires forall c <- painted :: c in start.off
    requires now == start.Set(color, start.Get(color) + painted)
    requires cell in now.off
    ensures forall c <- painted + [cell] :: c in start.off
    ensures now.Set(color, now.Get(color) + [cell]) == start.Set(color, start.Get(color) + (painted + [cell]))
  {
  }
}
