/** The LED colour grid of cp_grid.py (and its identical copy in code.py): a grid
    of RGB values and, per colour name, the list of cells showing that colour.
    `add_pxls` and `remove_pxls` move randomly chosen cells between the lists
    and repaint them, keeping grid and lists in agreement. */
module ColorGrid {
  import opened Pixels
  import opened GridState

  class Mtx {
    const height: nat
    const width: nat
    var grid: Grid
    var locations: Locations

    ghost predicate Valid()
      reads this
    {
      Partitioned(Matrix(grid, locations), height, width)
    }

    /** `Mtx(height, width)`: an all-off grid whose off list holds every cell. */
    constructor (height: nat, width: nat)
      ensures Valid()
      ensures this.height == height && this.width == width
      ensures grid == InitialGrid(height, width) && locations == InitialLocations(height, width)
      ensures |locations.off| == height * width
      ensures locations.red == locations.green == locations.blue == []
    {
      this.height := height;
      this.width := width;
      grid := InitialGrid(height, width);
      locations := InitialLocations(height, width);
      InitialPartitioned(height, width);
    }

    /** One round of the loop with a non-empty `source` list: a cell of it is
        picked by `random.choice`, painted `target`'s value, removed from
        `source`'s list and appended to `target`'s. */
    method MoveOne(source: Color, target: Color) returns (ghost cell: Cell)
      requires Valid() && |locations.Get(source)| > 0
      modifies this
      ensures Valid()
      ensures cell in old(locations.Get(source)) && InBounds(cell, height, width)
      ensures grid == Paint(old(grid), cell, Value(target))
      ensures locations == Relocate(old(locations), source, target, cell)
      ensures source == target ==> grid == old(grid)
    {
      assert locations.Get(source)[0] in locations.Get(source);
      var picked :| picked in locations.Get(source);
      ghost var before := Matrix(grid, locations);
      MovePreservesPartition(before, height, width, source, target, picked);
      if source == target {
        PaintSame(grid, picked);
      }
      grid := Paint(grid, picked, Value(target));
      locations := locations.Set(source, RemoveFirst(locations.Get(source), picked));
      locations := locations.Set(target, locations.Get(target) + [picked]);
      cell := picked;
    }

    /** One pass of the loop body: if `source` still lists a cell, one of them
        is moved to `target` and recorded in `moved`; otherwise nothing changes. */
    method Round(ghost start: Matrix, source: Color, target: Color, ghost moved: seq<Cell>, ghost i: nat)
      returns (ghost moved': seq<Cell>)
      requires Valid()
      requires ListsTracked(start.locations, locations, source, target, moved, i)
      requires GridTracked(start.grid, grid, height, width, target, moved)
      requires source == target || |start.locations.Get(source)| == 0 ==> grid == start.grid
      modifies this
      ensures Valid()
      ensures ListsTracked(start.locations, locations, source, target, moved', i + 1)
      ensures GridTracked(start.grid, grid, height, width, target, moved')
      ensures source == target || |start.locations.Get(source)| == 0 ==> grid == start.grid
    {
      if |locations.Get(source)| > 0 {
        ghost var before := Matrix(grid, locations);
        ghost var cell := MoveOne(source, target);
        ListsMove(start.locations, before.locations, source, target, moved, i, cell);
        GridMove(start.grid, before.grid, height, width, target, moved, cell);
        moved' := moved + [cell];
      } else {
        ListsIdle(start.locations, locations, source, target, moved, i);
        moved' := moved;
      }
    }

    /** The loop shared by `add_pxls` (from `Off` to the colour) and
        `remove_pxls` (from the colour to `Off`). Each of the `number` rounds
        picks a cell of `source` by `random.choice`, recorded in `moved`, and
        moves it to `target`; a round that finds `source` empty changes nothing. */
    method MoveCells(number: int, source: Color, target: Color) returns (ghost moved: seq<Cell>)
      requires Valid()
      modifies this
      ensures Valid()
      ensures ListsTracked(old(locations), locations, source, target, moved, Rounds(number))
      ensures GridTracked(old(grid), grid, height, width, target, moved)
      ensures source == target || old(|locations.Get(source)|) == 0 ==> grid == old(grid)
    {
      ghost var start := Matrix(grid, locations);
      moved := [];
      var i := 0;
      while i < number
        invariant 0 <= i <= Rounds(number)
        invariant Valid()
        invariant ListsTracked(start.locations, locations, source, target, moved, i)
        invariant GridTracked(start.grid, grid, height, width, target, moved)
        invariant source == target || |start.locations.Get(source)| == 0 ==> grid == start.grid
      {
        moved := Round(start, source, target, moved, i);
        i := i + 1;
      }
    }

    /** `add_pxls(number, color)`: up to `number` off cells, chosen at random,
        are painted `color` and moved from the off list to `color`'s list. */
    method AddPixels(number: int, color: Color) returns (ghost moved: seq<Cell>)
      requires Valid()
      modifies this
      ensures Valid()
      ensures color != Off ==>
                && |moved| == Min(Rounds(number), old(|locations.off|))
                && locations.Get(color) == old(locations.Get(color)) + moved
                && multiset(locations.off) + multiset(moved) == multiset(old(locations.off))
                && |locations.Get(color)| == old(|locations.Get(color)|) + |moved|
                && |locations.off| == old(|locations.off|) - |moved|
      ensures |moved| <= Rounds(number) && forall c <- moved :: c in old(locations.off)
      ensures color == Off ==> multiset(locations.off) == multiset(old(locations.off)) && grid == old(grid)
      ensures forall k: Color :: k != Off && k != color ==> locations.Get(k) == old(locations.Get(k))
      ensures forall c: Cell :: InBounds(c, height, width) ==>
                At(grid, c) == if c in moved then Value(color) else old(At(grid, c))
      ensures old(|locations.off|) == 0 ==> grid == old(grid) && locations == old(locations)
    {
      moved := MoveCells(number, Off, color);
      if color != Off {
        assert |multiset(locations.off)| + |moved| == old(|locations.off|);
      }
    }

    /** `remove_pxls(number, color)`: up to `number` cells of `color`, chosen at
        random, are painted off and moved back to the off list. */
    method RemovePixels(number: int, color: Color) returns (ghost moved: seq<Cell>)
      requires Valid()
      modifies this
      ensures Valid()
      ensures color != Off ==>
                && |moved| == Min(Rounds(number), old(|locations.Get(color)|))
                && locations.off == old(locations.off) + moved
                && multiset(locations.Get(color)) + multiset(moved) == multiset(old(locations.Get(color)))
                && |locations.off| == old(|locations.off|) + |moved|
                && |locations.Get(color)| == old(|locations.Get(color)|) - |moved|
      ensures |moved| <= Rounds(number) && forall c <- moved :: c in old(locations.Get(color))
      ensures color == Off ==> multiset(locations.off) == multiset(old(locations.off)) && grid == old(grid)
      ensures forall k: Color :: k != Off && k != color ==> locations.Get(k) == old(locations.Get(k))
      ensures forall c: Cell :: InBounds(c, height, width) ==>
                At(grid, c) == if c in moved then Value(Off) else old(At(grid, c))
      ensures old(|locations.Get(color)|) == 0 ==> grid == old(grid) && locations == old(locations)
    {
      moved := MoveCells(number, color, Off);
      if color != Off {
        assert |multiset(locations.Get(color))| + |moved| == old(|locations.Get(color)|);
      }
    }
  }

  /** Adding `added` cells of a colour that has none and then removing
      `removed` of them, with enough off cells to go round, leaves exactly
      `added - removed` cells of that colour. */
  method AddThenRemove(mat: Mtx, color: Color, added: nat, removed: nat)
    requires mat.Valid() && color != Off && mat.locations.Get(color) == []
    requires added <= |mat.locations.off| && removed <= added
    modifies mat
    ensures mat.Valid()
    ensures |mat.locations.Get(color)| == added - removed
    ensures |mat.locations.off| == old(|mat.locations.off|) - added + removed
    ensures forall k: Color :: k != Off && k != color ==> mat.locations.Get(k) == old(mat.locations.Get(k))
  {
    ghost var painted := mat.AddPixels(added, color);
    ghost var cleared := mat.RemovePixels(removed, color);
  }

  /** The `__main__` scenario: on an 8 by 8 grid, adding 10 blue and then
      removing 5 blue leaves 5 blue and 59 off cells, and no red or green. */
  method EightByEightScenario() returns (blue: nat, off: nat, others: nat)
    ensures blue == 5 && off == 59 && others == 0
  {
    var side := 8;
    var mat := new Mtx(side, side);
    AddThenRemove(mat, Blue, 10, 5);
    assert mat.locations.Get(Red) == [] && mat.locations.Get(Green) == [];
    blue, off := |mat.locations.blue|, |mat.locations.off|;
    others := |mat.locations.red| + |mat.locations.green|;
  }
}
