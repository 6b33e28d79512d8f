/** The state of the cp_grid.py matrix as a value: the invariant that grid and
    colour lists agree, one round of the `add_pxls` / `remove_pxls` loop, and
    what a run of rounds has done. */
module GridState {
  import opened Pixels

  /** Removing a cell from a list: drops the first occurrence of `x` and keeps the order of the rest. */
  function RemoveFirst(s: seq<Cell>, x: Cell): (r: seq<Cell>)
    requires x in s
    ensures |r| == |s| - 1
    ensures multiset(r) == multiset(s) - multiset{x}
  {
    if s[0] == x then
      assert s == [s[0]] + s[1..];
      s[1..]
    else
      assert s == [s[0]] + s[1..];
      [s[0]] + RemoveFirst(s[1..], x)
  }

  /** How many times `c` is listed, over the lists of all colours. */
  function Occurrences(locs: Locations, c: Cell): nat {
    multiset(locs.off)[c] + multiset(locs.red)[c] + multiset(locs.green)[c] + multiset(locs.blue)[c]
  }

  /** The summed length of all colour lists. */
  function Size(locs: Locations): nat {
    |locs.off| + |locs.red| + |locs.green| + |locs.blue|
  }

  /** Each cell of a `height` by `width` grid is listed exactly once, over all
      colour lists, and no other cell is listed. */
  ghost predicate ListedOnceEach(locs: Locations, height: nat, width: nat) {
    forall c: Cell {:trigger Occurrences(locs, c)} :: Occurrences(locs, c) == if InBounds(c, height, width) then 1 else 0
  }

  /** Every listed cell lies in the grid and shows its list's colour. */
  ghost predicate ShowsListedColors(m: Matrix, height: nat, width: nat) {
    Shaped(m.grid, height, width) &&
    forall k: Color, c: Cell {:trigger c in m.locations.Get(k)} :: c in m.locations.Get(k) ==>
      InBounds(c, height, width) && At(m.grid, c) == Value(k)
  }

  /** The invariant of `Mtx`: the colour lists partition the cells of a
      `height` by `width` grid (each cell is listed exactly once, over all
      lists), every listed cell shows its list's colour, and the list sizes
      sum to `height * width`. */
  ghost predicate Partitioned(m: Matrix, height: nat, width: nat) {
    && ShowsListedColors(m, height, width)
    && ListedOnceEach(m.locations, height, width)
    && Size(m.locations) == height * width
  }

  /** The list part of one iteration of the `add_pxls` / `remove_pxls` loop
      body: remove the chosen cell from `source`'s list, append it to `target`'s. */
  function Relocate(locs: Locations, source: Color, target: Color, cell: Cell): (r: Locations)
    requires cell in locs.Get(source)
    ensures |r.Get(target)| > 0 && r.Get(target)[|r.Get(target)| - 1] == cell
    ensures forall k: Color :: k != source && k != target ==> r.Get(k) == locs.Get(k)
  {
    var lists := locs.Set(source, RemoveFirst(locs.Get(source), cell));
    lists.Set(target, lists.Get(target) + [cell])
  }

  /** One iteration of the `add_pxls` / `remove_pxls` loop body with the chosen
      cell: paint it with `target`'s value and relocate it from `source` to `target`. */
  function Move(m: Matrix, source: Color, target: Color, cell: Cell): (r: Matrix)
    requires cell in m.locations.Get(source)
    requires cell.row < |m.grid| && cell.col < |m.grid[cell.row]|
    ensures |r.grid| == |m.grid| && forall row :: 0 <= row < |m.grid| ==> |r.grid[row]| == |m.grid[row]|
    ensures At(r.grid, cell) == Value(target) && cell in r.locations.Get(target)
  {
    Matrix(Paint(m.grid, cell, Value(target)), Relocate(m.locations, source, target, cell))
  }

  /** Replacing one colour's list changes the counts by exactly that list's difference. */
  lemma SetCounts(locs: Locations, k: Color, s: seq<Cell>)
    ensures forall c: Cell :: Occurrences(locs.Set(k, s), c) == Occurrences(locs, c) - multiset(locs.Get(k))[c] + multiset(s)[c]
    ensures Size(locs.Set(k, s)) == Size(locs) - |locs.Get(k)| + |s|
  {
  }

  /** A cell listed in one colour's list is counted there. */
  lemma ListedCounts(locs: Locations, c: Cell, k: Color)
    requires c in locs.Get(k)
    ensures Occurrences(locs, c) >= 1
    ensures forall k': Color :: k' != k && c in locs.Get(k') ==> Occurrences(locs, c) >= 2
  {
  }

  /** The colour an in-bounds cell currently has: the one list holding it. This
      is the per-cell colour that the grid shows. */
  ghost function ColorAt(m: Matrix, height: nat, width: nat, c: Cell): (k: Color)
    requires Partitioned(m, height, width) && InBounds(c, height, width)
    ensures c in m.locations.Get(k) && At(m.grid, c) == Value(k)
    ensures forall k': Color :: k' != k ==> c !in m.locations.Get(k')
  {
    var L := m.locations;
    assert Occurrences(L, c) == 1;
    var k := if c in L.off then Off else if c in L.red then Red else if c in L.green then Green else Blue;
    assert c in L.Get(k) by {
      if c !in L.off && c !in L.red && c !in L.green {
        assert multiset(L.blue)[c] > 0;
      }
    }
    ListedCounts(L, c, k);
    k
  }

  /** After `__init__` every cell is off, the off list holds each of the
      `height * width` cells once, and every other list is empty. */
  lemma InitialPartitioned(height: nat, width: nat)
    ensures var m := InitialMatrix(height, width);
      && Partitioned(m, height, width)
      && (forall c: Cell :: InBounds(c, height, width) ==> At(m.grid, c) == Value(Off))
      && |m.locations.off| == height * width
      && m.locations.red == m.locations.green == m.locations.blue == []
  {
    var m := InitialMatrix(height, width);
    ColumnMajorLength(height, width);
    ColumnMajorCells(height, width);
    forall k: Color, c: Cell | c in m.locations.Get(k)
      ensures InBounds(c, height, width) && At(m.grid, c) == Value(k)
    {
      assert k == Off;
      assert multiset(m.locations.off)[c] > 0;
    }
  }

  /** Relocating changes only the two lists involved: `source` loses the chosen
      cell's first occurrence and `target` gains the cell at its end (the same
      cells in a new order when they are one list). */
  lemma RelocateLists(locs: Locations, source: Color, target: Color, cell: Cell)
    requires cell in locs.Get(source)
    ensures var locs' := Relocate(locs, source, target, cell);
      && (forall k: Color :: k != source && k != target ==> locs'.Get(k) == locs.Get(k))
      && locs'.Get(target) == (if source == target then RemoveFirst(locs.Get(source), cell) else locs.Get(target)) + [cell]
      && (source != target ==> locs'.Get(source) == RemoveFirst(locs.Get(source), cell))
      && (source == target ==> multiset(locs'.Get(source)) == multiset(locs.Get(source)))
  {
  }

  /** Relocating keeps how often each cell is listed, and the summed size. */
  lemma RelocateCounts(locs: Locations, source: Color, target: Color, cell: Cell)
    requires cell in locs.Get(source)
    ensures var locs' := Relocate(locs, source, target, cell);
      && (forall c: Cell :: Occurrences(locs', c) == Occurrences(locs, c))
      && Size(locs') == Size(locs)
  {
    var removed := RemoveFirst(locs.Get(source), cell);
    var lists := locs.Set(source, removed);
    SetCounts(locs, source, removed);
    SetCounts(lists, target, lists.Get(target) + [cell]);
    assert multiset(locs.Get(source))[cell] > 0;
  }

  /** `list.remove` only drops a cell: whatever is left was there before. */
  lemma RemoveFirstKeeps(s: seq<Cell>, x: Cell, c: Cell)
    requires x in s && c in RemoveFirst(s, x)
    ensures c in s
  {
  }

  /** A cell other than the chosen one is listed under a colour after relocating
      only if it was listed there before. */
  lemma RelocateListedBefore(locs: Locations, source: Color, target: Color, cell: Cell, k: Color, c: Cell)
    requires cell in locs.Get(source) && c != cell
    requires c in Relocate(locs, source, target, cell).Get(k)
    ensures c in locs.Get(k)
  {
    var locs' := Relocate(locs, source, target, cell);
    var removed := RemoveFirst(locs.Get(source), cell);
    RelocateLists(locs, source, target, cell);
    if k == target {
      var kept := if source == target then removed else locs.Get(target);
      assert locs'.Get(target) == kept + [cell];
      assert c in kept;
      if source == target {
        RemoveFirstKeeps(locs.Get(source), cell, c);
      }
    } else if k == source {
      RemoveFirstKeeps(locs.Get(source), cell, c);
    }
  }

  /** After one iteration every listed cell still shows its list's colour:
      the chosen cell now shows `target` and is listed only there, and every
      other listed cell kept both its list and its value. */
  lemma MoveKeepsColors(m: Matrix, height: nat, width: nat, source: Color, target: Color, cell: Cell)
    requires Partitioned(m, height, width) && cell in m.locations.Get(source)
    ensures InBounds(cell, height, width)
    ensures ShowsListedColors(Move(m, source, target, cell), height, width)
  {
    var L := m.locations;
    assert InBounds(cell, height, width);
    var m' := Move(m, source, target, cell);
    var L' := m'.locations;
    forall k: Color, c: Cell | c in L'.Get(k)
      ensures InBounds(c, height, width) && At(m'.grid, c) == Value(k)
    {
      if c == cell {
        RelocateLists(L, source, target, cell);
        RelocateCounts(L, source, target, cell);
        ListedCounts(L', c, target);
      } else {
        RelocateListedBefore(L, source, target, cell, k, c);
      }
    }
  }

  /** One loop iteration keeps the partition. */
  lemma MovePreservesPartition(m: Matrix, height: nat, width: nat, source: Color, target: Color, cell: Cell)
    requires Partitioned(m, height, width) && cell in m.locations.Get(source)
    ensures InBounds(cell, height, width)
    ensures Partitioned(Move(m, source, target, cell), height, width)
  {
    MoveKeepsColors(m, height, width, source, target, cell);
    RelocateCounts(m.locations, source, target, cell);
  }

  function Min(a: int, b: int): int {
    if a <= b then a else b
  }

  /** How many rounds a loop over `number` runs: none for a negative `number`. */
  function Rounds(number: int): nat {
    if number < 0 then 0 else number
  }

  /** What `i` rounds of the `add_pxls`/`remove_pxls` loop have done to the
      colour lists `start`, reaching `now`, when the rounds that found
      `source` non-empty picked the cells `moved`. */
  ghost predicate ListsTracked(start: Locations, now: Locations, source: Color, target: Color, moved: seq<Cell>, i: nat) {
    var from := start.Get(source);
    && (forall c <- moved :: c in from)
    && (source != target ==>
          && |moved| == Min(i, |from|)
          && |now.Get(source)| + |moved| == |from|
          && now.Get(target) == start.Get(target) + moved
          && multiset(now.Get(source)) + multiset(moved) == multiset(from))
    && (source == target ==>
          && |moved| == (if |from| == 0 then 0 else i)
          && multiset(now.Get(source)) == multiset(from))
    && (forall k: Color :: k != source && k != target ==> now.Get(k) == start.Get(k))
    && (|from| == 0 ==> now == start)
  }

  /** The grid part: exactly the cells in `moved` were repainted with
      `target`'s value. */
  ghost predicate GridTracked(start: Grid, now: Grid, height: nat, width: nat, target: Color, moved: seq<Cell>) {
    && Shaped(start, height, width)
    && Shaped(now, height, width)
    && forall c: Cell :: InBounds(c, height, width) ==>
         At(now, c) == if c in moved then Value(target) else At(start, c)
  }

  /** Taking `cell` out of the remaining list `a` and recording it in `m` keeps
      their joint contents. */
  lemma TakeOne(a: seq<Cell>, a': seq<Cell>, m: seq<Cell>, from: seq<Cell>, cell: Cell)
    requires multiset(a) + multiset(m) == multiset(from)
    requires cell in a && multiset(a') == multiset(a) - multiset{cell}
    ensures multiset(a') + multiset(m + [cell]) == multiset(from)
    ensures cell in from
  {
    assert multiset(a)[cell] > 0;
    assert multiset(from)[cell] > 0;
    assert multiset(m + [cell]) == multiset(m) + multiset{cell};
  }

  /** Counting rounds: while cells remain, every round moves one. */
  lemma CountOne(remaining: nat, taken: nat, total: nat, i: nat)
    requires remaining + taken == total && taken == Min(i, total) && remaining > 0
    ensures taken + 1 == Min(i + 1, total)
  {
  }

  /** A round that finds `source` non-empty and relocates `cell`. */
  lemma ListsMove(start: Locations, now: Locations, source: Color, target: Color, moved: seq<Cell>, i: nat, cell: Cell)
    requires ListsTracked(start, now, source, target, moved, i)
    requires cell in now.Get(source)
    ensures ListsTracked(start, Relocate(now, source, target, cell), source, target, moved + [cell], i + 1)
  {
    if source != target {
      ListsMoveApart(start, now, source, target, moved, i, cell);
    } else {
      ListsMoveWithin(start, now, source, moved, i, cell);
    }
  }

  lemma ListsMoveApart(start: Locations, now: Locations, source: Color, target: Color, moved: seq<Cell>, i: nat, cell: Cell)
    requires ListsTracked(start, now, source, target, moved, i)
    requires cell in now.Get(source) && source != target
    ensures ListsTracked(start, Relocate(now, source, target, cell), source, target, moved + [cell], i + 1)
  {
    var from := start.Get(source);
    var next := Relocate(now, source, target, cell);
    RelocateLists(now, source, target, cell);
    TakeOne(now.Get(source), next.Get(source), moved, from, cell);
    CountOne(|now.Get(source)|, |moved|, |from|, i);
    assert (start.Get(target) + moved) + [cell] == start.Get(target) + (moved + [cell]);
  }

  lemma ListsMoveWithin(start: Locations, now: Locations, source: Color, moved: seq<Cell>, i: nat, cell: Cell)
    requires ListsTracked(start, now, source, source, moved, i)
    requires cell in now.Get(source)
    ensures ListsTracked(start, Relocate(now, source, source, cell), source, source, moved + [cell], i + 1)
  {
  }

  /** A round that finds `source` empty changes nothing. */
  lemma ListsIdle(start: Locations, now: Locations, source: Color, target: Color, moved: seq<Cell>, i: nat)
    requires ListsTracked(start, now, source, target, moved, i)
    requires |now.Get(source)| == 0
    ensures ListsTracked(start, now, source, target, moved, i + 1)
  {
  }

  /** Painting one more cell with `target`'s value extends `moved` by it. */
  lemma GridMove(start: Grid, now: Grid, height: nat, width: nat, target: Color, moved: seq<Cell>, cell: Cell)
    requires GridTracked(start, now, height, width, target, moved)
    requires InBounds(cell, height, width)
    ensures GridTracked(start, Paint(now, cell, Value(target)), height, width, target, moved + [cell])
  {
  }
}
