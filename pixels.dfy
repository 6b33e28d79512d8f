/** Colours, cells and the shape of the LED matrix, shared by every draft of `Mtx`. */
module Pixels {

  /** The keys of `Mtx.colors`. A colour name outside this table raises `KeyError`
      in the source; the enumeration rules such names out. */
  datatype Color = Off | Red | Green | Blue

  /** An RGB triple as written into the NeoPixel grid. */
  datatype Rgb = Rgb(red: nat, green: nat, blue: nat)

  /** The value table `Mtx.colors`. */
  function Value(c: Color): (v: Rgb)
    ensures v.red <= 255 && v.green <= 255 && v.blue <= 255
    ensures v == Rgb(0, 0, 0) <==> c == Off
  {
    match c
    case Off => Rgb(0, 0, 0)
    case Red => Rgb(255, 0, 0)
    case Green => Rgb(0, 255, 0)
    case Blue => Rgb(0, 0, 255)
  }

  /** A cell position: its row and its column. */
  datatype Cell = Cell(row: nat, col: nat)

  /** `self.grid`: a list of rows, each a list of RGB values. */
  type Grid = seq<seq<Rgb>>

  /** `self.locations`: the dictionary from each colour name of the table to
      the list of cells showing it. Its keys are always exactly the four colours,
      so it is a record with one list per colour. */
  datatype Locations = Locations(off: seq<Cell>, red: seq<Cell>, green: seq<Cell>, blue: seq<Cell>) {

    /** The list of cells of colour `k`. */
    function Get(k: Color): seq<Cell> {
      match k
      case Off => off
      case Red => red
      case Green => green
      case Blue => blue
    }

    /** Replaces the list of colour `k` by `s`; only that list changes. */
    function Set(k: Color, s: seq<Cell>): (r: Locations)
      ensures r.Get(k) == s
      ensures forall k' :: k' != k ==> r.Get(k') == Get(k')
    {
      match k
      case Off => this.(off := s)
      case Red => this.(red := s)
      case Green => this.(green := s)
      case Blue => this.(blue := s)
    }
  }

  /** The two fields of an `Mtx` object, as a value. */
  datatype Matrix = Matrix(grid: Grid, locations: Locations)

  predicate InBounds(c: Cell, height: nat, width: nat) {
    c.row < height && c.col < width
  }

  /** `grid` has `height` rows of `width` values each. */
  predicate Shaped(g: Grid, height: nat, width: nat) {
    |g| == height && forall r :: 0 <= r < |g| ==> |g[r]| == width
  }

  /** The value the grid holds at a cell. */
  function At(g: Grid, c: Cell): Rgb
    requires c.row < |g| && c.col < |g[c.row]|
  {
    g[c.row][c.col]
  }

  /** Writes `v` into one cell: only that cell changes, and the shape is kept. */
  function Paint(g: Grid, c: Cell, v: Rgb): (g': Grid)
    requires c.row < |g| && c.col < |g[c.row]|
    ensures |g'| == |g| && forall r :: 0 <= r < |g| ==> |g'[r]| == |g[r]|
    ensures At(g', c) == v
    ensures forall d: Cell :: d.row < |g| && d.col < |g[d.row]| && d != c ==> At(g', d) == At(g, d)
  {
    g[c.row := g[c.row][c.col := v]]
  }

  /** Writing back a cell's own value leaves the grid as it was. */
  lemma PaintSame(g: Grid, c: Cell)
    requires c.row < |g| && c.col < |g[c.row]|
    ensures Paint(g, c, At(g, c)) == g
  {
    assert g[c.row][c.col := g[c.row][c.col]] == g[c.row];
  }

  /** The grid a new matrix starts with: `height` rows of `width` off values. */
  function InitialGrid(height: nat, width: nat): (g: Grid)
    ensures Shaped(g, height, width)
    ensures forall c: Cell :: InBounds(c, height, width) ==> At(g, c) == Value(Off)
  {
    seq(height, _ => seq(width, _ => Value(Off)))
  }

  /** The cells of one column, top to bottom. */
  function Column(height: nat, col: nat): seq<Cell> {
    if height == 0 then [] else Column(height - 1, col) + [Cell(height - 1, col)]
  }

  /** The order of the off list a new matrix starts with: the cells column by
      column, each column top to bottom. */
  function ColumnMajor(height: nat, width: nat): seq<Cell> {
    if width == 0 then [] else ColumnMajor(height, width - 1) + Column(height, width - 1)
  }

  /** The `locations` dictionary right after `__init__`. */
  function InitialLocations(height: nat, width: nat): Locations {
    Locations(ColumnMajor(height, width), [], [], [])
  }

  function InitialMatrix(height: nat, width: nat): Matrix {
    Matrix(InitialGrid(height, width), InitialLocations(height, width))
  }

  lemma {:induction false} ColumnLength(height: nat, col: nat)
    ensures |Column(height, col)| == height
  {
    if height > 0 {
      ColumnLength(height - 1, col);
    }
  }

  lemma {:induction false} ColumnCells(height: nat, col: nat)
    ensures forall c: Cell :: multiset(Column(height, col))[c] == if c.col == col && c.row < height then 1 else 0
  {
    if height > 0 {
      ColumnCells(height - 1, col);
    }
  }

  /** The initial off list has `height * width` entries. */
  lemma {:induction false} ColumnMajorLength(height: nat, width: nat)
    ensures |ColumnMajor(height, width)| == height * width
  {
    if width > 0 {
      ColumnMajorLength(height, width - 1);
      ColumnLength(height, width - 1);
      ProductStep(height, width);
    }
  }

  /** The initial off list names each in-bounds cell exactly once, and nothing else. */
  lemma {:induction false} ColumnMajorCells(height: nat, width: nat)
    ensures forall c: Cell :: multiset(ColumnMajor(height, width))[c] == if InBounds(c, height, width) then 1 else 0
  {
    if width > 0 {
      var earlier, last := ColumnMajor(height, width - 1), Column(height, width - 1);
      ColumnMajorCells(height, width - 1);
      ColumnCells(height, width - 1);
      assert multiset(ColumnMajor(height, width)) == multiset(earlier) + multiset(last);
    }
  }

  lemma ProductStep(height: nat, width: nat)
    requires width > 0
    ensures height * width == height * (width - 1) + height
  {
  }
}
