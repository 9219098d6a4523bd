/**
 * Grid geometry of the maze generator: the fixed grid size, cell coordinates,
 * the walls between axis-adjacent cells, and the enumeration of the unvisited
 * neighbours of a cell that one generation step chooses from.
 */
module Grid {

  /** Side of one square cell, in pixels. */
  const CELL_SIZE: nat := 20
  /** Number of cell columns and rows of the grid. */
  const COLS: nat := 30
  const ROWS: nat := 30

  /** A cell coordinate `(column, row)`. */
  type Cell = (nat, nat)

  datatype Orientation = Vertical | Horizontal

  /**
   * A wall, identified by its orientation and its anchor: the coordinate-wise
   * minimum of the two cells it separates. A vertical wall separates
   * horizontally adjacent cells, a horizontal wall vertically adjacent ones.
   */
  datatype Wall = Wall(orientation: Orientation, x: nat, y: nat)

  predicate InBounds(c: Cell) {
    c.0 < COLS && c.1 < ROWS
  }

  function Min(a: nat, b: nat): nat {
    if a <= b then a else b
  }

  /** `b` is an axis neighbour of `a`, across a wall of orientation `o`. */
  predicate Adjacent(a: Cell, b: Cell, o: Orientation) {
    match o
    case Vertical => a.1 == b.1 && (a.0 + 1 == b.0 || b.0 + 1 == a.0)
    case Horizontal => a.0 == b.0 && (a.1 + 1 == b.1 || b.1 + 1 == a.1)
  }

  /** The wall that separates cell `a` from cell `b`, anchored at their minimum. */
  function WallBetween(a: Cell, b: Cell, o: Orientation): (w: Wall)
    ensures Adjacent(a, b, o) ==> Sides(w) == (a, b) || Sides(w) == (b, a)
  {
    Wall(o, Min(a.0, b.0), Min(a.1, b.1))
  }

  /** The two cells a wall separates: its anchor, then the cell right of or below it. */
  function Sides(w: Wall): (Cell, Cell) {
    match w.orientation
    case Vertical => ((w.x, w.y), (w.x + 1, w.y))
    case Horizontal => ((w.x, w.y), (w.x, w.y + 1))
  }

  /**
   * The anchor makes a wall a canonical name for an unordered pair of adjacent
   * cells: both cells name the same wall, and the two cells are distinct.
   */
  lemma WallBetweenCanonical(a: Cell, b: Cell, o: Orientation)
    requires Adjacent(a, b, o)
    ensures WallBetween(a, b, o) == WallBetween(b, a, o)
    ensures a != b
  {
  }

  /** Conversely, every wall is the wall between its two sides. */
  lemma SidesRoundTrip(w: Wall)
    ensures Adjacent(Sides(w).0, Sides(w).1, w.orientation)
    ensures WallBetween(Sides(w).0, Sides(w).1, w.orientation) == w
  {
  }

  /** Position of `n` among the directions Left, Right, Up, Down as seen from `cur`. */
  function DirectionRank(cur: Cell, n: Cell): nat {
    if n.0 + 1 == cur.0 && n.1 == cur.1 then 0
    else if n.0 == cur.0 + 1 && n.1 == cur.1 then 1
    else if n.0 == cur.0 && n.1 + 1 == cur.1 then 2
    else 3
  }

  /**
   * The candidate cells of one generation step: the axis neighbours of `cur`
   * that lie inside the grid and are not yet visited, each paired with the
   * orientation of the wall it shares with `cur`, in the order Left, Right,
   * Up, Down. The left and upper neighbours are guarded only by `> 0`, the
   * right and lower ones by the grid size.
   */
  function Neighbours(cur: Cell, visited: set<Cell>): (r: seq<(Cell, Orientation)>)
    ensures |r| <= 4
  {
    var (x, y) := cur;
    var left := if x > 0 && (x - 1, y) !in visited then [((x - 1, y), Vertical)] else [];
    var right := if x + 1 < COLS && (x + 1, y) !in visited then [((x + 1, y), Vertical)] else [];
    var up := if y > 0 && (x, y - 1) !in visited then [((x, y - 1), Horizontal)] else [];
    var down := if y + 1 < ROWS && (x, y + 1) !in visited then [((x, y + 1), Horizontal)] else [];
    left + right + up + down
  }

  /**
   * Every candidate is an unvisited axis neighbour of `cur`, with the
   * orientation of the wall between them; it lies inside the grid whenever
   * `cur` does.
   */
  lemma NeighboursSound(cur: Cell, visited: set<Cell>, i: nat)
    requires i < |Neighbours(cur, visited)|
    ensures var (n, o) := Neighbours(cur, visited)[i];
            Adjacent(cur, n, o) && n !in visited && (InBounds(cur) ==> InBounds(n))
  {
  }

  /** Every unvisited axis neighbour inside the grid is a candidate. */
  lemma NeighboursComplete(cur: Cell, visited: set<Cell>, n: Cell, o: Orientation)
    requires Adjacent(cur, n, o) && InBounds(n) && n !in visited
    ensures (n, o) in Neighbours(cur, visited)
  {
  }

  /** The candidates come in the order Left, Right, Up, Down, each at most once. */
  lemma NeighboursOrdered(cur: Cell, visited: set<Cell>, i: nat, j: nat)
    requires i < j < |Neighbours(cur, visited)|
    ensures DirectionRank(cur, Neighbours(cur, visited)[i].0) < DirectionRank(cur, Neighbours(cur, visited)[j].0)
  {
  }

  /** The cells of a `cols` by `rows` grid. */
  function GridCells(cols: nat, rows: nat): set<Cell> {
    set x: nat, y: nat | x < cols && y < rows :: (x, y)
  }

  /** All cells of the maze's grid. */
  function AllCells(): set<Cell> {
    GridCells(COLS, ROWS)
  }

  function RowCells(cols: nat, y: nat): set<Cell> {
    set x: nat | x < cols :: (x, y)
  }

  lemma {:induction false} RowCellsCount(cols: nat, y: nat)
    ensures |RowCells(cols, y)| == cols
  {
    if cols > 0 {
      RowCellsCount(cols - 1, y);
      assert RowCells(cols, y) == RowCells(cols - 1, y) + {(cols - 1, y)};
    } else {
      assert RowCells(cols, y) == {};
    }
  }

  lemma GridCellsSplit(cols: nat, rows: nat)
    ensures GridCells(cols, rows + 1) == GridCells(cols, rows) + RowCells(cols, rows)
    ensures GridCells(cols, rows) !! RowCells(cols, rows)
  {
  }

  lemma DisjointUnionCount<T>(a: set<T>, b: set<T>)
    requires a !! b
    ensures |a + b| == |a| + |b|
  {
  }

  lemma MulSucc(a: nat, b: nat)
    ensures a * (b + 1) == a * b + a
  {
  }

  /** A `cols` by `rows` grid has `cols * rows` cells. */
  lemma {:induction false} GridCellsCount(cols: nat, rows: nat)
    ensures |GridCells(cols, rows)| == cols * rows
  {
    if rows > 0 {
      var above, last := GridCells(cols, rows - 1), RowCells(cols, rows - 1);
      GridCellsCount(cols, rows - 1);
      RowCellsCount(cols, rows - 1);
      GridCellsSplit(cols, rows - 1);
      DisjointUnionCount(above, last);
      assert |GridCells(cols, rows)| == cols * (rows - 1) + cols;
      MulSucc(cols, rows - 1);
    } else {
      assert GridCells(cols, rows) == {};
    }
  }

  /** Any set of in-bounds cells has at most `COLS * ROWS` elements. */
  lemma InBoundsCellsBounded(cells: set<Cell>)
    requires forall c :: c in cells ==> InBounds(c)
    ensures |cells| <= COLS * ROWS
    ensures cells == AllCells() <==> |cells| == COLS * ROWS
  {
    var all := AllCells();
    forall c | c in cells ensures c in all {
      assert c == (c.0, c.1);
    }
    GridCellsCount(COLS, ROWS);
    assert all == cells + (all - cells);
    assert |all| == |cells| + |all - cells|;
    if cells != all {
      var c :| c in all && c !in cells;
      assert c in all - cells;
    }
  }
}
