/**
 * The pixel rule that paints a maze state into an RGBA8 raster of
 * `WIN_WIDTH` by `WIN_HEIGHT` pixels: grid lines show whether their wall is
 * carved, cell interiors whether their cell is visited.
 */
module Render {
  import opened Grid
  import opened Generation

  newtype byte = b: int | 0 <= b < 256

  /** Colours, as RGBA bytes. */
  const CELL_COLOR: seq<byte> := [0x99, 0x99, 0xFF, 0xFF]
  const VISITED_COLOR: seq<byte> := [0xFF, 0x99, 0x99, 0xFF]
  const WALL_COLOR: seq<byte> := [0xFF, 0xFF, 0xFF, 0xFF]

  /** Raster size in pixels. */
  const WIN_WIDTH: nat := COLS * CELL_SIZE
  const WIN_HEIGHT: nat := ROWS * CELL_SIZE

  /** The pixel index is narrowed to 32 bits before the coordinates are taken. */
  const U32_MODULUS: nat := 0x1_0000_0000

  /** Coordinates `(x, y)` of the pixel held by 4-byte chunk `i` of the frame. */
  function PixelCoords(i: nat): (r: (nat, nat))
    ensures r.0 < WIN_WIDTH && r.1 * WIN_WIDTH + r.0 == i % U32_MODULUS
  {
    var p := i % U32_MODULUS;
    (p % WIN_WIDTH, p / WIN_WIDTH)
  }

  /** Pixel `(x, y)` lies on an inner grid line. */
  predicate OnGridLine(x: nat, y: nat) {
    (x > 0 && x % CELL_SIZE == 0) || (y > 0 && y % CELL_SIZE == 0)
  }

  /**
   * The wall drawn by a grid-line pixel: the wall whose left (or upper) side
   * is the cell just before the line. Vertical lines take precedence where
   * two lines cross.
   */
  function LineWall(x: nat, y: nat): Wall
    requires OnGridLine(x, y)
  {
    if x > 0 && x % CELL_SIZE == 0 then Wall(Vertical, x / CELL_SIZE - 1, y / CELL_SIZE)
    else Wall(Horizontal, x / CELL_SIZE, y / CELL_SIZE - 1)
  }

  /** The cell whose square holds pixel `(x, y)`. */
  function CellOf(x: nat, y: nat): Cell {
    (x / CELL_SIZE, y / CELL_SIZE)
  }

  /**
   * The colour of pixel `(x, y)`: a vertical grid line shows its vertical
   * wall, else a horizontal grid line its horizontal wall (white while intact,
   * the visited colour once carved); any other pixel shows whether its cell
   * is visited. Column 0 and row 0 are never grid lines.
   */
  function PixelColor(s: MazeState, x: nat, y: nat): (rgba: seq<byte>)
    ensures rgba == CELL_COLOR || rgba == VISITED_COLOR || rgba == WALL_COLOR
    ensures |rgba| == 4 && rgba[3] == 0xFF
  {
    if OnGridLine(x, y) then
      if LineWall(x, y) !in s.removedWalls then WALL_COLOR else VISITED_COLOR
    else
      if CellOf(x, y) in s.visited then VISITED_COLOR else CELL_COLOR
  }

  /**
   * Inside the raster, the wall a grid-line pixel shows separates two cells
   * of the grid, and the line is the boundary between their squares: a
   * vertical wall's line is the left edge of its right-hand cell, in the row
   * of the pixel; a horizontal wall's line the top edge of its lower cell, in
   * the column of the pixel.
   */
  lemma LineWallInGrid(x: nat, y: nat)
    requires x < WIN_WIDTH && y < WIN_HEIGHT && OnGridLine(x, y)
    ensures var (a, b) := Sides(LineWall(x, y));
            && InBounds(a) && InBounds(b)
            && (LineWall(x, y).orientation == Vertical ==> x == b.0 * CELL_SIZE && CellOf(x, y).1 == b.1)
            && (LineWall(x, y).orientation == Horizontal ==> y == b.1 * CELL_SIZE && CellOf(x, y).0 == b.0)
  {
  }

  /**
   * The rule in terms of what the pixel shows: white exactly on the line of
   * an intact wall, the unvisited colour exactly inside an unvisited cell,
   * and the visited colour on carved walls and inside visited cells.
   */
  lemma PixelColorMeaning(s: MazeState, x: nat, y: nat)
    ensures PixelColor(s, x, y) == WALL_COLOR <==> OnGridLine(x, y) && LineWall(x, y) !in s.removedWalls
    ensures PixelColor(s, x, y) == CELL_COLOR <==> !OnGridLine(x, y) && CellOf(x, y) !in s.visited
    ensures PixelColor(s, x, y) == VISITED_COLOR <==>
              (OnGridLine(x, y) && LineWall(x, y) in s.removedWalls) || (!OnGridLine(x, y) && CellOf(x, y) in s.visited)
  {
  }

  /**
   * In a reachable state a grid line painted in the visited colour belongs to
   * a carved wall whose two cells are both visited.
   */
  lemma CarvedLineJoinsVisitedCells(s: MazeState, x: nat, y: nat)
    requires Invariant(s)
    requires OnGridLine(x, y) && PixelColor(s, x, y) == VISITED_COLOR
    ensures LineWall(x, y) in s.removedWalls
    ensures Sides(LineWall(x, y)).0 in s.visited && Sides(LineWall(x, y)).1 in s.visited
  {
  }

  /** Once generation has finished, no pixel of the raster shows an unvisited cell. */
  lemma FinishedFrameHasNoUnvisitedCell(s: MazeState, x: nat, y: nat)
    requires Invariant(s) && s.stack == []
    requires x < WIN_WIDTH && y < WIN_HEIGHT
    ensures PixelColor(s, x, y) != CELL_COLOR
  {
    Coverage(s);
    PixelColorMeaning(s, x, y);
    assert CellOf(x, y) in AllCells();
  }

  /**
   * The first frame: the seed cell's interior is painted visited, the
   * interior of cell (1, 1) unvisited, and the line right of the seed cell
   * white.
   */
  lemma InitialFrame()
    ensures PixelColor(Init(), 0, 0) == VISITED_COLOR
    ensures PixelColor(Init(), CELL_SIZE + 1, CELL_SIZE + 1) == CELL_COLOR
    ensures PixelColor(Init(), CELL_SIZE, 0) == WALL_COLOR
  {
  }

  /**
   * Chunk `i` of a raster-sized frame holds pixel `(i % WIN_WIDTH, i / WIN_WIDTH)`,
   * row by row: the coordinates lie inside the raster and give back `i`.
   */
  lemma PixelCoordsRowMajor(i: nat)
    requires i < WIN_WIDTH * WIN_HEIGHT
    ensures var (x, y) := PixelCoords(i);
            x < WIN_WIDTH && y < WIN_HEIGHT && y * WIN_WIDTH + x == i
  {
  }

  /** Every pixel of the raster is held by exactly the chunk `y * WIN_WIDTH + x`. */
  lemma PixelCoordsOnto(x: nat, y: nat)
    requires x < WIN_WIDTH && y < WIN_HEIGHT
    ensures y * WIN_WIDTH + x < WIN_WIDTH * WIN_HEIGHT
    ensures PixelCoords(y * WIN_WIDTH + x) == (x, y)
  {
  }
}
