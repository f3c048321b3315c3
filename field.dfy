/** The playing field: screen and grid constants, cells in pixels, the four
    directions and the edge wrap that turns the field into a torus. */
module Field {

  const ScreenWidth: int := 640
  const ScreenHeight: int := 480

  /** One grid cell is GridSize x GridSize pixels. */
  const GridSize: int := 20
  const GridWidth: int := ScreenWidth / GridSize    // 32 cells across
  const GridHeight: int := ScreenHeight / GridSize  // 24 cells down

  /** A cell is named by the pixel coordinates (x, y) of its top-left corner. */
  type Cell = (int, int)

  datatype Direction = Up | Down | Left | Right

  /** The (dx, dy) vector of a direction, in cells. */
  function Delta(d: Direction): (r: (int, int))
    ensures -1 <= r.0 <= 1 && -1 <= r.1 <= 1 && (r.0 == 0 <==> r.1 != 0)
    ensures d == Up || d == Down <==> r.0 == 0
    ensures d == Down || d == Right <==> r.0 + r.1 == 1
  {
    match d
    case Up => (0, -1)
    case Down => (0, 1)
    case Left => (-1, 0)
    case Right => (1, 0)
  }

  /** The direction pointing the other way, defined case by case. */
  function Opposite(d: Direction): Direction
  {
    match d
    case Up => Down
    case Down => Up
    case Left => Right
    case Right => Left
  }

  /** The test the snake applies to a requested direction: its vector is the
      exact negation of the current one. */
  predicate IsReversal(requested: Direction, current: Direction)
  {
    var (newDx, newDy) := Delta(requested);
    var (curDx, curDy) := Delta(current);
    (newDx, newDy) == (-curDx, -curDy)
  }

  lemma ReversalIsOpposite(requested: Direction, current: Direction)
    ensures IsReversal(requested, current) <==> requested == Opposite(current)
  {
    match current
    case Up =>
    case Down =>
    case Left =>
    case Right =>
  }

  /** A cell the game can show: inside the screen and on a grid line. */
  predicate OnGrid(c: Cell)
  {
    0 <= c.0 < ScreenWidth && 0 <= c.1 < ScreenHeight &&
    c.0 % GridSize == 0 && c.1 % GridSize == 0
  }

  /** The cell in grid column gx and grid row gy. */
  function CellAt(gx: int, gy: int): (c: Cell)
    requires 0 <= gx < GridWidth && 0 <= gy < GridHeight
    ensures OnGrid(c)
    ensures c.0 / GridSize == gx && c.1 / GridSize == gy
  {
    (gx * GridSize, gy * GridSize)
  }

  /** Every cell on the grid is named by exactly one column and row. */
  lemma CellAtCoversGrid(c: Cell)
    requires OnGrid(c)
    ensures 0 <= c.0 / GridSize < GridWidth && 0 <= c.1 / GridSize < GridHeight
    ensures CellAt(c.0 / GridSize, c.1 / GridSize) == c
  {
  }

  /** One coordinate after a step: a value below 0 reappears on the last cell
      of the axis, a value at or past the edge reappears at 0. */
  function WrapAxis(v: int, extent: int): (r: int)
    requires GridSize <= extent
    ensures 0 <= r < extent
    ensures 0 <= v < extent ==> r == v
  {
    if v < 0 then extent - GridSize
    else if v >= extent then 0
    else v
  }

  /** The cell one step from `head` along `d`, before any wrap. */
  function Ahead(head: Cell, d: Direction): Cell
  {
    (head.0 + Delta(d).0 * GridSize, head.1 + Delta(d).1 * GridSize)
  }

  /** Where the head lands after one step along `d`, with the edge wrap. The
      result is always inside the screen, and is the plain step whenever that
      step stays inside. */
  function NextHead(head: Cell, d: Direction): (r: Cell)
    ensures 0 <= r.0 < ScreenWidth && 0 <= r.1 < ScreenHeight
    ensures var a := Ahead(head, d); 0 <= a.0 < ScreenWidth && 0 <= a.1 < ScreenHeight ==> r == a
  {
    var a := Ahead(head, d);
    (WrapAxis(a.0, ScreenWidth), WrapAxis(a.1, ScreenHeight))
  }

  /** From a grid cell, the wrapped step is the step taken modulo the screen
      size, and it lands on a grid cell again. */
  lemma NextHeadIsModular(head: Cell, d: Direction)
    requires OnGrid(head)
    ensures NextHead(head, d) == ((head.0 + Delta(d).0 * GridSize) % ScreenWidth,
                                  (head.1 + Delta(d).1 * GridSize) % ScreenHeight)
    ensures OnGrid(NextHead(head, d))
  {
  }
}
