/** The apple: one cell, moved to a random grid cell whenever it is eaten or
    the snake resets. The random column and row are supplied by the caller. */
module Apples {
  import opened Field

  class Apple {
    var position: Cell

    /** A new apple, placed straight away on the cell drawn for it. */
    constructor (gx: int, gy: int)
      requires 0 <= gx < GridWidth && 0 <= gy < GridHeight
      ensures position == CellAt(gx, gy) && OnGrid(position)
    {
      position := (0, 0);
      new;
      RandomizePosition(gx, gy);
    }

    /** Moves the apple to column gx, row gy. Nothing keeps it off the
        snake's body: any grid cell may be drawn. */
    method RandomizePosition(gx: int, gy: int)
      requires 0 <= gx < GridWidth && 0 <= gy < GridHeight
      modifies this
      ensures position == CellAt(gx, gy) && OnGrid(position)
    {
      position := (gx * GridSize, gy * GridSize);
    }
  }
}
