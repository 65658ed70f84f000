/** Grid cells and the small integer helpers shared by the rasterisers,
    the coordinate mapping and the grid surface. */
module Cells {

  /** One grid square: column `x` counted from the left, row `y` counted
      from the bottom of the drawing surface. */
  datatype Cell = Cell(x: int, y: int)

  datatype Option<+T> = None | Some(value: T)

  function Abs(n: int): nat
  {
    if n < 0 then -n else n
  }

  function Min(a: int, b: int): int
  {
    if a <= b then a else b
  }

  function Max(a: int, b: int): int
  {
    if a >= b then a else b
  }

  /** The cells that `setPixel` and `clearPixel` act on: a cell with a
      negative coordinate is ignored by both. */
  predicate Drawable(c: Cell)
  {
    c.x >= 0 && c.y >= 0
  }

  /** `v` lies between `a` and `b`, whichever of the two is smaller. */
  predicate Between(v: int, a: int, b: int)
  {
    Min(a, b) <= v <= Max(a, b)
  }

  /** `c` lies in the bounding box of the segment from `a` to `b`. */
  predicate InBox(a: Cell, b: Cell, c: Cell)
  {
    Between(c.x, a.x, b.x) && Between(c.y, a.y, b.y)
  }

  /** Two distinct cells that share an edge or a corner. */
  predicate Neighbours(a: Cell, b: Cell)
  {
    a != b && Abs(a.x - b.x) <= 1 && Abs(a.y - b.y) <= 1
  }

  /** Every cell of `cells` is a neighbour of the one before it. */
  ghost predicate Connected(cells: seq<Cell>)
  {
    forall i :: 0 <= i < |cells| - 1 ==> Neighbours(cells[i], cells[i + 1])
  }
}
