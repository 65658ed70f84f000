/** The mapping between grid cells and canvas pixels (`_getRectCoords`,
    `_getRectCoordsFromClick`) and the click handler's gutter guard.

    Canvas pixel rows grow downwards while grid rows grow upwards: row 0 is
    the bottom row, drawn just above the `height` line under which the
    column numbers are written. The row numbers take the `xOffset` pixels
    to the left of column 0. */
module Mapping {
  import opened Cells

  /** `_xOffset`, `_height` and `_scale` of a grid: the left margin, the
      height of the cell area and the side of one cell, all in pixels. */
  datatype Layout = Layout(xOffset: int, height: int, scale: int)

  /** A canvas pixel position, `y` counted from the top of the canvas. */
  datatype Point = Point(x: int, y: int)

  /** `_getRectCoords`: the top-left corner of the square drawn for `c`. */
  function RectCoords(l: Layout, c: Cell): Point
  {
    Point(l.xOffset + c.x * l.scale, l.height - (c.y + 1) * l.scale)
  }

  /** The pixels a click on which selects `c`: the columns `[xr, xr + scale)`
      and the rows `(yr, yr + scale]` below the corner `(xr, yr)` of its
      square. */
  ghost predicate InClickArea(l: Layout, c: Cell, px: int, py: int)
  {
    var r := RectCoords(l, c);
    r.x <= px < r.x + l.scale && r.y < py <= r.y + l.scale
  }

  /** `_getRectCoordsFromClick`: `Math.floor` of a division by a positive
      scale, which on integers is Dafny's `/`. The clicked pixel always lies
      in the click area of the cell it is mapped to. */
  function CellFromClick(l: Layout, px: int, py: int): (c: Cell)
    requires l.scale > 0
    ensures InClickArea(l, c, px, py)
  {
    Cell((px - l.xOffset) / l.scale, (l.height - py) / l.scale)
  }

  lemma MulMonotone(a: int, b: int, s: int)
    requires a <= b && s >= 0
    ensures a * s <= b * s
  {
  }

  /** Division by a positive number rounds down to the unique `q` with
      `q * s <= a < q * s + s`. */
  lemma FloorDivUnique(a: int, s: int, q: int)
    requires s > 0 && q * s <= a < q * s + s
    ensures a / s == q
  {
    var r := a / s;
    assert r * s <= a < r * s + s;
    if r < q {
      MulMonotone(r + 1, q, s);
      assert false;
    } else if r > q {
      MulMonotone(q + 1, r, s);
      assert false;
    }
  }

  /** Round trip: a pixel maps to `c` exactly when it lies in the click
      area of `c`. */
  lemma ClickRoundTrip(l: Layout, c: Cell, px: int, py: int)
    requires l.scale > 0
    ensures CellFromClick(l, px, py) == c <==> InClickArea(l, c, px, py)
  {
    if InClickArea(l, c, px, py) {
      FloorDivUnique(px - l.xOffset, l.scale, c.x);
      FloorDivUnique(l.height - py, l.scale, c.y);
    }
  }

  /** The click area is the drawn square shifted down by one pixel: the
      top-left pixel of the square of `c` selects the cell above `c`. */
  lemma CornerSelectsCellAbove(l: Layout, c: Cell)
    requires l.scale > 0
    ensures CellFromClick(l, RectCoords(l, c).x, RectCoords(l, c).y) == Cell(c.x, c.y + 1)
  {
    ClickRoundTrip(l, Cell(c.x, c.y + 1), RectCoords(l, c).x, RectCoords(l, c).y);
  }

  /** The click handler's guard (`px <= _xOffset || py > _height` returns
      early) followed by the mapping. A click that passes the guard selects
      a cell with no negative coordinate. */
  function ClickCell(l: Layout, px: int, py: int): (r: Option<Cell>)
    requires l.scale > 0
    ensures r.None? <==> px <= l.xOffset || py > l.height
    ensures r.Some? ==> Drawable(r.value) && InClickArea(l, r.value, px, py)
  {
    if px <= l.xOffset || py > l.height then None else Some(CellFromClick(l, px, py))
  }

  /** The number of a stored cell is not bounded by the scale: on a canvas
      400 pixels high (380 for the cells), row 30 lies inside the drawing
      at scale 10 but above its top edge at scale 50. */
  lemma RescaledOffCanvas()
    ensures RectCoords(Layout(30, 380, 10), Cell(0, 30)).y >= 0
    ensures RectCoords(Layout(30, 380, 50), Cell(0, 30)).y < 0
  {
  }

  /** A grid 400 pixels high with a 30-pixel margin and 50-pixel cells. */
  lemma ExampleLayout()
    ensures RectCoords(Layout(30, 400, 50), Cell(0, 0)) == Point(30, 350)
    ensures ClickCell(Layout(30, 400, 50), 35, 360) == Some(Cell(0, 0))
    ensures ClickCell(Layout(30, 400, 50), 10, 360) == None
  {
  }
}
