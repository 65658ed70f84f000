/** The vertical branch of the step rasteriser `drawLineBySteps`: when both
    endpoints lie in one column the slope is undefined, so the source walks
    the rows of that column instead. */
module LineBySteps {
  import opened Cells

  /** The cells `drawLineBySteps(start, end)` hands to `grid.setPixel` when
      `start.x == end.x`: every row from the lower endpoint up to the upper
      one, inclusive, in increasing order, whichever endpoint came first. */
  method DrawVertical(start: Cell, end: Cell) returns (cells: seq<Cell>)
    requires start.x == end.x
    ensures |cells| == Abs(end.y - start.y) + 1
    ensures forall i :: 0 <= i < |cells| ==> cells[i] == Cell(start.x, Min(start.y, end.y) + i)
    decreases if start.y > end.y then 1 else 0
  {
    if start.y > end.y {
      cells := DrawVertical(end, start);
      return;
    }
    cells := [];
    for i := start.y to end.y + 1
      invariant |cells| == i - start.y
      invariant forall k :: 0 <= k < |cells| ==> cells[k] == Cell(start.x, start.y + k)
    {
      cells := cells + [Cell(start.x, i)];
    }
  }
}
