/** The `Grid` object: the scale and margins of the drawing surface, the set
    of keys of the lit cells (`_createdPoints`) and the cells picked by the
    last clicks (`_manuallyClicked`). Painting on the canvas is not part of
    this model; only the state the methods keep is. */
module Surface {
  import opened Cells
  import opened Keys
  import opened Mapping
  import Bresenham
  import LineBySteps

  /** `_numbersSize`: the pixel rows under the cells that hold the column
      numbers. */
  const NumbersSize := 20

  /** A key set with key `k` switched: removed when present, added when not. */
  function Toggle(keys: set<string>, k: string): (r: set<string>)
    ensures k in r <==> k !in keys
    ensures forall j :: j != k ==> (j in r <==> j in keys)
  {
    if k in keys then keys - {k} else keys + {k}
  }

  /** The first loop of the reset: the cell each stored key parses to, in
      some order; their keys are exactly the stored keys. */
  method ParseKeys(keys: set<string>) returns (cells: seq<Cell>)
    requires forall k {:trigger WellFormed(k)} :: k in keys ==> WellFormed(k)
    ensures DrawnKeys(cells) == keys
    ensures forall c :: c in cells ==> Drawable(c)
  {
    var pending := keys;
    cells := [];
    while pending != {}
      invariant pending <= keys
      invariant forall c :: c in cells ==> Drawable(c)
      invariant DrawnKeys(cells) + pending == keys
      decreases |pending|
    {
      var k :| k in pending;
      assert WellFormed(k);
      var c := ParseKey(k).value;
      assert Key(c) == k;
      ghost var before := cells;
      cells := cells + [c];
      assert cells[..|cells| - 1] == before;
      pending := pending - {k};
    }
  }

  class Grid {
    /** `_canvas.height`. */
    const canvasHeight: int
    /** `_scale`: the side of one cell in pixels. */
    var scale: int
    /** `_xOffset`: the width of the row numbers to the left of column 0. */
    var xOffset: int
    /** `_height`: the pixel height of the cell area. */
    var height: int
    /** `_createdPoints`: the keys of the lit cells. */
    var created: set<string>
    /** `_manuallyClicked`: the cells picked since the last reset. */
    var clicked: seq<Cell>

    ghost predicate Valid()
      reads this
    {
      && scale > 0
      && height == canvasHeight - NumbersSize
      && |clicked| <= 2
      && (forall i :: 0 <= i < |clicked| ==> Drawable(clicked[i]))
      && (forall k {:trigger WellFormed(k)} :: k in created ==> WellFormed(k))
    }

    /** The cell-to-pixel mapping for the current scale and margins. */
    function Frame(): Layout
      reads this
    {
      Layout(xOffset, height, scale)
    }

    /** `new Grid(scale, canvas)`: `_drawGrid` measures the row numbers'
        width, here the parameter `xOffset`, and sets the cell-area height. */
    constructor (scale: int, canvasHeight: int, xOffset: int)
      requires scale > 0
      ensures Valid()
      ensures this.scale == scale && this.canvasHeight == canvasHeight && this.xOffset == xOffset
      ensures height == canvasHeight - NumbersSize
      ensures created == {} && clicked == []
    {
      this.scale := scale;
      this.canvasHeight := canvasHeight;
      this.xOffset := xOffset;
      height := canvasHeight - NumbersSize;
      created := {};
      clicked := [];
    }

    /** `setPixel`: light cell `(x, y)`; a cell with a negative coordinate is
        ignored. */
    method SetPixel(x: int, y: int)
      requires Valid()
      modifies this`created
      ensures Valid()
      ensures created == if x < 0 || y < 0 then old(created) else old(created) + {Key(Cell(x, y))}
    {
      if x < 0 || y < 0 {
        return;
      }
      KeyRoundTrip(Cell(x, y));
      created := created + {Key(Cell(x, y))};
    }

    /** `clearPixel`: put out cell `(x, y)`; a cell with a negative
        coordinate is ignored. */
    method ClearPixel(x: int, y: int)
      requires Valid()
      modifies this`created
      ensures Valid()
      ensures created == if x < 0 || y < 0 then old(created) else old(created) - {Key(Cell(x, y))}
    {
      if x < 0 || y < 0 {
        return;
      }
      created := created - {Key(Cell(x, y))};
    }

    /** `setPixel` on each cell of `cells` in turn, as both rasterisers do. */
    method Plot(cells: seq<Cell>)
      requires Valid()
      modifies this`created
      ensures Valid()
      ensures created == old(created) + DrawnKeys(cells)
    {
      for i := 0 to |cells|
        invariant Valid()
        invariant created == old(created) + DrawnKeys(cells[..i])
      {
        assert cells[..i + 1][..i] == cells[..i];
        SetPixel(cells[i].x, cells[i].y);
      }
      assert cells[..|cells|] == cells;
    }

    /** `clearPixel` on each cell of `cells` in turn. */
    method Unplot(cells: seq<Cell>)
      requires Valid()
      modifies this`created
      ensures Valid()
      ensures created == old(created) - DrawnKeys(cells)
    {
      for i := 0 to |cells|
        invariant Valid()
        invariant created == old(created) - DrawnKeys(cells[..i])
      {
        assert cells[..i + 1][..i] == cells[..i];
        ClearPixel(cells[i].x, cells[i].y);
      }
      assert cells[..|cells|] == cells;
    }

    /** The reset at the start of a third click: every stored key is parsed
        back into a cell, and then every such cell is cleared, which leaves
        no cell lit. */
    method ClearCreated()
      requires Valid()
      modifies this`created
      ensures Valid()
      ensures created == {}
    {
      var toRemove := ParseKeys(created);
      Unplot(toRemove);
    }

    /** The click listener up to the rendering: a third click first puts out
        every lit cell and forgets the two picked ones; a click on the
        margin or on the numbers below the cells then changes nothing more;
        any other click picks its cell and toggles it. `ready` says that two
        cells are now picked, which is when the listener draws the line
        between them. */
    method Click(px: int, py: int) returns (ready: bool)
      requires Valid()
      modifies this`created, this`clicked
      ensures Valid()
      ensures ready <==> |clicked| == 2
      ensures var base := if |old(clicked)| == 2 then {} else old(created);
              var picked := if |old(clicked)| == 2 then [] else old(clicked);
              match ClickCell(Frame(), px, py)
              case None => created == base && clicked == picked
              case Some(c) => clicked == picked + [c] && created == Toggle(base, Key(c))
    {
      if |clicked| == 2 {
        ClearCreated();
        clicked := [];
      }
      if px <= xOffset || py > height {
        return false;
      }
      var c := CellFromClick(Frame(), px, py);
      assert ClickCell(Frame(), px, py) == Some(c);
      clicked := clicked + [c];
      if Key(c) in created {
        ClearPixel(c.x, c.y);
      } else {
        SetPixel(c.x, c.y);
      }
      ready := |clicked| == 2;
    }

    /** `bresenhamAlgorithm` between the two picked cells: the cells of
        the Bresenham line are lit, and no other cell changes. */
    method RenderBresenham()
      requires Valid() && |clicked| == 2
      modifies this`created
      ensures Valid()
      ensures created == old(created) + DrawnKeys(Bresenham.Line(clicked[0], clicked[1]))
      ensures forall c :: Drawable(c) ==>
                (Key(c) in created <==> Key(c) in old(created) || c in Bresenham.Line(clicked[0], clicked[1]))
    {
      var cells := Bresenham.Rasterise(clicked[0], clicked[1]);
      Plot(cells);
      forall c | Drawable(c) {
        DrawnKeysMember(cells, c);
      }
    }

    /** `drawLineBySteps` between two picked cells of one column: every row
        of the column between them is lit, and no other cell changes. */
    method RenderVertical()
      requires Valid() && |clicked| == 2 && clicked[0].x == clicked[1].x
      modifies this`created
      ensures Valid()
      ensures var a, b := clicked[0], clicked[1];
              forall c :: Drawable(c) ==>
                (Key(c) in created <==> Key(c) in old(created) || (c.x == a.x && Between(c.y, a.y, b.y)))
    {
      var a, b := clicked[0], clicked[1];
      var cells := LineBySteps.DrawVertical(a, b);
      Plot(cells);
      forall c | Drawable(c)
        ensures Key(c) in created <==> Key(c) in old(created) || (c.x == a.x && Between(c.y, a.y, b.y))
      {
        DrawnKeysMember(cells, c);
        if c.x == a.x && Between(c.y, a.y, b.y) {
          assert cells[c.y - Min(a.y, b.y)] == c;
        }
      }
    }

    /** The loop ending `setScale`: every stored key is parsed back and its
        cell lit again, which leaves the stored keys as they were. */
    method Relight()
      requires Valid()
      modifies this`created
      ensures Valid()
      ensures created == old(created)
    {
      var pending := created;
      while pending != {}
        invariant Valid()
        invariant created == old(created) && pending <= created
        decreases |pending|
      {
        var k :| k in pending;
        assert WellFormed(k);
        var c := ParseKey(k).value;
        ghost var before := created;
        SetPixel(c.x, c.y);
        assert created == before + {k};
        pending := pending - {k};
      }
    }

    /** `setScale`: the grid is redrawn at the new scale, `_drawGrid`
        measures the row numbers again (the parameter `newXOffset`) and sets
        the cell-area height, and every lit cell is lit again; the set of
        lit cells does not change. */
    method SetScale(newScale: int, newXOffset: int)
      requires Valid() && newScale > 0
      modifies this`scale, this`xOffset, this`height, this`created
      ensures Valid()
      ensures scale == newScale && xOffset == newXOffset && height == canvasHeight - NumbersSize
      ensures created == old(created)
    {
      scale := newScale;
      xOffset := newXOffset;
      height := canvasHeight - NumbersSize;
      Relight();
    }
  }
}
