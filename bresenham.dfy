/** The integer error-term Bresenham rasteriser (`bresenhamAlgorithm`).
    `Line` is the sequence of cells the loop hands to `grid.setPixel`, and
    `Rasterise` is the loop itself, proved to produce exactly that sequence. */
module Bresenham {
  import opened Cells

  /** The values the source fixes before its loop: the end cell `(x1, y1)`,
      the distances `dx`, `dy` and the step directions `sx`, `sy`. */
  datatype Setup = Setup(x1: int, y1: int, dx: int, dy: int, sx: int, sy: int)

  /** `a < b ? 1 : -1` */
  function Dir(a: int, b: int): int
  {
    if a < b then 1 else -1
  }

  function Prepare(start: Cell, end: Cell): Setup
  {
    Setup(end.x, end.y, Abs(end.x - start.x), Abs(end.y - start.y),
          Dir(start.x, end.x), Dir(start.y, end.y))
  }

  /** How far `v` still has to travel to reach `target` moving in direction `s`. */
  function Left(v: int, target: int, s: int): int
  {
    if s == 1 then target - v else v - target
  }

  function RemX(p: Setup, cur: Cell): int
  {
    Left(cur.x, p.x1, p.sx)
  }

  function RemY(p: Setup, cur: Cell): int
  {
    Left(cur.y, p.y1, p.sy)
  }

  /** `n * d`, written as repeated addition so that the solver unfolds it
      only where a proof asks for it. */
  function Times(n: nat, d: int): int
  {
    if n == 0 then 0 else Times(n - 1, d) + d
  }

  lemma {:induction false} TimesIsProduct(n: nat, d: int)
    ensures Times(n, d) == n * d
  {
    if n > 0 {
      TimesIsProduct(n - 1, d);
    }
  }

  lemma {:induction false} TimesAtLeast(n: nat, d: int)
    requires n >= 1 && d >= 0
    ensures Times(n, d) >= d
  {
    if n > 1 {
      TimesAtLeast(n - 1, d);
    }
  }

  /** What holds at the top of every loop iteration: the position has not
      overshot the end on either axis, the error term is determined by the
      distance still to cover (`u` and `v`), and on the dominant axis the
      error term always permits a step. */
  ghost predicate Inv(p: Setup, cur: Cell, err: int)
  {
    var u, v := RemX(p, cur), RemY(p, cur);
    && (p.sx == 1 || p.sx == -1) && (p.sy == 1 || p.sy == -1)
    && 0 <= u <= p.dx
    && 0 <= v <= p.dy
    && err == p.dx - p.dy + Times(u, p.dy) - Times(v, p.dx)
    && (p.dx >= p.dy ==> 2 * err >= -p.dy)
    && (p.dy >= p.dx ==> 2 * err <= p.dx)
  }

  /** The loop body after the endpoint test: `e2 = 2*err` and the two
      independent step tests. Returns the new position and error term. */
  function Step(p: Setup, cur: Cell, err: int): (Cell, int)
  {
    var e2 := 2 * err;
    var x, err1 := if e2 >= -p.dy then cur.x + p.sx else cur.x,
                   if e2 >= -p.dy then err - p.dy else err;
    var y, err2 := if e2 <= p.dx then cur.y + p.sy else cur.y,
                   if e2 <= p.dx then err1 + p.dx else err1;
    (Cell(x, y), err2)
  }

  lemma InitInv(start: Cell, end: Cell)
    ensures Inv(Prepare(start, end), start, Abs(end.x - start.x) - Abs(end.y - start.y))
  {
    var p := Prepare(start, end);
    TimesIsProduct(p.dx, p.dy);
    TimesIsProduct(p.dy, p.dx);
  }

  /** One step from a state that is not the end keeps the invariant, moves
      to a neighbouring cell, gets strictly closer to the end, and always
      advances one cell along the dominant axis. */
  lemma StepKeepsInv(p: Setup, cur: Cell, err: int)
    requires Inv(p, cur, err) && cur != Cell(p.x1, p.y1)
    ensures Inv(p, Step(p, cur, err).0, Step(p, cur, err).1)
    ensures Neighbours(cur, Step(p, cur, err).0)
    ensures RemX(p, Step(p, cur, err).0) + RemY(p, Step(p, cur, err).0) < RemX(p, cur) + RemY(p, cur)
    ensures p.dx >= p.dy ==> RemX(p, Step(p, cur, err).0) == RemX(p, cur) - 1
    ensures p.dy >= p.dx ==> RemY(p, Step(p, cur, err).0) == RemY(p, cur) - 1
  {
    var u, v := RemX(p, cur), RemY(p, cur);
    var e2 := 2 * err;
    var next := Step(p, cur, err).0;
    assert u == 0 <==> cur.x == p.x1;
    assert v == 0 <==> cur.y == p.y1;
    // No step overshoots: at u == 0 the error term forbids an x step,
    // at v == 0 it forbids a y step.
    if u == 0 {
      TimesAtLeast(v, p.dx);
      assert e2 < -p.dy;
    }
    if v == 0 {
      TimesAtLeast(u, p.dy);
      assert e2 > p.dx;
    }
    assert RemX(p, next) == if e2 >= -p.dy then u - 1 else u;
    assert RemY(p, next) == if e2 <= p.dx then v - 1 else v;
  }

  /** The cells the loop emits from position `cur` with error term `err`. */
  function Walk(p: Setup, cur: Cell, err: int): seq<Cell>
    requires Inv(p, cur, err)
    decreases RemX(p, cur) + RemY(p, cur)
  {
    if cur == Cell(p.x1, p.y1) then
      [cur]
    else
      StepKeepsInv(p, cur, err);
      var next := Step(p, cur, err);
      [cur] + Walk(p, next.0, next.1)
  }

  /** The loop's invariant: `cells` is what has been emitted so far, and
      together with what the loop will emit from `cur` it is `whole`. */
  ghost predicate Emitting(p: Setup, cells: seq<Cell>, cur: Cell, err: int, whole: seq<Cell>)
  {
    Inv(p, cur, err) && cells + Walk(p, cur, err) == whole
  }

  /** The loop step from `cur` to `next` keeps the loop's invariant. */
  lemma StepTo(p: Setup, cells: seq<Cell>, cur: Cell, err: int, next: Cell, err': int, whole: seq<Cell>)
    requires Emitting(p, cells, cur, err, whole) && cur != Cell(p.x1, p.y1)
    requires (next, err') == Step(p, cur, err)
    ensures Emitting(p, cells + [cur], next, err', whole)
    ensures RemX(p, next) + RemY(p, next) < RemX(p, cur) + RemY(p, cur)
  {
    StepKeepsInv(p, cur, err);
    assert Walk(p, cur, err) == [cur] + Walk(p, next, err');
  }

  /** At the end cell the loop has emitted everything. */
  lemma EmittedAll(p: Setup, cells: seq<Cell>, cur: Cell, err: int, whole: seq<Cell>)
    requires Emitting(p, cells, cur, err, whole) && cur == Cell(p.x1, p.y1)
    ensures cells + [cur] == whole
  {
  }

  /** Every cell that has not overshot the end on either axis. */
  ghost predicate Ahead(p: Setup, c: Cell)
  {
    0 <= RemX(p, c) <= p.dx && 0 <= RemY(p, c) <= p.dy
  }

  /** What the loop emits from any state that satisfies the invariant: it
      starts at the current cell, ends at the end cell and meets it nowhere
      before, has one cell per unit still to cover on the dominant axis,
      never overshoots, and moves to a neighbour at every step. */
  lemma {:induction false} WalkFacts(p: Setup, cur: Cell, err: int)
    requires Inv(p, cur, err)
    ensures var cells := Walk(p, cur, err);
      && |cells| >= 1 && cells[0] == cur && cells[|cells| - 1] == Cell(p.x1, p.y1)
      && (forall i :: 0 <= i < |cells| - 1 ==> cells[i] != Cell(p.x1, p.y1))
      && |cells| == 1 + (if p.dx >= p.dy then RemX(p, cur) else RemY(p, cur))
      && (forall i :: 0 <= i < |cells| ==> Ahead(p, cells[i]))
      && Connected(cells)
    decreases RemX(p, cur) + RemY(p, cur)
  {
    if cur != Cell(p.x1, p.y1) {
      StepKeepsInv(p, cur, err);
      var next := Step(p, cur, err);
      WalkFacts(p, next.0, next.1);
      var rest := Walk(p, next.0, next.1);
      assert Walk(p, cur, err) == [cur] + rest;
      assert Neighbours(cur, rest[0]);
    }
  }

  /** A cell that has not overshot the end of the segment from `start`
      lies in the segment's bounding box. */
  lemma AheadInBox(start: Cell, end: Cell, c: Cell)
    requires Ahead(Prepare(start, end), c)
    ensures InBox(start, end, c)
  {
  }

  /** The whole sequence `bresenhamAlgorithm(start, end)` hands to
      `grid.setPixel`. */
  function Line(start: Cell, end: Cell): seq<Cell>
  {
    InitInv(start, end);
    Walk(Prepare(start, end), start, Abs(end.x - start.x) - Abs(end.y - start.y))
  }

  /** `Line(start, end)` starts at `start`, ends at `end` and meets `end`
      nowhere before (so the loop breaks exactly once, after emitting `end`),
      has one cell per unit of the longer axis, and moves to a neighbouring
      cell at every step. */
  lemma LineFacts(start: Cell, end: Cell)
    ensures var cells := Line(start, end);
      && |cells| == Max(Abs(end.x - start.x), Abs(end.y - start.y)) + 1
      && cells[0] == start && cells[|cells| - 1] == end
      && (forall i :: 0 <= i < |cells| - 1 ==> cells[i] != end)
      && Connected(cells)
  {
    var p := Prepare(start, end);
    var err := Abs(end.x - start.x) - Abs(end.y - start.y);
    assert Cell(p.x1, p.y1) == end;
    assert RemX(p, start) == p.dx && RemY(p, start) == p.dy;
    InitInv(start, end);
    var cells := Walk(p, start, err);
    assert Line(start, end) == cells;
    WalkFacts(p, start, err);
  }

  /** Every cell of `Line(start, end)` lies in the bounding box of the two
      endpoints. */
  lemma LineInBox(start: Cell, end: Cell)
    ensures forall c :: c in Line(start, end) ==> InBox(start, end, c)
  {
    var p := Prepare(start, end);
    InitInv(start, end);
    WalkFacts(p, start, Abs(end.x - start.x) - Abs(end.y - start.y));
    forall c | c in Line(start, end)
      ensures InBox(start, end, c)
    {
      AheadInBox(start, end, c);
    }
  }

  /** A zero-length segment is drawn as its single cell. */
  lemma LineOfOneCell(c: Cell)
    ensures Line(c, c) == [c]
  {
  }

  /** On a segment with no horizontal extent every step is one row towards
      the end. */
  lemma {:induction false} WalkVertical(p: Setup, cur: Cell, err: int)
    requires Inv(p, cur, err) && p.dx == 0
    ensures var cells := Walk(p, cur, err);
      && |cells| == RemY(p, cur) + 1
      && forall i :: 0 <= i < |cells| ==>
           cells[i] == Cell(p.x1, if p.sy == 1 then cur.y + i else cur.y - i)
    decreases RemY(p, cur)
  {
    assert cur.x == p.x1;
    if cur != Cell(p.x1, p.y1) {
      StepKeepsInv(p, cur, err);
      var next := Step(p, cur, err);
      assert next.0 == Cell(p.x1, cur.y + p.sy);
      WalkVertical(p, next.0, next.1);
      assert Walk(p, cur, err) == [cur] + Walk(p, next.0, next.1);
    }
  }

  /** In one column, `Line` lights exactly the rows between the two
      endpoints: the same cells as the vertical branch of the step
      rasteriser, whichever endpoint comes first. */
  lemma LineInColumn(start: Cell, end: Cell)
    requires start.x == end.x
    ensures forall c :: c in Line(start, end) <==> c.x == start.x && Between(c.y, start.y, end.y)
  {
    var p := Prepare(start, end);
    var err := Abs(end.x - start.x) - Abs(end.y - start.y);
    assert RemY(p, start) == p.dy;
    InitInv(start, end);
    var cells := Walk(p, start, err);
    assert Line(start, end) == cells;
    WalkVertical(p, start, err);
    forall c
      ensures c in cells <==> c.x == start.x && Between(c.y, start.y, end.y)
    {
      if c.x == start.x && Between(c.y, start.y, end.y) {
        var i := if p.sy == 1 then c.y - start.y else start.y - c.y;
        assert cells[i] == c;
      }
    }
  }

  /** Drawn the other way round, a segment can light other cells: the
      `>=` and `<=` of the two step tests break ties towards different
      cells, so the rasteriser is not symmetric under swapping endpoints. */
  lemma NotReversible()
    ensures Line(Cell(0, 0), Cell(2, 1)) == [Cell(0, 0), Cell(1, 1), Cell(2, 1)]
    ensures Line(Cell(2, 1), Cell(0, 0)) == [Cell(2, 1), Cell(1, 0), Cell(0, 0)]
    ensures (set c | c in Line(Cell(0, 0), Cell(2, 1))) != (set c | c in Line(Cell(2, 1), Cell(0, 0)))
  {
    var p := Prepare(Cell(0, 0), Cell(2, 1));
    InitInv(Cell(0, 0), Cell(2, 1));
    StepKeepsInv(p, Cell(0, 0), 1);
    assert Step(p, Cell(0, 0), 1) == (Cell(1, 1), 2);
    StepKeepsInv(p, Cell(1, 1), 2);
    assert Step(p, Cell(1, 1), 2) == (Cell(2, 1), 1);
    assert Walk(p, Cell(2, 1), 1) == [Cell(2, 1)];
    assert Walk(p, Cell(1, 1), 2) == [Cell(1, 1), Cell(2, 1)];
    assert Walk(p, Cell(0, 0), 1) == [Cell(0, 0), Cell(1, 1), Cell(2, 1)];

    var q := Prepare(Cell(2, 1), Cell(0, 0));
    InitInv(Cell(2, 1), Cell(0, 0));
    StepKeepsInv(q, Cell(2, 1), 1);
    assert Step(q, Cell(2, 1), 1) == (Cell(1, 0), 2);
    StepKeepsInv(q, Cell(1, 0), 2);
    assert Step(q, Cell(1, 0), 2) == (Cell(0, 0), 1);
    assert Walk(q, Cell(0, 0), 1) == [Cell(0, 0)];
    assert Walk(q, Cell(1, 0), 2) == [Cell(1, 0), Cell(0, 0)];
    assert Walk(q, Cell(2, 1), 1) == [Cell(2, 1), Cell(1, 0), Cell(0, 0)];

    var forwards := set c | c in Line(Cell(0, 0), Cell(2, 1));
    var backwards := set c | c in Line(Cell(2, 1), Cell(0, 0));
    assert Cell(1, 1) in forwards;
    assert Cell(1, 1) !in backwards;
  }

  /** The loop of `bresenhamAlgorithm`, with each `grid.setPixel(x0, y0)`
      appending the cell to `cells`. */
  method Rasterise(start: Cell, end: Cell) returns (cells: seq<Cell>)
    ensures cells == Line(start, end)
  {
    var dx: int := Abs(end.x - start.x);
    var sx := if start.x < end.x then 1 else -1;
    var dy: int := Abs(end.y - start.y);
    var sy := if start.y < end.y then 1 else -1;
    var x0, y0 := start.x, start.y;
    var x1, y1 := end.x, end.y;
    var err := dx - dy;
    ghost var p := Setup(x1, y1, dx, dy, sx, sy);
    assert p == Prepare(start, end);
    InitInv(start, end);
    ghost var whole := Walk(p, start, err);
    assert whole == Line(start, end);
    cells := [];
    while true
      invariant Emitting(p, cells, Cell(x0, y0), err, whole)
      decreases RemX(p, Cell(x0, y0)) + RemY(p, Cell(x0, y0))
    {
      ghost var drawn, cur, before := cells, Cell(x0, y0), err;
      cells := cells + [Cell(x0, y0)];
      if x0 == x1 && y0 == y1 {
        EmittedAll(p, drawn, cur, before, whole);
        break;
      }
      ghost var step := Step(p, cur, before);
      var e2 := 2 * err;
      if e2 >= -dy {
        err := err - dy;
        x0 := x0 + sx;
      }
      if e2 <= dx {
        err := err + dx;
        y0 := y0 + sy;
      }
      assert Cell(x0, y0) == step.0 && err == step.1;
      StepTo(p, drawn, cur, before, Cell(x0, y0), err, whole);
    }
  }
}
