# Grid line rasteriser (kg-3) in Dafny

This project models the core of `script.js`: an interactive grid on an HTML canvas. The user clicks two cells and the program draws a line between them, either with the integer Bresenham algorithm or with a step-based sampler.

The model covers five parts:

- the Bresenham rasteriser;
- the vertical branch of the step rasteriser;
- the mapping between grid cells and canvas pixels;
- the string keys under which the grid stores its lit cells;
- the `Grid` object's state: the lit keys, the picked cells, the scale and the margins.

Modules, in dependency order:

- `Cells`: the `Cell` datatype and small integer helpers. A cell is drawable when neither coordinate is negative. Two cells are neighbours when they are distinct and touch at an edge or corner.
- `Keys`: the key format `x.toString() + ' ' + y.toString()` and its reader, `split(' ')` plus `parseInt`. It proves the round trip `ParseKey(Key(c)) == Some(c)`, injectivity, and the meaning of the key set a run of `setPixel` calls builds.
- `Mapping`: `_getRectCoords`, `_getRectCoordsFromClick` and the click handler's guard for clicks on the margin.
  - `Math.floor((a) / scale)` with a positive scale is Dafny's Euclidean `/`.
  - A mapped click always lies in the click area of its cell, and the mapping is exact: a pixel maps to `c` if and only if it is in `c`'s click area.
  - That area is the drawn square shifted down by one pixel row, so the top-left pixel of a square selects the cell above it.
- `Bresenham`: `Line(start, end)` is the cell sequence the loop emits, as a recursive function over the loop state. `Rasterise` is the loop itself, proved to emit exactly `Line(start, end)`.
  - The loop invariant says no axis has overshot the end. It also pins the error term: `err == dx - dy + u*dy - v*dx`, where `u` and `v` are the distances still to cover. On the dominant axis it always allows a step.
  - From this: the loop terminates, makes `max(|dx|, |dy|) + 1` emissions and stops exactly at the end. Every cell lies in the bounding box, and consecutive cells are neighbours.
- `LineBySteps`: the vertical branch of `drawLineBySteps`, which swaps the endpoints by recursion and then walks the rows in increasing order.
- `Surface`: the `Grid` class.
  - `created` is the set of key strings (`_createdPoints`) and `clicked` the picked cells (`_manuallyClicked`).
  - The class invariant says that every stored key is well formed, that at most two cells are picked, and that the picked cells have no negative coordinate.
  - `Click` is the click listener up to the point where it starts a rendering. It reports through `ready` when two cells are picked, and `RenderBresenham` or `RenderVertical` model the rendering that follows.

Rendering is modelled by its effect on state only. Each `grid.setPixel(x, y)` call made by a rasteriser is an element of the returned sequence, and `Grid.Plot` applies them in order. Painting the canvas is not modelled.

Two properties one might expect do not hold, and the model shows why:

- Bresenham is not symmetric. Drawing from `(0,0)` to `(2,1)` lights `(1,1)`, while the reverse direction lights `(1,0)` instead (`Bresenham.NotReversible`). The `>=` and `<=` of the two step tests break ties towards different cells.
- After `setScale`, nothing keeps the lit cells inside the redrawn grid. The set of keys is kept exactly (`Surface.Grid.SetScale`), but no bound relates the stored cells to the canvas size. A cell picked at a small scale can lie outside the grid drawn at a larger one (`Mapping.RescaledOffCanvas`).

## Model

| member | source | states |
|---|---|---|
| Keys.NatToString | script.js:120 | `toString` of a non-negative integer is a non-empty string of decimal digits; `DigitsRoundTrip` proves `parseInt` reads it back |
| Keys.DigitsValue | script.js:74-75 | `parseInt` of a digit string; `DigitsRoundTrip` proves it inverts `NatToString` |
| Keys.Key | script.js:120 | the key `x + ' ' + y` of a drawable cell, also built for the membership test at script.js:89; `KeyRoundTrip` and `KeyInjective` prove it is read back exactly and never shared by two cells |
| Keys.DigitsRoundTrip | script.js:73-75 | `parseInt` of the decimal digits `toString` writes for a non-negative integer gives that integer back |
| Keys.FirstSpace | script.js:73 | the position `split(' ')` cuts at: the first space, with no space before it; or none when the string has no space |
| Keys.ParseKey | script.js:72-76 | a cell read back has no negative coordinate; text with no space is rejected, and accepted text holds only digits and spaces. The cell read from a key is stated by `KeyRoundTrip` |
| Keys.KeyRoundTrip | script.js:72-76 | reading back the key `setPixel` stores for a cell gives that cell, so every stored key is well formed |
| Keys.KeyInjective | script.js:120 | two drawable cells share a key exactly when they are the same cell, so the key set stands for a set of cells |
| Keys.DrawnKeysAreKeys | script.js:120 | the keys a run of `setPixel` calls adds are the keys of the drawable cells of the run |
| Keys.DrawnKeysMember | script.js:120 | a drawable cell's key is added by a run of `setPixel` calls exactly when the cell is in the run |
| Keys.ExampleKey | script.js:120 | the cell (12, 3) is stored as `"12 3"` and read back; a string with no space is rejected |
| Mapping.RectCoords | script.js:53-55 | the top-left corner of the square drawn for a cell; `ClickRoundTrip` and `CornerSelectsCellAbove` prove how `_getRectCoordsFromClick` inverts it, and `ExampleLayout` gives cell (0,0) at (30, 350) |
| Mapping.CellFromClick | script.js:57-62 | the clicked pixel lies in the click area of the cell it is mapped to |
| Mapping.ClickRoundTrip | script.js:53-62 | a pixel maps to a cell if and only if it lies in that cell's click area (columns `[x, x+scale)`, rows `(y, y+scale]` of its square) |
| Mapping.CornerSelectsCellAbove | script.js:53-62 | the top-left pixel of the square drawn for a cell selects the cell one row above it |
| Mapping.ClickCell | script.js:84-87 | a click is ignored exactly when it is on the row-number margin or below the cells; otherwise it selects a drawable cell whose click area holds it |
| Mapping.RescaledOffCanvas | script.js:137-142 | a stored cell is not bounded by the scale: row 30 of a 380-pixel cell area is drawn inside the canvas at scale 10 and above its top at scale 50 |
| Mapping.ExampleLayout | script.js:53-62 | with scale 50, margin 30 and height 400, cell (0,0) is drawn at (30, 350), pixel (35, 360) selects (0,0), and pixel x 10 is rejected |
| Bresenham.Prepare | script.js:217-224 | the values fixed before the loop: the end cell, `dx`, `dy`, `sx`, `sy`; `InitInv` proves they and `err = dx - dy` satisfy the loop invariant |
| Bresenham.Step | script.js:230-233 | the loop body after the endpoint test; `StepKeepsInv` proves what one step does |
| Bresenham.Walk | script.js:226-234 | the cells the loop emits from a given state; `WalkFacts` and `WalkVertical` prove its shape |
| Bresenham.Line | script.js:217-234 | the cells the loop emits from `start`; `LineFacts`, `LineInBox`, `LineInColumn` and `NotReversible` are proved about it and `Rasterise` emits exactly it |
| Bresenham.InitInv | script.js:217-225 | the values set up before the loop satisfy the loop invariant |
| Bresenham.StepKeepsInv | script.js:229-233 | one loop step away from the end keeps the invariant, moves to a neighbouring cell, comes strictly closer to the end, and advances one cell on the dominant axis |
| Bresenham.WalkFacts | script.js:225-234 | from any state satisfying the invariant, the loop emits the current cell first and the end cell last, and meets the end nowhere before. It emits one cell per unit left on the dominant axis, never overshoots, and moves between neighbours |
| Bresenham.LineFacts | script.js:214-235 | the line starts at `start`, ends at `end`, and meets `end` nowhere before, so the loop breaks once. It has `max(|dx|,|dy|)+1` cells, and consecutive cells are neighbours |
| Bresenham.LineInBox | script.js:214-235 | every cell of the line lies in the bounding box of its two endpoints |
| Bresenham.LineOfOneCell | script.js:229-230 | a segment from a cell to itself lights exactly that cell |
| Bresenham.WalkVertical | script.js:225-234 | with no horizontal extent, every step moves one row towards the end |
| Bresenham.LineInColumn | script.js:214-235 | in one column the line lights exactly the rows between the endpoints: the same cells as the step rasteriser's vertical branch |
| Bresenham.NotReversible | script.js:231-233 | the lines from (0,0) to (2,1) and back differ as sets of cells |
| Bresenham.Rasterise | script.js:214-235 | the `while (true)` loop emits exactly the sequence `Line(start, end)` |
| LineBySteps.DrawVertical | script.js:184-193 | with equal columns it emits `|y1-y0|+1` cells. They are every row from the lower endpoint to the upper one, in increasing order, whichever endpoint came first |
| Surface.Toggle | script.js:89-93 | the clicked cell's key is switched, removed when present and added when absent, and no other key changes |
| Surface.ParseKeys | script.js:71-76 | the collected cells are exactly the cells of the stored keys |
| Surface.Grid.constructor | script.js:18-27 | a new grid has the given scale and margin, the cell area is the canvas height less the number row, and nothing is lit or picked |
| Surface.Grid.SetPixel | script.js:114-121 | the cell's key is added; a cell with a negative coordinate changes nothing |
| Surface.Grid.ClearPixel | script.js:123-131 | the cell's key is removed; a cell with a negative coordinate changes nothing |
| Surface.Grid.Plot | script.js:226-229 | calling `setPixel` on each emitted cell adds exactly the keys of the drawable ones |
| Surface.Grid.Unplot | script.js:77-79 | calling `clearPixel` on each collected cell removes exactly their keys |
| Surface.Grid.ClearCreated | script.js:70-81 | the reset before a third click leaves no key stored |
| Surface.Grid.Click | script.js:67-93 | Click has three branches. (1) After two picks, everything is cleared and forgotten. (2) A click on the margin or below the cells then changes nothing more. (3) Any other click appends its cell and toggles that cell's key. `ready` holds exactly when two cells are picked |
| Surface.Grid.RenderBresenham | script.js:94-96 | the keys of the Bresenham line between the picked cells are added. A drawable cell is lit afterwards exactly when it was lit before or is on the line |
| Surface.Grid.RenderVertical | script.js:97-99 | for two picks in one column, a drawable cell is lit afterwards exactly when it was lit before or is in that column between them |
| Surface.Grid.Relight | script.js:139-142 | re-lighting every stored key leaves the stored keys as they were |
| Surface.Grid.SetScale | script.js:133-143 | the new scale and margin are set, the cell-area height is recomputed, and the set of lit keys is unchanged |

## Left out

- The general branch of `drawLineBySteps` (script.js:194-211) is not modelled. It samples `y = k*x + b` in floating point at a fractional step, and the model has no floating-point arithmetic.
- LineBySteps.DrawVertical: models only the vertical branch of `drawLineBySteps`. When the two picks are not in one column, `Surface.Grid.RenderVertical` does not apply.
- Canvas painting is not modelled: `_drawGrid`, `_drawSquares`, `_drawDigits`, `fillRect`, `clearRect` and `strokeRect`. Only the state the grid keeps is modelled.
- `measureText` is not modelled. The width of the row numbers is a parameter (`xOffset`) of the constructor and of `SetScale`.
- `xOffset` and the click coordinates are modelled as integers. In the source they are fractional pixel values.
- Asynchrony is not modelled: `async`/`await`, `timeout`, the pacing delays, and the `_rendering` promise that serialises clicks, rescaling and rendering. The model treats every operation as running to completion on its own.
- The configuration setters are not modelled: `setSleepTime`, `setStep`, `useBresenham` and `useByStep`. The values they store only pace the animation or pick the rasteriser. `Grid.Click` reports `ready`, and the choice between `RenderBresenham` and `RenderVertical` is left to the caller.
- The getters `width()` and `height()` are not modelled, nor `console.log`.
- The DOM wiring (`update*` handlers, sliders, `getBoundingClientRect`) is not modelled. Click coordinates are taken relative to the canvas.
- Numbers are modelled as unbounded integers. JavaScript numbers are doubles: integers above 2^53 are inexact, and `toString` switches to exponent form from 1e21 on, which `Keys.NatToString` does not model. Canvas-sized coordinates are far below both bounds.
- Keys.ParseKey: accepts only two non-empty digit strings separated by a single space. `parseInt` would also accept a leading sign, surrounding junk or further parts. The grid only ever reads keys it wrote itself, and those are always of the accepted form.
- Surface.Grid.constructor: requires a positive scale, and so does Surface.Grid.SetScale. The source does not check this; the only values it receives are the constant 50 and the scale slider. The slider's page is not part of this model.
