# scan-canvas render model

A Dafny model of the `<scan-canvas>` custom element's `render()` method. `render()` draws a flat list of intensities as a grid of square cells of one base colour. Each cell's opacity is its value relative to the largest value drawn.

The model has four modules:

- `Canvas2D` (`canvas2d.dfy`) is the drawing surface: the `<canvas>` element together with its 2D context. The class `Canvas` records every call made on it in a command log (`seq<Command>`). That log is everything a render can be observed to do. The module also defines three predicates on logs:
  - every opacity lies in (0, 1];
  - every filled rectangle lies inside the canvas;
  - every fill comes right after an opacity assignment.
- `ScanGrid` (`scan_grid.dfy`) is the rendering rule as pure functions. `RenderSpec` gives the exact command list one render issues. It is built from:
  - `EffectiveCellSize`, the `|| 8` default;
  - `CellsAlong`, the floored cell counts;
  - `MaxPrefix`, the scan loop;
  - `Alpha`, `CellX`, `CellY` and `CellCommands`, one turn of the draw loop;
  - `DrawPrefix`, the draw loop;
  - `GridCommands`, everything after the clear.
- `ScanCanvasElement` (`scan_canvas.dfy`) is the element: its attribute values (as the getters return them) and the canvas it owns. `Render` is imperative:
  - it resizes and clears the canvas;
  - `DrawGrid` then takes the empty-grid return;
  - `ScanMax` runs the scan loop with its invariant;
  - `DrawGrid` takes the `maxVal <= 0` return and sets the fill colour;
  - `DrawCells` runs the draw loop with its invariant, calling `DrawCell` once per turn;
  - `DrawGrid` resets the opacity.

  Each of these methods is proved to compute, or append to the canvas log, exactly its part of `RenderSpec`. Splitting `render()` into several methods keeps each proof small. The calls issued, and their order, are those of the single method in the source.
- `RenderProperties` (`render_properties.dfy`) proves what a render promises, as lemmas about `RenderSpec`:
  - the early exits;
  - the single clear before any fill;
  - the maximum scan;
  - that the clamp on the opacity is redundant;
  - which cells are drawn, in which order, where, and at what opacity;
  - that every rectangle lies inside the canvas;
  - that entries past the consumed window are never read.

Numbers are exact: geometry and intensities are `real`, `v / maxVal` is exact division and `Math.floor` is `.Floor`. A parsed pixel is `NaN` or a finite number (`Number`). `pixels[i] || 0` is `Coerce`, which maps NaN to 0; a zero of either sign is 0 already.

`_cssColorWithAlpha` (resources/public/scan-canvas.js:67-72) returns its colour unchanged, so the fill style is the base colour itself.

Two consequences of the code are worth stating:

- **A pixel size of 0 is not degenerate.** Line 77 (`|| 8`) turns it into 8, so only a negative size takes the early return (`CellSizeDefault`, `DefaultCellSizeExample`).
- **Index 3 on a two-column grid** is column 1 of row 1, at (cellSize, cellSize) (lines 124-125, `DefaultCellSizeExample`).

Rendering twice with the same inputs issues the same command list both times. This holds because `RenderSpec` is a function of the element's fields, and `Render` does not change those fields.

## Model

| member | source | states |
|---|---|---|
| ScanCanvasElement.ScanCanvas.constructor | resources/public/scan-canvas.js:6-11 | A new element owns a fresh canvas with an empty log. Its attributes are the getters' fallbacks: width 0, height 0, pixel size 8, colour `#00ff88`, no pixels. |
| ScanCanvasElement.ScanCanvas.Render | resources/public/scan-canvas.js:74-132 | A render appends exactly `RenderSpec(width, height, pixelSize, baseColor, pixels)` to the canvas log and nothing else. |
| ScanCanvasElement.ScanCanvas.DrawGrid | resources/public/scan-canvas.js:101-131 | After the clear, appends exactly `GridCommands`. That is nothing for an empty grid or a non-positive maximum; otherwise the fill colour, the draw loop's calls, and the opacity reset. |
| ScanCanvasElement.ScanCanvas.ScanMax | resources/public/scan-canvas.js:104-109 | Changes nothing. Returns `MaxPrefix(px, len)`; the loop keeps `maxVal == MaxPrefix(px, i)`. |
| ScanCanvasElement.ScanCanvas.DrawCells | resources/public/scan-canvas.js:116-129 | Appends exactly `DrawPrefix(px, len, ...)`; the loop keeps the log equal to the old log plus `DrawPrefix(px, i, ...)`. |
| ScanCanvasElement.ScanCanvas.DrawCell | resources/public/scan-canvas.js:117-128 | One draw-loop turn appends exactly `CellCommands` for index i. That is nothing for a non-positive value or opacity; otherwise the opacity, then the fill of the cell at `((i % cols) * ps, floor(i / cols) * ps)`. |
| Canvas2D.Canvas.SetSize | resources/public/scan-canvas.js:83-84 | Appends one resize to the log. It stands for the pair of assignments to `canvas.width` and `canvas.height` (also at lines 89-90). |
| Canvas2D.Canvas.ClearRect | resources/public/scan-canvas.js:99 | Appends `clearRect(x, y, w, h)` to the log. |
| Canvas2D.Canvas.SetFillStyle | resources/public/scan-canvas.js:113 | Appends the `fillStyle` assignment to the log. |
| Canvas2D.Canvas.SetGlobalAlpha | resources/public/scan-canvas.js:127 | Appends a `globalAlpha` assignment to the log. It is also used for the reset at line 131. |
| Canvas2D.Canvas.FillRect | resources/public/scan-canvas.js:128 | Appends `fillRect(x, y, w, h)` to the log. |
| ScanGrid.Degenerate | resources/public/scan-canvas.js:81 | The early-return test: width or height not positive, or the defaulted pixel size not positive. `CellSizeDefault` and `DegenerateOnlyResizes` state what it means. |
| ScanGrid.EmptyGrid | resources/public/scan-canvas.js:101 | The second early-return test: no whole column, no whole row, or no cell. `EmptyGridOnlyClears` states its effect. |
| ScanGrid.RenderSpec | resources/public/scan-canvas.js:74-132 | Computes the whole call list: the 0 x 0 resize when the geometry is degenerate; otherwise size, clear, then `GridCommands` on `floor(w/cs)` x `floor(h/cs)` cells. Its properties are the `RenderProperties` lemmas. |
| ScanGrid.Coerce | resources/public/scan-canvas.js:107 | Computes the falsy-to-0 coercion of an entry: NaN becomes 0 and a number is kept (a zero is 0 already). Used by the scan and the draw loop alike (line 117). |
| ScanGrid.EffectiveCellSize | resources/public/scan-canvas.js:77 | Leaves a non-zero pixel size unchanged, and the result is positive exactly when the pixel size is not negative (0 becomes 8). |
| ScanGrid.CellsAlong | resources/public/scan-canvas.js:94-95 | Computes `Math.floor(extent / cellSize)`; `CellsFit` proves that many cells fit. |
| ScanGrid.MaxPrefix | resources/public/scan-canvas.js:104-109 | The scan's value after [0, k), which is never negative; `MaxPrefixIsMaximum` characterises it as the maximum. |
| ScanGrid.Alpha | resources/public/scan-canvas.js:121 | `Math.max(0, Math.min(1, v / maxVal))`, always in [0, 1]; `AlphaIsRatio` proves the clamp inactive on the drawn path. |
| ScanGrid.CellX | resources/public/scan-canvas.js:124 | Computes `(i % cols) * cellSize`; `CellInsideCanvas` bounds it. |
| ScanGrid.CellY | resources/public/scan-canvas.js:125 | Computes `floor(i / cols) * cellSize`; `CellInsideCanvas` bounds it. |
| ScanGrid.CellCommands | resources/public/scan-canvas.js:117-128 | Computes one draw-loop turn: nothing for a non-positive value or opacity, else opacity then fill; `CellCommandsSkipsExactlyNonPositive` states when it draws. |
| ScanGrid.DrawPrefix | resources/public/scan-canvas.js:116-129 | Computes the draw loop's calls over [0, k); `DrawPrefixIsCellPairs` and `DrawPrefixShape` state what they are. |
| ScanGrid.GridCommands | resources/public/scan-canvas.js:96-131 | Computes the calls after the clear: nothing for an empty grid or a non-positive maximum, else fill colour, `DrawPrefix` over the consumed window, opacity reset; `DrawingRenderSplits` and `OnlyClearsIffNothingPositive` state when each case arises. |
| ScanGrid.ConsumedCount | resources/public/scan-canvas.js:101-105 | The number of entries a render reads never exceeds the list's length. |
| RenderProperties.CellSizeDefault | resources/public/scan-canvas.js:77-81 | A pixel size of 0 renders with cells of 8. The early return fires exactly when the width or height is not positive or the pixel size is negative. |
| RenderProperties.DegenerateOnlyResizes | resources/public/scan-canvas.js:81-86 | A render is the single 0 x 0 resize if and only if the geometry is degenerate. |
| RenderProperties.CellsFit | resources/public/scan-canvas.js:94-95 | `floor(extent / cellSize)` is non-negative, and that many whole cells fit inside the extent. |
| RenderProperties.CellInsideCanvas | resources/public/scan-canvas.js:124-128 | For i < cols * rows, the grid has columns, and cell i's rectangle lies inside width x height. |
| RenderProperties.MaxPrefixIsMaximum | resources/public/scan-canvas.js:104-109 | After visiting [0, k), `maxVal` is at least 0 and at least every coerced value. It is either 0 or one of those values. |
| RenderProperties.MaxPrefixPositive | resources/public/scan-canvas.js:104-111 | The scan ends positive if and only if some visited value is positive. |
| RenderProperties.MaxPrefixWindow | resources/public/scan-canvas.js:104-109 | The scan over [0, k) depends only on the first k entries. |
| RenderProperties.AlphaIsRatio | resources/public/scan-canvas.js:118-122 | For 0 < v <= maxVal, the clamped opacity equals `v / maxVal`, lies in (0, 1], and is 1 when v equals the maximum. So the clamp and the `alpha <= 0` test never change anything. |
| RenderProperties.AlphaMonotone | resources/public/scan-canvas.js:121 | For 0 <= v1 < v2 <= maxVal, the opacity of v1 is strictly below that of v2. |
| RenderProperties.CellCommandsSkipsExactlyNonPositive | resources/public/scan-canvas.js:117-128 | A draw-loop turn issues nothing if and only if the coerced value is not positive. For 0 < v <= maxVal it issues opacity `v / maxVal` and then the fill of cell i. |
| RenderProperties.PositiveIndicesExact | resources/public/scan-canvas.js:116-118 | The drawn indices increase strictly. An index below k is among them if and only if its coerced value is positive. |
| RenderProperties.CellPairsAt | resources/public/scan-canvas.js:127-128 | Drawing a list of cells puts cell j's opacity at position 2j and its fill at position 2j+1. |
| RenderProperties.DrawPrefixIsCellPairs | resources/public/scan-canvas.js:116-129 | When no visited value exceeds maxVal, the draw loop over [0, k) issues exactly the positive indices' (opacity `v / maxVal`, fill) pairs, in index order. |
| RenderProperties.DrawPrefixShape | resources/public/scan-canvas.js:116-129 | The draw loop's log has two calls per positive index. Call 2j is the opacity `v / maxVal` of the j-th positive index, and call 2j+1 is the fill of its cell. |
| RenderProperties.DrawPrefixWellFormed | resources/public/scan-canvas.js:116-129 | Within a width x height grid, the draw loop sets only opacities in (0, 1] and fills only inside the canvas. It sets an opacity right before every fill. |
| RenderProperties.DrawPrefixOnlyDraws | resources/public/scan-canvas.js:116-129 | The draw loop issues only opacity and fill calls. |
| RenderProperties.DrawPrefixWindow | resources/public/scan-canvas.js:116-129 | The draw loop over [0, k) depends only on the first k entries. |
| RenderProperties.SizesThenClearsOnce | resources/public/scan-canvas.js:89-99 | Past the early return, the canvas is first sized to width x height and then cleared once with `(0, 0, width, height)`. Every later call is a fill colour, an opacity or a fill. |
| RenderProperties.EmptyGridOnlyClears | resources/public/scan-canvas.js:94-101 | With no whole column or no whole row, nothing is consumed and nothing follows the clear. |
| RenderProperties.OnlyClearsIffNothingPositive | resources/public/scan-canvas.js:104-113 | Past the early return, the render stops at the clear (no fill colour, no opacity, no fill) if and only if every consumed value is at most 0. |
| RenderProperties.DrawingRenderSplits | resources/public/scan-canvas.js:111-131 | When some consumed value is positive, the grid has columns and the scan ends positive. The render is then: size, clear, fill colour, the draw loop's calls, and opacity reset to 1. |
| RenderProperties.DrawsPositiveCells | resources/public/scan-canvas.js:104-131 | When some consumed value is positive, the render is: size, clear, fill colour, then for each positive consumed index in increasing order its opacity (value over the largest consumed value) and its cell, then opacity 1. |
| RenderProperties.RenderWellFormed | resources/public/scan-canvas.js:74-132 | For every input, a render sets only opacities in (0, 1] and fills only inside the width x height canvas. Every fill comes right after an opacity. |
| RenderProperties.RenderReadsOnlyConsumed | resources/public/scan-canvas.js:104-129 | Two pixel lists that agree on the consumed window `min(length, cols * rows)` render identically. |
| RenderProperties.RenderTruncates | resources/public/scan-canvas.js:105 | Rendering the whole list is the same as rendering its consumed window alone. |
| RenderProperties.TwoByTwoExample | resources/public/scan-canvas.js:74-132 | 16 x 16 with cells of 8 and values [4, 0, 0, 8]: size, clear, colour; opacity 0.5 and fill at (0, 0); opacity 1 and fill at (8, 8); reset. |
| RenderProperties.DefaultCellSizeExample | resources/public/scan-canvas.js:77-131 | 16 x 16 with pixel size 0 and values [10, 5, NaN, 2]: cells of 8; opacity 1 at (0, 0), 0.5 at (8, 0) and 0.2 at (8, 8); the NaN is skipped. |

## Left out

- The custom-element lifecycle (`observedAttributes`, `connectedCallback`, `attributeChangedCallback`, lines 2-28) and `customElements.define` (line 135). These decide when `render()` runs, not what it does.
- The shadow root, the injected `<style>` and the canvas's inline `style.width` / `style.height` strings (lines 8-19, 91-92). They are presentation only and are not recorded in the log.
- The property getters and setters and `_numAttr` (lines 31-51). The element's fields hold the values the getters return: finite numbers, or the fallbacks 0, 0 and 8.
- `_parsePixels` (lines 53-65). It depends on `JSON.parse`, a regular-expression split and `Number()`. The model takes its already-parsed output, a sequence of `Number`.
- Infinite intensities. `Number` has only NaN and finite values, so `Infinity` (which `Number()` can produce) is not modelled. With an infinite entry, `maxVal` is Infinity. Every finite positive cell then gets opacity 0 and is skipped by the `alpha <= 0` test. For the infinite cell itself, the assignment `ctx.globalAlpha = NaN` is issued and ignored, so that cell is drawn at the current opacity. So `AlphaIsRatio`'s "the clamp and the `alpha <= 0` test never change anything" holds only for finite intensities.
- IEEE-754 rounding. `v / maxVal`, `width / pixelSize` and the cell positions are exact real arithmetic.
- The integer conversion the browser applies when a canvas's `width` and `height` are assigned. `SetSize` records the values as assigned. One `SetSize` command stands for the pair of assignments `canvas.width = w; canvas.height = h`. So `FillsInside` and `RenderWellFormed` measure "inside the canvas" against the assigned width and height, not against the truncated bitmap. For example, with width 16.9 and pixel size 8.45 there are 2 columns, and cell 1 ends at 16.9, past the 16-pixel bitmap.
