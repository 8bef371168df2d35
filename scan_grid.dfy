/** The rendering rule of the scan canvas as pure functions: from the element's
    attributes (width, height, pixel size, base colour, parsed pixels) to the exact
    list of calls `render()` makes on its canvas. */
module ScanGrid {
  import opened Canvas2D

  /** A JavaScript number as the pixel parser produces it (`Number(x)` of each
      entry): NaN, or a finite value. */
  datatype Number = NaN | Finite(value: real)

  /** `pixels[i] || 0`: the falsy numbers (NaN, 0 and -0) become 0, every other
      number is kept. */
  function Coerce(x: Number): real
  {
    match x
    case NaN => 0.0
    case Finite(v) => v
  }

  /** `this.pixelSize || 8`: a pixel size of 0 falls back to 8. */
  function EffectiveCellSize(pixelSize: real): (r: real)
    ensures pixelSize != 0.0 ==> r == pixelSize
    ensures r > 0.0 <==> pixelSize >= 0.0
  {
    if pixelSize == 0.0 then 8.0 else pixelSize
  }

  /** The early-return test of `render()`. */
  predicate Degenerate(width: real, height: real, pixelSize: real)
  {
    width <= 0.0 || height <= 0.0 || EffectiveCellSize(pixelSize) <= 0.0
  }

  /** `Math.floor(extent / cellSize)`: how many whole cells fit along one side. */
  function CellsAlong(extent: real, cellSize: real): (n: int)
    requires cellSize > 0.0
  {
    (extent / cellSize).Floor
  }

  function Min(a: int, b: int): int
  {
    if a < b then a else b
  }

  /** `Math.min` and `Math.max` on finite numbers. */
  function MinReal(a: real, b: real): real
  {
    if a < b then a else b
  }

  function MaxReal(a: real, b: real): real
  {
    if a < b then b else a
  }

  /** The value `maxVal` holds after the scan loop has visited indices [0, k):
      it starts at 0 and is raised to every larger coerced value. */
  function MaxPrefix(pixels: seq<Number>, k: nat): (m: real)
    requires k <= |pixels|
    ensures 0.0 <= m
  {
    if k == 0 then 0.0
    else
      var m := MaxPrefix(pixels, k - 1);
      var v := Coerce(pixels[k - 1]);
      if v > m then v else m
  }

  /** `Math.max(0, Math.min(1, v / maxVal))`. */
  function Alpha(v: real, maxVal: real): (a: real)
    requires maxVal != 0.0
    ensures 0.0 <= a <= 1.0
  {
    MaxReal(0.0, MinReal(1.0, v / maxVal))
  }

  /** Left edge of cell `i` in a row-major grid with `cols` columns. */
  function CellX(i: nat, cols: int, cellSize: real): real
    requires cols > 0
  {
    (i % cols) as real * cellSize
  }

  /** Top edge of cell `i` in a row-major grid with `cols` columns. */
  function CellY(i: nat, cols: int, cellSize: real): real
    requires cols > 0
  {
    (i / cols) as real * cellSize
  }

  /** The calls one turn of the draw loop makes for index `i`: nothing for a
      value or alpha that is not positive, else the alpha and then the cell. */
  function CellCommands(pixels: seq<Number>, i: nat, cols: int, cellSize: real, maxVal: real): (r: seq<Command>)
    requires i < |pixels| && cols > 0 && maxVal > 0.0
  {
    var v := Coerce(pixels[i]);
    if v <= 0.0 then []
    else
      var alpha := Alpha(v, maxVal);
      if alpha <= 0.0 then []
      else [SetGlobalAlpha(alpha), FillRect(CellX(i, cols, cellSize), CellY(i, cols, cellSize), cellSize, cellSize)]
  }

  /** The calls the draw loop has made after visiting indices [0, k). */
  function DrawPrefix(pixels: seq<Number>, k: nat, cols: int, cellSize: real, maxVal: real): (r: seq<Command>)
    requires k <= |pixels| && cols > 0 && maxVal > 0.0
  {
    if k == 0 then []
    else DrawPrefix(pixels, k - 1, cols, cellSize, maxVal) + CellCommands(pixels, k - 1, cols, cellSize, maxVal)
  }

  /** The indices below k whose coerced value is positive, in increasing order. */
  function PositiveIndices(pixels: seq<Number>, k: nat): (r: seq<nat>)
    requires k <= |pixels|
    ensures forall j :: 0 <= j < |r| ==> r[j] < k
  {
    if k == 0 then []
    else PositiveIndices(pixels, k - 1) + (if Coerce(pixels[k - 1]) > 0.0 then [k - 1] else [])
  }

  /** The second early return of `render()`: no whole column, no whole row, or no cell. */
  predicate EmptyGrid(cols: int, rows: int)
  {
    cols <= 0 || rows <= 0 || cols * rows <= 0
  }

  /** How many leading entries of `pixels` a render reads: `min(pixels.length, cols*rows)`
      once the geometry passes both early returns, none otherwise. */
  function ConsumedCount(width: real, height: real, pixelSize: real, pixels: seq<Number>): (n: nat)
    ensures n <= |pixels|
  {
    if Degenerate(width, height, pixelSize) then 0
    else
      var cellSize := EffectiveCellSize(pixelSize);
      var cols := CellsAlong(width, cellSize);
      var rows := CellsAlong(height, cellSize);
      if EmptyGrid(cols, rows) then 0
      else Min(|pixels|, cols * rows)
  }

  /** The calls `render()` makes after clearing, on a grid of `cols` x `rows` cells:
      nothing for an empty grid or when no consumed value is positive, else the fill
      colour, the cells, and the alpha reset. */
  function GridCommands(cols: int, rows: int, cellSize: real, baseColor: string, pixels: seq<Number>): (r: seq<Command>)
  {
    if EmptyGrid(cols, rows) then []
    else
      var len := Min(|pixels|, cols * rows);
      var maxVal := MaxPrefix(pixels, len);
      if maxVal <= 0.0 then []
      else [SetFillStyle(baseColor)] + DrawPrefix(pixels, len, cols, cellSize, maxVal) + [SetGlobalAlpha(1.0)]
  }

  /** The full list of calls one `render()` makes on the canvas. */
  function RenderSpec(width: real, height: real, pixelSize: real, baseColor: string, pixels: seq<Number>): (r: seq<Command>)
  {
    var cellSize := EffectiveCellSize(pixelSize);
    if Degenerate(width, height, pixelSize) then [SetSize(0.0, 0.0)]
    else
      [SetSize(width, height), ClearRect(0.0, 0.0, width, height)] +
      GridCommands(CellsAlong(width, cellSize), CellsAlong(height, cellSize), cellSize, baseColor, pixels)
  }
}
