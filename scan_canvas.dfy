/** The `<scan-canvas>` element: its attributes, already read through their getters,
    and the canvas it draws on. */
module ScanCanvasElement {
  import opened Canvas2D
  import opened ScanGrid

  class ScanCanvas {
    /** The values the `widthPx`, `heightPx`, `pixelSize`, `baseColor` and `pixels`
        getters return: finite numbers, a colour string and the parsed pixel list. */
    var widthPx: real
    var heightPx: real
    var pixelSize: real
    var baseColor: string
    var pixels: seq<Number>
    const canvas: Canvas

    /** A fresh element with an untouched canvas and no attributes set, so that every
        getter returns its fallback. */
    constructor ()
      ensures fresh(canvas) && canvas.log == []
      ensures widthPx == 0.0 && heightPx == 0.0 && pixelSize == 8.0
      ensures baseColor == "#00ff88" && pixels == []
    {
      canvas := new Canvas();
      widthPx, heightPx, pixelSize := 0.0, 0.0, 8.0;
      baseColor, pixels := "#00ff88", [];
    }

    /** Draws the pixels as a grid of cells of the base colour, each cell's opacity its
        value relative to the largest value drawn. */
    method Render()
      modifies canvas
      ensures canvas.log == old(canvas.log) + RenderSpec(widthPx, heightPx, pixelSize, baseColor, pixels)
    {
      var width := widthPx;
      var height := heightPx;
      var cellSize := if pixelSize == 0.0 then 8.0 else pixelSize;
      var color := baseColor;
      var px := pixels;
      assert cellSize == EffectiveCellSize(pixelSize);

      if width <= 0.0 || height <= 0.0 || cellSize <= 0.0 {
        assert Degenerate(width, height, pixelSize);
        canvas.SetSize(0.0, 0.0);
        return;
      }
      assert !Degenerate(width, height, pixelSize);

      canvas.SetSize(width, height);
      var cols := (width / cellSize).Floor;
      var rows := (height / cellSize).Floor;
      canvas.ClearRect(0.0, 0.0, width, height);
      assert RenderSpec(width, height, pixelSize, color, px)
          == [SetSize(width, height), ClearRect(0.0, 0.0, width, height)] + GridCommands(cols, rows, cellSize, color, px);
      DrawGrid(cols, rows, cellSize, color, px);
    }

    /** The part of `render()` after the clear: the early return for an empty grid,
        the scan for the largest consumed value, the early return when it is not
        positive, the draw loop and the opacity reset. */
    method DrawGrid(cols: int, rows: int, cellSize: real, color: string, px: seq<Number>)
      modifies canvas
      ensures canvas.log == old(canvas.log) + GridCommands(cols, rows, cellSize, color, px)
    {
      var cellCount := cols * rows;
      if cols <= 0 || rows <= 0 || cellCount <= 0 {
        return;
      }

      var len := if |px| < cellCount then |px| else cellCount;
      assert len == Min(|px|, cols * rows);
      var maxVal := ScanMax(px, len);
      if maxVal <= 0.0 {
        return;
      }

      canvas.SetFillStyle(color);
      DrawCells(px, len, cols, cellSize, maxVal);
      canvas.SetGlobalAlpha(1.0);
      assert GridCommands(cols, rows, cellSize, color, px)
          == [SetFillStyle(color)] + DrawPrefix(px, len, cols, cellSize, maxVal) + [SetGlobalAlpha(1.0)];
    }

    /** The scan loop: the largest of 0 and the coerced values at [0, len). */
    method ScanMax(px: seq<Number>, len: nat) returns (maxVal: real)
      requires len <= |px|
      ensures maxVal == MaxPrefix(px, len)
    {
      maxVal := 0.0;
      for i := 0 to len
        invariant maxVal == MaxPrefix(px, i)
      {
        var v := Coerce(px[i]);
        if v > maxVal {
          maxVal := v;
        }
      }
    }

    /** The draw loop over [0, len). */
    method DrawCells(px: seq<Number>, len: nat, cols: int, cellSize: real, maxVal: real)
      requires len <= |px| && cols > 0 && maxVal > 0.0
      modifies canvas
      ensures canvas.log == old(canvas.log) + DrawPrefix(px, len, cols, cellSize, maxVal)
    {
      for i := 0 to len
        invariant canvas.log == old(canvas.log) + DrawPrefix(px, i, cols, cellSize, maxVal)
      {
        assert DrawPrefix(px, i + 1, cols, cellSize, maxVal)
            == DrawPrefix(px, i, cols, cellSize, maxVal) + CellCommands(px, i, cols, cellSize, maxVal);
        DrawCell(px, i, cols, cellSize, maxVal);
      }
    }

    /** One turn of the draw loop: skip a value that is not positive or whose
        opacity is not positive, else set the opacity and fill the cell. */
    method DrawCell(px: seq<Number>, i: nat, cols: int, cellSize: real, maxVal: real)
      requires i < |px| && cols > 0 && maxVal > 0.0
      modifies canvas
      ensures canvas.log == old(canvas.log) + CellCommands(px, i, cols, cellSize, maxVal)
    {
      var v := Coerce(px[i]);
      if v <= 0.0 {
        return;
      }
      var alpha := MaxReal(0.0, MinReal(1.0, v / maxVal));
      if alpha <= 0.0 {
        return;
      }
      var x := (i % cols) as real * cellSize;
      var y := (i / cols) as real * cellSize;
      assert alpha == Alpha(v, maxVal) && x == CellX(i, cols, cellSize) && y == CellY(i, cols, cellSize);
      canvas.SetGlobalAlpha(alpha);
      canvas.FillRect(x, y, cellSize, cellSize);
    }
  }
}
